# SoftwareConstruction core, modelled in Dafny

This project models the core of the SoftwareConstruction exercises (Java). It covers:

- **Two directed weighted graphs** (`src/graph`), which implement one `Graph<String>` contract:
  - `ConcreteEdgesGraph` keeps a set of vertex labels and a list of immutable `Edge` records.
  - `ConcreteVerticesGraph` keeps a list of mutable `Vertex` records. Each record holds an
    outgoing map and an incoming map.

  Both are Dafny classes whose fields the methods update in place. Each class keeps a ghost
  `Model` of the abstract graph (`GraphSpec.Graph`: a set of labels and a map from
  (source, target) to weight). `Valid()` ties the fields to that model. Every mutator is
  specified by the same `GraphSpec` function. `GraphEquivalence` runs one sequence of
  operations against both representations and proves that they agree after every step.
- **`IntegerToString`**: the recursive `stringValue` and the loop-based `stringValueIterative`,
  on Java 32-bit `int`. Both go through the `Int32` module, which defines Java's truncating
  `/` and `%` and two's-complement wrap-around.
- **`EvenOddChecker`**: mutually recursive parity (with the `Integer.MIN_VALUE` special case)
  and the `%`-based versions.
- **`PermutationGenerator`**:
  - the recursive swap-based generator over a `char[]`, with and without the
    skip-repeated-character rule;
  - the iterative Heap's-algorithm generator. Its loop over a counter array is proved to emit
    the strings in the order of the recursive form of Heap's algorithm (`HeapOrder`), and that
    order is proved to contain every permutation of the input.
- **`ReentrantRecursiveSum`**: the reentrant recursive sum, and the two variants that
  accumulate into a shared field.
- **`twitter.Filter`**: `writtenBy`, `inTimespan` and `containing`.
- **`RulesOf6005.mayUseCodeInAssignment`**.

Behaviour of the code worth knowing:

- `ConcreteVerticesGraph.set` is not all-or-nothing. The source record is created before the
  target label is checked. So `set("A", "", w)` on a graph without `A` throws but leaves `A`
  added. `ConcreteVerticesGraph.ConcreteVerticesGraph.Set` states exactly that.
- `ConcreteVerticesGraph` rejects the empty label: the `Vertex` constructor throws.
  `ConcreteEdgesGraph` accepts it, because the `Edge` constructor only rejects null. The two
  representations therefore agree only on non-empty labels, and that is the precondition of
  `GraphEquivalence`.
- In both graphs, `set` with a weight that is not positive deletes the edge. A negative weight
  behaves like 0; neither graph throws for it.

## Model

| member | source | states |
|---|---|---|
| GraphSpec.Add | src/graph/ConcreteEdgesGraph.java:99-106 | add returns true exactly when the label was new; the vertex set gains the label and the edges are unchanged; the graph invariant is preserved |
| GraphSpec.Set | src/graph/ConcreteEdgesGraph.java:109-128 | both endpoints become vertices; a positive weight stores the edge at that weight, any other weight deletes it; every other edge is unchanged; the result is the previous weight, or 0; the invariant is preserved |
| GraphSpec.Remove | src/graph/ConcreteEdgesGraph.java:131-149 | false and no change for an absent vertex; otherwise the vertex and exactly the edges touching it disappear; the invariant is preserved |
| GraphSpec.Detach | src/graph/ConcreteEdgesGraph.java:138-145 | the remaining edges are exactly those that neither start nor end at the vertex, with their weights |
| GraphSpec.TargetsArePointwise | src/graph/ConcreteEdgesGraph.java:168-176 | a map holding exactly the edges out of s, each with its weight, is the targets map of s |
| GraphSpec.SourcesArePointwise | src/graph/ConcreteEdgesGraph.java:157-165 | a map holding exactly the edges into t, each with its weight, is the sources map of t |
| GraphSpec.IsTargetsOfSet | src/graph/ConcreteVerticesGraph.java:116-124 | updating the source record's outgoing map (put for a positive weight, remove otherwise) keeps it equal to the targets of the graph after set |
| GraphSpec.IsSourcesOfSet | src/graph/ConcreteVerticesGraph.java:116-124 | updating the target record's incoming map the same way keeps it equal to the sources after set |
| GraphSpec.IsTargetsOfDetach | src/graph/ConcreteVerticesGraph.java:138-141 | removing the deleted label from another record's outgoing map gives its targets after the vertex's edges are gone |
| GraphSpec.IsSourcesOfDetach | src/graph/ConcreteVerticesGraph.java:138-141 | the same for the incoming map |
| GraphSpec.TargetsMirrorSources | test/graph/GraphInstanceTest.java:276-284 | t is a target of s exactly when s is a source of t, with the same weight on both sides |
| GraphSpec.AbsentVertexIsIsolated | test/graph/GraphInstanceTest.java:260-265 | in a well-formed graph, a label that is not a vertex has no sources and no targets |
| GraphSpec.TargetsOfSet | src/graph/ConcreteEdgesGraph.java:109-128 | after set, targets(u) is unchanged unless u is the source; then it gains or loses the target as the weight says |
| GraphSpec.SourcesOfSet | src/graph/ConcreteEdgesGraph.java:109-128 | after set, sources(u) is unchanged unless u is the target; then it gains or loses the source as the weight says |
| GraphSpec.TargetsOfRemove | test/graph/GraphInstanceTest.java:202-211 | after removing v, v has no targets and every other vertex's targets lose exactly v |
| GraphSpec.SourcesOfRemove | test/graph/GraphInstanceTest.java:191-200 | after removing v, v has no sources and every other vertex's sources lose exactly v |
| GraphSpec.SelfLoopIsSourceAndTarget | test/graph/GraphInstanceTest.java:140-148 | set(a, a, w) with w > 0 makes a both a source and a target of a, with weight w |
| GraphSpec.SetWithPreviousWeightUndoes | test/graph/GraphInstanceTest.java:120-129 | setting an edge back to the weight that set returned restores the edges exactly; only the endpoint vertices remain added |
| GraphSpec.RemoveUndoesAdd | test/graph/GraphInstanceTest.java:176-183 | removing a freshly added vertex returns true and gives back the original graph |
| GraphSpec.SetTwice | test/graph/GraphInstanceTest.java:111-118 | set is idempotent on the graph, and the second call returns the weight the first stored (0 for a deletion) |
| GraphSpec.SetAbsorbsAdd | src/graph/ConcreteVerticesGraph.java:100-112 | adding both endpoints first and then setting gives the same graph and answer as set alone |
| GraphSpec.RunPreservesWf | src/graph/ConcreteEdgesGraph.java:58-80 | every sequence of add/set/remove keeps the graph invariant: edges join vertices and carry positive weights |
| GraphSpec.RunAppend | test/graph/GraphInstanceTest.java:343-373 | running ops followed by op is op applied to the result of ops |
| ConcreteEdgesGraph.Edge.ConnectsVertices | src/graph/ConcreteEdgesGraph.java:295-297 | directed match: the edge's source is the first label and its target the second, so (A,B) does not match (B,A); FindEdge's contract relies on it |
| ConcreteEdgesGraph.NewEdge | src/graph/ConcreteEdgesGraph.java:235-250 | an edge is built exactly when the weight is positive, with the given ends and weight; otherwise the constructor's message |
| ConcreteEdgesGraph.Unrelated | src/graph/ConcreteEdgesGraph.java:139-145 | the list the iterator-removal loop of remove leaves: the edges not touching the vertex, in order; UnrelatedMembers and WithoutEdgesAt state its meaning |
| ConcreteEdgesGraph.UnrelatedMembers | src/graph/ConcreteEdgesGraph.java:139-145 | the iterator loop keeps exactly the edges that neither start nor end at the vertex |
| ConcreteEdgesGraph.UnrelatedDistinct | src/graph/ConcreteEdgesGraph.java:139-145 | when the list has no two edges with the same pair, neither has what the loop keeps |
| ConcreteEdgesGraph.WithoutEdgesAt | src/graph/ConcreteEdgesGraph.java:139-145 | the loop over the list returns the edges not touching the vertex, in their original order |
| ConcreteEdgesGraph.UnrelatedOfIsolated | src/graph/ConcreteEdgesGraph.java:139-145 | when no edge touches the vertex, the loop keeps the whole list |
| ConcreteEdgesGraph.RemoveAt | src/graph/ConcreteEdgesGraph.java:119 | dropping one edge keeps the pairs distinct and loses exactly that edge's pair |
| ConcreteEdgesGraph.AppendNew | src/graph/ConcreteEdgesGraph.java:123 | appending an edge with a new pair keeps the pairs distinct and adds that pair |
| ConcreteEdgesGraph.GrowVertices | src/graph/ConcreteEdgesGraph.java:111-112 | adding the endpoints to the vertex set keeps the edge list representing the graph with those vertices added |
| ConcreteEdgesGraph.NoEdgeAt | src/graph/ConcreteEdgesGraph.java:114-120 | when findEdge finds no edge for the pair, the abstract edges have none either |
| ConcreteEdgesGraph.DropAt | src/graph/ConcreteEdgesGraph.java:119 | removing the found edge from the list removes exactly its pair from the abstract edges |
| ConcreteEdgesGraph.AppendEdge | src/graph/ConcreteEdgesGraph.java:123 | appending an edge with a new pair between two vertices adds that pair with its weight to the abstract edges |
| ConcreteEdgesGraph.ConcreteEdgesGraph.ModelIsWellFormed | src/graph/ConcreteEdgesGraph.java:58-80 | checkRep implies the abstract graph invariant |
| ConcreteEdgesGraph.ConcreteEdgesGraph.constructor | src/graph/ConcreteEdgesGraph.java:51-53 | a new graph is valid and empty |
| ConcreteEdgesGraph.ConcreteEdgesGraph.FindEdge | src/graph/ConcreteEdgesGraph.java:89-96 | returns the position of the first edge from source to target, or none when no edge connects them |
| ConcreteEdgesGraph.ConcreteEdgesGraph.Add | src/graph/ConcreteEdgesGraph.java:99-106 | the new state and result are GraphSpec.Add of the old state; the edge list is untouched; the rep invariant holds |
| ConcreteEdgesGraph.ConcreteEdgesGraph.Set | src/graph/ConcreteEdgesGraph.java:109-128 | the new state and previous weight are GraphSpec.Set of the old state; the rep invariant holds |
| ConcreteEdgesGraph.ConcreteEdgesGraph.Remove | src/graph/ConcreteEdgesGraph.java:131-149 | the new state and result are GraphSpec.Remove of the old state; the edge list is the old one without the touching edges, in order |
| ConcreteEdgesGraph.ConcreteEdgesGraph.Vertices | src/graph/ConcreteEdgesGraph.java:152-154 | returns the model's vertex set |
| ConcreteEdgesGraph.ConcreteEdgesGraph.Sources | src/graph/ConcreteEdgesGraph.java:157-165 | the scan returns exactly the sources of the target with their weights (empty for an absent label) |
| ConcreteEdgesGraph.ConcreteEdgesGraph.Targets | src/graph/ConcreteEdgesGraph.java:168-176 | the scan returns exactly the targets of the source with their weights (empty for an absent label) |
| ConcreteEdgesGraph.ConcreteEdgesGraph.SourcesAre | src/graph/ConcreteEdgesGraph.java:157-165 | a map agreeing pointwise with the model's edges into the target is GraphSpec.Sources |
| ConcreteEdgesGraph.ConcreteEdgesGraph.TargetsAre | src/graph/ConcreteEdgesGraph.java:168-176 | a map agreeing pointwise with the model's edges out of the source is GraphSpec.Targets |
| ConcreteVerticesGraph.Vertex.constructor | src/graph/ConcreteVerticesGraph.java:228-234 | a non-empty label gives a valid record with no edges |
| ConcreteVerticesGraph.Vertex.GetTargets | src/graph/ConcreteVerticesGraph.java:269-271 | returns the outgoing map |
| ConcreteVerticesGraph.Vertex.GetSources | src/graph/ConcreteVerticesGraph.java:278-280 | returns the incoming map |
| ConcreteVerticesGraph.Vertex.SetTarget | src/graph/ConcreteVerticesGraph.java:289-296 | fails with the weight message and changes nothing exactly when the weight is not positive; otherwise stores the weight and returns the previous one or 0; the incoming map is untouched |
| ConcreteVerticesGraph.Vertex.SetSource | src/graph/ConcreteVerticesGraph.java:305-312 | the incoming counterpart of SetTarget |
| ConcreteVerticesGraph.Vertex.RemoveTarget | src/graph/ConcreteVerticesGraph.java:320-324 | drops the target from the outgoing map and returns its weight, or 0 |
| ConcreteVerticesGraph.Vertex.RemoveSource | src/graph/ConcreteVerticesGraph.java:332-336 | drops the source from the incoming map and returns its weight, or 0 |
| ConcreteVerticesGraph.NewVertex | src/graph/ConcreteVerticesGraph.java:228-234 | fails with the label message exactly for the empty label; otherwise a fresh valid record with that label and no edges |
| ConcreteVerticesGraph.LabelIdentifiesRecord | src/graph/ConcreteVerticesGraph.java:53-72 | with distinct labels, two records with the same label are the same record |
| ConcreteVerticesGraph.NameIsListed | src/graph/ConcreteVerticesGraph.java:149-155 | every record's label is among the collected labels |
| ConcreteVerticesGraph.NameHasRecord | src/graph/ConcreteVerticesGraph.java:149-155 | every collected label belongs to some record |
| ConcreteVerticesGraph.NamesHoldsEveryLabel | src/graph/ConcreteVerticesGraph.java:149-155 | a label is collected exactly when some record carries it |
| ConcreteVerticesGraph.NamesOfRemoveAt | src/graph/ConcreteVerticesGraph.java:143 | dropping a record with distinct labels removes exactly its label from the label set |
| ConcreteVerticesGraph.RemainingRecords | src/graph/ConcreteVerticesGraph.java:143 | the records left keep distinct labels and are old records with other labels |
| ConcreteVerticesGraph.NamesOfAppend | src/graph/ConcreteVerticesGraph.java:94 | appending a record adds its label to the label set |
| ConcreteVerticesGraph.RepresentsAfterAppend | src/graph/ConcreteVerticesGraph.java:94 | appending a record with no edges for a new label represents GraphSpec.Add of the graph |
| ConcreteVerticesGraph.RepresentsAfterRemoveAt | src/graph/ConcreteVerticesGraph.java:138-143 | once every other record has dropped its edges at the label, removing the label's record represents GraphSpec.Remove of the graph, and no record is new |
| ConcreteVerticesGraph.DetachRecord | src/graph/ConcreteVerticesGraph.java:139-140 | removeTarget and removeSource drop the label from both maps of one record; a record of another label then matches the graph without the label's edges |
| ConcreteVerticesGraph.ConcreteVerticesGraph.RecordsHoldNeighbours | src/graph/ConcreteVerticesGraph.java:158-173 | in a valid graph each record's maps are the targets and sources of its label |
| ConcreteVerticesGraph.ConcreteVerticesGraph.KeysNameRecords | src/graph/ConcreteVerticesGraph.java:53-72 | every key of every record's maps is the label of a record |
| ConcreteVerticesGraph.ConcreteVerticesGraph.MirrorConsistency | src/graph/ConcreteVerticesGraph.java:116-124 | u lists v as a target exactly when v lists u as a source, with the same weight |
| ConcreteVerticesGraph.ConcreteVerticesGraph.constructor | src/graph/ConcreteVerticesGraph.java:46-48 | a new graph is valid and empty |
| ConcreteVerticesGraph.ConcreteVerticesGraph.FindVertex | src/graph/ConcreteVerticesGraph.java:80-87 | returns the position of the record with the label, or none when no record carries it |
| ConcreteVerticesGraph.ConcreteVerticesGraph.AppendRecord | src/graph/ConcreteVerticesGraph.java:94 | the record list gains the new record at its end, and the model becomes GraphSpec.Add of the old model |
| ConcreteVerticesGraph.ConcreteVerticesGraph.FindOrAddVertex | src/graph/ConcreteVerticesGraph.java:102-112 | returns the existing or a newly appended record for a non-empty label (the model gains the label); fails for the empty label with no change |
| ConcreteVerticesGraph.ConcreteVerticesGraph.Add | src/graph/ConcreteVerticesGraph.java:90-97 | fails for the empty label with no change; otherwise state and result are GraphSpec.Add of the old state |
| ConcreteVerticesGraph.ConcreteVerticesGraph.Set | src/graph/ConcreteVerticesGraph.java:100-128 | empty source: failure, no change; empty target: failure with the source added; otherwise state and previous weight are GraphSpec.Set of the old state |
| ConcreteVerticesGraph.ConcreteVerticesGraph.Connect | src/graph/ConcreteVerticesGraph.java:114-127 | updating both records gives GraphSpec.Set of the old state and its previous weight |
| ConcreteVerticesGraph.ConcreteVerticesGraph.UpdateRecords | src/graph/ConcreteVerticesGraph.java:116-124 | after both record updates every outgoing and incoming map matches the edges after set, and the previous weight is set's |
| ConcreteVerticesGraph.ConcreteVerticesGraph.UpdateTargets | src/graph/ConcreteVerticesGraph.java:116-124 | the source record's update makes every outgoing map match the edges after set and returns the previous weight |
| ConcreteVerticesGraph.ConcreteVerticesGraph.UpdateSources | src/graph/ConcreteVerticesGraph.java:116-124 | the target record's update makes every incoming map match the edges after set |
| ConcreteVerticesGraph.ConcreteVerticesGraph.Remove | src/graph/ConcreteVerticesGraph.java:131-146 | state and result are GraphSpec.Remove of the old state; no record is created |
| ConcreteVerticesGraph.ConcreteVerticesGraph.DetachFromRecords | src/graph/ConcreteVerticesGraph.java:138-141 | after the loop, every other record's maps match the edges with the removed vertex detached |
| ConcreteVerticesGraph.ConcreteVerticesGraph.Vertices | src/graph/ConcreteVerticesGraph.java:149-155 | returns the model's vertex set |
| ConcreteVerticesGraph.ConcreteVerticesGraph.Sources | src/graph/ConcreteVerticesGraph.java:158-164 | returns GraphSpec.Sources of the target (empty when it has no record) |
| ConcreteVerticesGraph.ConcreteVerticesGraph.Targets | src/graph/ConcreteVerticesGraph.java:167-173 | returns GraphSpec.Targets of the source (empty when it has no record) |
| GraphEquivalence.Step | test/graph/GraphInstanceTest.java:343-373 | one operation on both graphs leaves both valid with the same model, GraphSpec's, and gives both the same answer |
| GraphEquivalence.ReplayBoth | test/graph/GraphInstanceTest.java:343-373 | any sequence of operations with non-empty labels leaves both graphs at Run of the sequence, and every answer equals the other representation's and GraphSpec's |
| GraphEquivalence.SameObservations | src/graph/ConcreteEdgesGraph.java:152-176 | two graphs with the same model give equal vertices, sources and targets, and those are the model's |
| Int32.Div | src/IntegerToString.java:27-29 | Java integer division: quotient times divisor plus Java's remainder is the dividend, and the product lies between 0 and the dividend, so the quotient truncates toward zero |
| Int32.Rem | src/EvenOddChecker.java:83-85 | Java remainder: the dividend minus it is a multiple of the divisor, it has the sign of the dividend, and it is smaller than the divisor in magnitude; these determine it |
| Int32.Wrap | src/ReentrantRecursiveSum.java:36 | a 32-bit result is congruent to the exact value modulo 2^32 |
| Int32.Neg | src/EvenOddChecker.java:25 | negation is exact except on MIN, which negates to itself |
| Int32.WrapOfInRange | src/ReentrantRecursiveSum.java:36 | a value within int range is unchanged by wrap-around |
| Int32.WrapAbsorbs | src/ReentrantRecursiveSum.java:68 | wrapping an intermediate sum does not change the wrapped total |
| RulesOf6005.MayUseCodeInAssignment | ps0/ps0/src/rules/RulesOf6005.java:39-59 | true exactly when the code is your own, or it is not the required implementation, is public, is not course work and is cited |
| RulesOf6005.PolicyConsequences | ps0/ps0/src/rules/RulesOf6005.java:39-59 | your own code is always allowed; someone else's required implementation or course work never is |
| EvenOddChecker.IsEven | src/EvenOddChecker.java:21-42 | isEven with Java's MIN negation; its meaning, even exactly for multiples of 2, is stated by ParityIsDivisibility |
| EvenOddChecker.IsOdd | src/EvenOddChecker.java:54-74 | isOdd, the mirror image; its meaning, odd exactly for non-multiples of 2, is stated by ParityIsDivisibility |
| EvenOddChecker.IsEvenIterative | src/EvenOddChecker.java:83-85 | Java's truncating `n % 2 == 0`; RecursiveAgreesWithIterative states that it agrees with isEven on every int |
| EvenOddChecker.IsOddIterative | src/EvenOddChecker.java:94-96 | Java's truncating `n % 2 != 0`; RecursiveAgreesWithIterative states that it agrees with isOdd on every int |
| EvenOddChecker.ParityIsDivisibility | src/EvenOddChecker.java:21-74 | the mutual recursion answers even exactly for multiples of 2 and odd exactly for the rest, MIN included |
| EvenOddChecker.StepDown | src/EvenOddChecker.java:21-74 | for n other than 0 and MIN, isEven(n) is isOdd(m - 1) and isOdd(n) is isEven(m - 1), where m is the magnitude of n, a smaller one |
| EvenOddChecker.ExactlyOneHolds | src/EvenOddChecker.java:21-74 | every int is exactly one of even and odd |
| EvenOddChecker.EvenIsSymmetric | src/EvenOddChecker.java:22-31 | n and -n have the same parity |
| EvenOddChecker.RecursiveAgreesWithIterative | src/EvenOddChecker.java:83-96 | the recursive and the %-based checks agree on every int |
| IntegerToString.DigitChar | src/IntegerToString.java:60-66 | the character of a digit reads back as that digit; 0-9 are decimal digits, 10-35 are letters A-Z |
| IntegerToString.Helper | src/IntegerToString.java:43-51 | stringValueHelper; HelperIsPositional states that it writes the digits of n in the base with no leading zero |
| IntegerToString.StringValue | src/IntegerToString.java:18-34 | stringValue, with the MIN case and the base check; StringValueRoundTrip and InvalidBaseRejected state its results |
| IntegerToString.HelperIsPositional | src/IntegerToString.java:43-51 | the helper writes only digits of the base, reads back as n, has no leading zero, and writes 0 as "0" |
| IntegerToString.HelperShape | src/IntegerToString.java:43-51 | the helper's characters are digits below the base; 0 is written "0" and any other n starts with a non-zero digit |
| IntegerToString.HelperValue | src/IntegerToString.java:43-51 | the helper's digits, read back positionally in the base, give n |
| IntegerToString.HelperStep | src/IntegerToString.java:50 | for n at least the base, the helper is the quotient's string followed by the last digit |
| IntegerToString.MinIsSignAndMagnitude | src/IntegerToString.java:27-29 | the MIN special case produces the sign followed by the magnitude of MIN |
| IntegerToString.NegativeIsSignAndMagnitude | src/IntegerToString.java:25-31 | every negative number is written as "-" followed by its magnitude |
| IntegerToString.StringValueRoundTrip | src/IntegerToString.java:18-34 | for a valid base every int is converted, and parsing the string back gives the int; the sign appears exactly for negatives |
| IntegerToString.BaseError | src/IntegerToString.java:20-22 | the IllegalArgumentException message (also at line 79): the fixed text followed by the base in decimal, as Java's string concatenation writes an int; InvalidBaseRejected states when it is returned |
| IntegerToString.InvalidBaseRejected | src/IntegerToString.java:20-22 | a base outside 2..36 gives the exception's message naming the base |
| IntegerToString.BaseInItselfIsTen | src/IntegerToString.java:43-51 | every valid base is written as "10" in itself |
| IntegerToString.StringValueIterative | src/IntegerToString.java:76-114 | the loop-based conversion returns the same result as the recursive one for every int and base |
| IntegerToString.LoopStep | src/IntegerToString.java:104-107 | one iteration of the conversion loop (insert the last digit, divide) keeps the helper's string of the rest followed by the result unchanged, and the number shrinks |
| PermutationGenerator.Swapped | src/PermutationGenerator.java:140-144 | the two positions exchange their characters and all others stay |
| PermutationGenerator.SwappedIsPermutation | src/PermutationGenerator.java:140-144 | a swap keeps the multiset of characters |
| PermutationGenerator.SwappedTwice | src/PermutationGenerator.java:95-98 | swapping twice restores the array (the backtracking step) |
| PermutationGenerator.Arrangements | src/PermutationGenerator.java:89-100 | reference definition of what permuteWithDuplicates appends from index k: the array itself at the last index, otherwise the rounds of ArrangementsUpTo; ArrangementsCount, ArrangementsSound and ArrangementsComplete state its meaning |
| PermutationGenerator.ArrangementsUpTo | src/PermutationGenerator.java:95-99 | the first i - k rounds of the loop: swap positions k and i, recurse at k + 1, swap back; ArrangementsUpToCount and ArrangementsUpToSound state its meaning |
| PermutationGenerator.ArrangementsCount | src/PermutationGenerator.java:89-100 | the duplicate-allowing recursion from index k emits (n-k)! strings |
| PermutationGenerator.ArrangementsSound | src/PermutationGenerator.java:89-100 | every emitted string keeps the prefix before k and rearranges the rest |
| PermutationGenerator.ArrangementsComplete | src/PermutationGenerator.java:89-100 | every such rearrangement is emitted |
| PermutationGenerator.ArrangementsUpToCount | src/PermutationGenerator.java:95-99 | after the rounds for index..i-1 the list holds (i - index) * (n - index - 1)! strings |
| PermutationGenerator.ArrangementsUpToSound | src/PermutationGenerator.java:95-99 | every string the finished rounds appended keeps the prefix and rearranges the rest |
| PermutationGenerator.RoundIsKept | src/PermutationGenerator.java:95-99 | what one round appends is still in the list after every later round |
| PermutationGenerator.SwapStepSound | src/PermutationGenerator.java:96-98 | a string the recursive call produces after swapping index and i rearranges the array past index and holds a[i] at index |
| PermutationGenerator.SwapStepComplete | src/PermutationGenerator.java:96-98 | every rearrangement with a[i] at index is a rearrangement the recursive call can produce after that swap |
| PermutationGenerator.DistinctArrangements | src/PermutationGenerator.java:113-131 | reference definition of what permuteNoDuplicates appends from index k; DistinctArrangementsSound, DistinctArrangementsComplete and DistinctArrangementsNoRepeats state its meaning |
| PermutationGenerator.DistinctArrangementsUpTo | src/PermutationGenerator.java:119-125 | the first i - k rounds with the skip rule: a round is skipped when its character already stood at index k, as the used set records; DistinctArrangementsUpToSound and DistinctArrangementsUpToNoRepeats state its meaning |
| PermutationGenerator.DistinctArrangementsSound | src/PermutationGenerator.java:113-131 | with the skip rule, every emitted string is still such a rearrangement |
| PermutationGenerator.DistinctArrangementsComplete | src/PermutationGenerator.java:113-131 | with the skip rule, every rearrangement is still emitted |
| PermutationGenerator.DistinctArrangementsNoRepeats | src/PermutationGenerator.java:113-131 | with the skip rule, no string is emitted twice |
| PermutationGenerator.DistinctArrangementsUpToSound | src/PermutationGenerator.java:120-130 | every string the finished rounds appended rearranges the array past index and holds at index a character already tried |
| PermutationGenerator.DistinctRoundIsKept | src/PermutationGenerator.java:120-130 | what a round for an untried character appends is still in the list after every later round |
| PermutationGenerator.RoundHead | src/PermutationGenerator.java:127-129 | every string of the round after swapping index and i rearranges the array past index and holds a[i] at index |
| PermutationGenerator.RoundsDisjoint | src/PermutationGenerator.java:120-130 | a round for an untried character appends no string that an earlier round appended |
| PermutationGenerator.DistinctArrangementsUpToNoRepeats | src/PermutationGenerator.java:120-130 | the finished rounds have appended no string twice |
| PermutationGenerator.TriedHas | src/PermutationGenerator.java:119-125 | after the rounds up to i the used set holds exactly the characters at index..i-1 |
| PermutationGenerator.DistinctRound | src/PermutationGenerator.java:127-129 | one unskipped round appends the distinct arrangements of the swapped array and leaves the array as it was |
| PermutationGenerator.LastPositionFixed | src/PermutationGenerator.java:90-93 | at the last index the only rearrangement is the array itself |
| PermutationGenerator.FirstOccurrence | src/PermutationGenerator.java:119-125 | a character seen from index k on has a first position there, which the used set lets through |
| PermutationGenerator.Swap | src/PermutationGenerator.java:140-144 | the array becomes Swapped of its old contents |
| PermutationGenerator.PermuteWithDuplicates | src/PermutationGenerator.java:89-100 | appends exactly the arrangements from the index on and restores the array |
| PermutationGenerator.PermuteNoDuplicates | src/PermutationGenerator.java:113-131 | appends exactly the distinct arrangements from the index on and restores the array |
| PermutationGenerator.GeneratePermutations | src/PermutationGenerator.java:62-79 | returns the recursive generator's list (empty for the empty input) |
| PermutationGenerator.GeneratePermutationsDistinct | src/PermutationGenerator.java:44-46 | the one-argument form is the no-duplicates generator |
| PermutationGenerator.GeneratedArePermutations | src/PermutationGenerator.java:62-79 | empty input gives []; otherwise a string is generated exactly when it is a permutation of the input; n! strings with duplicates allowed; no repeats without |
| PermutationGenerator.ProgressBound | src/PermutationGenerator.java:192-209 | the counters of Heap's loop encode a number between 0 and n!-1 |
| PermutationGenerator.ProgressTick | src/PermutationGenerator.java:194-204 | a swap round advances the encoded number by one |
| PermutationGenerator.ProgressCarry | src/PermutationGenerator.java:205-207 | resetting a full counter and moving on leaves the encoded number unchanged |
| PermutationGenerator.ProgressFull | src/PermutationGenerator.java:192 | when the loop ends the encoded number is n!-1, so n! strings were emitted |
| PermutationGenerator.ProgressZero | src/PermutationGenerator.java:187-190 | all-zero counters encode 0 |
| PermutationGenerator.Distinct | src/PermutationGenerator.java:212-216 | the de-duplicated list has the same members, no repeats, and is no longer |
| PermutationGenerator.GeneratePermutationsIterative | src/PermutationGenerator.java:175-219 | empty input gives []; a string is in the result exactly when it is a permutation of the input, so the result has the same members as the recursive generator's; with duplicates exactly n! strings; without, no repeats and at most n! |
| PermutationGenerator.GeneratePermutationsIterativeDistinct | src/PermutationGenerator.java:157-159 | the one-argument form: a string is in the result exactly when it is a permutation of the input (the recursive generator's members), none twice, at most n! |
| PermutationGenerator.HeapEmissions | src/PermutationGenerator.java:185-209 | Heap's loop emits n! strings, each a permutation of the input, in exactly the order of the recursive Heap's algorithm generate(n, input) |
| PermutationGenerator.HeapRound | src/PermutationGenerator.java:194-208 | one loop round keeps the loop invariant and either emits one string or moves to the next counter |
| PermutationGenerator.HeapSwap | src/PermutationGenerator.java:194-204 | the swap branch emits one more permutation of the input, keeps the loop invariant with i back at 0, and advances the encoded counter number by one |
| PermutationGenerator.HeapReset | src/PermutationGenerator.java:205-208 | the reset branch keeps the loop invariant at i + 1 and the encoded counter number |
| PermutationGenerator.HeapTick | src/PermutationGenerator.java:194-204 | the swap partner is in range; swapping, emitting and bumping the counter keeps the invariant and adds one to the encoded number |
| PermutationGenerator.HeapCarry | src/PermutationGenerator.java:205-208 | resetting a full counter and moving on keeps the invariant and the encoded number |
| PermutationGenerator.HeapOrderHead | src/PermutationGenerator.java:189-190 | generate(k, a) emits a first, as the loop does before it starts |
| PermutationGenerator.PendingStart | src/PermutationGenerator.java:186-192 | with all counters zero, the initial emission followed by what the loop still owes is generate(n, input) |
| PermutationGenerator.PendingTick | src/PermutationGenerator.java:194-204 | in the swap branch, what the loop owes is the swapped array followed by what it owes from i = 0 with counter i bumped |
| PermutationGenerator.PendingCarry | src/PermutationGenerator.java:205-208 | in the reset branch, what the loop owes is unchanged by resetting counter i and moving to i + 1 |
| PermutationGenerator.PendingFromZero | src/PermutationGenerator.java:192-204 | restarting at i = 0 with the lower counters zero runs generate(m, b) past its first emission, then continues at level m |
| PermutationGenerator.RestMatchesRounds | src/PermutationGenerator.java:194-208 | generate(k, a) is its first j + 1 rounds followed by the rounds the loop still owes at level k after round j, and both end with the same array |
| PermutationGenerator.HeapFinalShape | src/PermutationGenerator.java:194-204 | generate(k, a) leaves a in a fixed arrangement: 0 and k - 1 exchanged for odd k; for even k a fixed closed form (for k >= 6, positions 0, 1, k - 2 and k - 1 hold a[k - 3], a[k - 2], a[k - 1] and a[0], every other position p holds a[p - 1]); positions from k on are untouched |
| PermutationGenerator.OddFinal | src/PermutationGenerator.java:196-200 | for odd k, generate(k, b) leaves b with positions 0 and k - 1 exchanged |
| PermutationGenerator.EvenRoundShape | src/PermutationGenerator.java:196-197 | for even k, round j of generate(k, a) starts from a closed-form arrangement of a |
| PermutationGenerator.OddRoundShape | src/PermutationGenerator.java:198-200 | for odd k, round j of generate(k, a) starts from a closed-form arrangement of a |
| PermutationGenerator.HeapFinalPermutes | src/PermutationGenerator.java:194-204 | generate(k, a) only exchanges characters: the array it leaves is a permutation of a |
| PermutationGenerator.RoundStartPermutes | src/PermutationGenerator.java:194-204 | every round of generate(k, a) starts from a permutation of a |
| PermutationGenerator.RoundLast | src/PermutationGenerator.java:194-204 | for each p < k, some round of generate(k, a) starts with a[p] at position k - 1 |
| PermutationGenerator.HeapOrderComplete | src/PermutationGenerator.java:185-209 | every rearrangement of the first k characters of a (the rest unchanged) is emitted by generate(k, a) |
| ReentrantRecursiveSum.SumArrayFrom | src/ReentrantRecursiveSum.java:29-38 | sumArray(arr, index); SumArrayFromIsSum states that it is the 32-bit wrapped sum of arr[index..] |
| ReentrantRecursiveSum.SumArray | src/ReentrantRecursiveSum.java:46-51 | sumArray(arr); SumArrayIsSum states that it is the 32-bit wrapped total, 0 for the empty array |
| ReentrantRecursiveSum.SumFromStep | src/ReentrantRecursiveSum.java:28-37 | the exact suffix sum is the element plus the rest |
| ReentrantRecursiveSum.SumArrayFromIsSum | src/ReentrantRecursiveSum.java:28-37 | the recursion returns the exact suffix sum wrapped to 32 bits, and 0 past the end |
| ReentrantRecursiveSum.SumArrayIsSum | src/ReentrantRecursiveSum.java:46-51 | the sum is the exact total wrapped to 32 bits, exactly the total when it fits, and 0 for the empty array |
| ReentrantRecursiveSum.SharedSum.constructor | src/ReentrantRecursiveSum.java:15 | the shared field starts at 0 |
| ReentrantRecursiveSum.SharedSum.SumArrayNonReentrantFrom | src/ReentrantRecursiveSum.java:61-70 | the field gains the suffix sum (with wrap-around) and is returned |
| ReentrantRecursiveSum.SharedSum.SumArrayNonReentrant | src/ReentrantRecursiveSum.java:78-84 | after the reset, the result equals the reentrant sum and is left in the field |
| ReentrantRecursiveSum.SharedSum.SumArraySynchronizedFrom | src/ReentrantRecursiveSum.java:94-103 | the field gains the suffix sum (with wrap-around) and is returned |
| ReentrantRecursiveSum.SharedSum.SumArraySynchronized | src/ReentrantRecursiveSum.java:111-117 | after the reset, the result equals the reentrant sum and is left in the field |
| TwitterFilter.LowerChar | ps1/ps1/src/twitter/Filter.java:38 | toLowerCase on one character, as also applied at lines 95 and 99: A-Z become a-z and every other character is kept (ASCII only, see Left out) |
| TwitterFilter.ToLower | ps1/ps1/src/twitter/Filter.java:38 | same length, each character lower-cased |
| TwitterFilter.IsWordChar | ps1/ps1/src/twitter/Filter.java:103-105 | a regex word character: an ASCII letter, a digit or '_' |
| TwitterFilter.BoundaryAt | ps1/ps1/src/twitter/Filter.java:103-105 | a regex word boundary: a word character on exactly one side of the position, the ends of the text counting as non-word |
| TwitterFilter.MatchAt | ps1/ps1/src/twitter/Filter.java:103-105 | the quoted word occurs literally at the position with a boundary on both sides |
| TwitterFilter.ContainsWord | ps1/ps1/src/twitter/Filter.java:101-105 | the pattern's find(): some position holds a whole-word match |
| TwitterFilter.Holds | ps1/ps1/src/twitter/Filter.java:38-110 | the condition each filter tests: lower-cased author equals lower-cased username; start <= timestamp <= end; some lower-cased word occurs as a whole word in the lower-cased text |
| TwitterFilter.Kept | ps1/ps1/src/twitter/Filter.java:33-117 | reference definition of the list each filter loop builds: the tweets satisfying the condition, in input order; KeptMembership, KeptInOrder and KeptStep state its meaning |
| TwitterFilter.KeptMembership | ps1/ps1/src/twitter/Filter.java:33-117 | a tweet is kept exactly when it is in the input and satisfies the condition |
| TwitterFilter.KeptInOrder | ps1/ps1/src/twitter/Filter.java:33-117 | the kept tweets are a subsequence of the input, in input order, and include every matching position |
| TwitterFilter.KeptAtPositions | ps1/ps1/src/twitter/Filter.java:33-117 | the kept tweets are the input's tweets at the matching positions, one for one |
| TwitterFilter.KeptPositionsIncrease | ps1/ps1/src/twitter/Filter.java:33-117 | the matching positions are within the input and strictly increase |
| TwitterFilter.KeptPositionsComplete | ps1/ps1/src/twitter/Filter.java:33-117 | every position whose tweet matches is among the matching positions |
| TwitterFilter.NoWordsKeepNothing | ps1/ps1/src/twitter/Filter.java:88-90 | an empty word list keeps no tweet |
| TwitterFilter.WrittenByIgnoresCase | ps1/ps1/src/twitter/Filter.java:33-44 | filtering by a lower-cased username keeps the same tweets |
| TwitterFilter.KeptSameCondition | ps1/ps1/src/twitter/Filter.java:33-117 | conditions that hold on the same tweets keep the same list |
| TwitterFilter.KeptStep | ps1/ps1/src/twitter/Filter.java:36-41 | one more tweet extends the kept list by that tweet exactly when it matches |
| TwitterFilter.FilterWrittenBy | ps1/ps1/src/twitter/Filter.java:33-44 | returns exactly the tweets whose author equals the username ignoring case, in order |
| TwitterFilter.InTimespan | ps1/ps1/src/twitter/Filter.java:58-70 | returns exactly the tweets whose timestamp is neither before the start nor after the end, in order |
| TwitterFilter.Containing | ps1/ps1/src/twitter/Filter.java:87-117 | returns exactly the tweets mentioning some word as a whole word ignoring case, in order |
| TwitterFilter.MentionsAny | ps1/ps1/src/twitter/Filter.java:98-109 | the word loop answers true exactly when some lower-cased word occurs as a whole word in the lower-cased text |

## Left out

- Null arguments (null labels, arrays, lists, tweets) are not modelled: Dafny values cannot be null, so the null checks and the exceptions they throw do not exist in the model.
- `toString`, `main`, `comparePerformance`, the tracing variants `isEvenWithTrace`/`isEvenTrace`/`isOddTrace`, the concurrency demonstrations of `ReentrantRecursiveSum`, `PermutationsCLI` and the file-search and file-size classes are left out: they print, time, start threads or touch the file system.
- Java's `assert`-based `checkRep` calls are not separate operations: their conditions are part of each class's `Valid()`, which every mutator is proved to keep.
- Stack depth is not modelled: the parity recursion is proved correct for every int, although Java would exhaust its stack long before large magnitudes.
- The order of `HashMap`/`HashSet` iteration is not modelled: maps and sets are compared as Dafny maps and sets.
- ConcreteEdgesGraph.ConcreteEdgesGraph.Set: the position of the new edge in the list is not stated, only the resulting set of pairs and weights (the source appends it at the end).
- PermutationGenerator.GeneratePermutationsIterative: without duplicates, the order of the result is not stated. The model keeps first occurrences in list order, while the source collects them through a `HashSet`, whose order is unspecified. The members (those of the recursive generator), the absence of repeats and the bound n! are stated.
- PermutationGenerator.HeapEmissions: every permutation of the input is emitted, but that the n! emissions are pairwise different when the input's characters are is not stated.
- `char[]` in the recursive generator is a Dafny `array<char>`. The summed `int[]` is a `seq<int32>`, because the sums only read it.
- ReentrantRecursiveSum.SharedSum: the Java `static` field `nonReentrantSum` is a field of one `SharedSum` object, and `synchronized` locking is not modelled. Without threads, the synchronized variants have the same state changes as the unsynchronized ones, and that is what their contracts state.
- ReentrantRecursiveSum.SumArrayFrom: a negative start index, on which Java throws ArrayIndexOutOfBoundsException at `arr[index]`, is excluded by the `nat` parameter.
- ReentrantRecursiveSum.SharedSum.SumArrayNonReentrantFrom: a negative start index, on which Java throws ArrayIndexOutOfBoundsException at `arr[index]`, is excluded by the `nat` parameter.
- ReentrantRecursiveSum.SharedSum.SumArraySynchronizedFrom: a negative start index, on which Java throws ArrayIndexOutOfBoundsException at `arr[index]`, is excluded by the `nat` parameter.
- TwitterFilter.Containing: the regular expression `\b<word>\b` (with `Pattern.quote`, applied to the lower-cased word and text) is modelled as an ASCII word-boundary match on lower-cased text; Unicode lower-casing and Java's full regex engine are not modelled.
- TwitterFilter.ToLower: lower-casing is ASCII only.
- `Instant` timestamps are integers, and `Tweet` keeps only the fields the filters read (id, author, text, timestamp).
- Edge weights are unbounded integers. The graphs do no arithmetic on weights, so 32-bit wrap-around cannot arise there.
- GraphEquivalence.ReplayBoth: only sequences with non-empty labels are compared, because on the empty label the two representations behave differently (see above).
