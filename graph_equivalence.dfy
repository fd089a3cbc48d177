/** The two graph representations side by side: the same history of operations on non-empty
    labels, replayed on a ConcreteEdgesGraph and on a ConcreteVerticesGraph, leaves both with
    the same abstract graph, draws the same answers, and answers vertices, sources and targets
    alike (the shared instance tests of test/graph/GraphInstanceTest.java). */
module GraphEquivalence {
  import opened Outcomes
  import opened GraphSpec
  import E = ConcreteEdgesGraph
  import V = ConcreteVerticesGraph

  /** What a mutator returns: add and remove a flag, set the previous weight. */
  datatype Answer = Changed(flag: bool) | Previous(weight: int)

  /** The answer the contract prescribes for op on graph g. */
  function Expected(g: Graph, op: Op): Answer
  {
    match op
    case AddOp(x) => Changed(GraphSpec.Add(g, x).1)
    case SetOp(s, t, w) => Previous(GraphSpec.Set(g, s, t, w).1)
    case RemoveOp(x) => Changed(GraphSpec.Remove(g, x).1)
  }

  /** The labels an operation names are non-empty (ConcreteVerticesGraph rejects ""). */
  predicate NonEmptyLabels(op: Op)
  {
    match op
    case AddOp(x) => x != ""
    case SetOp(s, t, _) => s != "" && t != ""
    case RemoveOp(x) => x != ""
  }

  /** One operation on both representations; both answer as the contract prescribes. */
  method Step(e: E.ConcreteEdgesGraph, v: V.ConcreteVerticesGraph, op: Op) returns (a: Answer, b: Answer)
    requires e.Valid() && v.Valid() && e.Model == v.Model && NonEmptyLabels(op)
    modifies e, v, set r | r in v.vertices
    ensures e.Valid() && v.Valid()
    ensures e.Model == v.Model == Apply(old(e.Model), op)
    ensures a == b == Expected(old(e.Model), op)
    ensures forall r | r in v.vertices :: r in old(v.vertices) || fresh(r)
  {
    match op
    case AddOp(x) =>
      var added := e.Add(x);
      var r := v.Add(x);
      a, b := Changed(added), Changed(r.value);
    case SetOp(s, t, w) =>
      var previous := e.Set(s, t, w);
      var r := v.Set(s, t, w);
      a, b := Previous(previous), Previous(r.value);
    case RemoveOp(x) =>
      var removed := e.Remove(x);
      var removed' := v.Remove(x);
      a, b := Changed(removed), Changed(removed');
  }

  /** Replay a history on two new graphs. Both end at the graph the history builds from the
      empty graph, and the i-th answers of the two agree with each other and with the contract. */
  method ReplayBoth(ops: seq<Op>) returns (e: E.ConcreteEdgesGraph, v: V.ConcreteVerticesGraph,
                                            answersE: seq<Answer>, answersV: seq<Answer>)
    requires forall i | 0 <= i < |ops| :: NonEmptyLabels(ops[i])
    ensures e.Valid() && v.Valid()
    ensures e.Model == v.Model == Run(Empty, ops)
    ensures answersE == answersV && |answersE| == |ops|
    ensures forall i | 0 <= i < |ops| :: answersE[i] == Expected(Run(Empty, ops[..i]), ops[i])
  {
    e := new E.ConcreteEdgesGraph();
    v := new V.ConcreteVerticesGraph();
    answersE, answersV := [], [];
    var i := 0;
    while i < |ops|
      invariant 0 <= i <= |ops|
      invariant fresh(e) && fresh(v) && forall r | r in v.vertices :: fresh(r)
      invariant e.Valid() && v.Valid()
      invariant e.Model == v.Model == Run(Empty, ops[..i])
      invariant answersE == answersV && |answersE| == i
      invariant forall j | 0 <= j < i :: answersE[j] == Expected(Run(Empty, ops[..j]), ops[j])
    {
      RunPrefixStep(Empty, ops, i);
      var a, b := Step(e, v, ops[i]);
      AnswersStep(answersE, ops, i, a);
      answersE, answersV := answersE + [a], answersV + [b];
      i := i + 1;
    }
    assert ops[..i] == ops;
  }

  /** The answers to a prefix of the history, extended by the answer to the next operation,
      are the answers to the longer prefix. */
  lemma AnswersStep(answers: seq<Answer>, ops: seq<Op>, i: nat, a: Answer)
    requires i < |ops| && |answers| == i
    requires forall j | 0 <= j < i :: answers[j] == Expected(Run(Empty, ops[..j]), ops[j])
    requires a == Expected(Run(Empty, ops[..i]), ops[i])
    ensures forall j | 0 <= j < i + 1 :: (answers + [a])[j] == Expected(Run(Empty, ops[..j]), ops[j])
  {
  }

  /** Two graphs with the same abstract graph answer every query alike. */
  method SameObservations(e: E.ConcreteEdgesGraph, v: V.ConcreteVerticesGraph, source: Label, target: Label)
    returns (verticesE: set<Label>, verticesV: set<Label>,
             sourcesE: map<Label, int>, sourcesV: map<Label, int>,
             targetsE: map<Label, int>, targetsV: map<Label, int>)
    requires e.Valid() && v.Valid() && e.Model == v.Model
    ensures verticesE == verticesV == e.Model.vertices
    ensures sourcesE == sourcesV
    ensures forall x :: x in sourcesE <==> (x, target) in e.Model.edges
    ensures forall x | x in sourcesE :: sourcesE[x] == e.Model.edges[(x, target)]
    ensures targetsE == targetsV
    ensures forall x :: x in targetsE <==> (source, x) in e.Model.edges
    ensures forall x | x in targetsE :: targetsE[x] == e.Model.edges[(source, x)]
  {
    verticesE := e.Vertices();
    verticesV := v.Vertices();
    sourcesE := e.Sources(target);
    sourcesV := v.Sources(target);
    targetsE := e.Targets(source);
    targetsV := v.Targets(source);
  }
}
