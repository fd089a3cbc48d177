/** The abstract directed weighted graph that both graph representations implement (the
    Graph<String> interface of src/graph): a set of vertex labels and a partial map from
    (source, target) to the weight of the edge between them. ConcreteEdgesGraph and
    ConcreteVerticesGraph each keep a ghost Model of this type, and every mutator of both is
    specified by the same function below. */
module GraphSpec {
  type Label = string

  /** The (source, target) pair an edge is keyed by. */
  type Key = (Label, Label)

  datatype Graph = Graph(vertices: set<Label>, edges: map<Key, int>)

  const Empty: Graph := Graph({}, map[])

  /** Every edge joins two vertices of the graph and has a positive weight. */
  predicate Wf(g: Graph)
  {
    forall k | k in g.edges :: k.0 in g.vertices && k.1 in g.vertices && g.edges[k] > 0
  }

  /** The weight of the edge from s to t, or 0 when there is none. */
  function Weight(g: Graph, s: Label, t: Label): int
  {
    if (s, t) in g.edges then g.edges[(s, t)] else 0
  }

  /** add(v): true iff v was not a vertex yet; the edges are never touched. */
  function Add(g: Graph, v: Label): (r: (Graph, bool))
    ensures r.1 <==> v !in g.vertices
    ensures r.0.vertices == g.vertices + {v} && r.0.edges == g.edges
    ensures Wf(g) ==> Wf(r.0)
  {
    if v in g.vertices then (g, false) else (g.(vertices := g.vertices + {v}), true)
  }

  /** set(s, t, w): both endpoints become vertices whatever w is; a positive w puts the edge
      (s, t) at weight w, any other w deletes it; the previous weight (or 0) is returned. */
  function Set(g: Graph, s: Label, t: Label, w: int): (r: (Graph, int))
    ensures r.0.vertices == g.vertices + {s, t}
    ensures w > 0 ==> (s, t) in r.0.edges && r.0.edges[(s, t)] == w
    ensures w <= 0 ==> (s, t) !in r.0.edges
    ensures forall k | k != (s, t) :: (k in r.0.edges <==> k in g.edges)
    ensures forall k | k in g.edges && k != (s, t) :: r.0.edges[k] == g.edges[k]
    ensures (s, t) in g.edges ==> r.1 == g.edges[(s, t)]
    ensures (s, t) !in g.edges ==> r.1 == 0
    ensures Wf(g) ==> Wf(r.0)
  {
    var edges := if w > 0 then g.edges[(s, t) := w] else g.edges - {(s, t)};
    (Graph(g.vertices + {s, t}, edges), Weight(g, s, t))
  }

  /** The edges that neither start nor end at v. */
  function Detach(edges: map<Key, int>, v: Label): (r: map<Key, int>)
    ensures forall k :: k in r <==> k in edges && k.0 != v && k.1 != v
    ensures forall k | k in r :: r[k] == edges[k]
  {
    map k | k in edges && k.0 != v && k.1 != v :: edges[k]
  }

  /** remove(v): false and no change when v is absent; otherwise v and exactly the edges
      touching it disappear. */
  function Remove(g: Graph, v: Label): (r: (Graph, bool))
    ensures r.1 <==> v in g.vertices
    ensures !r.1 ==> r.0 == g
    ensures r.1 ==> r.0.vertices == g.vertices - {v} && r.0.edges == Detach(g.edges, v)
    ensures Wf(g) ==> Wf(r.0)
  {
    if v !in g.vertices then (g, false)
    else (Graph(g.vertices - {v}, Detach(g.edges, v)), true)
  }

  /** sources(t): every s with an edge (s, t), mapped to that edge's weight. */
  function Sources(edges: map<Key, int>, t: Label): map<Label, int>
  {
    map k | k in edges && k.1 == t :: k.0 := edges[k]
  }

  /** targets(s): every t with an edge (s, t), mapped to that edge's weight. */
  function Targets(edges: map<Key, int>, s: Label): map<Label, int>
  {
    map k | k in edges && k.0 == s :: k.1 := edges[k]
  }

  /** m holds exactly the edges out of s, each with its weight: the pointwise form of
      m == Targets(edges, s). */
  ghost predicate IsTargetsOf(m: map<Label, int>, edges: map<Key, int>, s: Label)
  {
    && (forall t :: t in m <==> (s, t) in edges)
    && (forall t | t in m :: m[t] == edges[(s, t)])
  }

  /** m holds exactly the edges into t, each with its weight. */
  ghost predicate IsSourcesOf(m: map<Label, int>, edges: map<Key, int>, t: Label)
  {
    && (forall s :: s in m <==> (s, t) in edges)
    && (forall s | s in m :: m[s] == edges[(s, t)])
  }

  lemma TargetsArePointwise(m: map<Label, int>, edges: map<Key, int>, s: Label)
    requires IsTargetsOf(m, edges, s)
    ensures m == Targets(edges, s)
  {
    forall t
      ensures t in m <==> t in Targets(edges, s)
    {
      if t in Targets(edges, s) {
        assert (s, t) in edges;
      }
    }
  }

  lemma SourcesArePointwise(m: map<Label, int>, edges: map<Key, int>, t: Label)
    requires IsSourcesOf(m, edges, t)
    ensures m == Sources(edges, t)
  {
    forall s
      ensures s in m <==> s in Sources(edges, t)
    {
      if s in Sources(edges, t) {
        assert (s, t) in edges;
      }
    }
  }

  /** The pointwise form of TargetsOfSet: how set(s, t, w) changes a map holding u's targets. */
  lemma IsTargetsOfSet(m: map<Label, int>, g: Graph, s: Label, t: Label, w: int, u: Label)
    requires IsTargetsOf(m, g.edges, u)
    ensures IsTargetsOf(if u != s then m else if w > 0 then m[t := w] else m - {t},
                        Set(g, s, t, w).0.edges, u)
  {
  }

  /** The pointwise form of SourcesOfSet: how set(s, t, w) changes a map holding u's sources. */
  lemma IsSourcesOfSet(m: map<Label, int>, g: Graph, s: Label, t: Label, w: int, u: Label)
    requires IsSourcesOf(m, g.edges, u)
    ensures IsSourcesOf(if u != t then m else if w > 0 then m[s := w] else m - {s},
                        Set(g, s, t, w).0.edges, u)
  {
  }

  /** The pointwise form of TargetsOfRemove: dropping v from a map holding u's targets gives
      u's targets once the edges touching v are gone. */
  lemma IsTargetsOfDetach(m: map<Label, int>, edges: map<Key, int>, v: Label, u: Label)
    requires IsTargetsOf(m, edges, u) && u != v
    ensures IsTargetsOf(m - {v}, Detach(edges, v), u)
  {
  }

  /** The pointwise form of SourcesOfRemove. */
  lemma IsSourcesOfDetach(m: map<Label, int>, edges: map<Key, int>, v: Label, u: Label)
    requires IsSourcesOf(m, edges, u) && u != v
    ensures IsSourcesOf(m - {v}, Detach(edges, v), u)
  {
  }

  /** Targets and sources are two views of the same edges: t is a target of s with weight w
      exactly when s is a source of t with weight w. */
  lemma TargetsMirrorSources(g: Graph, s: Label, t: Label)
    ensures t in Targets(g.edges, s) <==> s in Sources(g.edges, t)
    ensures t in Targets(g.edges, s) ==> Targets(g.edges, s)[t] == Sources(g.edges, t)[s] == g.edges[(s, t)]
  {
    if t in Targets(g.edges, s) {
      assert (s, t) in g.edges;
    }
    if s in Sources(g.edges, t) {
      assert (s, t) in g.edges;
    }
  }

  /** A label that is not a vertex has no sources and no targets. */
  lemma AbsentVertexIsIsolated(g: Graph, v: Label)
    requires Wf(g) && v !in g.vertices
    ensures Sources(g.edges, v) == map[] && Targets(g.edges, v) == map[]
  {
    forall u
      ensures u !in Sources(g.edges, v) && u !in Targets(g.edges, v)
    {
      if (u, v) in g.edges {
        assert false;
      }
      if (v, u) in g.edges {
        assert false;
      }
    }
  }

  /** How set(s, t, w) changes the targets of every vertex u: only s's outgoing map changes,
      gaining (or updating) t when w is positive and losing t otherwise. */
  lemma TargetsOfSet(g: Graph, s: Label, t: Label, w: int, u: Label)
    ensures Targets(Set(g, s, t, w).0.edges, u) ==
              if u != s then Targets(g.edges, u)
              else if w > 0 then Targets(g.edges, u)[t := w]
              else Targets(g.edges, u) - {t}
  {
    var g' := Set(g, s, t, w).0;
    var expected := if u != s then Targets(g.edges, u)
                    else if w > 0 then Targets(g.edges, u)[t := w]
                    else Targets(g.edges, u) - {t};
    forall x
      ensures x in Targets(g'.edges, u) <==> x in expected
      ensures x in expected ==> Targets(g'.edges, u)[x] == expected[x]
    {
      if x in Targets(g'.edges, u) {
        assert (u, x) in g'.edges;
      }
      if x in Targets(g.edges, u) {
        assert (u, x) in g.edges;
      }
    }
    assert Targets(g'.edges, u) == expected;
  }

  /** How set(s, t, w) changes the sources of every vertex u: only t's incoming map changes. */
  lemma SourcesOfSet(g: Graph, s: Label, t: Label, w: int, u: Label)
    ensures Sources(Set(g, s, t, w).0.edges, u) ==
              if u != t then Sources(g.edges, u)
              else if w > 0 then Sources(g.edges, u)[s := w]
              else Sources(g.edges, u) - {s}
  {
    var g' := Set(g, s, t, w).0;
    var expected := if u != t then Sources(g.edges, u)
                    else if w > 0 then Sources(g.edges, u)[s := w]
                    else Sources(g.edges, u) - {s};
    forall x
      ensures x in Sources(g'.edges, u) <==> x in expected
      ensures x in expected ==> Sources(g'.edges, u)[x] == expected[x]
    {
      if x in Sources(g'.edges, u) {
        assert (x, u) in g'.edges;
      }
      if x in Sources(g.edges, u) {
        assert (x, u) in g.edges;
      }
    }
    assert Sources(g'.edges, u) == expected;
  }

  /** Removing v takes v out of the targets of every remaining vertex. */
  lemma TargetsOfRemove(g: Graph, v: Label, u: Label)
    requires v in g.vertices
    ensures Targets(Remove(g, v).0.edges, u) == if u == v then map[] else Targets(g.edges, u) - {v}
  {
    var g' := Remove(g, v).0;
    var expected := if u == v then map[] else Targets(g.edges, u) - {v};
    forall x
      ensures x in Targets(g'.edges, u) <==> x in expected
      ensures x in expected ==> Targets(g'.edges, u)[x] == expected[x]
    {
      if x in Targets(g'.edges, u) {
        assert (u, x) in g'.edges;
      }
      if x in Targets(g.edges, u) {
        assert (u, x) in g.edges;
      }
    }
    assert Targets(g'.edges, u) == expected;
  }

  /** Removing v takes v out of the sources of every remaining vertex. */
  lemma SourcesOfRemove(g: Graph, v: Label, u: Label)
    requires v in g.vertices
    ensures Sources(Remove(g, v).0.edges, u) == if u == v then map[] else Sources(g.edges, u) - {v}
  {
    var g' := Remove(g, v).0;
    var expected := if u == v then map[] else Sources(g.edges, u) - {v};
    forall x
      ensures x in Sources(g'.edges, u) <==> x in expected
      ensures x in expected ==> Sources(g'.edges, u)[x] == expected[x]
    {
      if x in Sources(g'.edges, u) {
        assert (x, u) in g'.edges;
      }
      if x in Sources(g.edges, u) {
        assert (x, u) in g.edges;
      }
    }
    assert Sources(g'.edges, u) == expected;
  }

  /** A self-loop set on a shows up both among a's sources and among a's targets. */
  lemma SelfLoopIsSourceAndTarget(g: Graph, a: Label, w: int)
    requires w > 0
    ensures a in Sources(Set(g, a, a, w).0.edges, a) && Sources(Set(g, a, a, w).0.edges, a)[a] == w
    ensures a in Targets(Set(g, a, a, w).0.edges, a) && Targets(Set(g, a, a, w).0.edges, a)[a] == w
  {
    SourcesOfSet(g, a, a, w, a);
    TargetsOfSet(g, a, a, w, a);
  }

  /** Setting the weight that set(s, t, w) returned undoes it: the edges are back as they were,
      and only the endpoints s and t stay added. */
  lemma SetWithPreviousWeightUndoes(g: Graph, s: Label, t: Label, w: int)
    requires Wf(g)
    ensures Set(Set(g, s, t, w).0, s, t, Set(g, s, t, w).1).0 == Graph(g.vertices + {s, t}, g.edges)
  {
    var (g1, previous) := Set(g, s, t, w);
    var g2 := Set(g1, s, t, previous).0;
    forall k
      ensures k in g2.edges <==> k in g.edges
      ensures k in g.edges ==> g2.edges[k] == g.edges[k]
    {
    }
    assert g2.edges == g.edges;
  }

  /** Removing a vertex that was just added gives back the graph it was added to. */
  lemma RemoveUndoesAdd(g: Graph, v: Label)
    requires Wf(g) && v !in g.vertices
    ensures Remove(Add(g, v).0, v) == (g, true)
  {
    var g' := Remove(Add(g, v).0, v).0;
    assert g'.vertices == g.vertices;
    assert g'.edges == g.edges;
  }

  /** A second set of the same edge to the same weight changes nothing and reports the weight
      the first one stored. */
  lemma SetTwice(g: Graph, s: Label, t: Label, w: int)
    ensures Set(Set(g, s, t, w).0, s, t, w).0 == Set(g, s, t, w).0
    ensures Set(Set(g, s, t, w).0, s, t, w).1 == if w > 0 then w else 0
  {
    var g1 := Set(g, s, t, w).0;
    var g2 := Set(g1, s, t, w).0;
    assert g2.edges == g1.edges;
  }

  /** Adding the endpoints first does not change what set does: set adds them anyway. */
  lemma SetAbsorbsAdd(g: Graph, s: Label, t: Label, w: int)
    ensures Set(Add(Add(g, s).0, t).0, s, t, w) == Set(g, s, t, w)
  {
    var g' := Add(Add(g, s).0, t).0;
    assert g'.vertices + {s, t} == g.vertices + {s, t};
  }

  /** The operations of the Graph interface that change a graph, for replaying a history. */
  datatype Op = AddOp(v: Label) | SetOp(source: Label, target: Label, weight: int) | RemoveOp(v: Label)

  function Apply(g: Graph, op: Op): Graph
  {
    match op
    case AddOp(v) => Add(g, v).0
    case SetOp(s, t, w) => Set(g, s, t, w).0
    case RemoveOp(v) => Remove(g, v).0
  }

  /** The graph a history of operations builds from g, oldest operation first. */
  function Run(g: Graph, ops: seq<Op>): Graph
    decreases |ops|
  {
    if ops == [] then g else Run(Apply(g, ops[0]), ops[1..])
  }

  /** Any history keeps the representation invariant: edges join vertices and weigh > 0. */
  lemma {:induction false} RunPreservesWf(g: Graph, ops: seq<Op>)
    requires Wf(g)
    ensures Wf(Run(g, ops))
    decreases |ops|
  {
    if ops != [] {
      RunPreservesWf(Apply(g, ops[0]), ops[1..]);
    }
  }

  /** Running a history one operation longer applies that operation to the result. */
  lemma {:induction false} RunAppend(g: Graph, ops: seq<Op>, op: Op)
    ensures Run(g, ops + [op]) == Apply(Run(g, ops), op)
    decreases |ops|
  {
    if ops == [] {
      assert [] + [op] == [op];
    } else {
      assert (ops + [op])[1..] == ops[1..] + [op];
      RunAppend(Apply(g, ops[0]), ops[1..], op);
    }
  }
  /** Replaying one more operation of a history applies it to the graph the prefix built. */
  lemma RunPrefixStep(g: Graph, ops: seq<Op>, i: nat)
    requires i < |ops|
    ensures Run(g, ops[..i + 1]) == Apply(Run(g, ops[..i]), ops[i])
  {
    assert ops[..i + 1] == ops[..i] + [ops[i]];
    RunAppend(g, ops[..i], ops[i]);
  }

}
