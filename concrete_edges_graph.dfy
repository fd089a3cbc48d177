/** src/graph/ConcreteEdgesGraph.java: a graph stored as a set of vertex labels and a list of
    immutable edges. The class keeps a ghost Model (the abstract graph of GraphSpec) that
    Valid() ties to the fields; every mutator is specified by the GraphSpec function of the
    same name, so this class and ConcreteVerticesGraph refine one abstract model. */
module ConcreteEdgesGraph {
  import opened Outcomes
  import opened GraphSpec

  const WeightError: string := "weight must be positive"

  /** Edge: a directed edge from source to target with a weight. */
  datatype Edge = Edge(source: Label, target: Label, weight: int)
  {
    /** The (source, target) pair the edge is keyed by in the abstract graph. */
    function Ends(): Key
    {
      (source, target)
    }

    /** connectsVertices: the edge goes from src to tgt. */
    predicate ConnectsVertices(src: Label, tgt: Label)
    {
      source == src && target == tgt
    }

    predicate Touches(v: Label)
    {
      source == v || target == v
    }
  }

  /** The Edge constructor: a weight that is not positive is rejected. */
  function NewEdge(source: Label, target: Label, weight: int): (r: Result<Edge>)
    ensures r.Ok? <==> weight > 0
    ensures r.Ok? ==> r.value.Ends() == (source, target) && r.value.weight == weight
    ensures r.Err? ==> r.message == WeightError
  {
    if weight <= 0 then Err(WeightError) else Ok(Edge(source, target, weight))
  }

  /** No two edges of the list share a (source, target) pair. */
  predicate DistinctEnds(es: seq<Edge>)
  {
    forall i, j | 0 <= i < j < |es| :: es[i].Ends() != es[j].Ends()
  }

  /** The (source, target) pairs of a list of edges. */
  function EndsOf(es: seq<Edge>): set<Key>
  {
    set e | e in es :: e.Ends()
  }

  /** The edges of es that neither start nor end at v, in their order in es: what the
      iterator loop of remove keeps. */
  function Unrelated(es: seq<Edge>, v: Label): seq<Edge>
  {
    if es == [] then []
    else
      var rest := Unrelated(es[..|es| - 1], v);
      var last := es[|es| - 1];
      if last.Touches(v) then rest else rest + [last]
  }

  /** The remove loop keeps exactly the edges that do not touch v. */
  lemma {:induction false} UnrelatedMembers(es: seq<Edge>, v: Label)
    ensures forall e :: e in Unrelated(es, v) <==> e in es && !e.Touches(v)
    decreases |es|
  {
    if es != [] {
      var init, last := es[..|es| - 1], es[|es| - 1];
      UnrelatedMembers(init, v);
      assert es == init + [last];
    }
  }

  /** No two kept edges share a pair when no two edges did before. */
  lemma {:induction false} UnrelatedDistinct(es: seq<Edge>, v: Label)
    requires DistinctEnds(es)
    ensures DistinctEnds(Unrelated(es, v))
    decreases |es|
  {
    if es != [] {
      var init, last := es[..|es| - 1], es[|es| - 1];
      var rest := Unrelated(init, v);
      assert DistinctEnds(init);
      UnrelatedDistinct(init, v);
      if !last.Touches(v) {
        UnrelatedMembers(init, v);
        forall e | e in rest
          ensures e.Ends() != last.Ends()
        {
          var j :| 0 <= j < |init| && init[j] == e;
          assert es[j] == e;
        }
        AppendNew(rest, last);
      }
    }
  }

  /** When no edge touches v, the remove loop keeps every edge. */
  lemma {:induction false} UnrelatedOfIsolated(es: seq<Edge>, v: Label)
    requires forall i | 0 <= i < |es| :: !es[i].Touches(v)
    ensures Unrelated(es, v) == es
    decreases |es|
  {
    if es != [] {
      var init, last := es[..|es| - 1], es[|es| - 1];
      UnrelatedOfIsolated(init, v);
      assert Unrelated(es, v) == Unrelated(init, v) + [last];
      assert init + [last] == es;
    }
  }

  /** Dropping the edge at position i keeps the ends distinct and loses exactly its pair. */
  lemma RemoveAt(es: seq<Edge>, i: nat)
    requires DistinctEnds(es) && i < |es|
    ensures DistinctEnds(es[..i] + es[i + 1..])
    ensures EndsOf(es[..i] + es[i + 1..]) == EndsOf(es) - {es[i].Ends()}
    ensures forall e | e in es[..i] + es[i + 1..] :: e in es
  {
    var rest := es[..i] + es[i + 1..];
    assert forall j | 0 <= j < |rest| :: rest[j] == es[if j < i then j else j + 1];
    forall k | k in EndsOf(es) - {es[i].Ends()}
      ensures k in EndsOf(rest)
    {
      var e :| e in es && e.Ends() == k;
      var j :| 0 <= j < |es| && es[j] == e;
      assert rest[if j < i then j else j - 1] == e;
    }
  }

  /** Appending an edge whose pair is new keeps the ends distinct and adds its pair. */
  lemma AppendNew(es: seq<Edge>, e: Edge)
    requires DistinctEnds(es) && e.Ends() !in EndsOf(es)
    ensures DistinctEnds(es + [e])
    ensures EndsOf(es + [e]) == EndsOf(es) + {e.Ends()}
  {
    assert forall j | 0 <= j < |es| :: es[j] in es;
  }

  /** The iterator loop of remove: walk the list and keep every edge that neither starts nor
      ends at v. */
  method WithoutEdgesAt(es: seq<Edge>, v: Label) returns (kept: seq<Edge>)
    ensures kept == Unrelated(es, v)
  {
    kept := [];
    var i := 0;
    while i < |es|
      invariant 0 <= i <= |es|
      invariant kept == Unrelated(es[..i], v)
    {
      assert es[..i + 1][..i] == es[..i];
      if !(es[i].source == v || es[i].target == v) {
        kept := kept + [es[i]];
      }
      i := i + 1;
    }
    assert es[..i] == es;
  }

  /** checkRep (every edge joins two vertices, has a positive weight, and no two edges share
      a pair) together with the abstraction function: the vertex set is g's, and the edges
      are exactly g's weighted pairs. */
  ghost predicate Represents(vs: set<Label>, es: seq<Edge>, g: Graph)
  {
    && (forall e | e in es :: e.source in vs && e.target in vs && e.weight > 0)
    && DistinctEnds(es)
    && vs == g.vertices
    && EndsOf(es) == g.edges.Keys
    && (forall e | e in es :: e.Ends() in g.edges && g.edges[e.Ends()] == e.weight)
  }

  /** The first step of set: adding vertices keeps the representation. */
  lemma GrowVertices(vs: set<Label>, es: seq<Edge>, g: Graph, extra: set<Label>)
    requires Represents(vs, es, g)
    ensures Represents(vs + extra, es, g.(vertices := g.vertices + extra))
  {
  }

  /** Dropping the edge at position i removes exactly its pair from the abstract edges. */
  lemma DropAt(vs: set<Label>, es: seq<Edge>, g: Graph, i: nat)
    requires Represents(vs, es, g) && i < |es|
    ensures Represents(vs, es[..i] + es[i + 1..], g.(edges := g.edges - {es[i].Ends()}))
  {
    RemoveAt(es, i);
    var rest := es[..i] + es[i + 1..];
    forall e | e in rest
      ensures e.Ends() != es[i].Ends()
    {
      var j :| 0 <= j < |rest| && rest[j] == e;
      assert rest[j] == es[if j < i then j else j + 1];
    }
  }

  /** When no edge has the pair k, the abstract edges do not hold it. */
  lemma NoEdgeAt(vs: set<Label>, es: seq<Edge>, g: Graph, k: Key)
    requires Represents(vs, es, g)
    requires forall j | 0 <= j < |es| :: es[j].Ends() != k
    ensures k !in g.edges && g.edges - {k} == g.edges
  {
    forall e | e in es
      ensures e.Ends() != k
    {
      var j :| 0 <= j < |es| && es[j] == e;
    }
    assert k !in EndsOf(es);
  }

  /** Putting a pair after dropping it is the same as putting it. */
  lemma PutAfterDrop(m: map<Key, int>, k: Key, w: int)
    ensures (m - {k})[k := w] == m[k := w]
  {
    assert (m - {k})[k := w].Keys == m[k := w].Keys;
  }

  /** The last step of set: appending an edge with a new pair between two vertices. */
  lemma AppendEdge(vs: set<Label>, es: seq<Edge>, g: Graph, e: Edge)
    requires Represents(vs, es, g) && e.Ends() !in g.edges
    requires e.source in vs && e.target in vs && e.weight > 0
    ensures Represents(vs, es + [e], g.(edges := g.edges[e.Ends() := e.weight]))
  {
    AppendNew(es, e);
  }

  class ConcreteEdgesGraph {
    var vertices: set<Label>
    var edges: seq<Edge>
    ghost var Model: Graph

    /** checkRep and the abstraction function, on the fields. */
    ghost predicate Valid()
      reads this
    {
      Represents(vertices, edges, Model)
    }

    /** The abstract graph of a valid representation satisfies the graph invariant. */
    lemma ModelIsWellFormed()
      requires Valid()
      ensures Wf(Model)
    {
      forall k | k in Model.edges
        ensures k.0 in Model.vertices && k.1 in Model.vertices && Model.edges[k] > 0
      {
        assert k in EndsOf(edges);
        var e :| e in edges && e.Ends() == k;
      }
    }

    /** Create an empty graph. */
    constructor ()
      ensures Valid() && Model == Empty
    {
      vertices := {};
      edges := [];
      Model := Empty;
    }

    /** findEdge: the position of the first edge from source to target, if there is one. */
    method FindEdge(source: Label, target: Label) returns (r: Option<nat>)
      ensures r.Some? ==> r.value < |edges| && edges[r.value].ConnectsVertices(source, target)
      ensures r.Some? ==> forall j | 0 <= j < r.value :: !edges[j].ConnectsVertices(source, target)
      ensures r.None? ==> forall j | 0 <= j < |edges| :: !edges[j].ConnectsVertices(source, target)
    {
      var i := 0;
      while i < |edges|
        invariant 0 <= i <= |edges|
        invariant forall j | 0 <= j < i :: !edges[j].ConnectsVertices(source, target)
      {
        if edges[i].ConnectsVertices(source, target) {
          return Some(i);
        }
        i := i + 1;
      }
      return None;
    }

    /** add: a new label becomes a vertex; the edges are untouched. */
    method Add(vertex: Label) returns (added: bool)
      requires Valid()
      modifies this
      ensures Valid()
      ensures (Model, added) == GraphSpec.Add(old(Model), vertex)
      ensures edges == old(edges)
    {
      if vertex in vertices {
        return false;
      }
      vertices := vertices + {vertex};
      Model := GraphSpec.Add(Model, vertex).0;
      return true;
    }

    /** set: add both endpoints, drop the existing edge between them if any, then append a new
        edge when the weight is positive; return the dropped edge's weight or 0. */
    method Set(source: Label, target: Label, weight: int) returns (previous: int)
      requires Valid()
      modifies this
      ensures Valid()
      ensures (Model, previous) == GraphSpec.Set(old(Model), source, target, weight)
    {
      ghost var after := GraphSpec.Set(Model, source, target, weight);
      ghost var g := Model.(vertices := Model.vertices + {source, target});
      GrowVertices(vertices, edges, Model, {source, target});
      vertices := vertices + {source, target};
      var existing := FindEdge(source, target);
      previous := 0;
      if existing.Some? {
        var i := existing.value;
        previous := edges[i].weight;
        assert edges[i] in edges;
        DropAt(vertices, edges, g, i);
        edges := edges[..i] + edges[i + 1..];
      } else {
        NoEdgeAt(vertices, edges, g, (source, target));
      }
      g := g.(edges := g.edges - {(source, target)});
      if weight > 0 {
        var e := NewEdge(source, target, weight).value;
        AppendEdge(vertices, edges, g, e);
        edges := edges + [e];
        PutAfterDrop(Model.edges, (source, target), weight);
        g := g.(edges := Model.edges[(source, target) := weight]);
      }
      assert g == after.0;
      Model := g;
    }

    /** remove: drop the vertex and, by the iterator loop, every edge that starts or ends at
        it, keeping the other edges in order. */
    method Remove(vertex: Label) returns (removed: bool)
      requires Valid()
      modifies this
      ensures Valid()
      ensures (Model, removed) == GraphSpec.Remove(old(Model), vertex)
      ensures edges == Unrelated(old(edges), vertex)
    {
      if vertex !in vertices {
        assert edges == Unrelated(edges, vertex) by {
          assert forall i | 0 <= i < |edges| :: edges[i] in edges && !edges[i].Touches(vertex);
          UnrelatedOfIsolated(edges, vertex);
        }
        return false;
      }
      var kept := WithoutEdgesAt(edges, vertex);
      UnrelatedMembers(edges, vertex);
      UnrelatedDistinct(edges, vertex);
      ghost var before := edges;
      vertices := vertices - {vertex};
      edges := kept;
      Model := GraphSpec.Remove(Model, vertex).0;
      forall k | k in Model.edges
        ensures k in EndsOf(edges)
      {
        assert k in EndsOf(before);
        var e :| e in before && e.Ends() == k;
        assert e in edges;
      }
      return true;
    }

    /** vertices: the set of vertex labels, as a value (a copy). */
    method Vertices() returns (r: set<Label>)
      requires Valid()
      ensures r == Model.vertices
    {
      return vertices;
    }

    /** sources: scan the edges and record the source and weight of each one ending at
        target. */
    method Sources(target: Label) returns (result: map<Label, int>)
      requires Valid()
      ensures result == GraphSpec.Sources(Model.edges, target)
    {
      result := map[];
      var i := 0;
      while i < |edges|
        invariant 0 <= i <= |edges|
        invariant forall s :: s in result <==> exists j | 0 <= j < i :: edges[j].Ends() == (s, target)
        invariant forall s | s in result :: (s, target) in Model.edges && result[s] == Model.edges[(s, target)]
      {
        assert edges[i] in edges;
        if edges[i].target == target {
          result := result[edges[i].source := edges[i].weight];
        }
        i := i + 1;
      }
      forall s | (s, target) in Model.edges
        ensures s in result
      {
        assert (s, target) in EndsOf(edges);
        var e :| e in edges && e.Ends() == (s, target);
        var j :| 0 <= j < |edges| && edges[j] == e;
      }
      SourcesAre(result, target);
    }

    /** targets: scan the edges and record the target and weight of each one starting at
        source. */
    method Targets(source: Label) returns (result: map<Label, int>)
      requires Valid()
      ensures result == GraphSpec.Targets(Model.edges, source)
    {
      result := map[];
      var i := 0;
      while i < |edges|
        invariant 0 <= i <= |edges|
        invariant forall t :: t in result <==> exists j | 0 <= j < i :: edges[j].Ends() == (source, t)
        invariant forall t | t in result :: (source, t) in Model.edges && result[t] == Model.edges[(source, t)]
      {
        assert edges[i] in edges;
        if edges[i].source == source {
          result := result[edges[i].target := edges[i].weight];
        }
        i := i + 1;
      }
      forall t | (source, t) in Model.edges
        ensures t in result
      {
        assert (source, t) in EndsOf(edges);
        var e :| e in edges && e.Ends() == (source, t);
        var j :| 0 <= j < |edges| && edges[j] == e;
      }
      TargetsAre(result, source);
    }

    /** A map holding exactly the weights of the edges into target is GraphSpec.Sources. */
    lemma SourcesAre(result: map<Label, int>, target: Label)
      requires forall s :: s in result <==> (s, target) in Model.edges
      requires forall s | s in result :: result[s] == Model.edges[(s, target)]
      ensures result == GraphSpec.Sources(Model.edges, target)
    {
      var expected := GraphSpec.Sources(Model.edges, target);
      forall s
        ensures s in result <==> s in expected
      {
        if s in expected {
          assert (s, target) in Model.edges;
        }
        if s in result {
          assert (s, target) in Model.edges;
        }
      }
    }

    /** A map holding exactly the weights of the edges out of source is GraphSpec.Targets. */
    lemma TargetsAre(result: map<Label, int>, source: Label)
      requires forall t :: t in result <==> (source, t) in Model.edges
      requires forall t | t in result :: result[t] == Model.edges[(source, t)]
      ensures result == GraphSpec.Targets(Model.edges, source)
    {
      var expected := GraphSpec.Targets(Model.edges, source);
      forall t
        ensures t in result <==> t in expected
      {
        if t in expected {
          assert (source, t) in Model.edges;
        }
        if t in result {
          assert (source, t) in Model.edges;
        }
      }
    }
  }
}
