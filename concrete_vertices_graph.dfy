/** src/graph/ConcreteVerticesGraph.java: a graph stored as a list of mutable vertex records,
    each holding its own outgoing (targets) and incoming (sources) weight maps. The class keeps
    a ghost Model (the abstract graph of GraphSpec) that Valid() ties to the records; every
    mutator is specified by the same GraphSpec function as in ConcreteEdgesGraph. */
module ConcreteVerticesGraph {
  import opened Outcomes
  import opened GraphSpec

  const LabelError: string := "label must be non-null and non-empty"
  const WeightError: string := "weight must be positive"

  /** Vertex: a label with the weights of its outgoing and incoming edges. */
  class Vertex {
    const name: Label
    var targets: map<Label, int>
    var sources: map<Label, int>

    /** checkRep of Vertex: a non-empty label and positive weights on both sides. */
    ghost predicate Valid()
      reads this
    {
      && name != ""
      && (forall t | t in targets :: targets[t] > 0)
      && (forall s | s in sources :: sources[s] > 0)
    }

    /** A vertex with no edges; the empty label is rejected by NewVertex before this runs. */
    constructor (name: Label)
      requires name != ""
      ensures Valid()
      ensures this.name == name && targets == map[] && sources == map[]
    {
      this.name := name;
      targets := map[];
      sources := map[];
    }

    /** getTargets: a copy of the outgoing map. */
    method GetTargets() returns (r: map<Label, int>)
      ensures r == targets
    {
      return targets;
    }

    /** getSources: a copy of the incoming map. */
    method GetSources() returns (r: map<Label, int>)
      ensures r == sources
    {
      return sources;
    }

    /** setTarget: a weight that is not positive is rejected and nothing changes; otherwise the
        outgoing edge to target is put at weight and its previous weight (or 0) is returned. */
    method SetTarget(target: Label, weight: int) returns (r: Result<int>)
      requires Valid()
      modifies this
      ensures Valid() && sources == old(sources)
      ensures r.Ok? <==> weight > 0
      ensures r.Err? ==> r.message == WeightError && targets == old(targets)
      ensures r.Ok? ==> targets == old(targets)[target := weight]
      ensures r.Ok? ==> r.value == if target in old(targets) then old(targets)[target] else 0
    {
      if weight <= 0 {
        return Err(WeightError);
      }
      var previous := if target in targets then targets[target] else 0;
      targets := targets[target := weight];
      return Ok(previous);
    }

    /** setSource: the incoming counterpart of setTarget. */
    method SetSource(source: Label, weight: int) returns (r: Result<int>)
      requires Valid()
      modifies this
      ensures Valid() && targets == old(targets)
      ensures r.Ok? <==> weight > 0
      ensures r.Err? ==> r.message == WeightError && sources == old(sources)
      ensures r.Ok? ==> sources == old(sources)[source := weight]
      ensures r.Ok? ==> r.value == if source in old(sources) then old(sources)[source] else 0
    {
      if weight <= 0 {
        return Err(WeightError);
      }
      var previous := if source in sources then sources[source] else 0;
      sources := sources[source := weight];
      return Ok(previous);
    }

    /** removeTarget: drop the outgoing edge to target; return its weight, or 0 (and change
        nothing) when there is none. */
    method RemoveTarget(target: Label) returns (previous: int)
      requires Valid()
      modifies this
      ensures Valid() && sources == old(sources)
      ensures targets == old(targets) - {target}
      ensures previous == if target in old(targets) then old(targets)[target] else 0
    {
      previous := if target in targets then targets[target] else 0;
      targets := targets - {target};
    }

    /** removeSource: drop the incoming edge from source; return its weight or 0. */
    method RemoveSource(source: Label) returns (previous: int)
      requires Valid()
      modifies this
      ensures Valid() && targets == old(targets)
      ensures sources == old(sources) - {source}
      ensures previous == if source in old(sources) then old(sources)[source] else 0
    {
      previous := if source in sources then sources[source] else 0;
      sources := sources - {source};
    }
  }

  /** The Vertex constructor with its argument check: the empty label is rejected. */
  method NewVertex(name: Label) returns (r: Result<Vertex>)
    ensures r.Err? <==> name == ""
    ensures r.Err? ==> r.message == LabelError
    ensures r.Ok? ==> fresh(r.value) && r.value.Valid() && r.value.name == name
    ensures r.Ok? ==> r.value.targets == map[] && r.value.sources == map[]
  {
    if name == "" {
      return Err(LabelError);
    }
    var v := new Vertex(name);
    return Ok(v);
  }

  /** Every record satisfies its own representation invariant. */
  ghost predicate RecordsValid(vs: seq<Vertex>)
    reads vs
  {
    forall v | v in vs :: v.Valid()
  }

  /** Every record's outgoing map holds exactly the edges out of it. */
  ghost predicate TargetsMatch(vs: seq<Vertex>, edges: map<Key, int>)
    reads vs
  {
    forall v | v in vs :: IsTargetsOf(v.targets, edges, v.name)
  }

  /** Every record's incoming map holds exactly the edges into it. */
  ghost predicate SourcesMatch(vs: seq<Vertex>, edges: map<Key, int>)
    reads vs
  {
    forall v | v in vs :: IsSourcesOf(v.sources, edges, v.name)
  }

  /** No two records carry the same label. */
  predicate DistinctNames(vs: seq<Vertex>)
  {
    forall i, j | 0 <= i < j < |vs| :: vs[i].name != vs[j].name
  }

  /** With distinct labels, a label identifies its record. */
  lemma LabelIdentifiesRecord(vs: seq<Vertex>, u: Vertex, v: Vertex)
    requires DistinctNames(vs) && u in vs && v in vs && u.name == v.name
    ensures u == v
  {
    var i :| 0 <= i < |vs| && vs[i] == u;
    var j :| 0 <= j < |vs| && vs[j] == v;
    assert !(i < j) && !(j < i);
  }

  /** The labels of a list of records, gathered one record at a time. */
  ghost function Names(vs: seq<Vertex>): set<Label>
  {
    if vs == [] then {} else Names(vs[..|vs| - 1]) + {vs[|vs| - 1].name}
  }

  /** Every record's label is among the names. */
  lemma {:induction false} NameIsListed(vs: seq<Vertex>, i: nat)
    requires i < |vs|
    ensures vs[i].name in Names(vs)
    decreases |vs|
  {
    if i < |vs| - 1 {
      NameIsListed(vs[..|vs| - 1], i);
    }
  }

  /** Every name is the label of some record. */
  lemma {:induction false} NameHasRecord(vs: seq<Vertex>, x: Label) returns (i: nat)
    requires x in Names(vs)
    ensures i < |vs| && vs[i].name == x
    decreases |vs|
  {
    if vs[|vs| - 1].name == x {
      i := |vs| - 1;
    } else {
      i := NameHasRecord(vs[..|vs| - 1], x);
    }
  }

  /** A label is among the names exactly when some record carries it. */
  lemma NamesHoldsEveryLabel(vs: seq<Vertex>, x: Label)
    ensures x in Names(vs) <==> exists i | 0 <= i < |vs| :: vs[i].name == x
  {
    if x in Names(vs) {
      var i := NameHasRecord(vs, x);
    }
    forall i | 0 <= i < |vs| && vs[i].name == x
      ensures x in Names(vs)
    {
      NameIsListed(vs, i);
    }
  }

  /** Dropping the record at position k takes its label out, when labels are distinct. */
  lemma NamesOfRemoveAt(vs: seq<Vertex>, k: nat)
    requires k < |vs|
    requires DistinctNames(vs)
    ensures Names(vs[..k] + vs[k + 1..]) == Names(vs) - {vs[k].name}
  {
    var rest := vs[..k] + vs[k + 1..];
    forall x
      ensures x in Names(rest) <==> x in Names(vs) && x != vs[k].name
    {
      if x in Names(rest) {
        NameNotAdded(vs, k, x);
      }
      if x in Names(vs) && x != vs[k].name {
        NameKept(vs, k, x);
      }
    }
  }

  /** Every label other than the dropped one is still present. */
  lemma NameKept(vs: seq<Vertex>, k: nat, x: Label)
    requires k < |vs| && x in Names(vs) && x != vs[k].name
    ensures x in Names(vs[..k] + vs[k + 1..])
  {
    var rest := vs[..k] + vs[k + 1..];
    var i := NameHasRecord(vs, x);
    var i' := if i < k then i else i - 1;
    assert rest[i'] == vs[i];
    NameIsListed(rest, i');
  }

  /** No label appears that was not there, and the dropped one is gone. */
  lemma NameNotAdded(vs: seq<Vertex>, k: nat, x: Label)
    requires k < |vs| && DistinctNames(vs) && x in Names(vs[..k] + vs[k + 1..])
    ensures x in Names(vs) && x != vs[k].name
  {
    var rest := vs[..k] + vs[k + 1..];
    var i := NameHasRecord(rest, x);
    var i' := if i < k then i else i + 1;
    assert rest[i] == vs[i'];
    NameIsListed(vs, i');
  }

  /** The records left after dropping position k are records of vs with other labels, and
      their labels stay distinct. */
  lemma RemainingRecords(vs: seq<Vertex>, k: nat)
    requires k < |vs| && DistinctNames(vs)
    ensures DistinctNames(vs[..k] + vs[k + 1..])
    ensures forall v | v in vs[..k] + vs[k + 1..] :: v in vs && v.name != vs[k].name
  {
    var rest := vs[..k] + vs[k + 1..];
    assert forall j | 0 <= j < |rest| :: rest[j] == vs[if j < k then j else j + 1];
    forall v | v in rest
      ensures v in vs && v.name != vs[k].name
    {
      var j :| 0 <= j < |rest| && rest[j] == v;
    }
  }

  /** Dropping the record of label x, once every other record has lost its edges at x,
      represents the graph with x removed; no record is new. */
  lemma RepresentsAfterRemoveAt(vs: seq<Vertex>, k: nat, g: Graph)
    requires k < |vs| && DistinctNames(vs) && RecordsValid(vs) && Wf(g) && g.vertices == Names(vs)
    requires forall v | v in vs && v.name != vs[k].name ::
               IsTargetsOf(v.targets, Detach(g.edges, vs[k].name), v.name)
    requires forall v | v in vs && v.name != vs[k].name ::
               IsSourcesOf(v.sources, Detach(g.edges, vs[k].name), v.name)
    ensures Represents(vs[..k] + vs[k + 1..], GraphSpec.Remove(g, vs[k].name).0)
    ensures forall v | v in vs[..k] + vs[k + 1..] :: v in vs
  {
    NameIsListed(vs, k);
    NamesOfRemoveAt(vs, k);
    RemainingRecords(vs, k);
  }

  /** Appending a record adds its label. */
  lemma NamesOfAppend(vs: seq<Vertex>, v: Vertex)
    ensures Names(vs + [v]) == Names(vs) + {v.name}
  {
    assert (vs + [v])[..|vs|] == vs;
  }

  /** The records represent g: their labels are distinct and are g's vertices, every record
      keeps its own invariant, and each record's two maps hold exactly g's edges out of and
      into it. */
  ghost predicate Represents(vs: seq<Vertex>, g: Graph)
    reads vs
  {
    && DistinctNames(vs)
    && RecordsValid(vs)
    && Wf(g)
    && g.vertices == Names(vs)
    && TargetsMatch(vs, g.edges)
    && SourcesMatch(vs, g.edges)
  }

  /** Appending a record with empty maps for a new label represents the graph with that
      vertex added. */
  lemma RepresentsAfterAppend(vs: seq<Vertex>, v: Vertex, g: Graph)
    requires Represents(vs, g) && v.Valid() && v.targets == map[] && v.sources == map[]
    requires v.name !in g.vertices
    ensures Represents(vs + [v], GraphSpec.Add(g, v.name).0)
  {
    NamesOfAppend(vs, v);
    var ws := vs + [v];
    forall i | 0 <= i < |vs|
      ensures vs[i].name != v.name
    {
      NameIsListed(vs, i);
    }
    forall i, j | 0 <= i < j < |ws|
      ensures ws[i].name != ws[j].name
    {
      assert ws[i] == vs[i];
    }
    assert IsTargetsOf(v.targets, g.edges, v.name) && IsSourcesOf(v.sources, g.edges, v.name);
    forall u | u in ws
      ensures u.Valid() && IsTargetsOf(u.targets, g.edges, u.name) && IsSourcesOf(u.sources, g.edges, u.name)
    {
      if u != v {
        assert u in vs;
      }
    }
  }

  /** set names two recorded labels, so the labels stay the vertices, and the graph stays
      well formed. */
  lemma LabelsAfterSet(vs: seq<Vertex>, g: Graph, i: nat, j: nat, w: int)
    requires i < |vs| && j < |vs| && Wf(g) && g.vertices == Names(vs)
    ensures Wf(GraphSpec.Set(g, vs[i].name, vs[j].name, w).0)
    ensures GraphSpec.Set(g, vs[i].name, vs[j].name, w).0.vertices == Names(vs)
  {
    NameIsListed(vs, i);
    NameIsListed(vs, j);
  }

  /** The record's outgoing and incoming maps are exactly its edges in edges. */
  ghost predicate RecordMatches(v: Vertex, edges: map<Key, int>)
    reads v
  {
    IsTargetsOf(v.targets, edges, v.name) && IsSourcesOf(v.sources, edges, v.name)
  }

  /** The body of the loop of remove for one record: removeTarget and removeSource of the label. */
  method DetachRecord(record: Vertex, vertex: Label, ghost edges: map<Key, int>)
    requires record.Valid() && RecordMatches(record, edges)
    modifies record
    ensures record.Valid()
    ensures record.targets == old(record.targets) - {vertex}
    ensures record.sources == old(record.sources) - {vertex}
    ensures record.name != vertex ==> RecordMatches(record, Detach(edges, vertex))
  {
    if record.name != vertex {
      IsTargetsOfDetach(record.targets, edges, vertex, record.name);
      IsSourcesOfDetach(record.sources, edges, vertex, record.name);
    }
    var _ := record.RemoveTarget(vertex);
    var _ := record.RemoveSource(vertex);
  }

  class ConcreteVerticesGraph {
    var vertices: seq<Vertex>
    ghost var Model: Graph

    /** The labels of the records. */
    ghost function Labels(): set<Label>
      reads this
    {
      Names(vertices)
    }

    /** checkRep (distinct labels, valid records) together with the abstraction function. */
    ghost predicate Valid()
      reads this, vertices
    {
      Represents(vertices, Model)
    }

    /** Each record's maps are GraphSpec's targets and sources of its label. */
    lemma RecordsHoldNeighbours(v: Vertex)
      requires Valid() && v in vertices
      ensures v.targets == GraphSpec.Targets(Model.edges, v.name)
      ensures v.sources == GraphSpec.Sources(Model.edges, v.name)
    {
      TargetsArePointwise(v.targets, Model.edges, v.name);
      SourcesArePointwise(v.sources, Model.edges, v.name);
    }

    /** The rest of checkRep: every key of every record's maps names a record. */
    lemma KeysNameRecords()
      requires Valid()
      ensures forall v, t | v in vertices && t in v.targets :: t in Labels()
      ensures forall v, s | v in vertices && s in v.sources :: s in Labels()
    {
      forall v, t | v in vertices && t in v.targets
        ensures t in Labels()
      {
        assert (v.name, t) in Model.edges;
      }
      forall v, s | v in vertices && s in v.sources
        ensures s in Labels()
      {
        assert (s, v.name) in Model.edges;
      }
    }

    /** The two sides of every edge agree: u lists v as a target with weight w exactly when v
        lists u as a source with weight w. */
    lemma MirrorConsistency(u: Vertex, v: Vertex)
      requires Valid() && u in vertices && v in vertices
      ensures v.name in u.targets <==> u.name in v.sources
      ensures v.name in u.targets ==> u.targets[v.name] == v.sources[u.name]
    {
    }

    /** Create an empty graph. */
    constructor ()
      ensures Valid() && Model == Empty
    {
      vertices := [];
      Model := Empty;
    }

    /** findVertex: the position of the record with the given label, if there is one. */
    method FindVertex(name: Label) returns (r: Option<nat>)
      ensures r.Some? ==> r.value < |vertices| && vertices[r.value].name == name
      ensures r.None? ==> forall v | v in vertices :: v.name != name
    {
      var i := 0;
      while i < |vertices|
        invariant 0 <= i <= |vertices|
        invariant forall j | 0 <= j < i :: vertices[j].name != name
      {
        if vertices[i].name == name {
          return Some(i);
        }
        i := i + 1;
      }
      return None;
    }

    /** Append a fresh record for a label that has none; it has no edges yet. */
    method AppendRecord(v: Vertex)
      requires Valid() && v.Valid() && v.targets == map[] && v.sources == map[]
      requires v.name !in Model.vertices
      modifies this
      ensures Valid()
      ensures vertices == old(vertices) + [v]
      ensures Model == GraphSpec.Add(old(Model), v.name).0
    {
      RepresentsAfterAppend(vertices, v, Model);
      vertices := vertices + [v];
      Model := GraphSpec.Add(Model, v.name).0;
    }

    /** The record with the given label, appended with no edges when it is missing (the first
        half of set, once for the source and once for the target); the empty label fails. */
    method FindOrAddVertex(name: Label) returns (r: Result<Vertex>)
      requires Valid()
      modifies this
      ensures Valid()
      ensures forall v | v in old(vertices) :: v in vertices
      ensures name == "" ==> r == Err(LabelError) && Model == old(Model)
      ensures name != "" ==> r.Ok? && r.value in vertices && r.value.name == name
      ensures r.Ok? ==> r.value in old(vertices) || fresh(r.value)
      ensures forall v | v in vertices :: v in old(vertices) || fresh(v)
      ensures name != "" ==> Model == GraphSpec.Add(old(Model), name).0
    {
      var found := FindVertex(name);
      NamesHoldsEveryLabel(vertices, name);
      if found.Some? {
        assert vertices[found.value] in vertices;
        return Ok(vertices[found.value]);
      }
      var created := NewVertex(name);
      if created.Err? {
        return Err(created.message);
      }
      AppendRecord(created.value);
      return Ok(created.value);
    }

    /** add: the empty label makes the Vertex constructor throw; otherwise a new label gets a
        record with no edges. */
    method Add(vertex: Label) returns (r: Result<bool>)
      requires Valid()
      modifies this
      ensures Valid()
      ensures vertex == "" ==> r == Err(LabelError) && Model == old(Model)
      ensures vertex != "" ==> r == Ok(GraphSpec.Add(old(Model), vertex).1)
      ensures vertex != "" ==> Model == GraphSpec.Add(old(Model), vertex).0
      ensures forall v | v in vertices :: v in old(vertices) || fresh(v)
    {
      var found := FindVertex(vertex);
      NamesHoldsEveryLabel(vertices, vertex);
      if found.Some? {
        assert vertices[found.value] in vertices;
        return Ok(false);
      }
      var created := NewVertex(vertex);
      if created.Err? {
        return Err(created.message);
      }
      AppendRecord(created.value);
      return Ok(true);
    }

    /** set: find or create the source record, then the target record, then put (positive
        weight) or remove (any other weight) the edge on both records. Not all-or-nothing: with
        a new non-empty source and the empty target, the source record stays added. */
    method Set(source: Label, target: Label, weight: int) returns (r: Result<int>)
      requires Valid()
      modifies this, vertices
      ensures Valid()
      ensures source == "" ==> r == Err(LabelError) && Model == old(Model)
      ensures source != "" && target == "" ==>
                r == Err(LabelError) && Model == GraphSpec.Add(old(Model), source).0
      ensures source != "" && target != "" ==>
                r == Ok(GraphSpec.Set(old(Model), source, target, weight).1)
                && Model == GraphSpec.Set(old(Model), source, target, weight).0
      ensures forall v | v in vertices :: v in old(vertices) || fresh(v)
    {
      var found := FindOrAddVertex(source);
      if found.Err? {
        return Err(found.message);
      }
      var sourceVertex := found.value;
      found := FindOrAddVertex(target);
      if found.Err? {
        return Err(found.message);
      }
      var targetVertex := found.value;
      SetAbsorbsAdd(old(Model), source, target, weight);
      var previous := Connect(sourceVertex, targetVertex, source, target, weight);
      return Ok(previous);
    }

    /** The second half of set: put (positive weight) or remove (any other weight) the edge in
        the source record's targets and in the target record's sources. */
    method Connect(sourceVertex: Vertex, targetVertex: Vertex, source: Label, target: Label, weight: int)
      returns (previous: int)
      requires Valid() && sourceVertex in vertices && targetVertex in vertices
      requires sourceVertex.name == source && targetVertex.name == target
      modifies this, sourceVertex, targetVertex
      ensures Valid() && vertices == old(vertices)
      ensures (Model, previous) == GraphSpec.Set(old(Model), source, target, weight)
    {
      var i :| 0 <= i < |vertices| && vertices[i] == sourceVertex;
      var j :| 0 <= j < |vertices| && vertices[j] == targetVertex;
      LabelsAfterSet(vertices, Model, i, j, weight);
      ghost var after := GraphSpec.Set(Model, source, target, weight).0;
      previous := UpdateRecords(sourceVertex, targetVertex, Model, source, target, weight);
      assert Represents(vertices, after);
      Model := after;
    }

    /** Both record updates of set, stated on the record predicates alone. */
    method UpdateRecords(sourceVertex: Vertex, targetVertex: Vertex, ghost g: Graph, source: Label, target: Label, weight: int)
      returns (previous: int)
      requires DistinctNames(vertices) && RecordsValid(vertices) && TargetsMatch(vertices, g.edges) && SourcesMatch(vertices, g.edges)
      requires sourceVertex in vertices && sourceVertex.name == source
      requires targetVertex in vertices && targetVertex.name == target
      modifies sourceVertex, targetVertex
      ensures RecordsValid(vertices)
      ensures TargetsMatch(vertices, GraphSpec.Set(g, source, target, weight).0.edges)
      ensures SourcesMatch(vertices, GraphSpec.Set(g, source, target, weight).0.edges)
      ensures previous == GraphSpec.Set(g, source, target, weight).1
    {
      previous := UpdateTargets(sourceVertex, g, source, target, weight);
      UpdateSources(targetVertex, g, source, target, weight);
    }

    /** The source record's half of set: put or remove target in its outgoing map. */
    method UpdateTargets(sourceVertex: Vertex, ghost g: Graph, source: Label, target: Label, weight: int)
      returns (previous: int)
      requires DistinctNames(vertices) && RecordsValid(vertices) && TargetsMatch(vertices, g.edges) && SourcesMatch(vertices, g.edges)
      requires sourceVertex in vertices && sourceVertex.name == source
      modifies sourceVertex
      ensures RecordsValid(vertices) && TargetsMatch(vertices, GraphSpec.Set(g, source, target, weight).0.edges)
      ensures SourcesMatch(vertices, g.edges)
      ensures previous == GraphSpec.Set(g, source, target, weight).1
    {
      if weight > 0 {
        var put := sourceVertex.SetTarget(target, weight);
        previous := put.value;
      } else {
        previous := sourceVertex.RemoveTarget(target);
      }
      forall v | v in vertices
        ensures v.Valid() && IsTargetsOf(v.targets, GraphSpec.Set(g, source, target, weight).0.edges, v.name)
        ensures IsSourcesOf(v.sources, g.edges, v.name)
      {
        if v.name == source {
          LabelIdentifiesRecord(vertices, v, sourceVertex);
        }
        IsTargetsOfSet(old(v.targets), g, source, target, weight, v.name);
      }
    }

    /** The target record's half of set: put or remove source in its incoming map. */
    method UpdateSources(targetVertex: Vertex, ghost g: Graph, source: Label, target: Label, weight: int)
      requires DistinctNames(vertices) && RecordsValid(vertices) && SourcesMatch(vertices, g.edges)
      requires TargetsMatch(vertices, GraphSpec.Set(g, source, target, weight).0.edges)
      requires targetVertex in vertices && targetVertex.name == target
      modifies targetVertex
      ensures RecordsValid(vertices) && SourcesMatch(vertices, GraphSpec.Set(g, source, target, weight).0.edges)
      ensures TargetsMatch(vertices, GraphSpec.Set(g, source, target, weight).0.edges)
    {
      if weight > 0 {
        var _ := targetVertex.SetSource(source, weight);
      } else {
        var _ := targetVertex.RemoveSource(source);
      }
      forall v | v in vertices
        ensures v.Valid() && IsSourcesOf(v.sources, GraphSpec.Set(g, source, target, weight).0.edges, v.name)
        ensures IsTargetsOf(v.targets, GraphSpec.Set(g, source, target, weight).0.edges, v.name)
      {
        if v.name == target {
          LabelIdentifiesRecord(vertices, v, targetVertex);
        }
        IsSourcesOfSet(old(v.sources), g, source, target, weight, v.name);
      }
    }

    /** remove: strip the vertex from the maps of every record (its own included), then drop
        its record. */
    method Remove(vertex: Label) returns (removed: bool)
      requires Valid()
      modifies this, vertices
      ensures Valid()
      ensures (Model, removed) == GraphSpec.Remove(old(Model), vertex)
      ensures forall v | v in vertices :: v in old(vertices)
    {
      var found := FindVertex(vertex);
      NamesHoldsEveryLabel(vertices, vertex);
      if found.None? {
        return false;
      }
      var k := found.value;
      DetachFromRecords(vertex, Model);
      RepresentsAfterRemoveAt(vertices, k, Model);
      vertices := vertices[..k] + vertices[k + 1..];
      Model := GraphSpec.Remove(Model, vertex).0;
      return true;
    }

    /** The loop of remove: strip the label from the outgoing and incoming maps of every
        record. Afterwards every other record holds exactly its edges that avoid the label. */
    method DetachFromRecords(vertex: Label, ghost g: Graph)
      requires DistinctNames(vertices) && RecordsValid(vertices) && TargetsMatch(vertices, g.edges) && SourcesMatch(vertices, g.edges)
      modifies vertices
      ensures RecordsValid(vertices)
      ensures forall v | v in vertices && v.name != vertex ::
                IsTargetsOf(v.targets, Detach(g.edges, vertex), v.name)
      ensures forall v | v in vertices && v.name != vertex ::
                IsSourcesOf(v.sources, Detach(g.edges, vertex), v.name)
    {
      ghost var detached := Detach(g.edges, vertex);
      var i := 0;
      while i < |vertices|
        invariant 0 <= i <= |vertices|
        invariant RecordsValid(vertices)
        invariant forall j | 0 <= j < i && vertices[j].name != vertex :: RecordMatches(vertices[j], detached)
        invariant forall j | i <= j < |vertices| :: RecordMatches(vertices[j], g.edges)
      {
        var record := vertices[i];
        assert forall j | 0 <= j < |vertices| && j != i :: vertices[j].name != record.name;
        DetachRecord(record, vertex, g.edges);
        i := i + 1;
      }
      forall v | v in vertices && v.name != vertex
        ensures IsTargetsOf(v.targets, detached, v.name)
        ensures IsSourcesOf(v.sources, detached, v.name)
      {
        var j :| 0 <= j < |vertices| && vertices[j] == v;
        assert RecordMatches(vertices[j], detached);
      }
    }

    /** vertices: collect the record labels into a fresh set. */
    method Vertices() returns (result: set<Label>)
      requires Valid()
      ensures result == Model.vertices
    {
      result := {};
      var i := 0;
      while i < |vertices|
        invariant 0 <= i <= |vertices|
        invariant result == Names(vertices[..i])
      {
        NamesOfAppend(vertices[..i], vertices[i]);
        assert vertices[..i + 1] == vertices[..i] + [vertices[i]];
        result := result + {vertices[i].name};
        i := i + 1;
      }
      assert vertices[..i] == vertices;
    }

    /** sources: a copy of the target record's incoming map, or the empty map when there is no
        such record. */
    method Sources(target: Label) returns (result: map<Label, int>)
      requires Valid()
      ensures result == GraphSpec.Sources(Model.edges, target)
    {
      var found := FindVertex(target);
      if found.None? {
        NamesHoldsEveryLabel(vertices, target);
        AbsentVertexIsIsolated(Model, target);
        return map[];
      }
      RecordsHoldNeighbours(vertices[found.value]);
      result := vertices[found.value].GetSources();
    }

    /** targets: a copy of the source record's outgoing map, or the empty map when there is no
        such record. */
    method Targets(source: Label) returns (result: map<Label, int>)
      requires Valid()
      ensures result == GraphSpec.Targets(Model.edges, source)
    {
      var found := FindVertex(source);
      if found.None? {
        NamesHoldsEveryLabel(vertices, source);
        AbsentVertexIsIsolated(Model, source);
        return map[];
      }
      RecordsHoldNeighbours(vertices[found.value]);
      result := vertices[found.value].GetTargets();
    }
  }
}
