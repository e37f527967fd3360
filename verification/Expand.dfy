/** Expanding references along a path, a level of nodes at a time (core/expand.go). */
module Expand {
  import opened Common
  import opened Types
  import opened Store
  import opened Invariants
  import opened Reads
  import opened Query
  import opened Compile
  import opened Meaning
  import opened CompileCorrect

  const EXPAND_REF_LIMIT := 1000

  datatype ExpandError = BadPath | WrongType | TooManyEdges | NotSingle

  /** What a node's Expand holds under one key. */
  datatype Shown = One(id: int) | Many(ids: seq<int>)

  // ---------------------------------------------------------------- one relation

  /** resolveExpandRelation */
  function ResolveRelation(schema: Schema, typ: string, path: Path): Option<Resolved> {
    var r := ResolvePath(schema, path, typ);
    if (path.OutRefPath? || path.InRefPath?) && r.Ok? then Some(r.value) else None
  }

  lemma ResolvedRelation(schema: Schema, typ: string, path: Path)
    requires ResolveRelation(schema, typ, path).Some?
    ensures IsLink(ResolveRelation(schema, typ, path).value)
    ensures ResolvesOn(schema, typ, ResolveRelation(schema, typ, path).value)
  {
  }

  /** The edge is one of id's, as the edge queries select them. */
  predicate NearOf(e: Edge, r: Resolved, id: int)
    requires IsLink(r)
  {
    e.field == r.f.name
    && if Undirected(r.f) then e.symmetric && Touches(e, id) else if r.OutRef? then e.from == id else e.to == id
  }

  /** relationTargetID */
  function FarOf(e: Edge, r: Resolved, id: int): int
    requires IsLink(r)
  {
    if Undirected(r.f) then OtherEnd(e, id) else if r.OutRef? then e.to else e.from
  }

  function NearRows(edges: map<int, Edge>, r: Resolved, id: int): set<int>
    requires IsLink(r)
  {
    set k | k in edges && NearOf(edges[k], r, id)
  }

  function RowsFor(edges: map<int, Edge>, r: Resolved, ids: set<int>): set<int>
    requires IsLink(r)
  {
    set k | k in edges && exists id :: id in ids && NearOf(edges[k], r, id)
  }

  function FarEnds(edges: map<int, Edge>, r: Resolved, id: int, ks: seq<int>): (xs: seq<int>)
    requires IsLink(r) && forall i :: 0 <= i < |ks| ==> ks[i] in edges
    ensures |xs| == |ks| && forall i :: 0 <= i < |ks| ==> xs[i] == FarOf(edges[ks[i]], r, id)
  {
    seq(|ks|, i requires 0 <= i < |ks| && ks[i] in edges => FarOf(edges[ks[i]], r, id))
  }

  /** The nodes one node is linked to, in (sort, id) order of the edges. */
  ghost function ListOf(edges: map<int, Edge>, r: Resolved, id: int): seq<int>
    requires IsLink(r)
  {
    FarEnds(edges, r, id, Sorted(edges, NearRows(edges, r, id)))
  }

  ghost function NextIds(edges: map<int, Edge>, r: Resolved, ids: set<int>): set<int>
    requires IsLink(r)
  {
    set id, k | id in ids && k in NearRows(edges, r, id) :: FarOf(edges[k], r, id)
  }

  lemma ListHolds(edges: map<int, Edge>, r: Resolved, id: int, x: int)
    requires IsLink(r)
    ensures x in ListOf(edges, r, id)
      <==> exists k :: k in edges && NearOf(edges[k], r, id) && FarOf(edges[k], r, id) == x
  {
    var ks := Sorted(edges, NearRows(edges, r, id));
    if x in ListOf(edges, r, id) {
      var i :| 0 <= i < |ListOf(edges, r, id)| && ListOf(edges, r, id)[i] == x;
      var k := ks[i];
      assert k in Elements(ks) && k in NearRows(edges, r, id);
    }
    if k :| k in edges && NearOf(edges[k], r, id) && FarOf(edges[k], r, id) == x {
      assert k in NearRows(edges, r, id) && k in Elements(ks);
      var i :| 0 <= i < |ks| && ks[i] == k;
      assert ListOf(edges, r, id)[i] == x;
    }
  }

  /** Outwards, the expanded list is the list of references a read shows. */
  lemma ListIsRead(edges: map<int, Edge>, r: Resolved, id: int)
    requires r.OutRef?
    ensures ListOf(edges, r, id) == RefIds(edges, id, r.f)
  {
    forall k | k in edges ensures NearOf(edges[k], r, id) <==> RowOf(edges[k], id, r.f) {}
    SetsEqual(NearRows(edges, r, id), RowsOf(edges, id, r.f));
    var ks := Sorted(edges, RowsOf(edges, id, r.f));
    forall i | 0 <= i < |ks| ensures FarOf(edges[ks[i]], r, id) == OtherEnd(edges[ks[i]], id) {
      var k := ks[i];
      assert k in Elements(ks) && RowOf(edges[k], id, r.f);
    }
  }

  /** Either way, it holds exactly the linked nodes, once those of another type are ruled out. */
  lemma ListIsLinked(
    schema: Schema, nodes: map<int, Node>, edges: map<int, Edge>, typ: string, r: Resolved, id: int, x: int)
    requires ValidSchema(schema) && ValidEdges(schema, nodes, edges) && ResolvesOn(schema, typ, r)
    requires id in nodes && nodes[id].typ == typ
    ensures Linked(nodes, edges, r, id, x) <==> x in ListOf(edges, r, id) && x in nodes && nodes[x].typ == TargetOf(r)
  {
    ListHolds(edges, r, id, x);
    LinkedByEdge(nodes, edges, r, id, x);
    if Linked(nodes, edges, r, id, x) {
      LinkedHasTargetType(schema, nodes, edges, typ, r, id, x);
      var k :| k in edges && Leads(nodes, edges[k], r, id, x);
      LeadsIsNear(schema, nodes, edges, typ, r, id, k, x);
    }
    if k :| k in edges && NearOf(edges[k], r, id) && FarOf(edges[k], r, id) == x {
      if x in nodes && nodes[x].typ == TargetOf(r) {
        LeadsIsNear(schema, nodes, edges, typ, r, id, k, x);
      }
    }
  }

  lemma LeadsIsNear(
    schema: Schema, nodes: map<int, Node>, edges: map<int, Edge>, typ: string, r: Resolved, id: int, k: int, x: int)
    requires ValidSchema(schema) && ValidEdges(schema, nodes, edges) && ResolvesOn(schema, typ, r) && k in edges
    requires id in nodes && nodes[id].typ == typ && x in nodes && nodes[x].typ == TargetOf(r)
    ensures Leads(nodes, edges[k], r, id, x) <==> NearOf(edges[k], r, id) && FarOf(edges[k], r, id) == x
  {
    assert ValidEdge(schema, nodes, edges[k]);
    if Undirected(r.f) {
      UndirectedStaysInType(schema, nodes, edges[k]);
      UndirectedFieldIsOwn(schema, typ, r);
    }
  }

  // ---------------------------------------------------------------- whole paths

  /** An expansion from these nodes goes through: every level resolves, fits the limit and has targets of its type. */
  ghost predicate CanExpand(
    schema: Schema, nodes: map<int, Node>, edges: map<int, Edge>, ids: set<int>, typ: string, path: seq<Path>, at: nat)
    decreases |path| - at
  {
    at >= |path| || ids == {} ||
    match ResolveRelation(schema, typ, path[at])
    case None => false
    case Some(r) =>
      ResolvedRelation(schema, typ, path[at]);
      LevelFits(nodes, edges, ids, typ, r)
      && CanExpand(schema, nodes, edges, NextIds(edges, r, ids), TargetOf(r), path, at + 1)
  }

  predicate IsSingle(r: Resolved) { r.OutRef? && r.f.kind == Ref }

  ghost predicate LevelFits(nodes: map<int, Node>, edges: map<int, Edge>, ids: set<int>, typ: string, r: Resolved)
    requires IsLink(r)
  {
    && (forall id :: id in ids ==> id in nodes && nodes[id].typ == typ)
    && |RowsFor(edges, r, ids)| <= 1000
    && (forall x :: x in NextIds(edges, r, ids) && x in nodes ==> nodes[x].typ == TargetOf(r))
    && (IsSingle(r) ==> forall id :: id in ids ==> |ListOf(edges, r, id)| <= 1)
  }

  type Expanded = map<(nat, int), map<string, Shown>>

  function ExpandKey(path: Path): string {
    if path.InRefPath? then "<-" + path.source + "." + path.field else path.field
  }

  function ShownAt(e: Expanded, at: nat, id: int, key: string): Option<Shown> {
    if (at, id) in e && key in e[(at, id)] then Some(e[(at, id)][key]) else None
  }

  /** What a node shows under the key of a relation: its list, or its only target, or nothing. */
  ghost function ShownFor(edges: map<int, Edge>, r: Resolved, id: int): Option<Shown>
    requires IsLink(r)
  {
    var list := ListOf(edges, r, id);
    if !IsSingle(r) then Some(Many(list)) else if |list| == 1 then Some(One(list[0])) else None
  }

  /** Every node of every level of the path shows what it is linked to. */
  ghost predicate AllShown(
    schema: Schema, edges: map<int, Edge>, e: Expanded, ids: set<int>, typ: string, path: seq<Path>, at: nat)
    decreases |path| - at
  {
    at >= |path| || ids == {} ||
    match ResolveRelation(schema, typ, path[at])
    case None => false
    case Some(r) =>
      ResolvedRelation(schema, typ, path[at]);
      && (forall id :: id in ids ==> ShownAt(e, at, id, ExpandKey(path[at])) == ShownFor(edges, r, id))
      && AllShown(schema, edges, e, NextIds(edges, r, ids), TargetOf(r), path, at + 1)
  }

  /** Under the name of a reference field an expanded node shows what a read of the field lists, or its one target. */
  lemma OutwardsShowsReads(
    schema: Schema, edges: map<int, Edge>, e: Expanded, ids: set<int>, typ: string, path: seq<Path>, at: nat, id: int)
    requires AllShown(schema, edges, e, ids, typ, path, at) && at < |path| && id in ids && path[at].OutRefPath?
    ensures FieldOn(schema, typ, path[at].field).Some?
    ensures
      var (f, name) := (FieldOn(schema, typ, path[at].field).value, path[at].field);
      var list := RefIds(edges, id, f);
      && (f.kind == RefList ==> ShownAt(e, at, id, name) == Some(Many(list)))
      && (f.kind != RefList ==> ShownAt(e, at, id, name) == if |list| == 1 then Some(One(list[0])) else None)
  {
    var r := ResolveRelation(schema, typ, path[at]).value;
    ResolvedRelation(schema, typ, path[at]);
    ListIsRead(edges, r, id);
    hide ListOf, RefIds, AllShown;
  }

  /** Under "<-source.field" it shows the nodes of the source type that read it under the field. */
  lemma InwardsShowsReaders(
    schema: Schema, nodes: map<int, Node>, edges: map<int, Edge>, e: Expanded, ids: set<int>, typ: string,
    path: seq<Path>, at: nat, id: int)
    requires ValidSchema(schema) && ValidEdges(schema, nodes, edges) && id in nodes && nodes[id].typ == typ
    requires AllShown(schema, edges, e, ids, typ, path, at) && at < |path| && id in ids && path[at].InRefPath?
    ensures
      var (source, name) := (path[at].source, path[at].field);
      && FieldOn(schema, source, name).Some?
      && ShownAt(e, at, id, "<-" + source + "." + name).Some?
      && ShownAt(e, at, id, "<-" + source + "." + name).value.Many?
    ensures
      var (source, name) := (path[at].source, path[at].field);
      var shown := ShownAt(e, at, id, "<-" + source + "." + name).value.ids;
      forall x :: x in nodes && nodes[x].typ == source ==>
        (x in shown <==> id in RefIds(edges, x, FieldOn(schema, source, name).value))
  {
    var r := ResolveRelation(schema, typ, path[at]).value;
    ResolvedRelation(schema, typ, path[at]);
    assert ShownFor(edges, r, id) == Some(Many(ListOf(edges, r, id)));
    hide AllShown, ResolvesOn, ValidEdges, ValidSchema, ListOf, RefIds;
    forall x | x in nodes && nodes[x].typ == r.source
      ensures x in ListOf(edges, r, id) <==> id in RefIds(edges, x, r.f)
    {
      ListIsLinked(schema, nodes, edges, typ, r, id, x);
      RefersIffRead(edges, x, r.f, id);
    }
  }

  /** The nodes the levels reach: the image of the roots under the relations composed. */
  ghost predicate ReachedBy(
    schema: Schema, nodes: map<int, Node>, edges: map<int, Edge>, a: int, typ: string, path: seq<Path>, at: nat,
    steps: nat, x: int)
    decreases steps
  {
    if steps == 0 then x == a
    else
      at < |path| && ResolveRelation(schema, typ, path[at]).Some?
      && var r := ResolveRelation(schema, typ, path[at]).value;
         ResolvedRelation(schema, typ, path[at]);
         exists m :: Linked(nodes, edges, r, a, m)
           && ReachedBy(schema, nodes, edges, m, TargetOf(r), path, at + 1, steps - 1, x)
  }

  /** The nodes of the level that many steps on. */
  ghost function LevelAfter(
    schema: Schema, edges: map<int, Edge>, ids: set<int>, typ: string, path: seq<Path>, at: nat, steps: nat): set<int>
    decreases steps
  {
    if steps == 0 then ids
    else if at >= |path| || ResolveRelation(schema, typ, path[at]).None? then {}
    else
      var r := ResolveRelation(schema, typ, path[at]).value;
      ResolvedRelation(schema, typ, path[at]);
      LevelAfter(schema, edges, NextIds(edges, r, ids), TargetOf(r), path, at + 1, steps - 1)
  }

  lemma NextAreLinked(
    schema: Schema, nodes: map<int, Node>, edges: map<int, Edge>, ids: set<int>, typ: string, r: Resolved, x: int)
    requires ValidSchema(schema) && ValidEdges(schema, nodes, edges) && ResolvesOn(schema, typ, r)
    requires LevelFits(nodes, edges, ids, typ, r)
    ensures x in NextIds(edges, r, ids) <==> exists id :: id in ids && Linked(nodes, edges, r, id, x)
  {
    if x in NextIds(edges, r, ids) {
      var id, k :| id in ids && k in NearRows(edges, r, id) && x == FarOf(edges[k], r, id);
      assert ValidEdge(schema, nodes, edges[k]);
      ListHolds(edges, r, id, x);
      ListIsLinked(schema, nodes, edges, typ, r, id, x);
    }
    if id :| id in ids && Linked(nodes, edges, r, id, x) {
      ListIsLinked(schema, nodes, edges, typ, r, id, x);
      ListHolds(edges, r, id, x);
      var k :| k in edges && NearOf(edges[k], r, id) && FarOf(edges[k], r, id) == x;
      assert k in NearRows(edges, r, id);
    }
  }

  /** Level k of an expansion that goes through is exactly the k-fold image of the roots. */
  lemma {:induction false} LevelIsImage(
    schema: Schema, nodes: map<int, Node>, edges: map<int, Edge>, ids: set<int>, typ: string, path: seq<Path>, at: nat,
    steps: nat, x: int)
    requires ValidSchema(schema) && ValidEdges(schema, nodes, edges)
    requires CanExpand(schema, nodes, edges, ids, typ, path, at)
    requires at + steps <= |path|
    ensures x in LevelAfter(schema, edges, ids, typ, path, at, steps)
      <==> exists a :: a in ids && ReachedBy(schema, nodes, edges, a, typ, path, at, steps, x)
    decreases steps
  {
    hide *;
    if steps == 0 {
      NoSteps(schema, nodes, edges, ids, typ, path, at, x);
    } else if ids == {} {
      NothingAfter(schema, edges, typ, path, at, steps);
    } else {
      var r := LevelUnfolds(schema, nodes, edges, ids, typ, path, at, steps);
      var next := NextIds(edges, r, ids);
      LevelIsImage(schema, nodes, edges, next, TargetOf(r), path, at + 1, steps - 1, x);
      ImageStep(schema, nodes, edges, ids, typ, r, path, at, steps, x);
    }
  }

  lemma NoSteps(
    schema: Schema, nodes: map<int, Node>, edges: map<int, Edge>, ids: set<int>, typ: string, path: seq<Path>, at: nat,
    x: int)
    ensures x in LevelAfter(schema, edges, ids, typ, path, at, 0)
      <==> exists a :: a in ids && ReachedBy(schema, nodes, edges, a, typ, path, at, 0, x)
  {
    if x in ids { assert ReachedBy(schema, nodes, edges, x, typ, path, at, 0, x); }
  }

  lemma LevelUnfolds(
    schema: Schema, nodes: map<int, Node>, edges: map<int, Edge>, ids: set<int>, typ: string, path: seq<Path>, at: nat,
    steps: nat)
    returns (r: Resolved)
    requires CanExpand(schema, nodes, edges, ids, typ, path, at) && at < |path| && ids != {} && steps > 0
    ensures ResolveRelation(schema, typ, path[at]) == Some(r) && IsLink(r) && ResolvesOn(schema, typ, r)
    ensures LevelFits(nodes, edges, ids, typ, r)
    ensures CanExpand(schema, nodes, edges, NextIds(edges, r, ids), TargetOf(r), path, at + 1)
    ensures LevelAfter(schema, edges, ids, typ, path, at, steps)
      == LevelAfter(schema, edges, NextIds(edges, r, ids), TargetOf(r), path, at + 1, steps - 1)
  {
    hide ResolveRelation, LevelFits, ResolvesOn, NextIds;
    r := ResolveRelation(schema, typ, path[at]).value;
    ResolvedRelation(schema, typ, path[at]);
  }

  lemma ImageStep(
    schema: Schema, nodes: map<int, Node>, edges: map<int, Edge>, ids: set<int>, typ: string, r: Resolved,
    path: seq<Path>, at: nat, steps: nat, x: int)
    requires ValidSchema(schema) && ValidEdges(schema, nodes, edges) && at < |path| && steps > 0
    requires ResolveRelation(schema, typ, path[at]) == Some(r) && IsLink(r) && ResolvesOn(schema, typ, r)
    requires LevelFits(nodes, edges, ids, typ, r)
    ensures (exists a :: a in ids && ReachedBy(schema, nodes, edges, a, typ, path, at, steps, x))
      <==> exists m ::
             m in NextIds(edges, r, ids) && ReachedBy(schema, nodes, edges, m, TargetOf(r), path, at + 1, steps - 1, x)
  {
    hide LevelFits, Linked, ResolvesOn, ValidEdges, ValidSchema, ResolveRelation, NextIds;
    if a :| a in ids && ReachedBy(schema, nodes, edges, a, typ, path, at, steps, x) {
      var m :| Linked(nodes, edges, r, a, m)
        && ReachedBy(schema, nodes, edges, m, TargetOf(r), path, at + 1, steps - 1, x);
      NextAreLinked(schema, nodes, edges, ids, typ, r, m);
    }
    if m :| m in NextIds(edges, r, ids) && ReachedBy(schema, nodes, edges, m, TargetOf(r), path, at + 1, steps - 1, x) {
      NextAreLinked(schema, nodes, edges, ids, typ, r, m);
      var a :| a in ids && Linked(nodes, edges, r, a, m);
      assert ReachedBy(schema, nodes, edges, a, typ, path, at, steps, x);
    }
  }

  lemma {:induction false} NothingAfter(
    schema: Schema, edges: map<int, Edge>, typ: string, path: seq<Path>, at: nat, steps: nat)
    ensures LevelAfter(schema, edges, {}, typ, path, at, steps) == {}
    decreases steps
  {
    if steps > 0 && at < |path| && ResolveRelation(schema, typ, path[at]).Some? {
      var r := ResolveRelation(schema, typ, path[at]).value;
      ResolvedRelation(schema, typ, path[at]);
      NoneNext(edges, r);
      NothingAfter(schema, edges, TargetOf(r), path, at + 1, steps - 1);
    }
  }

  lemma NextNeedsOne(edges: map<int, Edge>, r: Resolved, ids: set<int>, x: int)
    requires IsLink(r) && x in NextIds(edges, r, ids)
    ensures exists id :: id in ids
  {
    var id, k :| id in ids && k in NearRows(edges, r, id) && x == FarOf(edges[k], r, id);
  }

  lemma NoneNext(edges: map<int, Edge>, r: Resolved)
    requires IsLink(r)
    ensures NextIds(edges, r, {}) == {}
  {
    var s := NextIds(edges, r, {});
    if s != {} {
      NextNeedsOne(edges, r, {}, AnElement(s));
    }
  }
}
