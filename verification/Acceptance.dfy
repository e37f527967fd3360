/**
 * Exactly which creates and patches go through: what the caller sends decides it together with what the
 * store's reads show, and the order in which the fields are walked does not matter (core/node_sql.go,
 * addEdges and insertEdge in core/edge.go).
 */
module Acceptance {
  import opened Common
  import opened Types
  import opened Graph
  import opened Store
  import opened Invariants
  import opened Reads
  import opened RoundTrip
  import opened Required
  import opened StaleEdges
  import opened Contents
  import opened EdgeWrites

  // ---------------------------------------------------------------- the targets of one field

  /** Targets a node without references under the field may be given: each once, eligible, and with room for it. */
  ghost predicate CanTake(
    nodes: map<int, Node>, edges: map<int, Edge>, td: TypeDef, f: FieldDef, from: int, ids: seq<int>) {
    forall i :: 0 <= i < |ids| ==>
      && ids[i] !in ids[..i] && Eligible(nodes, edges, td, f, from, ids[i])
      && (f.kind == Ref && Undirected(f) ==> RefIds(edges, ids[i], f) == [])
  }

  /** Of a list, from position pos on. */
  ghost predicate RestFits(
    nodes: map<int, Node>, edges: map<int, Edge>, td: TypeDef, f: FieldDef, from: int, ids: seq<int>, pos: nat) {
    forall i :: pos <= i < |ids| ==> ids[i] !in ids[..i] && Eligible(nodes, edges, td, f, from, ids[i])
  }

  /** One more reference leaves the other targets as eligible as they were. */
  lemma InsertKeepsEligible(
    schema: Schema, db: DB, f: FieldDef, from: int, to: int, sort: int, k: int, x: int)
    requires ValidSchema(schema) && from in db.nodes && db.nodes[from].typ in schema && k !in db.edges
    requires f in schema[db.nodes[from].typ].fields && f.kind == RefList
    ensures
      var td := schema[db.nodes[from].typ];
      Eligible(db.nodes, db.edges[k := Stored(f, from, to, sort)], td, f, from, x)
      <==> Eligible(db.nodes, db.edges, td, f, from, x)
  {
    var typ, e := db.nodes[from].typ, Stored(f, from, to, sort);
    var td := schema[typ];
    TypeIsNamed(schema, typ);
    if Hierarchical(td, f) {
      HierarchicalListIsDirected(schema, typ, f);
      FieldGraphInsert(db.nodes, db.edges, k, e, typ, f.name);
      hide ValidSchema, Hierarchical, FieldGraph;
      OwnEdgesDoNotMatter(FieldGraph(db.nodes, db.edges[k := e], typ, f.name),
        FieldGraph(db.nodes, db.edges, typ, f.name), x, from);
    }
  }

  lemma HierarchicalListIsDirected(schema: Schema, typ: string, f: FieldDef)
    requires ValidSchema(schema) && typ in schema && f in schema[typ].fields
    requires f.kind == RefList && Hierarchical(schema[typ], f)
    ensures !Undirected(f)
  {
    assert ValidTypeDef(schema, typ, schema[typ]);
    OneName(schema, typ, f);
  }

  /** The targets of a list are taken one after the other exactly when each is eligible and none comes twice. */
  lemma {:induction false} ListSucceedsIff(schema: Schema, db: DB, f: FieldDef, from: int, ids: seq<int>, pos: nat)
    requires ValidSchema(schema) && ValidEdges(schema, db.nodes, db.edges) && from in db.nodes && pos <= |ids|
    requires db.nodes[from].typ in schema && f in schema[db.nodes[from].typ].fields && f.kind == RefList
    requires forall x :: x in RefIds(db.edges, from, f) <==> x in ids[..pos]
    ensures AddTargets(db, schema[db.nodes[from].typ], f, from, ids, pos).Ok?
      <==> RestFits(db.nodes, db.edges, schema[db.nodes[from].typ], f, from, ids, pos)
    decreases |ids| - pos
  {
    hide *;
    var td := schema[db.nodes[from].typ];
    RestFitsStep(db.nodes, db.edges, td, f, from, ids, pos);
    ListIsRef(f);
    AddTargetsStep(db, td, f, from, ids, pos);
    if pos < |ids| {
      InsertSucceedsIff(schema, db, f, from, ids[pos], pos);
      TakenIsListed(db.edges, f, from, ids, pos);
      if ids[pos] !in ids[..pos] && InsertEdge(db, td, f, from, ids[pos], pos).Ok? {
        var mid := InsertIs(schema, db, f, from, ids[pos], pos);
        MidListed(db, f, from, ids, pos, mid);
        ListSucceedsIff(schema, mid, f, from, ids, pos + 1);
        forall x ensures Eligible(mid.nodes, mid.edges, td, f, from, x)
          <==> Eligible(db.nodes, db.edges, td, f, from, x)
        {
          InsertKeepsEligible(schema, db, f, from, ids[pos], pos, NextId(db.edges.Keys), x);
        }
        SameRest(mid, db, td, f, from, ids, pos + 1);
      }
    }
  }

  lemma RestFitsStep(
    nodes: map<int, Node>, edges: map<int, Edge>, td: TypeDef, f: FieldDef, from: int, ids: seq<int>, pos: nat)
    requires pos <= |ids|
    ensures pos == |ids| ==> RestFits(nodes, edges, td, f, from, ids, pos)
    ensures pos < |ids| ==>
      (RestFits(nodes, edges, td, f, from, ids, pos)
       <==> && ids[pos] !in ids[..pos] && Eligible(nodes, edges, td, f, from, ids[pos])
            && RestFits(nodes, edges, td, f, from, ids, pos + 1))
  {
    hide Eligible;
  }

  lemma SameRest(a: DB, b: DB, td: TypeDef, f: FieldDef, from: int, ids: seq<int>, pos: nat)
    requires forall x :: Eligible(a.nodes, a.edges, td, f, from, x) <==> Eligible(b.nodes, b.edges, td, f, from, x)
    ensures RestFits(a.nodes, a.edges, td, f, from, ids, pos) <==> RestFits(b.nodes, b.edges, td, f, from, ids, pos)
  {
    hide Eligible;
  }

  lemma AddTargetsStep(db: DB, td: TypeDef, f: FieldDef, from: int, ids: seq<int>, pos: nat)
    requires pos <= |ids|
    ensures pos == |ids| ==> AddTargets(db, td, f, from, ids, pos) == Ok(db)
    ensures pos < |ids| ==>
      var one := InsertEdge(db, td, f, from, ids[pos], pos);
      (AddTargets(db, td, f, from, ids, pos).Ok?
       <==> ids[pos] !in ids[..pos] && one.Ok? && AddTargets(one.value, td, f, from, ids, pos + 1).Ok?)
  {
    hide InsertEdge;
  }

  lemma InsertIs(schema: Schema, db: DB, f: FieldDef, from: int, to: int, sort: int) returns (mid: DB)
    requires ValidSchema(schema) && ValidEdges(schema, db.nodes, db.edges) && from in db.nodes
    requires db.nodes[from].typ in schema && f in schema[db.nodes[from].typ].fields && IsRefKind(f.kind)
    requires InsertEdge(db, schema[db.nodes[from].typ], f, from, to, sort).Ok?
    ensures InsertEdge(db, schema[db.nodes[from].typ], f, from, to, sort) == Ok(mid)
    ensures mid == db.(edges := db.edges[NextId(db.edges.Keys) := Stored(f, from, to, sort)])
    ensures NextId(db.edges.Keys) !in db.edges && ValidEdges(schema, mid.nodes, mid.edges)
  {
    mid := db.(edges := db.edges[NextId(db.edges.Keys) := Stored(f, from, to, sort)]);
    InsertedEdgeIsValid(schema, db, f, from, to, sort);
    hide ValidEdge, Stored, InsertError, ValidSchema;
  }

  lemma TakenIsListed(edges: map<int, Edge>, f: FieldDef, from: int, ids: seq<int>, pos: nat)
    requires pos < |ids| && f.kind == RefList && forall x :: x in RefIds(edges, from, f) <==> x in ids[..pos]
    ensures Taken(edges, f, from, ids[pos]) <==> ids[pos] in ids[..pos]
  {
    hide RefIds;
  }

  lemma RefersInsert(edges: map<int, Edge>, k: int, e: Edge, n: int, f: FieldDef, x: int)
    requires k !in edges
    ensures Refers(edges[k := e], n, f, x) <==> Refers(edges, n, f, x) || (RowOf(e, n, f) && OtherEnd(e, n) == x)
  {
    hide RowOf, OtherEnd;
    var after := edges[k := e];
    assert after[k] == e;
    if Refers(edges, n, f, x) {
      var j :| j in edges && RowOf(edges[j], n, f) && OtherEnd(edges[j], n) == x;
      assert after[j] == edges[j];
    }
  }

  lemma MidListed(db: DB, f: FieldDef, from: int, ids: seq<int>, pos: nat, mid: DB)
    requires pos < |ids| && NextId(db.edges.Keys) !in db.edges
    requires mid.edges == db.edges[NextId(db.edges.Keys) := Stored(f, from, ids[pos], pos)]
    requires forall x :: x in RefIds(db.edges, from, f) <==> x in ids[..pos]
    ensures forall x :: x in RefIds(mid.edges, from, f) <==> x in ids[..pos + 1]
  {
    StoredReads(f, from, ids[pos], pos);
    assert ids[..pos + 1] == ids[..pos] + [ids[pos]];
    hide *;
    forall x ensures x in RefIds(mid.edges, from, f) <==> x in ids[..pos + 1] {
      RefersInsert(db.edges, NextId(db.edges.Keys), Stored(f, from, ids[pos], pos), from, f, x);
      RefersIffRead(db.edges, from, f, x);
      RefersIffRead(mid.edges, from, f, x);
    }
  }

  /** The targets of one field are taken exactly when it can take them. */
  lemma FieldSucceedsIff(schema: Schema, db: DB, f: FieldDef, from: int, v: Value)
    requires ValidSchema(schema) && ValidEdges(schema, db.nodes, db.edges) && from in db.nodes
    requires db.nodes[from].typ in schema && f in schema[db.nodes[from].typ].fields && IsRefKind(f.kind)
    requires RefIds(db.edges, from, f) == [] && TargetIds(f, v).Some?
    ensures AddTargets(db, schema[db.nodes[from].typ], f, from, TargetIds(f, v).value, 0).Ok?
      <==> CanTake(db.nodes, db.edges, schema[db.nodes[from].typ], f, from, TargetIds(f, v).value)
  {
    var td, ids := schema[db.nodes[from].typ], TargetIds(f, v).value;
    hide *;
    if f.kind == RefList {
      ListSucceedsIff(schema, db, f, from, ids, 0);
      ListCanTake(db.nodes, db.edges, td, f, from, ids);
    } else {
      NotAList(f);
      OneTarget(f, v);
      AddTargetsStep(db, td, f, from, ids, 0);
      InsertSucceedsIff(schema, db, f, from, ids[0], 0);
      OneCanTake(db.nodes, db.edges, td, f, from, ids);
      if InsertEdge(db, td, f, from, ids[0], 0).Ok? {
        AddTargetsStep(InsertEdge(db, td, f, from, ids[0], 0).value, td, f, from, ids, 1);
      }
    }
  }

  lemma ListIsRef(f: FieldDef)
    ensures f.kind == RefList ==> IsRefKind(f.kind)
  {
  }

  lemma NotAList(f: FieldDef)
    requires IsRefKind(f.kind) && f.kind != RefList
    ensures f.kind == Ref
  {
  }

  lemma OneTarget(f: FieldDef, v: Value)
    requires f.kind == Ref && TargetIds(f, v).Some?
    ensures |TargetIds(f, v).value| == 1
  {
  }

  lemma ListCanTake(nodes: map<int, Node>, edges: map<int, Edge>, td: TypeDef, f: FieldDef, from: int, ids: seq<int>)
    requires f.kind == RefList
    ensures CanTake(nodes, edges, td, f, from, ids) <==> RestFits(nodes, edges, td, f, from, ids, 0)
  {
    hide Eligible, RefIds;
  }

  lemma OneCanTake(nodes: map<int, Node>, edges: map<int, Edge>, td: TypeDef, f: FieldDef, from: int, ids: seq<int>)
    requires f.kind == Ref && |ids| == 1 && RefIds(edges, from, f) == []
    ensures CanTake(nodes, edges, td, f, from, ids)
      <==> Eligible(nodes, edges, td, f, from, ids[0]) && !Taken(edges, f, from, ids[0])
  {
    hide Eligible, RefIds;
    if CanTake(nodes, edges, td, f, from, ids) { assert ids[0] !in ids[..0]; }
  }

  // ---------------------------------------------------------------- every field

  /** The value names targets its field can take. */
  ghost predicate ValueFits(nodes: map<int, Node>, edges: map<int, Edge>, td: TypeDef, from: int, k: string, v: Value) {
    v != Null ==>
      && IsRefName(td, k) && TargetIds(FieldByName(td.fields, k).value, v).Some?
      && CanTake(nodes, edges, td, FieldByName(td.fields, k).value, from,
           TargetIds(FieldByName(td.fields, k).value, v).value)
  }

  /** The node has no reference under the field. */
  ghost predicate Unused(edges: map<int, Edge>, td: TypeDef, from: int, k: string) {
    IsRefName(td, k) && RefIds(edges, from, FieldByName(td.fields, k).value) == []
  }

  lemma UnusedIs(edges: map<int, Edge>, td: TypeDef, from: int, k: string)
    ensures Unused(edges, td, from, k)
      <==>
      && IsRefName(td, k) && FieldByName(td.fields, k).Some?
      && RefIds(edges, from, FieldByName(td.fields, k).value) == []
  {
    hide RefIds;
  }

  lemma EdgesOfGraph(schema: Schema, nodes: map<int, Node>, edges: map<int, Edge>)
    requires ValidGraph(schema, nodes, edges)
    ensures ValidEdges(schema, nodes, edges)
  {
  }

  /** The rows of one field name are the same in both tables. */
  predicate SameUnder(a: map<int, Edge>, b: map<int, Edge>, name: string) {
    && (forall k :: k in a && a[k].field == name ==> k in b && b[k] == a[k])
    && (forall k :: k in b && b[k].field == name ==> k in a && a[k] == b[k])
  }

  lemma SameReads(a: map<int, Edge>, b: map<int, Edge>, f: FieldDef, n: int)
    requires SameUnder(a, b, f.name)
    ensures RefIds(a, n, f) == RefIds(b, n, f)
  {
    forall k ensures k in RowsOf(a, n, f) <==> k in RowsOf(b, n, f) {}
    RefIdsFrame(a, b, n, f);
  }

  lemma SameEligible(
    nodes: map<int, Node>, a: map<int, Edge>, b: map<int, Edge>, td: TypeDef, f: FieldDef, from: int, x: int)
    requires SameUnder(a, b, f.name)
    ensures Eligible(nodes, a, td, f, from, x) <==> Eligible(nodes, b, td, f, from, x)
  {
    hide Reach, Hierarchical;
    SubGraph(nodes, a, b, td.name, f.name);
    SubGraph(nodes, b, a, td.name, f.name);
    assert FieldGraph(nodes, a, td.name, f.name) == FieldGraph(nodes, b, td.name, f.name);
  }

  lemma SubGraph(nodes: map<int, Node>, a: map<int, Edge>, b: map<int, Edge>, typ: string, name: string)
    requires SameUnder(a, b, name)
    ensures FieldGraph(nodes, a, typ, name) <= FieldGraph(nodes, b, typ, name)
  {
    forall p | p in FieldGraph(nodes, a, typ, name) ensures p in FieldGraph(nodes, b, typ, name) {
      var k :| k in a && a[k].field == name && a[k].from in nodes && nodes[a[k].from].typ == typ
        && p == (a[k].from, a[k].to);
      assert k in b && b[k] == a[k];
    }
  }

  lemma SameFits(
    nodes: map<int, Node>, a: map<int, Edge>, b: map<int, Edge>, td: TypeDef, from: int, k: string, v: Value)
    requires SameUnder(a, b, k)
    ensures ValueFits(nodes, a, td, from, k, v) <==> ValueFits(nodes, b, td, from, k, v)
  {
    if v != Null && IsRefName(td, k) {
      var f := FieldByName(td.fields, k).value;
      hide SameUnder, Eligible, RefIds, TargetIds;
      forall x ensures Eligible(nodes, a, td, f, from, x) <==> Eligible(nodes, b, td, f, from, x) {
        SameEligible(nodes, a, b, td, f, from, x);
      }
      forall n ensures RefIds(a, n, f) == RefIds(b, n, f) { SameReads(a, b, f, n); }
    }
  }

  lemma FieldAdds(db: DB, td: TypeDef, f: FieldDef, from: int, ids: seq<int>, next: DB, other: string)
    requires AddTargets(db, td, f, from, ids, 0) == Ok(next) && f.name != other
    ensures SameUnder(db.edges, next.edges, other)
  {
    AddTargetsPlaces(db, td, f, from, ids, 0, next);
    var base := NextId(db.edges.Keys);
    PlacedRows(db.edges, f, from, ids, 0, base);
    forall k | k in next.edges && k !in db.edges ensures next.edges[k].field == f.name {
      assert next.edges[k] == Stored(f, from, ids[k - base], k - base);
    }
  }

  lemma HeadOf(order: seq<string>)
    requires order != [] && Distinct(order)
    ensures Distinct(order[1..]) && order[0] !in order[1..]
    ensures forall k :: k in order <==> k == order[0] || k in order[1..]
  {
    assert order == [order[0]] + order[1..];
  }

  lemma RefNameIs(td: TypeDef, k: string)
    requires IsRefName(td, k)
    ensures FieldByName(td.fields, k).Some?
    ensures
      var f := FieldByName(td.fields, k).value;
      f in td.fields && f.name == k && IsRefKind(f.kind)
  {
  }

  lemma FitsIs(db: DB, td: TypeDef, from: int, k: string, v: Value)
    requires IsRefName(td, k) && FieldByName(td.fields, k).Some?
    ensures
      var f := FieldByName(td.fields, k).value;
      ValueFits(db.nodes, db.edges, td, from, k, v)
      <==> (v != Null ==>
              TargetIds(f, v).Some? && CanTake(db.nodes, db.edges, td, f, from, TargetIds(f, v).value))
  {
    hide CanTake, TargetIds;
  }

  lemma AddEdgesStep(db: DB, td: TypeDef, from: int, refs: Fields, order: seq<string>)
    requires forall k :: k in order ==> k in refs && Unused(db.edges, td, from, k)
    ensures order == [] ==> AddEdges(db, td, from, refs, order) == Ok(db)
    ensures order != [] ==> order[0] in refs && FieldByName(td.fields, order[0]).Some?
    ensures order != [] ==>
      var (v, f) := (refs[order[0]], FieldByName(td.fields, order[0]).value);
      var all, rest := AddEdges(db, td, from, refs, order), order[1..];
      && (forall k :: k in rest ==> k in refs)
      && (v == Null ==> all == AddEdges(db, td, from, refs, rest))
      && (v != Null ==>
            (all.Ok?
             <==> && TargetIds(f, v).Some? && AddTargets(db, td, f, from, TargetIds(f, v).value, 0).Ok?
                  && AddEdges(AddTargets(db, td, f, from, TargetIds(f, v).value, 0).value, td, from, refs, rest).Ok?))
  {
    hide AddTargets, TargetIds, RefIds;
    if order != [] { assert order[0] in order && Unused(db.edges, td, from, order[0]); }
  }

  /**
   * The references of a node are added exactly when each value fits by itself, in whatever order the fields are
   * walked.
   */
  lemma {:induction false} AddSucceedsForAllIff(schema: Schema, db: DB, from: int, refs: Fields, order: seq<string>)
    requires ValidSchema(schema) && ValidGraph(schema, db.nodes, db.edges) && from in db.nodes
    requires db.nodes[from].typ in schema && Distinct(order)
    requires forall k :: k in order ==> k in refs && Unused(db.edges, schema[db.nodes[from].typ], from, k)
    ensures AddEdges(db, schema[db.nodes[from].typ], from, refs, order).Ok?
      <==> forall k :: k in order ==> ValueFits(db.nodes, db.edges, schema[db.nodes[from].typ], from, k, refs[k])
    decreases |order|
  {
    hide *;
    var td := schema[db.nodes[from].typ];
    EdgesOfGraph(schema, db.nodes, db.edges);
    AddEdgesStep(db, td, from, refs, order);
    if order != [] {
      var name, rest := order[0], order[1..];
      HeadOf(order);
      UnusedIs(db.edges, td, from, name);
      RefNameIs(td, name);
      var f := FieldByName(td.fields, name).value;
      FitsIs(db, td, from, name, refs[name]);
      if refs[name] == Null {
        AddSucceedsForAllIff(schema, db, from, refs, rest);
      } else if TargetIds(f, refs[name]).Some? {
        FieldSucceedsIff(schema, db, f, from, refs[name]);
        var ids := TargetIds(f, refs[name]).value;
        if AddTargets(db, td, f, from, ids, 0).Ok? {
          var mid := AddTargets(db, td, f, from, ids, 0).value;
          AddTargetsKeepsGraph(schema, db, f, from, ids, 0, mid);
          forall k | k in rest
            ensures Unused(mid.edges, td, from, k)
            ensures ValueFits(mid.nodes, mid.edges, td, from, k, refs[k])
              <==> ValueFits(db.nodes, db.edges, td, from, k, refs[k])
          {
            UnusedIs(db.edges, td, from, k);
            UnusedIs(mid.edges, td, from, k);
            RefNameIs(td, k);
            FieldAdds(db, td, f, from, ids, mid, k);
            SameReads(db.edges, mid.edges, FieldByName(td.fields, k).value, from);
            SameFits(db.nodes, db.edges, mid.edges, td, from, k, refs[k]);
          }
          AddSucceedsForAllIff(schema, mid, from, refs, rest);
        }
      }
    }
  }

  // ---------------------------------------------------------------- which patches go through

  /**
   * A target a patch may give to a field of the node, whatever the field held: of the right type; not the node
   * itself and not above it, where that is ruled out; and without a partner other than the node, where it can
   * have only one.
   */
  ghost predicate PatchTarget(
    nodes: map<int, Node>, edges: map<int, Edge>, td: TypeDef, f: FieldDef, id: int, t: int) {
    && t in nodes && nodes[t].typ == f.to
    && (Undirected(f) || Hierarchical(td, f) ==> t != id)
    && (Hierarchical(td, f) && !Undirected(f) ==> !Reach(FieldGraph(nodes, edges, td.name, f.name), t, id))
    && (f.kind == Ref && Undirected(f) ==> forall x :: x in RefIds(edges, t, f) ==> x == id)
  }

  /** The same targets seen from the table in which the node's fields are cleared. */
  ghost predicate ClearedTarget(
    nodes: map<int, Node>, edges: map<int, Edge>, td: TypeDef, f: FieldDef, id: int, t: int) {
    Eligible(nodes, edges, td, f, id, t) && (f.kind == Ref && Undirected(f) ==> RefIds(edges, t, f) == [])
  }

  lemma ClearedTargetIff(
    schema: Schema, db: DB, nodes: map<int, Node>, td: TypeDef, names: set<string>, f: FieldDef, id: int, t: int)
    requires ValidSchema(schema) && ValidEdges(schema, db.nodes, db.edges) && id in db.nodes
    requires db.nodes[id].typ in schema && td == schema[db.nodes[id].typ] && f in td.fields && IsRefKind(f.kind)
    requires f.name in names
    requires nodes.Keys == db.nodes.Keys && forall n :: n in nodes ==> nodes[n].typ == db.nodes[n].typ
    ensures ClearedTarget(nodes, ClearFields(db.edges, id, td, names), td, f, id, t)
      <==> PatchTarget(db.nodes, db.edges, td, f, id, t)
  {
    hide *;
    var cleared := ClearFields(db.edges, id, td, names);
    OneName(schema, db.nodes[id].typ, f);
    TypeIsNamed(schema, db.nodes[id].typ);
    TargetsUnfold(db.nodes, db.edges, nodes, cleared, td, f, id, t);
    if t in db.nodes && db.nodes[t].typ == f.to && (Undirected(f) ==> t != id) {
      if Undirected(f) {
        UndirectedStaysHome(schema, db.nodes[id].typ, f);
        OnlyPartner(schema, db, td, names, f, id, t);
        if Hierarchical(td, f) {
          HierarchicalIsSingle(schema, db.nodes[id].typ, f);
          if RefIds(cleared, t, f) == [] { AloneReachesNothing(schema, db, nodes, td, names, f, id, t); }
        }
      } else {
        ClearedGraph(db.nodes, db.edges, nodes, td, names, f, id, t);
      }
    }
  }

  lemma TargetsUnfold(
    nodes: map<int, Node>, edges: map<int, Edge>, nodes': map<int, Node>, cleared: map<int, Edge>, td: TypeDef,
    f: FieldDef, id: int, t: int)
    requires nodes'.Keys == nodes.Keys && forall n :: n in nodes' ==> nodes'[n].typ == nodes[n].typ
    ensures ClearedTarget(nodes', cleared, td, f, id, t)
      <==> && t in nodes && nodes[t].typ == f.to && (Undirected(f) || Hierarchical(td, f) ==> t != id)
           && (Hierarchical(td, f) ==> !Reach(FieldGraph(nodes', cleared, td.name, f.name), t, id))
           && (f.kind == Ref && Undirected(f) ==> RefIds(cleared, t, f) == [])
    ensures PatchTarget(nodes, edges, td, f, id, t)
      <==> && t in nodes && nodes[t].typ == f.to && (Undirected(f) || Hierarchical(td, f) ==> t != id)
           && (Hierarchical(td, f) && !Undirected(f) ==> !Reach(FieldGraph(nodes, edges, td.name, f.name), t, id))
           && (f.kind == Ref && Undirected(f) ==> forall x :: x in RefIds(edges, t, f) ==> x == id)
  {
    hide Reach, FieldGraph, RefIds, Hierarchical, Undirected;
  }

  lemma HierarchicalIsSingle(schema: Schema, typ: string, f: FieldDef)
    requires ValidSchema(schema) && typ in schema && f in schema[typ].fields && IsRefKind(f.kind)
    requires Hierarchical(schema[typ], f) && Undirected(f)
    ensures f.kind == Ref
  {
    assert ValidTypeDef(schema, typ, schema[typ]);
    OneName(schema, typ, f);
  }

  /** After clearing, a node has no partner exactly when the cleared node was the only one. */
  lemma OnlyPartner(
    schema: Schema, db: DB, td: TypeDef, names: set<string>, f: FieldDef, id: int, t: int)
    requires FieldByName(td.fields, f.name) == Some(f) && f.name in names && Undirected(f) && t != id
    ensures RefIds(ClearFields(db.edges, id, td, names), t, f) == []
      <==> forall x :: x in RefIds(db.edges, t, f) ==> x == id
  {
    var cleared := ClearFields(db.edges, id, td, names);
    if RefIds(cleared, t, f) == [] {
      forall x | x in RefIds(db.edges, t, f) ensures x == id {
        RefersIffRead(db.edges, t, f, x);
        var k :| k in db.edges && RowOf(db.edges[k], t, f) && OtherEnd(db.edges[k], t) == x;
        if k in cleared { RowMeansRead(cleared, t, f, k); }
      }
    } else {
      var k := SomeRow(cleared, t, f);
      assert !ClearedByAny(db.edges[k], id, td, names);
      RowMeansRead(db.edges, t, f, k);
      assert OtherEnd(db.edges[k], t) != id;
    }
  }

  lemma AloneReachesNothing(
    schema: Schema, db: DB, nodes: map<int, Node>, td: TypeDef, names: set<string>, f: FieldDef, id: int, t: int)
    requires ValidEdges(schema, db.nodes, db.edges) && t in db.nodes && t != id && Undirected(f)
    requires db.nodes[t].typ in schema && FieldByName(schema[db.nodes[t].typ].fields, f.name) == Some(f)
    requires RefIds(ClearFields(db.edges, id, td, names), t, f) == []
    ensures !Reach(FieldGraph(nodes, ClearFields(db.edges, id, td, names), td.name, f.name), t, id)
  {
    var cleared := ClearFields(db.edges, id, td, names);
    var g := FieldGraph(nodes, cleared, td.name, f.name);
    forall e | e in g ensures e.0 != t {
      var k :| k in cleared && cleared[k].field == f.name && cleared[k].from in nodes
               && nodes[cleared[k].from].typ == td.name && e == (cleared[k].from, cleared[k].to);
      assert ValidEdge(schema, db.nodes, db.edges[k]);
      if e.0 == t { RowMeansRead(cleared, t, f, k); }
    }
    SinkReachesOnlyItself(g, t, id);
  }

  /** Clearing a directed field takes away edges out of the node only, which make no difference to what reaches it. */
  lemma ClearedGraph(
    nodes: map<int, Node>, edges: map<int, Edge>, nodes': map<int, Node>, td: TypeDef, names: set<string>,
    f: FieldDef, id: int, t: int)
    requires nodes'.Keys == nodes.Keys && forall n :: n in nodes' ==> nodes'[n].typ == nodes[n].typ
    requires FieldByName(td.fields, f.name) == Some(f) && !Undirected(f)
    ensures Reach(FieldGraph(nodes', ClearFields(edges, id, td, names), td.name, f.name), t, id)
      <==> Reach(FieldGraph(nodes, edges, td.name, f.name), t, id)
  {
    var cleared := ClearFields(edges, id, td, names);
    var g, h := FieldGraph(nodes, edges, td.name, f.name), FieldGraph(nodes', cleared, td.name, f.name);
    forall e | e in h ensures e in g {
      var k :| k in cleared && cleared[k].field == f.name && cleared[k].from in nodes'
               && nodes'[cleared[k].from].typ == td.name && e == (cleared[k].from, cleared[k].to);
      assert k in edges && edges[k] == cleared[k];
    }
    forall e | e in g ensures e in h || e.0 == id {
      var k :| k in edges && edges[k].field == f.name && edges[k].from in nodes
               && nodes[edges[k].from].typ == td.name && e == (edges[k].from, edges[k].to);
      if e.0 != id {
        assert !ClearedByAny(edges[k], id, td, names);
        assert k in cleared && cleared[k] == edges[k];
      }
    }
    OwnEdgesDoNotMatter(g, h, t, id);
  }

  /** The value names distinct targets, each of which a patch may give to the field. */
  ghost predicate PatchTakes(
    nodes: map<int, Node>, edges: map<int, Edge>, td: TypeDef, f: FieldDef, id: int, v: Value) {
    exists ids :: NamesTargets(f, v, ids)
      && forall i :: 0 <= i < |ids| ==> ids[i] !in ids[..i] && PatchTarget(nodes, edges, td, f, id, ids[i])
  }

  lemma TakesIff(
    schema: Schema, db: DB, nodes: map<int, Node>, td: TypeDef, names: set<string>, f: FieldDef, id: int, v: Value)
    requires ValidSchema(schema) && ValidEdges(schema, db.nodes, db.edges) && id in db.nodes
    requires db.nodes[id].typ in schema && td == schema[db.nodes[id].typ] && f in td.fields && IsRefKind(f.kind)
    requires f.name in names
    requires nodes.Keys == db.nodes.Keys && forall n :: n in nodes ==> nodes[n].typ == db.nodes[n].typ
    ensures PatchTakes(db.nodes, db.edges, td, f, id, v)
      <==> && TargetIds(f, v).Some?
           && CanTake(nodes, ClearFields(db.edges, id, td, names), td, f, id, TargetIds(f, v).value)
  {
    hide *;
    var cleared := ClearFields(db.edges, id, td, names);
    TakesNamed(db.nodes, db.edges, td, f, id, v);
    if TargetIds(f, v).Some? {
      var ids := TargetIds(f, v).value;
      forall t ensures ClearedTarget(nodes, cleared, td, f, id, t) <==> PatchTarget(db.nodes, db.edges, td, f, id, t) {
        ClearedTargetIff(schema, db, nodes, td, names, f, id, t);
      }
      CanTakeIs(nodes, cleared, td, f, id, ids);
    }
  }

  lemma TakesNamed(nodes: map<int, Node>, edges: map<int, Edge>, td: TypeDef, f: FieldDef, id: int, v: Value)
    requires IsRefKind(f.kind)
    ensures PatchTakes(nodes, edges, td, f, id, v)
      <==> && TargetIds(f, v).Some?
           && var ids := TargetIds(f, v).value;
              forall i :: 0 <= i < |ids| ==> ids[i] !in ids[..i] && PatchTarget(nodes, edges, td, f, id, ids[i])
  {
    forall ids ensures TargetIds(f, v) == Some(ids) <==> NamesTargets(f, v, ids) { NamedIs(f, v, ids); }
    hide PatchTarget, TargetIds, NamesTargets;
  }

  lemma CanTakeIs(nodes: map<int, Node>, edges: map<int, Edge>, td: TypeDef, f: FieldDef, id: int, ids: seq<int>)
    ensures CanTake(nodes, edges, td, f, id, ids)
      <==> forall i :: 0 <= i < |ids| ==> ids[i] !in ids[..i] && ClearedTarget(nodes, edges, td, f, id, ids[i])
  {
    hide Eligible, RefIds;
  }

  /** What a patch may send for a field: null where nothing is required, or a valid value its field can take. */
  ghost predicate PatchableWith(
    nodes: map<int, Node>, edges: map<int, Edge>, td: TypeDef, id: int, k: string, v: Value) {
    && FieldByName(td.fields, k).Some?
    && var f := FieldByName(td.fields, k).value;
       && !f.immutable
       && (v == Null ==> !f.required)
       && (v != Null ==> ValidateValue(f, v) && (f.required ==> !IsEmpty(f.kind, v)))
       && (v != Null && IsRefKind(f.kind) ==> PatchTakes(nodes, edges, td, f, id, v))
  }

  lemma PatchNodeUnfolds(schema: Schema, db: DB, id: int, patch: Patch, order: seq<string>)
    requires Inv(schema, db) && id in db.nodes && !ChangesNothing(patch) && db.nodes[id].typ in schema
    requires Distinct(order)
    requires forall k :: k in order <==> k in patch.fields && IsRefName(schema[db.nodes[id].typ], k)
    ensures
      var td := schema[db.nodes[id].typ];
      var refs := RefPart(td, patch.fields);
      && (forall k :: k in order ==> k in refs)
      && (PatchNode(schema, db, id, patch, order).Ok?
          <==> && patch.revision == Some(db.nodes[id].revision) && patch.display != Some("")
               && ValidatePatchFields(td, patch.fields)
               && AddEdges(ClearedForPatch(td, db, id, patch), td, id, refs, order).Ok?)
  {
    assert ValidNode(schema, db.nodes[id]);
    var refs := RefPart(schema[db.nodes[id].typ], patch.fields);
    hide Inv, IsRefName, ValidatePatchFields, AddEdges, PatchedRow, ClearFields, SyncIndex;
    assert forall k :: k in refs <==> k in order;
    assert Elements(order) == refs.Keys;
  }

  /** The checks on each field, and whether its reference value fits. */
  lemma ChecksUnfold(db: DB, td: TypeDef, id: int, patch: Fields)
    ensures (forall k :: k in patch ==> PatchableWith(db.nodes, db.edges, td, id, k, patch[k]))
      <==> && ValidatePatchFields(td, patch)
           && forall k :: k in patch && IsRefName(td, k) ==> RefTaken(db, td, id, k, patch[k])
  {
    hide PatchTakes, ValidateValue, IsEmpty;
    forall k | k in patch
      ensures PatchableWith(db.nodes, db.edges, td, id, k, patch[k])
        <==> PatchCheck(td, k, patch[k]) && (IsRefName(td, k) ==> RefTaken(db, td, id, k, patch[k]))
    {
    }
    assert ValidatePatchFields(td, patch) <==> forall k :: k in patch ==> PatchCheck(td, k, patch[k]);
  }

  predicate PatchCheck(td: TypeDef, k: string, v: Value) {
    && FieldByName(td.fields, k).Some?
    && var f := FieldByName(td.fields, k).value;
       && !f.immutable
       && if v == Null then !f.required else ValidateValue(f, v) && (f.required ==> !IsEmpty(f.kind, v))
  }

  ghost predicate RefTaken(db: DB, td: TypeDef, id: int, k: string, v: Value)
    requires IsRefName(td, k)
  {
    v != Null ==> PatchTakes(db.nodes, db.edges, td, FieldByName(td.fields, k).value, id, v)
  }

  lemma RefTakenIs(db: DB, td: TypeDef, id: int, k: string, v: Value)
    requires IsRefName(td, k) && FieldByName(td.fields, k).Some?
    ensures RefTaken(db, td, id, k, v)
      <==> (v != Null ==> PatchTakes(db.nodes, db.edges, td, FieldByName(td.fields, k).value, id, v))
  {
    hide PatchTakes;
  }

  /** The state the references of a patch are added to. */
  lemma ClearedState(schema: Schema, db: DB, id: int, patch: Patch)
    requires ValidSchema(schema) && Inv(schema, db) && id in db.nodes && db.nodes[id].typ in schema
    ensures
      var td := schema[db.nodes[id].typ];
      var (refs, cleared) := (RefPart(td, patch.fields), ClearedForPatch(td, db, id, patch));
      && cleared.nodes.Keys == db.nodes.Keys
      && (forall n :: n in cleared.nodes ==> cleared.nodes[n].typ == db.nodes[n].typ)
      && cleared.edges == ClearFields(db.edges, id, td, refs.Keys)
      && ValidEdges(schema, db.nodes, db.edges) && ValidGraph(schema, cleared.nodes, cleared.edges)
      && (forall k :: k in refs <==> k in patch.fields && IsRefName(td, k))
      && (forall k :: k in refs ==> refs[k] == patch.fields[k] && Unused(cleared.edges, td, id, k))
  {
    ClearingKeepsGraph(schema, db, id, patch);
    var td := schema[db.nodes[id].typ];
    var (refs, cleared) := (RefPart(td, patch.fields), ClearedForPatch(td, db, id, patch));
    hide ClearFields, ValidEdges, RefIds, RowsOf, ValidGraph, IsRefName, ValidSchema, NoCycles, NoConflicts;
    forall k | k in refs ensures Unused(cleared.edges, td, id, k) {
      ClearedEmpties(db.edges, id, td, refs.Keys, k);
      UnusedIs(cleared.edges, td, id, k);
      RefNameIs(td, k);
      NoRowsNoIds(cleared.edges, id, FieldByName(td.fields, k).value);
    }
    InvHasEdges(schema, db);
  }

  lemma InvHasEdges(schema: Schema, db: DB)
    requires Inv(schema, db)
    ensures ValidEdges(schema, db.nodes, db.edges)
  {
  }

  /**
   * A patch that says anything goes through exactly when it carries the current revision, does not empty the
   * display, and every field it sends is declared, may change, and can take what is sent for it.
   */
  lemma PatchSucceedsIff(schema: Schema, db: DB, id: int, patch: Patch, order: seq<string>)
    requires ValidSchema(schema) && Inv(schema, db) && id in db.nodes && !ChangesNothing(patch)
    requires Distinct(order) && db.nodes[id].typ in schema
    requires forall k :: k in order <==> k in patch.fields && IsRefName(schema[db.nodes[id].typ], k)
    ensures PatchNode(schema, db, id, patch, order).Ok?
      <==> && patch.revision == Some(db.nodes[id].revision) && patch.display != Some("")
           && forall k :: k in patch.fields ==>
                PatchableWith(db.nodes, db.edges, schema[db.nodes[id].typ], id, k, patch.fields[k])
  {
    hide *;
    var td := schema[db.nodes[id].typ];
    PatchNodeUnfolds(schema, db, id, patch, order);
    ChecksUnfold(db, td, id, patch.fields);
    ClearedState(schema, db, id, patch);
    var refs, cleared := RefPart(td, patch.fields), ClearedForPatch(td, db, id, patch);
    AddSucceedsForAllIff(schema, cleared, id, refs, order);
    forall k | k in order
      ensures IsRefName(td, k)
      ensures ValueFits(cleared.nodes, cleared.edges, td, id, k, refs[k]) <==> RefTaken(db, td, id, k, refs[k])
    {
      RefNameIs(td, k);
      FitsIs(cleared, td, id, k, refs[k]);
      RefTakenIs(db, td, id, k, refs[k]);
      TakesIff(schema, db, cleared.nodes, td, refs.Keys, FieldByName(td.fields, k).value, id, refs[k]);
    }
  }

  // ---------------------------------------------------------------- which creates go through

  /** A target a new node may be given: an existing node or the new one itself, of the right type. */
  ghost predicate CreateTarget(
    nodes: map<int, Node>, edges: map<int, Edge>, typ: string, td: TypeDef, f: FieldDef, t: int) {
    if t == NextId(nodes.Keys) then f.to == typ && !Undirected(f) && !Hierarchical(td, f)
    else t in nodes && nodes[t].typ == f.to && (f.kind == Ref && Undirected(f) ==> RefIds(edges, t, f) == [])
  }

  ghost predicate CreateTakes(
    nodes: map<int, Node>, edges: map<int, Edge>, typ: string, td: TypeDef, f: FieldDef, v: Value) {
    exists ids :: NamesTargets(f, v, ids)
      && forall i :: 0 <= i < |ids| ==> ids[i] !in ids[..i] && CreateTarget(nodes, edges, typ, td, f, ids[i])
  }

  lemma CreateTargetIff(schema: Schema, db: DB, typ: string, row: Node, f: FieldDef, t: int)
    requires ValidSchema(schema) && Inv(schema, db) && typ in schema && f in schema[typ].fields && IsRefKind(f.kind)
    requires row.typ == typ
    ensures
      var id := NextId(db.nodes.Keys);
      ClearedTarget(db.nodes[id := row], db.edges, schema[typ], f, id, t)
      <==> CreateTarget(db.nodes, db.edges, typ, schema[typ], f, t)
  {
    var id := NextId(db.nodes.Keys);
    NothingReachesNew(schema, db, db.nodes[id := row], schema[typ].name, f.name, id, t);
    if t == id { NoRowsAtNewNode(schema, db, id, f); NoRowsNoIds(db.edges, id, f); }
    hide Inv, ValidSchema, RefIds, FieldGraph, Hierarchical, NextId;
    if t == id { ReachSelf(FieldGraph(db.nodes[id := row], db.edges, schema[typ].name, f.name), id); }
  }

  lemma NothingReachesNew(
    schema: Schema, db: DB, nodes: map<int, Node>, typ: string, name: string, id: int, t: int)
    requires Inv(schema, db) && id !in db.nodes
    ensures t != id ==> !Reach(FieldGraph(nodes, db.edges, typ, name), t, id)
  {
    var g := FieldGraph(nodes, db.edges, typ, name);
    forall e | e in g ensures e.1 != id {
      var k :| k in db.edges && db.edges[k].field == name && db.edges[k].from in nodes
               && nodes[db.edges[k].from].typ == typ && e == (db.edges[k].from, db.edges[k].to);
      assert ValidEdge(schema, db.nodes, db.edges[k]);
    }
    if Reach(g, t, id) { ReachedByAnEdge(g, t, id); }
  }

  /** What is supplied for a field of a new node: a valid value its field can take. */
  ghost predicate CreatableWith(
    nodes: map<int, Node>, edges: map<int, Edge>, typ: string, td: TypeDef, k: string, v: Value) {
    && FieldByName(td.fields, k).Some?
    && var f := FieldByName(td.fields, k).value;
       ValidateValue(f, v) && (IsRefKind(f.kind) ==> CreateTakes(nodes, edges, typ, td, f, v))
  }

  /** Nothing required is missing or empty among what is supplied. */
  ghost predicate NothingMissing(td: TypeDef, given: Fields) {
    forall f :: f in td.fields && f.required ==>
      Supplied(td, given, f.name).Some? && !IsEmpty(f.kind, Supplied(td, given, f.name).value)
  }

  /**
   * A create goes through exactly when there is a display, nothing required is missing, and every field for
   * which the caller or a default supplies a value can take it.
   */
  lemma CreateSucceedsIff(schema: Schema, db: DB, typ: string, display: string, given: Fields, order: seq<string>)
    requires ValidSchema(schema) && Inv(schema, db) && typ in schema && Distinct(order)
    requires forall k :: k in order <==> Supplied(schema[typ], given, k).Some? && IsRefName(schema[typ], k)
    ensures CreateNode(schema, db, typ, display, given, order).Ok?
      <==> && display != "" && NothingMissing(schema[typ], given)
           && forall k :: Supplied(schema[typ], given, k).Some? ==>
                CreatableWith(db.nodes, db.edges, typ, schema[typ], k, Supplied(schema[typ], given, k).value)
  {
    hide *;
    var (td, id) := (schema[typ], NextId(db.nodes.Keys));
    var fields := ApplyDefaults(td.fields, given);
    CreateNodeUnfolds(schema, db, typ, display, given, order);
    CreateChecks(schema, db, typ, given);
    NewState(schema, db, typ, display, fields);
    var refs, created := RefPart(td, fields), CreatedIn(td, db, id, typ, display, fields);
    AddSucceedsForAllIff(schema, created, id, refs, order);
    forall k | k in order
      ensures IsRefName(td, k)
      ensures ValueFits(created.nodes, created.edges, td, id, k, refs[k]) <==> RefCreated(db, typ, td, k, refs[k])
    {
      RefNameIs(td, k);
      FitsIs(created, td, id, k, refs[k]);
      CreateTakesIff(schema, db, typ, created.nodes[id], FieldByName(td.fields, k).value, refs[k]);
      RefCreatedIs(db, typ, td, k, refs[k]);
    }
  }

  ghost predicate RefCreated(db: DB, typ: string, td: TypeDef, k: string, v: Value)
    requires IsRefName(td, k)
  {
    v != Null ==> CreateTakes(db.nodes, db.edges, typ, td, FieldByName(td.fields, k).value, v)
  }

  lemma RefCreatedIs(db: DB, typ: string, td: TypeDef, k: string, v: Value)
    requires IsRefName(td, k) && FieldByName(td.fields, k).Some?
    ensures RefCreated(db, typ, td, k, v)
      <==> (v != Null ==> CreateTakes(db.nodes, db.edges, typ, td, FieldByName(td.fields, k).value, v))
  {
    hide CreateTakes;
  }

  lemma CreateNodeUnfolds(schema: Schema, db: DB, typ: string, display: string, given: Fields, order: seq<string>)
    requires ValidSchema(schema) && typ in schema && Distinct(order)
    requires forall k :: k in order <==> Supplied(schema[typ], given, k).Some? && IsRefName(schema[typ], k)
    ensures
      var (td, id) := (schema[typ], NextId(db.nodes.Keys));
      var fields := ApplyDefaults(td.fields, given);
      var refs := RefPart(td, fields);
      && (forall k :: k in order <==> k in refs)
      && (CreateNode(schema, db, typ, display, given, order).Ok?
          <==> && display != "" && ValidateFields(td, fields)
               && AddEdges(CreatedIn(td, db, id, typ, display, fields), td, id, refs, order).Ok?)
  {
    var td := schema[typ];
    var fields := ApplyDefaults(td.fields, given);
    var refs := RefPart(td, fields);
    forall k ensures k in order <==> k in refs { DefaultsAre(schema, typ, given, k); }
    hide ValidateFields, AddEdges, SyncIndex, ScalarPart, RefPart, Supplied, ApplyDefaults, ValidSchema;
    assert Elements(order) == refs.Keys;
  }

  /** The checks on what is supplied, and whether the reference values fit. */
  lemma CreateChecks(schema: Schema, db: DB, typ: string, given: Fields)
    requires ValidSchema(schema) && typ in schema
    ensures
      var td := schema[typ];
      var refs := RefPart(td, ApplyDefaults(td.fields, given));
      && (forall k :: k in refs ==> IsRefName(td, k))
      && ((NothingMissing(td, given)
           && forall k :: Supplied(td, given, k).Some? ==>
                CreatableWith(db.nodes, db.edges, typ, td, k, Supplied(td, given, k).value))
          <==> && ValidateFields(td, ApplyDefaults(td.fields, given))
               && forall k :: k in refs ==> RefCreated(db, typ, td, k, refs[k]))
  {
    var td := schema[typ];
    var fields := ApplyDefaults(td.fields, given);
    forall k
      ensures k in fields <==> Supplied(td, given, k).Some?
      ensures k in fields ==> Supplied(td, given, k) == Some(fields[k])
    {
      DefaultsAre(schema, typ, given, k);
    }
    hide Supplied, ApplyDefaults, ValidSchema;
    CreateChecksOf(db, typ, td, given, fields);
  }

  lemma CreateChecksOf(db: DB, typ: string, td: TypeDef, given: Fields, fields: Fields)
    requires forall k :: k in fields <==> Supplied(td, given, k).Some?
    requires forall k :: k in fields ==> Supplied(td, given, k) == Some(fields[k])
    ensures
      var refs := RefPart(td, fields);
      && (forall k :: k in refs ==> IsRefName(td, k))
      && ((NothingMissing(td, given)
           && forall k :: Supplied(td, given, k).Some? ==>
                CreatableWith(db.nodes, db.edges, typ, td, k, Supplied(td, given, k).value))
          <==> ValidateFields(td, fields) && forall k :: k in refs ==> RefCreated(db, typ, td, k, refs[k]))
  {
    var refs := RefPart(td, fields);
    hide Supplied, ValidateValue, IsEmpty, CreateTakes;
    forall k | k in fields
      ensures CreatableWith(db.nodes, db.edges, typ, td, k, fields[k])
        <==> && FieldByName(td.fields, k).Some? && ValidateValue(FieldByName(td.fields, k).value, fields[k])
             && (k in refs ==> RefCreated(db, typ, td, k, refs[k]))
    {
      if k in refs { NotNullIfValid(FieldByName(td.fields, k).value, fields[k]); }
    }
  }

  lemma NotNullIfValid(f: FieldDef, v: Value)
    ensures ValidateValue(f, v) ==> v != Null
  {
    if ValidateValue(f, v) { ValidIsNotNull(f, v); }
  }

  /** The state the references of a new node are added to. */
  lemma NewState(schema: Schema, db: DB, typ: string, display: string, fields: Fields)
    requires ValidSchema(schema) && Inv(schema, db) && typ in schema
    ensures
      var (td, id) := (schema[typ], NextId(db.nodes.Keys));
      var created := CreatedIn(td, db, id, typ, display, fields);
      && id in created.nodes && created.nodes[id].typ == typ && created.nodes == db.nodes[id := created.nodes[id]]
      && created.edges == db.edges && ValidGraph(schema, created.nodes, created.edges)
      && (forall k :: k in RefPart(td, fields) ==> Unused(created.edges, td, id, k))
  {
    var td, id := schema[typ], NextId(db.nodes.Keys);
    var created := CreatedIn(td, db, id, typ, display, fields);
    NewRowKeepsGraph(schema, db.nodes, db.edges, id, created.nodes[id]);
    forall k | k in RefPart(td, fields) ensures Unused(created.edges, td, id, k) {
      var f := FieldByName(td.fields, k).value;
      NoRowsAtNewNode(schema, db, id, f);
      NoRowsNoIds(db.edges, id, f);
    }
  }

  lemma CreateTakesIff(schema: Schema, db: DB, typ: string, row: Node, f: FieldDef, v: Value)
    requires ValidSchema(schema) && Inv(schema, db) && typ in schema && f in schema[typ].fields && IsRefKind(f.kind)
    requires row.typ == typ
    ensures CreateTakes(db.nodes, db.edges, typ, schema[typ], f, v)
      <==> && TargetIds(f, v).Some?
           && CanTake(db.nodes[NextId(db.nodes.Keys) := row], db.edges, schema[typ], f, NextId(db.nodes.Keys),
                TargetIds(f, v).value)
  {
    hide *;
    var td, id := schema[typ], NextId(db.nodes.Keys);
    CreateTakesNamed(db.nodes, db.edges, typ, td, f, v);
    if TargetIds(f, v).Some? {
      var ids := TargetIds(f, v).value;
      forall t ensures ClearedTarget(db.nodes[id := row], db.edges, td, f, id, t)
        <==> CreateTarget(db.nodes, db.edges, typ, td, f, t)
      {
        CreateTargetIff(schema, db, typ, row, f, t);
      }
      CanTakeIs(db.nodes[id := row], db.edges, td, f, id, ids);
    }
  }

  lemma CreateTakesNamed(
    nodes: map<int, Node>, edges: map<int, Edge>, typ: string, td: TypeDef, f: FieldDef, v: Value)
    requires IsRefKind(f.kind)
    ensures CreateTakes(nodes, edges, typ, td, f, v)
      <==> && TargetIds(f, v).Some?
           && var ids := TargetIds(f, v).value;
              forall i :: 0 <= i < |ids| ==> ids[i] !in ids[..i] && CreateTarget(nodes, edges, typ, td, f, ids[i])
  {
    forall ids ensures TargetIds(f, v) == Some(ids) <==> NamesTargets(f, v, ids) { NamedIs(f, v, ids); }
    hide CreateTarget, TargetIds, NamesTargets;
  }

  // ---------------------------------------------------------------- why a write is refused

  /** Why AddEdge is refused: the first of these that applies, in this order. */
  lemma AddErrorIs(schema: Schema, db: DB, from: int, to: int, name: string, sort: int)
    requires ValidSchema(schema) && Inv(schema, db)
    ensures
      var r := AddEdge(schema, db, from, to, name, sort);
      if from !in db.nodes then r == Err(NotFound)
      else if FieldOn(schema, db.nodes[from].typ, name).None? then r == Err(UnknownField)
      else
        var (td, f) := (schema[db.nodes[from].typ], FieldOn(schema, db.nodes[from].typ, name).value);
        if f.kind != Ref && f.kind != RefList then r == Err(NotARef)
        else if to !in db.nodes then r == Err(NotFound)
        else if db.nodes[to].typ != f.to then r == Err(WrongType)
        else if (f.symmetric || f.equivalence || f.transitive || td.treeParent == Some(name)) && to == from
        then r == Err(SelfReference)
        else if (f.transitive || td.treeParent == Some(name))
                && Reach(FieldGraph(db.nodes, db.edges, td.name, name), to, from)
        then r == Err(Cycle)
        else if Taken(db.edges, f, from, to) then r == Err(RelationCardinality)
        else r.Ok?
  {
    hide *;
    AddUnfolds(schema, db, from, to, name, sort);
    if from in db.nodes {
      KnownType(schema, db, from);
      DeclaredIs(schema, db.nodes[from].typ, name);
      var f := FieldOn(schema, db.nodes[from].typ, name);
      if f.Some? && IsRefKind(f.value.kind) {
        InvHasEdges(schema, db);
        TypeIsNamed(schema, db.nodes[from].typ);
        InsertErrorIs(db, schema[db.nodes[from].typ], f.value, from, to, sort);
        if to in db.nodes && db.nodes[to].typ == f.value.to {
          ConflictIff(schema, db.nodes, db.edges, f.value, from, to, sort);
        }
      }
    }
  }

  lemma DeclaredIs(schema: Schema, typ: string, name: string)
    ensures FieldOn(schema, typ, name).Some? ==>
      var f := FieldOn(schema, typ, name).value;
      && typ in schema && f in schema[typ].fields && f.name == name
      && (IsRefKind(f.kind) <==> f.kind == Ref || f.kind == RefList)
  {
  }

  lemma AddUnfolds(schema: Schema, db: DB, from: int, to: int, name: string, sort: int)
    ensures
      var r := AddEdge(schema, db, from, to, name, sort);
      && (from !in db.nodes ==> r == Err(NotFound))
      && (from in db.nodes && db.nodes[from].typ in schema ==>
            var f := FieldOn(schema, db.nodes[from].typ, name);
            && (f.None? ==> r == Err(UnknownField))
            && (f.Some? && !IsRefKind(f.value.kind) ==> r == Err(NotARef))
            && (f.Some? && IsRefKind(f.value.kind) ==>
                  match InsertError(db, schema[db.nodes[from].typ], f.value, from, to, sort)
                  case Some(e) => r == Err(e)
                  case None => r.Ok?))
  {
    hide InsertError, FieldByName, IsRefKind;
  }

  lemma InsertErrorIs(db: DB, td: TypeDef, f: FieldDef, from: int, to: int, sort: int)
    requires from in db.nodes
    ensures
      var e := InsertError(db, td, f, from, to, sort);
      if to !in db.nodes then e == Some(NotFound)
      else if db.nodes[to].typ != f.to then e == Some(WrongType)
      else if (f.symmetric || f.equivalence || f.transitive || td.treeParent == Some(f.name)) && to == from
      then e == Some(SelfReference)
      else if (f.transitive || td.treeParent == Some(f.name))
              && Reach(FieldGraph(db.nodes, db.edges, td.name, f.name), to, from)
      then e == Some(Cycle)
      else if exists k :: k in db.edges && Conflicts(db.edges[k], Stored(f, from, to, sort))
      then e == Some(RelationCardinality)
      else e == None
  {
    hide Reach, FieldGraph, Conflicts, Stored;
  }

  lemma KnownType(schema: Schema, db: DB, id: int)
    requires Inv(schema, db) && id in db.nodes
    ensures db.nodes[id].typ in schema && db.nodes[id].revision >= 1
  {
    assert ValidNode(schema, db.nodes[id]);
  }

  /** The checks a patch must pass before the database is asked: no revision, no display or a bad field is invalid. */
  predicate PatchSound(td: TypeDef, patch: Patch) {
    && patch.display != Some("") && forall k :: k in patch.fields ==> PatchCheck(td, k, patch.fields[k])
  }

  /** Why PatchNode is refused before its references are looked at, and that an empty patch is not. */
  lemma PatchErrorIs(schema: Schema, db: DB, id: int, patch: Patch, order: seq<string>)
    requires Inv(schema, db) && Distinct(order)
    requires id in db.nodes ==>
      && db.nodes[id].typ in schema
      && forall k :: k in order <==> k in patch.fields && IsRefName(schema[db.nodes[id].typ], k)
    ensures
      var r := PatchNode(schema, db, id, patch, order);
      if id !in db.nodes then r == Err(NotFound)
      else if patch.display == None && patch.fields == map[] then r == Ok(db)
      else if patch.revision.None? || patch.revision.value <= 0 then r == Err(InvalidFields)
      else if !PatchSound(schema[db.nodes[id].typ], patch) then r == Err(InvalidFields)
      else if patch.revision.value != db.nodes[id].revision then r == Err(RevisionConflict)
      else r.Err? ==> r.error != RevisionConflict
  {
    if id in db.nodes && !ChangesNothing(patch) {
      var td := schema[db.nodes[id].typ];
      PatchNodeUnfolds(schema, db, id, patch, order);
      SoundIs(td, patch);
      var refs := RefPart(td, patch.fields);
      NeverConflicts(ClearedForPatch(td, db, id, patch), td, id, refs, order);
      hide Inv, IsRefName, ValidatePatchFields, AddEdges, PatchedRow, ClearFields, SyncIndex, PatchSound;
      assert Elements(order) == refs.Keys;
    }
  }

  lemma SoundIs(td: TypeDef, patch: Patch)
    ensures PatchSound(td, patch) <==> patch.display != Some("") && ValidatePatchFields(td, patch.fields)
  {
    hide ValidateValue, IsEmpty;
    assert ValidatePatchFields(td, patch.fields)
      <==> forall k :: k in patch.fields ==> PatchCheck(td, k, patch.fields[k]);
  }

  lemma {:induction false} TargetsNeverConflict(db: DB, td: TypeDef, f: FieldDef, from: int, ids: seq<int>, pos: nat)
    requires pos <= |ids|
    ensures AddTargets(db, td, f, from, ids, pos).Err? ==>
      AddTargets(db, td, f, from, ids, pos).error !in {RevisionConflict, RequiredReference, DeleteRestricted}
    decreases |ids| - pos
  {
    hide Conflicts, Stored, Reach, FieldGraph, Hierarchical;
    if pos < |ids| && InsertEdge(db, td, f, from, ids[pos], pos).Ok? {
      TargetsNeverConflict(InsertEdge(db, td, f, from, ids[pos], pos).value, td, f, from, ids, pos + 1);
    }
  }

  lemma {:induction false} NeverConflicts(db: DB, td: TypeDef, from: int, refs: Fields, order: seq<string>)
    requires forall k :: k in order ==> k in refs
    ensures AddEdges(db, td, from, refs, order).Err? ==>
      AddEdges(db, td, from, refs, order).error !in {RevisionConflict, RequiredReference, DeleteRestricted}
    decreases |order|
  {
    if order != [] {
      var name, rest := order[0], order[1..];
      assert name in order;
      if refs[name] == Null {
        NeverConflicts(db, td, from, refs, rest);
      } else if FieldByName(td.fields, name).Some? && TargetIds(FieldByName(td.fields, name).value, refs[name]).Some? {
        var f := FieldByName(td.fields, name).value;
        var ids := TargetIds(f, refs[name]).value;
        TargetsNeverConflict(db, td, f, from, ids, 0);
        hide AddTargets, TargetIds;
        if AddTargets(db, td, f, from, ids, 0).Ok? {
          NeverConflicts(AddTargets(db, td, f, from, ids, 0).value, td, from, refs, rest);
        }
      }
    }
  }

  /** Why a delete is refused: there is no such node, or another node reads it under some field. */
  lemma DeleteErrorIs(schema: Schema, db: DB, id: int)
    requires ValidSchema(schema) && Inv(schema, db)
    ensures
      var r := DeleteNode(schema, db, id);
      if id !in db.nodes then r == Err(NotFound)
      else if exists m, f :: m in db.nodes && m != id && f in schema[db.nodes[m].typ].fields && IsRefKind(f.kind)
                             && id in RefIds(db.edges, m, f)
      then r == Err(DeleteRestricted)
      else r.Ok? && id !in r.value.nodes
  {
    if id in db.nodes { DeleteAllowedIff(schema, db, id); }
    DeleteUnfolds(schema, db, id);
    hide Inv, ValidSchema, DeleteNode, RefIds;
  }

  lemma DeleteUnfolds(schema: Schema, db: DB, id: int)
    ensures
      var r := DeleteNode(schema, db, id);
      && (id !in db.nodes ==> r == Err(NotFound)) && (id in db.nodes && r.Err? ==> r == Err(DeleteRestricted))
      && (r.Ok? ==> id !in r.value.nodes)
  {
    hide RefersTo, Touches;
  }

  /** Why a create is refused before its references are looked at. */
  lemma CreateErrorIs(schema: Schema, db: DB, typ: string, display: string, given: Fields, order: seq<string>)
    requires ValidSchema(schema)
    ensures
      var r := CreateNode(schema, db, typ, display, given, order);
      if typ !in schema then r == Err(UnknownType)
      else if display == "" || !NothingMissing(schema[typ], given) || !AllAccepted(schema[typ], given)
      then r == Err(InvalidFields)
      else r.Err? ==> r.error !in {UnknownType, RevisionConflict, RequiredReference, DeleteRestricted}
  {
    if typ in schema {
      var td := schema[typ];
      var fields := ApplyDefaults(td.fields, given);
      AcceptedIff(schema, typ, given);
      if Enumerates(order, RefPart(td, fields).Keys) {
        forall k | k in order ensures k in RefPart(td, fields) { assert k in Elements(order); }
        NeverConflicts(CreatedIn(td, db, NextId(db.nodes.Keys), typ, display, fields), td, NextId(db.nodes.Keys),
          RefPart(td, fields), order);
      }
      AddEdgesError(CreatedIn(td, db, NextId(db.nodes.Keys), typ, display, fields), td, NextId(db.nodes.Keys),
        RefPart(td, fields), order);
      hide ValidSchema, ApplyDefaults, ValidateFields, AddEdges, RefPart, ScalarPart, SyncIndex, NothingMissing;
      hide AllAccepted;
    }
  }

  lemma {:induction false} AddEdgesError(db: DB, td: TypeDef, from: int, refs: Fields, order: seq<string>)
    ensures (forall k :: k in order ==> k in refs) ==>
      (AddEdges(db, td, from, refs, order).Err? ==> AddEdges(db, td, from, refs, order).error != UnknownType)
    decreases |order|
  {
    if order != [] && forall k :: k in order ==> k in refs {
      var name, rest := order[0], order[1..];
      assert name in order && forall k :: k in rest ==> k in order;
      if refs[name] == Null {
        AddEdgesError(db, td, from, refs, rest);
      } else if FieldByName(td.fields, name).Some? && TargetIds(FieldByName(td.fields, name).value, refs[name]).Some? {
        var f := FieldByName(td.fields, name).value;
        var ids := TargetIds(f, refs[name]).value;
        AddTargetsError(db, td, f, from, ids, 0);
        hide AddTargets, TargetIds;
        if AddTargets(db, td, f, from, ids, 0).Ok? {
          AddEdgesError(AddTargets(db, td, f, from, ids, 0).value, td, from, refs, rest);
        }
      }
    }
  }

  lemma {:induction false} AddTargetsError(db: DB, td: TypeDef, f: FieldDef, from: int, ids: seq<int>, pos: nat)
    requires pos <= |ids|
    ensures AddTargets(db, td, f, from, ids, pos).Err? ==> AddTargets(db, td, f, from, ids, pos).error != UnknownType
    decreases |ids| - pos
  {
    hide Conflicts, Stored, Reach, FieldGraph, Hierarchical;
    if pos < |ids| && InsertEdge(db, td, f, from, ids[pos], pos).Ok? {
      AddTargetsError(InsertEdge(db, td, f, from, ids[pos], pos).value, td, f, from, ids, pos + 1);
    }
  }

  /** Every value supplied is one its field accepts. */
  ghost predicate AllAccepted(td: TypeDef, given: Fields) {
    forall k :: Supplied(td, given, k).Some? ==>
      FieldByName(td.fields, k).Some? && ValidateValue(FieldByName(td.fields, k).value, Supplied(td, given, k).value)
  }

  lemma AcceptedIff(schema: Schema, typ: string, given: Fields)
    requires ValidSchema(schema) && typ in schema
    ensures ValidateFields(schema[typ], ApplyDefaults(schema[typ].fields, given))
      <==> NothingMissing(schema[typ], given) && AllAccepted(schema[typ], given)
  {
    var td := schema[typ];
    var fields := ApplyDefaults(td.fields, given);
    forall k
      ensures k in fields <==> Supplied(td, given, k).Some?
      ensures k in fields ==> Supplied(td, given, k) == Some(fields[k])
    {
      DefaultsAre(schema, typ, given, k);
    }
    hide Supplied, ApplyDefaults, ValidSchema, ValidateValue, IsEmpty;
  }

  /** Why the i-th target of a list is refused, the ones before it being taken. */
  function CauseOf(nodes: map<int, Node>, td: TypeDef, f: FieldDef, from: int, ids: seq<int>, i: nat): Error
    requires i < |ids|
  {
    if ids[i] in ids[..i] then InvalidFields
    else if ids[i] !in nodes then NotFound
    else if nodes[ids[i]].typ != f.to then WrongType
    else if ids[i] == from && (f.symmetric || f.equivalence || f.transitive || td.treeParent == Some(f.name))
    then SelfReference
    else Cycle
  }

  /** The first target that a list cannot take decides the error. */
  lemma {:induction false} ListErrorIs(
    schema: Schema, db: DB, f: FieldDef, from: int, ids: seq<int>, pos: nat, i: nat)
    requires ValidSchema(schema) && ValidEdges(schema, db.nodes, db.edges) && from in db.nodes && pos <= i < |ids|
    requires db.nodes[from].typ in schema && f in schema[db.nodes[from].typ].fields && f.kind == RefList
    requires forall x :: x in RefIds(db.edges, from, f) <==> x in ids[..pos]
    requires forall j :: pos <= j < i ==>
      ids[j] !in ids[..j] && Eligible(db.nodes, db.edges, schema[db.nodes[from].typ], f, from, ids[j])
    requires ids[i] in ids[..i] || !Eligible(db.nodes, db.edges, schema[db.nodes[from].typ], f, from, ids[i])
    ensures AddTargets(db, schema[db.nodes[from].typ], f, from, ids, pos)
      == Err(CauseOf(db.nodes, schema[db.nodes[from].typ], f, from, ids, i))
    decreases |ids| - pos
  {
    hide *;
    var td := schema[db.nodes[from].typ];
    ListIsRef(f);
    AddTargetsErrorStep(db, td, f, from, ids, pos);
    InsertSucceedsIff(schema, db, f, from, ids[pos], pos);
    TakenIsListed(db.edges, f, from, ids, pos);
    if pos == i {
      if ids[i] !in ids[..i] {
        TypeIsNamed(schema, db.nodes[from].typ);
        CauseIs(schema, db, f, from, ids, i);
      } else {
        TwiceIsInvalid(db.nodes, td, f, from, ids, i);
      }
    } else {
      var mid := InsertIs(schema, db, f, from, ids[pos], pos);
      MidListed(db, f, from, ids, pos, mid);
      forall x ensures Eligible(mid.nodes, mid.edges, td, f, from, x)
        <==> Eligible(db.nodes, db.edges, td, f, from, x) {
        InsertKeepsEligible(schema, db, f, from, ids[pos], pos, NextId(db.edges.Keys), x);
      }
      ListErrorIs(schema, mid, f, from, ids, pos + 1, i);
    }
  }

  lemma AddTargetsErrorStep(db: DB, td: TypeDef, f: FieldDef, from: int, ids: seq<int>, pos: nat)
    requires pos < |ids|
    ensures
      var (r, one) := (AddTargets(db, td, f, from, ids, pos), InsertEdge(db, td, f, from, ids[pos], pos));
      && (ids[pos] in ids[..pos] ==> r == Err(InvalidFields))
      && (ids[pos] !in ids[..pos] && one.Err? ==> r == Err(one.error))
      && (ids[pos] !in ids[..pos] && one.Ok? ==> r == AddTargets(one.value, td, f, from, ids, pos + 1))
  {
    hide InsertEdge;
  }

  lemma TwiceIsInvalid(nodes: map<int, Node>, td: TypeDef, f: FieldDef, from: int, ids: seq<int>, i: nat)
    requires i < |ids| && ids[i] in ids[..i]
    ensures CauseOf(nodes, td, f, from, ids, i) == InvalidFields
  {
  }

  lemma CauseIs(schema: Schema, db: DB, f: FieldDef, from: int, ids: seq<int>, i: nat)
    requires ValidSchema(schema) && from in db.nodes && db.nodes[from].typ in schema && i < |ids|
    requires ids[i] !in ids[..i]
    requires !Eligible(db.nodes, db.edges, schema[db.nodes[from].typ], f, from, ids[i])
    ensures InsertEdge(db, schema[db.nodes[from].typ], f, from, ids[i], i)
      == Err(CauseOf(db.nodes, schema[db.nodes[from].typ], f, from, ids, i))
  {
    InsertErrorIs(db, schema[db.nodes[from].typ], f, from, ids[i], i);
    hide Reach, FieldGraph, Conflicts, Stored, InsertError;
  }
}
