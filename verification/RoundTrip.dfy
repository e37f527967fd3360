/** Writing back what was read: PatchNode of PatchFromNode(GetNode(id)). */
module RoundTrip {
  import opened Common
  import opened Types
  import opened Graph
  import opened Store
  import opened Invariants
  import opened Reads

  // ---------------------------------------------------------------- edges up to position

  /** An edge without its row id and position: what it relates, and how. */
  function Shape(e: Edge): Edge { e.(sort := 0) }

  function Shapes(edges: map<int, Edge>): set<Edge> {
    set k | k in edges :: Shape(edges[k])
  }

  /** The nodes a field relates a node to. */
  function Neighbours(edges: map<int, Edge>, id: int, f: FieldDef): set<int> {
    set k | k in RowsOf(edges, id, f) :: OtherEnd(edges[k], id)
  }

  lemma ConflictsByShape(a: Edge, b: Edge, a': Edge, b': Edge)
    requires Shape(a) == Shape(a') && Shape(b) == Shape(b')
    ensures Conflicts(a, b) == Conflicts(a', b')
  {
  }

  // ---------------------------------------------------------------- one edge put back

  lemma PutBackHasNoConflict(orig: map<int, Edge>, edges: map<int, Edge>, e: Edge)
    requires NoConflicts(orig) && Shapes(edges) <= Shapes(orig)
    requires Shape(e) in Shapes(orig) && Shape(e) !in Shapes(edges)
    ensures forall k :: k in edges ==> !Conflicts(edges[k], e)
  {
    var o :| o in orig && Shape(orig[o]) == Shape(e);
    forall k | k in edges ensures !Conflicts(edges[k], e) {
      assert Shape(edges[k]) in Shapes(orig);
      var o' :| o' in orig && Shape(orig[o']) == Shape(edges[k]);
      assert o' != o;
      ConflictsByShape(orig[o'], orig[o], edges[k], e);
    }
  }

  lemma PutBackGraph(nodes: map<int, Node>, orig: map<int, Edge>, edges: map<int, Edge>, typ: string, field: string)
    requires Shapes(edges) <= Shapes(orig)
    ensures FieldGraph(nodes, edges, typ, field) <= FieldGraph(nodes, orig, typ, field)
  {
    forall p | p in FieldGraph(nodes, edges, typ, field) ensures p in FieldGraph(nodes, orig, typ, field) {
      var k :| k in edges && edges[k].field == field && edges[k].from in nodes
               && nodes[edges[k].from].typ == typ && p == (edges[k].from, edges[k].to);
      assert Shape(edges[k]) in Shapes(orig);
      var o :| o in orig && Shape(orig[o]) == Shape(edges[k]);
      assert orig[o].from == edges[k].from && orig[o].to == edges[k].to && orig[o].field == field;
    }
  }

  /** The edge was there, so its endpoints pass checkTarget and the self-reference check. */
  lemma PutBackEndpoints(schema: Schema, nodes: map<int, Node>, orig: map<int, Edge>, f: FieldDef, id: int, target: int)
    requires ValidSchema(schema) && ValidEdges(schema, nodes, orig)
    requires id in nodes && nodes[id].typ in schema && f in schema[nodes[id].typ].fields && IsRefKind(f.kind)
    requires Shape(Stored(f, id, target, 0)) in Shapes(orig)
    ensures target in nodes && nodes[target].typ == f.to
    ensures Undirected(f) ==> id != target
  {
    var o :| o in orig && Shape(orig[o]) == Shape(Stored(f, id, target, 0));
    assert ValidEdge(schema, nodes, orig[o]);
    FieldByNameFinds(schema[nodes[id].typ].fields, f);
    if Undirected(f) {
      var g := FieldOn(schema, nodes[orig[o].from].typ, f.name).value;
      assert ValidTypeDef(schema, nodes[orig[o].from].typ, schema[nodes[orig[o].from].typ]);
      assert ValidTypeDef(schema, nodes[id].typ, schema[nodes[id].typ]);
      assert g.to == nodes[orig[o].from].typ;
    }
  }

  /** A symmetric tree parent is a single reference: without its own edge a node has none. */
  lemma TreePartnerIsAlone(
    schema: Schema, nodes: map<int, Node>, orig: map<int, Edge>, edges: map<int, Edge>, f: FieldDef, id: int,
    target: int)
    requires ValidSchema(schema) && ValidEdges(schema, nodes, orig) && NoConflicts(orig)
    requires Shapes(edges) <= Shapes(orig)
    requires id in nodes && nodes[id].typ in schema && f in schema[nodes[id].typ].fields && IsRefKind(f.kind)
    requires Shape(Stored(f, id, target, 0)) in Shapes(orig) && Shape(Stored(f, id, target, 0)) !in Shapes(edges)
    requires Hierarchical(schema[nodes[id].typ], f) && Undirected(f)
    ensures forall e :: e in FieldGraph(nodes, edges, nodes[id].typ, f.name) ==> e.0 != target
  {
    var typ := nodes[id].typ;
    var o :| o in orig && Shape(orig[o]) == Shape(Stored(f, id, target, 0));
    assert ValidTypeDef(schema, typ, schema[typ]);
    FieldByNameFinds(schema[typ].fields, f);
    forall e | e in FieldGraph(nodes, edges, typ, f.name) ensures e.0 != target {
      var k :| k in edges && edges[k].field == f.name && edges[k].from in nodes
               && nodes[edges[k].from].typ == typ && e == (edges[k].from, edges[k].to);
      assert Shape(edges[k]) in Shapes(orig);
      var o' :| o' in orig && Shape(orig[o']) == Shape(edges[k]);
      assert ValidEdge(schema, nodes, orig[o']);
      assert o != o' && !SharesPartner(orig[o'], orig[o]);
    }
  }

  /** Putting back an edge of an acyclic graph closes no cycle. */
  lemma PutBackClosesNoCycle(
    schema: Schema, nodes: map<int, Node>, orig: map<int, Edge>, edges: map<int, Edge>, f: FieldDef, id: int,
    target: int)
    requires ValidSchema(schema) && ValidGraph(schema, nodes, orig) && Shapes(edges) <= Shapes(orig)
    requires id in nodes && nodes[id].typ in schema && f in schema[nodes[id].typ].fields && IsRefKind(f.kind)
    requires Shape(Stored(f, id, target, 0)) in Shapes(orig) && Shape(Stored(f, id, target, 0)) !in Shapes(edges)
    requires Hierarchical(schema[nodes[id].typ], f)
    ensures id != target && !Reach(FieldGraph(nodes, edges, nodes[id].typ, f.name), target, id)
  {
    var typ := nodes[id].typ;
    var g := FieldGraph(nodes, edges, typ, f.name);
    var h := FieldGraph(nodes, orig, typ, f.name);
    PutBackEndpoints(schema, nodes, orig, f, id, target);
    if Undirected(f) {
      TreePartnerIsAlone(schema, nodes, orig, edges, f, id, target);
      SinkReachesOnlyItself(g, target, id);
    } else {
      PutBackGraph(nodes, orig, edges, typ, f.name);
      var o :| o in orig && Shape(orig[o]) == Shape(Stored(f, id, target, 0));
      assert (orig[o].from, orig[o].to) in h;
      assert Acyclic(h) && !Reach(h, target, id);
      ReachSelf(h, id);
      if Reach(g, target, id) { ReachMonotone(g, h, target, id); }
    }
  }

  lemma PutBackAllowed(schema: Schema, orig: map<int, Edge>, db: DB, f: FieldDef, id: int, target: int, sort: int)
    requires ValidSchema(schema) && ValidGraph(schema, db.nodes, orig) && Shapes(db.edges) <= Shapes(orig)
    requires id in db.nodes && db.nodes[id].typ in schema && f in schema[db.nodes[id].typ].fields && IsRefKind(f.kind)
    requires Shape(Stored(f, id, target, 0)) in Shapes(orig) && Shape(Stored(f, id, target, 0)) !in Shapes(db.edges)
    ensures InsertError(db, schema[db.nodes[id].typ], f, id, target, sort).None?
  {
    assert Shape(Stored(f, id, target, sort)) == Shape(Stored(f, id, target, 0));
    PutBackEndpoints(schema, db.nodes, orig, f, id, target);
    PutBackHasNoConflict(orig, db.edges, Stored(f, id, target, sort));
    if Hierarchical(schema[db.nodes[id].typ], f) {
      PutBackClosesNoCycle(schema, db.nodes, orig, db.edges, f, id, target);
    }
  }

  // ---------------------------------------------------------------- one field put back

  lemma NextIdGrows(s: set<int>)
    ensures NextId(s + {NextId(s)}) == NextId(s) + 1
  {
    var m := MaxOf(s + {NextId(s)});
    assert NextId(s) in s + {NextId(s)};
  }

  /** The rows a field's list leads to: consecutive ids, positions as in the list. */
  function Placed(edges: map<int, Edge>, f: FieldDef, from: int, ids: seq<int>, pos: nat, base: int): map<int, Edge>
    requires pos <= |ids|
    decreases |ids| - pos
  {
    if pos == |ids| then edges
    else Placed(edges[base := Stored(f, from, ids[pos], pos)], f, from, ids, pos + 1, base + 1)
  }

  lemma {:induction false} PlacedRows(edges: map<int, Edge>, f: FieldDef, from: int, ids: seq<int>, pos: nat, base: int)
    requires pos <= |ids| && forall k :: k in edges ==> k < base
    ensures
      var after := Placed(edges, f, from, ids, pos, base);
      && (forall k :: k in edges ==> k in after && after[k] == edges[k])
      && (forall k :: base <= k < base + |ids| - pos ==>
            k in after && after[k] == Stored(f, from, ids[pos + k - base], pos + k - base))
      && (forall k :: k in after ==> k in edges || base <= k < base + |ids| - pos)
    decreases |ids| - pos
  {
    if pos < |ids| {
      PlacedRows(edges[base := Stored(f, from, ids[pos], pos)], f, from, ids, pos + 1, base + 1);
      assert edges[base := Stored(f, from, ids[pos], pos)][base] == Stored(f, from, ids[pos], pos);
    }
  }

  lemma {:induction false} AddTargetsPlaces(
    db: DB, td: TypeDef, f: FieldDef, from: int, ids: seq<int>, pos: nat, next: DB)
    requires pos <= |ids| && AddTargets(db, td, f, from, ids, pos) == Ok(next)
    ensures next == db.(edges := Placed(db.edges, f, from, ids, pos, NextId(db.edges.Keys)))
    decreases |ids| - pos
  {
    if pos < |ids| {
      hide InsertError, Stored;
      var base := NextId(db.edges.Keys);
      var mid := InsertEdge(db, td, f, from, ids[pos], pos).value;
      AddTargetsPlaces(mid, td, f, from, ids, pos + 1, next);
      assert mid.edges.Keys == db.edges.Keys + {base};
      NextIdGrows(db.edges.Keys);
    }
  }

  lemma RefIdsFrame(edges: map<int, Edge>, edges': map<int, Edge>, id: int, f: FieldDef)
    requires RowsOf(edges, id, f) == RowsOf(edges', id, f)
    requires forall k :: k in RowsOf(edges, id, f) ==> edges[k] == edges'[k]
    ensures RefIds(edges, id, f) == RefIds(edges', id, f)
  {
    var rows := RowsOf(edges, id, f);
    var a, b := Sorted(edges, rows), Sorted(edges', rows);
    forall i | 0 <= i < |b| ensures b[i] in edges && edges[b[i]] == edges'[b[i]] {
      var x := b[i];
      assert x in Elements(b);
    }
    OrderIsUnique(edges, a, b);
  }

  lemma StoredReads(f: FieldDef, from: int, to: int, sort: int)
    ensures RowOf(Stored(f, from, to, sort), from, f) && OtherEnd(Stored(f, from, to, sort), from) == to
  {
  }

  lemma PlacedRowsAre(
    edges: map<int, Edge>, after: map<int, Edge>, f: FieldDef, from: int, ids: seq<int>, base: int, ks: seq<int>)
    requires RowsOf(edges, from, f) == {} && forall k :: k in edges ==> k < base
    requires after == Placed(edges, f, from, ids, 0, base)
    requires |ks| == |ids| && forall i :: 0 <= i < |ks| ==> ks[i] == base + i
    ensures Elements(ks) == RowsOf(after, from, f) && InOrder(after, ks)
    ensures forall i :: 0 <= i < |ks| ==> OtherEnd(after[ks[i]], from) == ids[i]
  {
    PlacedRows(edges, f, from, ids, 0, base);
    forall i | 0 <= i < |ks|
      ensures ks[i] in after && after[ks[i]] == Stored(f, from, ids[i], i)
      ensures ks[i] in RowsOf(after, from, f) && OtherEnd(after[ks[i]], from) == ids[i]
    {
      var k := base + i;
      assert k in after && after[k] == Stored(f, from, ids[i], i);
      StoredReads(f, from, ids[i], i);
    }
    forall k | k in RowsOf(after, from, f) ensures k in ks {
      assert k in edges ==> k in RowsOf(edges, from, f);
      assert ks[k - base] == k;
    }
  }

  /** After the old rows are gone, the new ones read back as the list that was written. */
  lemma PlacedReadsBack(edges: map<int, Edge>, f: FieldDef, from: int, ids: seq<int>, base: int)
    requires RowsOf(edges, from, f) == {} && forall k :: k in edges ==> k < base
    ensures RefIds(Placed(edges, f, from, ids, 0, base), from, f) == ids
  {
    var after := Placed(edges, f, from, ids, 0, base);
    var ks := seq(|ids|, i => base + i);
    PlacedRowsAre(edges, after, f, from, ids, base, ks);
    OrderIsUnique(after, ks, Sorted(after, RowsOf(after, from, f)));
  }

  /** The row shapes of a list of targets, from position pos on. */
  function TargetShapes(f: FieldDef, id: int, ids: seq<int>, pos: nat): set<Edge> {
    set i | pos <= i < |ids| :: Shape(Stored(f, id, ids[i], 0))
  }

  lemma TargetShapesStep(f: FieldDef, id: int, ids: seq<int>, pos: nat)
    requires pos < |ids|
    ensures TargetShapes(f, id, ids, pos) == {Shape(Stored(f, id, ids[pos], 0))} + TargetShapes(f, id, ids, pos + 1)
  {
  }

  /** The targets from pos on can be put back: their rows were there and are gone. */
  predicate Missing(orig: map<int, Edge>, edges: map<int, Edge>, f: FieldDef, id: int, ids: seq<int>, pos: nat) {
    forall i :: pos <= i < |ids| ==>
      Shape(Stored(f, id, ids[i], 0)) in Shapes(orig) && Shape(Stored(f, id, ids[i], 0)) !in Shapes(edges)
  }

  lemma PutBackOne(
    schema: Schema, orig: map<int, Edge>, db: DB, f: FieldDef, id: int, ids: seq<int>, pos: nat) returns (mid: DB)
    requires ValidSchema(schema) && ValidGraph(schema, db.nodes, orig) && Shapes(db.edges) <= Shapes(orig)
    requires id in db.nodes && db.nodes[id].typ in schema && f in schema[db.nodes[id].typ].fields && IsRefKind(f.kind)
    requires pos < |ids| && Distinct(ids) && Missing(orig, db.edges, f, id, ids, pos)
    ensures InsertEdge(db, schema[db.nodes[id].typ], f, id, ids[pos], pos) == Ok(mid)
    ensures mid.nodes == db.nodes && Shapes(mid.edges) == Shapes(db.edges) + {Shape(Stored(f, id, ids[pos], 0))}
    ensures Missing(orig, mid.edges, f, id, ids, pos + 1)
  {
    PutBackAllowed(schema, orig, db, f, id, ids[pos], pos);
    var e := Stored(f, id, ids[pos], pos);
    mid := db.(edges := db.edges[NextId(db.edges.Keys) := e]);
    ShapesInsert(db.edges, NextId(db.edges.Keys), e);
    assert Shape(e) == Shape(Stored(f, id, ids[pos], 0));
  }

  /** One field's rows, put back in the order they were read. */
  lemma {:induction false} PutBackTargets(
    schema: Schema, orig: map<int, Edge>, db: DB, f: FieldDef, id: int, ids: seq<int>, pos: nat)
    returns (next: DB)
    requires ValidSchema(schema) && ValidGraph(schema, db.nodes, orig) && Shapes(db.edges) <= Shapes(orig)
    requires id in db.nodes && db.nodes[id].typ in schema && f in schema[db.nodes[id].typ].fields && IsRefKind(f.kind)
    requires pos <= |ids| && Distinct(ids) && Missing(orig, db.edges, f, id, ids, pos)
    ensures AddTargets(db, schema[db.nodes[id].typ], f, id, ids, pos) == Ok(next)
    ensures Shapes(next.edges) == Shapes(db.edges) + TargetShapes(f, id, ids, pos)
    decreases |ids| - pos
  {
    hide ValidSchema, ValidGraph, Shapes, TargetShapes, InsertEdge;
    if pos == |ids| {
      NoTargetShapes(f, id, ids);
      next := db;
    } else {
      var mid := PutBackOne(schema, orig, db, f, id, ids, pos);
      assert ids[pos] !in ids[..pos];
      next := PutBackTargets(schema, orig, mid, f, id, ids, pos + 1);
      TargetShapesStep(f, id, ids, pos);
    }
  }

  lemma NoTargetShapes(f: FieldDef, id: int, ids: seq<int>)
    ensures TargetShapes(f, id, ids, |ids|) == {}
  {
  }

  lemma ShapesInsert(edges: map<int, Edge>, id: int, e: Edge)
    requires id !in edges
    ensures Shapes(edges[id := e]) == Shapes(edges) + {Shape(e)}
  {
    var after := edges[id := e];
    forall s | s in Shapes(edges) ensures s in Shapes(after) {
      var k :| k in edges && Shape(edges[k]) == s;
      assert after[k] == edges[k];
    }
    assert after[id] == e;
  }

  // ---------------------------------------------------------------- every field put back

  /** The row shapes of one field of one node. */
  function FieldShapes(edges: map<int, Edge>, id: int, f: FieldDef): set<Edge> {
    set k | k in RowsOf(edges, id, f) :: Shape(edges[k])
  }

  /** A row of a field is the row its list entry is stored as. */
  lemma RowShape(schema: Schema, nodes: map<int, Node>, edges: map<int, Edge>, id: int, f: FieldDef, k: int)
    requires ValidSchema(schema) && ValidEdges(schema, nodes, edges)
    requires id in nodes && nodes[id].typ in schema && f in schema[nodes[id].typ].fields && IsRefKind(f.kind)
    requires k in RowsOf(edges, id, f)
    ensures Shape(edges[k]) == Stored(f, id, OtherEnd(edges[k], id), 0)
  {
    var e := edges[k];
    assert ValidEdge(schema, nodes, e);
    FieldByNameFinds(schema[nodes[id].typ].fields, f);
    if Undirected(f) {
      var g := FieldOn(schema, nodes[e.from].typ, f.name).value;
      assert ValidTypeDef(schema, nodes[e.from].typ, schema[nodes[e.from].typ]);
      assert g.to == nodes[e.from].typ == nodes[e.to].typ;
    }
  }

  /** The list read for a field: distinct targets, whose rows are exactly the field's rows. */
  lemma RefIdsRows(schema: Schema, nodes: map<int, Node>, edges: map<int, Edge>, id: int, f: FieldDef)
    requires ValidSchema(schema) && ValidEdges(schema, nodes, edges) && NoConflicts(edges)
    requires id in nodes && nodes[id].typ in schema && f in schema[nodes[id].typ].fields && IsRefKind(f.kind)
    ensures
      var ids := RefIds(edges, id, f);
      && Distinct(ids)
      && (forall i :: 0 <= i < |ids| ==> Stored(f, id, ids[i], 0) in FieldShapes(edges, id, f))
      && FieldShapes(edges, id, f) == TargetShapes(f, id, ids, 0)
  {
    hide *;
    var ks := ReadRows(edges, id, f);
    var ids := RefIds(edges, id, f);
    forall i | 0 <= i < |ks| ensures Shape(edges[ks[i]]) == Stored(f, id, ids[i], 0) {
      RowShape(schema, nodes, edges, id, f, ks[i]);
    }
    RowsAreDistinct(edges, ks, f, id, ids);
    RowsAreShapes(edges, id, f, ks, ids);
  }

  /** The rows a read goes through, one for each target. */
  lemma ReadRows(edges: map<int, Edge>, id: int, f: FieldDef) returns (ks: seq<int>)
    ensures InOrder(edges, ks) && (forall i :: 0 <= i < |ks| ==> ks[i] in edges) && Elements(ks) == RowsOf(edges, id, f)
    ensures |ks| == |RefIds(edges, id, f)|
    ensures forall i :: 0 <= i < |ks| ==>
      ks[i] in RowsOf(edges, id, f) && RefIds(edges, id, f)[i] == OtherEnd(edges[ks[i]], id)
  {
    ks := Sorted(edges, RowsOf(edges, id, f));
    forall i | 0 <= i < |ks| ensures ks[i] in RowsOf(edges, id, f) {
      var k := ks[i];
      assert k in Elements(ks);
    }
  }

  lemma RowsAreDistinct(edges: map<int, Edge>, ks: seq<int>, f: FieldDef, id: int, ids: seq<int>)
    requires NoConflicts(edges) && InOrder(edges, ks) && |ks| == |ids| && forall i :: 0 <= i < |ks| ==> ks[i] in edges
    requires forall i :: 0 <= i < |ks| ==> Shape(edges[ks[i]]) == Stored(f, id, ids[i], 0)
    ensures Distinct(ids)
  {
    hide Stored, SameSingle, SharesPartner;
    forall i, j | 0 <= i < j < |ids| ensures ids[i] != ids[j] {
      assert Before(edges, ks[i], ks[j]);
      assert ks[i] != ks[j] && !SamePair(edges[ks[i]], edges[ks[j]]);
    }
  }

  lemma RowsAreShapes(edges: map<int, Edge>, id: int, f: FieldDef, ks: seq<int>, ids: seq<int>)
    requires Elements(ks) == RowsOf(edges, id, f) && |ks| == |ids| && forall i :: 0 <= i < |ks| ==> ks[i] in edges
    requires forall i :: 0 <= i < |ks| ==> Shape(edges[ks[i]]) == Stored(f, id, ids[i], 0)
    ensures forall i :: 0 <= i < |ids| ==> Stored(f, id, ids[i], 0) in FieldShapes(edges, id, f)
    ensures FieldShapes(edges, id, f) == TargetShapes(f, id, ids, 0)
  {
    forall t ensures Shape(Stored(f, id, t, 0)) == Stored(f, id, t, 0) { StoredIsShape(f, id, t); }
    hide RowsOf, Stored, Shape;
    forall i | 0 <= i < |ids| ensures Stored(f, id, ids[i], 0) in FieldShapes(edges, id, f) {
      var k := ks[i];
      assert k in Elements(ks);
    }
    forall s | s in FieldShapes(edges, id, f) ensures s in TargetShapes(f, id, ids, 0) {
      var k :| k in RowsOf(edges, id, f) && Shape(edges[k]) == s;
      assert k in Elements(ks);
      var i :| 0 <= i < |ks| && ks[i] == k;
      assert Shape(Stored(f, id, ids[i], 0)) == s;
    }
    forall s | s in TargetShapes(f, id, ids, 0) ensures s in FieldShapes(edges, id, f) {
      var i :| 0 <= i < |ids| && Shape(Stored(f, id, ids[i], 0)) == s;
    }
    hide FieldShapes, TargetShapes;
  }

  lemma StoredIsShape(f: FieldDef, id: int, t: int)
    ensures Shape(Stored(f, id, t, 0)) == Stored(f, id, t, 0)
  {
  }

  lemma SingleHasOneRow(schema: Schema, nodes: map<int, Node>, edges: map<int, Edge>, id: int, f: FieldDef)
    requires ValidSchema(schema) && ValidEdges(schema, nodes, edges) && NoConflicts(edges)
    requires id in nodes && nodes[id].typ in schema && f in schema[nodes[id].typ].fields && f.kind == Ref
    ensures |RefIds(edges, id, f)| <= 1
  {
    var rows := RowsOf(edges, id, f);
    var ks := Sorted(edges, rows);
    if |ks| > 1 {
      var a, b := ks[0], ks[1];
      assert a in Elements(ks) && b in Elements(ks) && a != b;
      RowShape(schema, nodes, edges, id, f, a);
      RowShape(schema, nodes, edges, id, f, b);
      assert false;
    }
  }

  lemma IdsNameTargets(f: FieldDef, ids: seq<int>)
    requires f.kind == RefList
    ensures ValidateValue(f, Ids(ids)) && TargetIds(f, Ids(ids)) == Some(ids)
  {
    var items := AsItems(Ids(ids)).value;
    assert forall i :: 0 <= i < |ids| ==> items[i] == Int(ids[i]);
    assert TargetIds(f, Ids(ids)).value == ids;
  }

  /** What was read under a field is accepted as its new value and names the same targets. */
  lemma ReadValueNamesTargets(schema: Schema, nodes: map<int, Node>, edges: map<int, Edge>, id: int, f: FieldDef)
    requires ValidSchema(schema) && ValidEdges(schema, nodes, edges) && NoConflicts(edges)
    requires id in nodes && nodes[id].typ in schema && f in schema[nodes[id].typ].fields && IsRefKind(f.kind)
    requires RefValue(f, RefIds(edges, id, f)).Some?
    ensures
      var v := RefValue(f, RefIds(edges, id, f)).value;
      v != Null && ValidateValue(f, v) && TargetIds(f, v) == Some(RefIds(edges, id, f))
  {
    hide RefIds, ValidEdges, NoConflicts, ValidSchema;
    var ids := RefIds(edges, id, f);
    if f.kind == Ref {
      SingleHasOneRow(schema, nodes, edges, id, f);
      assert ids == [ids[0]];
    } else {
      IdsNameTargets(f, ids);
    }
  }

  /** A shape one of the named fields had at the node. */
  ghost predicate ShapeOfField(orig: map<int, Edge>, id: int, td: TypeDef, done: set<string>, s: Edge) {
    exists f :: f in td.fields && IsRefKind(f.kind) && f.name in done && s in FieldShapes(orig, id, f)
  }

  /** The state after some of a node's fields were put back. */
  ghost predicate PutBackTo(
    orig: map<int, Edge>, id: int, td: TypeDef, done: set<string>, before: map<int, Edge>, after: map<int, Edge>) {
    && Shapes(before) <= Shapes(after) <= Shapes(orig)
    && (forall s :: s in Shapes(after) ==> s in Shapes(before) || ShapeOfField(orig, id, td, done, s))
    && (forall f :: f in td.fields && IsRefKind(f.kind) ==>
          if f.name in done then RefIds(after, id, f) == RefIds(orig, id, f)
            && FieldShapes(orig, id, f) <= Shapes(after)
          else RowsOf(after, id, f) == RowsOf(before, id, f) && RefIds(after, id, f) == RefIds(before, id, f))
  }

  lemma PlacedKeepsOtherFields(edges: map<int, Edge>, f: FieldDef, id: int, ids: seq<int>, g: FieldDef)
    requires f.name != g.name
    ensures
      var after := Placed(edges, f, id, ids, 0, NextId(edges.Keys));
      RowsOf(after, id, g) == RowsOf(edges, id, g) && RefIds(after, id, g) == RefIds(edges, id, g)
  {
    var base := NextId(edges.Keys);
    var after := Placed(edges, f, id, ids, 0, base);
    PlacedRows(edges, f, id, ids, 0, base);
    forall k | k in RowsOf(after, id, g) ensures k in RowsOf(edges, id, g) {
      assert k !in edges ==> after[k] == Stored(f, id, ids[k - base], k - base);
    }
    RefIdsFrame(edges, after, id, g);
  }

  lemma ReadRowsMissing(
    schema: Schema, nodes: map<int, Node>, orig: map<int, Edge>, edges: map<int, Edge>, f: FieldDef, id: int)
    requires ValidSchema(schema) && ValidEdges(schema, nodes, orig) && NoConflicts(orig)
    requires id in nodes && nodes[id].typ in schema && f in schema[nodes[id].typ].fields && IsRefKind(f.kind)
    requires RowsOf(edges, id, f) == {}
    ensures Distinct(RefIds(orig, id, f)) && Missing(orig, edges, f, id, RefIds(orig, id, f), 0)
    ensures TargetShapes(f, id, RefIds(orig, id, f), 0) == FieldShapes(orig, id, f)
  {
    hide RefIds, ValidEdges, NoConflicts, ValidSchema, TargetShapes;
    var ids := RefIds(orig, id, f);
    RefIdsRows(schema, nodes, orig, id, f);
    forall i | 0 <= i < |ids|
      ensures Shape(Stored(f, id, ids[i], 0)) in Shapes(orig) && Shape(Stored(f, id, ids[i], 0)) !in Shapes(edges)
    {
      var s := Stored(f, id, ids[i], 0);
      assert s in FieldShapes(orig, id, f);
      StoredReads(f, id, ids[i], 0);
      assert forall k :: k in edges && Shape(edges[k]) == s ==> k in RowsOf(edges, id, f);
    }
  }

  lemma PutBackField(schema: Schema, orig: map<int, Edge>, db: DB, f: FieldDef, id: int) returns (next: DB)
    requires ValidSchema(schema) && ValidGraph(schema, db.nodes, orig) && Shapes(db.edges) <= Shapes(orig)
    requires id in db.nodes && db.nodes[id].typ in schema && f in schema[db.nodes[id].typ].fields && IsRefKind(f.kind)
    requires RowsOf(db.edges, id, f) == {}
    ensures AddTargets(db, schema[db.nodes[id].typ], f, id, RefIds(orig, id, f), 0) == Ok(next)
    ensures next == db.(edges := Placed(db.edges, f, id, RefIds(orig, id, f), 0, NextId(db.edges.Keys)))
    ensures Shapes(next.edges) == Shapes(db.edges) + FieldShapes(orig, id, f)
    ensures RefIds(next.edges, id, f) == RefIds(orig, id, f)
  {
    var ids := RefIds(orig, id, f);
    ReadRowsMissing(schema, db.nodes, orig, db.edges, f, id);
    next := PutBackTargets(schema, orig, db, f, id, ids, 0);
    AddTargetsPlaces(db, schema[db.nodes[id].typ], f, id, ids, 0, next);
    PlacedReadsBack(db.edges, f, id, ids, NextId(db.edges.Keys));
  }

  /** Putting back one more field. */
  lemma PutBackStep(schema: Schema, orig: map<int, Edge>, before: DB, f: FieldDef, id: int, after: DB)
    requires ValidSchema(schema) && ValidGraph(schema, before.nodes, orig) && Shapes(before.edges) <= Shapes(orig)
    requires id in before.nodes && before.nodes[id].typ in schema
    requires f in schema[before.nodes[id].typ].fields && IsRefKind(f.kind)
    requires after == before.(edges := Placed(before.edges, f, id, RefIds(orig, id, f), 0, NextId(before.edges.Keys)))
    requires Shapes(after.edges) == Shapes(before.edges) + FieldShapes(orig, id, f)
    requires RefIds(after.edges, id, f) == RefIds(orig, id, f)
    ensures PutBackTo(orig, id, schema[before.nodes[id].typ], {f.name}, before.edges, after.edges)
  {
    var td := schema[before.nodes[id].typ];
    forall s | s in FieldShapes(orig, id, f) ensures s in Shapes(orig) && ShapeOfField(orig, id, td, {f.name}, s) { }
    forall g | g in td.fields && IsRefKind(g.kind)
      ensures if g.name == f.name then g == f
              else RowsOf(after.edges, id, g) == RowsOf(before.edges, id, g)
                   && RefIds(after.edges, id, g) == RefIds(before.edges, id, g)
    {
      FieldByNameFinds(td.fields, f);
      FieldByNameFinds(td.fields, g);
      if g.name != f.name {
        PlacedKeepsOtherFields(before.edges, f, id, RefIds(orig, id, f), g);
      }
    }
  }

  lemma PutBackTrans(
    orig: map<int, Edge>, id: int, td: TypeDef, name: string, rest: set<string>, a: map<int, Edge>,
    b: map<int, Edge>, c: map<int, Edge>)
    requires PutBackTo(orig, id, td, {name}, a, b) && PutBackTo(orig, id, td, rest, b, c) && name !in rest
    ensures PutBackTo(orig, id, td, {name} + rest, a, c)
  {
    forall s | s in Shapes(c) ensures s in Shapes(a) || ShapeOfField(orig, id, td, {name} + rest, s) {
      if s !in Shapes(a) {
        if s in Shapes(b) {
          MoreFields(orig, id, td, {name}, {name} + rest, s);
        } else {
          MoreFields(orig, id, td, rest, {name} + rest, s);
        }
      }
    }
  }

  lemma MoreFields(orig: map<int, Edge>, id: int, td: TypeDef, some: set<string>, all: set<string>, s: Edge)
    requires some <= all && ShapeOfField(orig, id, td, some, s)
    ensures ShapeOfField(orig, id, td, all, s)
  {
    var f :| f in td.fields && IsRefKind(f.kind) && f.name in some && s in FieldShapes(orig, id, f);
    assert f.name in all;
  }

  /** refs[name] is what was read under name, and the field's rows are gone from the table. */
  ghost predicate Pending(
    orig: map<int, Edge>, edges: map<int, Edge>, id: int, td: TypeDef, refs: Fields, name: string) {
    && name in refs && IsRefName(td, name)
    && ReadOf(td, orig, id, name) == Some(refs[name])
    && RowsOf(edges, id, FieldByName(td.fields, name).value) == {}
  }

  lemma StaysPending(
    orig: map<int, Edge>, before: map<int, Edge>, after: map<int, Edge>, id: int, td: TypeDef, refs: Fields,
    done: string, name: string)
    requires PutBackTo(orig, id, td, {done}, before, after) && name != done
    requires Pending(orig, before, id, td, refs, name)
    ensures Pending(orig, after, id, td, refs, name)
  {
    var f := FieldByName(td.fields, name).value;
    assert f in td.fields && f.name == name;
  }

  /** addEdges with every value as it was read succeeds, whatever order the map is walked in. */
  lemma {:induction false} PutBackAll(
    schema: Schema, orig: map<int, Edge>, db: DB, id: int, refs: Fields, order: seq<string>)
    returns (next: DB)
    requires ValidSchema(schema) && ValidGraph(schema, db.nodes, orig) && Shapes(db.edges) <= Shapes(orig)
    requires id in db.nodes && db.nodes[id].typ in schema
    requires Distinct(order) && (forall k :: k in order ==> k in refs)
    requires forall i :: 0 <= i < |order| ==> Pending(orig, db.edges, id, schema[db.nodes[id].typ], refs, order[i])
    ensures AddEdges(db, schema[db.nodes[id].typ], id, refs, order) == Ok(next)
    ensures next.nodes == db.nodes && next.index == db.index
    ensures PutBackTo(orig, id, schema[db.nodes[id].typ], Elements(order), db.edges, next.edges)
    decreases |order|
  {
    var td := schema[db.nodes[id].typ];
    if order == [] {
      next := db;
    } else {
      var name, rest := order[0], order[1..];
      assert Pending(orig, db.edges, id, td, refs, name);
      var mid := PutBackFirst(schema, orig, db, id, refs, order);
      forall i | 0 <= i < |rest| ensures Pending(orig, mid.edges, id, td, refs, rest[i]) {
        assert rest[i] == order[i + 1];
        StaysPending(orig, db.edges, mid.edges, id, td, refs, name, rest[i]);
      }
      next := PutBackAll(schema, orig, mid, id, refs, rest);
      HeadAndRest(order);
      PutBackTrans(orig, id, td, name, Elements(rest), db.edges, mid.edges, next.edges);
    }
  }

  lemma HeadAndRest(order: seq<string>)
    requires order != [] && Distinct(order)
    ensures Elements(order) == {order[0]} + Elements(order[1..]) && order[0] !in Elements(order[1..])
  {
    assert order == [order[0]] + order[1..];
  }

  lemma PutBackFirst(
    schema: Schema, orig: map<int, Edge>, db: DB, id: int, refs: Fields, order: seq<string>) returns (mid: DB)
    requires ValidSchema(schema) && ValidGraph(schema, db.nodes, orig) && Shapes(db.edges) <= Shapes(orig)
    requires id in db.nodes && db.nodes[id].typ in schema
    requires order != [] && (forall k :: k in order ==> k in refs)
    requires Pending(orig, db.edges, id, schema[db.nodes[id].typ], refs, order[0])
    ensures mid.nodes == db.nodes && mid.index == db.index
    ensures PutBackTo(orig, id, schema[db.nodes[id].typ], {order[0]}, db.edges, mid.edges)
    ensures AddEdges(db, schema[db.nodes[id].typ], id, refs, order)
      == AddEdges(mid, schema[db.nodes[id].typ], id, refs, order[1..])
  {
    var f := FieldByName(schema[db.nodes[id].typ].fields, order[0]).value;
    ReadValueNamesTargets(schema, db.nodes, orig, id, f);
    mid := PutBackField(schema, orig, db, f, id);
    PutBackStep(schema, orig, db, f, id, mid);
  }

  // ---------------------------------------------------------------- the whole patch

  /** PatchFromNode of what GetNode returns. */
  ghost function PatchFromNode(td: TypeDef, db: DB, id: int): Patch
    requires id in db.nodes
  {
    Patch(Some(db.nodes[id].revision), Some(db.nodes[id].display), FullFields(td, db.edges, id, db.nodes[id].fields))
  }

  /** What a caller can check before writing back: nothing immutable, no empty required list. */
  predicate Writable(td: TypeDef, full: Fields) {
    forall k :: k in full && FieldByName(td.fields, k).Some? ==> WritableField(FieldByName(td.fields, k).value, full[k])
  }

  predicate WritableField(f: FieldDef, v: Value) {
    !f.immutable && (f.required && f.kind == RefList ==> v != Ids([]))
  }

  /** ValidatePatchFields for one field of a read. */
  predicate PatchFieldPasses(f: FieldDef, v: Value) {
    && !f.immutable
    && (if v == Null then !f.required else ValidateValue(f, v) && (f.required ==> !IsEmpty(f.kind, v)))
  }

  lemma RefFieldPasses(schema: Schema, nodes: map<int, Node>, edges: map<int, Edge>, id: int, f: FieldDef, v: Value)
    requires ValidSchema(schema) && ValidEdges(schema, nodes, edges) && NoConflicts(edges)
    requires id in nodes && nodes[id].typ in schema && f in schema[nodes[id].typ].fields && IsRefKind(f.kind)
    requires RefValue(f, RefIds(edges, id, f)) == Some(v)
    ensures PatchFieldPasses(f, v) <==> WritableField(f, v)
  {
    hide RefIds, ValidEdges, NoConflicts, ValidSchema, ValidateValue, TargetIds;
    ReadValueNamesTargets(schema, nodes, edges, id, f);
    if f.kind == RefList {
      assert AsItems(v).value == [] <==> v == Ids([]);
    }
  }

  lemma ScalarFieldPasses(td: TypeDef, scalars: Fields, k: string)
    requires ValidScalars(td, scalars) && DistinctNames(td.fields) && k in scalars
    ensures PatchFieldPasses(FieldByName(td.fields, k).value, scalars[k])
      <==> WritableField(FieldByName(td.fields, k).value, scalars[k])
  {
    ValidIsNotNull(FieldByName(td.fields, k).value, scalars[k]);
  }

  lemma ReadPasses(schema: Schema, db: DB, id: int)
    requires ValidSchema(schema) && Inv(schema, db) && id in db.nodes && db.nodes[id].typ in schema
    ensures
      var td := schema[db.nodes[id].typ];
      var full := FullFields(td, db.edges, id, db.nodes[id].fields);
      ValidatePatchFields(td, full) <==> Writable(td, full)
  {
    var n := db.nodes[id];
    var td := schema[n.typ];
    assert ValidNode(schema, n);
    var refs := RefFields(td, db.edges, id);
    var full := FullFields(td, db.edges, id, n.fields);
    forall k | k in full
      ensures FieldByName(td.fields, k).Some?
      ensures PatchFieldPasses(FieldByName(td.fields, k).value, full[k])
        <==> WritableField(FieldByName(td.fields, k).value, full[k])
    {
      if k in refs {
        ReadOfRef(td, db.edges, id, k);
        RefFieldPasses(schema, db.nodes, db.edges, id, FieldByName(td.fields, k).value, full[k]);
      } else {
        ScalarFieldPasses(td, n.fields, k);
      }
    }
    assert ValidatePatchFields(td, full) <==>
           forall k :: k in full ==> PatchFieldPasses(FieldByName(td.fields, k).value, full[k]);
  }

  lemma ClearedEmpties(edges: map<int, Edge>, id: int, td: TypeDef, names: set<string>, k: string)
    requires k in names && IsRefName(td, k)
    ensures RowsOf(ClearFields(edges, id, td, names), id, FieldByName(td.fields, k).value) == {}
  {
    var f := FieldByName(td.fields, k).value;
    forall e: Edge | RowOf(e, id, f) ensures ClearedByAny(e, id, td, names) {
      assert e.field == k && ClearedBy(e, id, f);
    }
    var cleared := ClearFields(edges, id, td, names);
    assert forall j :: j in cleared ==> !ClearedByAny(cleared[j], id, td, names);
  }

  lemma ClearedShapes(edges: map<int, Edge>, id: int, td: TypeDef, names: set<string>)
    ensures Shapes(ClearFields(edges, id, td, names)) <= Shapes(edges)
  {
    var cleared := ClearFields(edges, id, td, names);
    forall s | s in Shapes(cleared) ensures s in Shapes(edges) {
      var k :| k in cleared && Shape(cleared[k]) == s;
      assert k in edges && edges[k] == cleared[k];
    }
  }

  /** Under NoNameClash deleteFieldEdges removes rows of the patched fields only. */
  lemma ClearedRowIsOwn(schema: Schema, nodes: map<int, Node>, e: Edge, id: int, f: FieldDef)
    requires ValidSchema(schema) && NoNameClash(schema) && ValidEdge(schema, nodes, e)
    requires id in nodes && nodes[id].typ in schema && f in schema[nodes[id].typ].fields && IsRefKind(f.kind)
    requires ClearedBy(e, id, f)
    ensures RowOf(e, id, f)
  {
    var g := FieldOn(schema, nodes[e.from].typ, e.field).value;
    assert ValidTypeDef(schema, nodes[id].typ, schema[nodes[id].typ]);
    FieldByNameFinds(schema[nodes[id].typ].fields, f);
    if Undirected(f) && e.from != id {
      assert g.name == f.name && g.to == f.to == nodes[id].typ;
      assert nodes[e.from].typ == nodes[id].typ;
    }
  }

  /** A row of another type to the node, under the name of an undirected field that the write-back carries. */
  ghost predicate LostByWriteBack(td: TypeDef, edges: map<int, Edge>, id: int, e: Edge) {
    && e.to == id && !e.symmetric && e.field in RefFields(td, edges, id) && IsRefName(td, e.field)
    && Undirected(FieldByName(td.fields, e.field).value)
  }

  ghost function KeptShapes(td: TypeDef, id: int, edges: map<int, Edge>): set<Edge> {
    set k | k in edges && !LostByWriteBack(td, edges, id, edges[k]) :: Shape(edges[k])
  }

  /** Same ordered lists at the node, no edge that was not there, and all of them but the lost ones. */
  ghost predicate ReferencesKept(td: TypeDef, id: int, before: map<int, Edge>, after: map<int, Edge>) {
    && (forall f :: f in td.fields && IsRefKind(f.kind) ==> RefIds(after, id, f) == RefIds(before, id, f))
    && Shapes(after) == KeptShapes(td, id, before)
  }

  /** Row and references as before, one revision later. */
  ghost predicate WrittenBack(td: TypeDef, id: int, db: DB, next: DB)
    requires id in db.nodes
  {
    && next.nodes == db.nodes[id := db.nodes[id].(revision := db.nodes[id].revision + 1)]
    && next.index == db.index
    && ReferencesKept(td, id, db.edges, next.edges)
  }

  /**
   * Writing back exactly what was read succeeds if and only if nothing read is immutable and no
   * required list is empty; then the node's scalars and ordered reference lists are what they were,
   * its revision is one higher, and exactly the edges of LostByWriteBack are gone from the store.
   */
  lemma WriteBack(schema: Schema, db: DB, id: int, order: seq<string>)
    requires ValidSchema(schema) && Inv(schema, db) && id in db.nodes && db.nodes[id].typ in schema
    requires Enumerates(order, RefFields(schema[db.nodes[id].typ], db.edges, id).Keys)
    ensures
      var td := schema[db.nodes[id].typ];
      var result := PatchNode(schema, db, id, PatchFromNode(td, db, id), order);
      && (result.Ok? <==> Writable(td, PatchFromNode(td, db, id).fields))
      && (result.Ok? ==> WrittenBack(td, id, db, result.value))
  {
    var td := schema[db.nodes[id].typ];
    ReadPasses(schema, db, id);
    if Writable(td, PatchFromNode(td, db, id).fields) {
      var _ := WriteBackRuns(schema, db, id, order);
    } else {
      RejectedPatchFails(schema, db, id, PatchFromNode(td, db, id), order);
    }
  }

  lemma RejectedPatchFails(schema: Schema, db: DB, id: int, patch: Patch, order: seq<string>)
    requires id in db.nodes && db.nodes[id].typ in schema && patch.display.Some?
    requires !ValidatePatchFields(schema[db.nodes[id].typ], patch.fields)
    ensures PatchNode(schema, db, id, patch, order).Err?
  {
  }

  lemma WriteBackRuns(schema: Schema, db: DB, id: int, order: seq<string>) returns (next: DB)
    requires ValidSchema(schema) && Inv(schema, db) && id in db.nodes && db.nodes[id].typ in schema
    requires Enumerates(order, RefFields(schema[db.nodes[id].typ], db.edges, id).Keys)
    requires ValidatePatchFields(schema[db.nodes[id].typ], PatchFromNode(schema[db.nodes[id].typ], db, id).fields)
    ensures PatchNode(schema, db, id, PatchFromNode(schema[db.nodes[id].typ], db, id), order) == Ok(next)
    ensures WrittenBack(schema[db.nodes[id].typ], id, db, next)
  {
    var n := db.nodes[id];
    var td := schema[n.typ];
    var row := n.(revision := n.revision + 1);
    var cleared := DB(db.nodes[id := row], ClearFields(db.edges, id, td, RefFields(td, db.edges, id).Keys), db.index);
    next := WriteBackEdges(schema, db, id, order, row, cleared);
    WriteBackResult(schema, db, id, order, row, cleared, next);
  }

  /** PatchNode comes down to adding the references to the cleared table. */
  lemma WriteBackResult(schema: Schema, db: DB, id: int, order: seq<string>, row: Node, cleared: DB, next: DB)
    requires Inv(schema, db) && id in db.nodes && db.nodes[id].typ in schema
    requires Enumerates(order, RefFields(schema[db.nodes[id].typ], db.edges, id).Keys)
    requires ValidatePatchFields(schema[db.nodes[id].typ], PatchFromNode(schema[db.nodes[id].typ], db, id).fields)
    requires row == db.nodes[id].(revision := db.nodes[id].revision + 1)
    requires cleared == DB(db.nodes[id := row],
      ClearFields(db.edges, id, schema[row.typ], RefFields(schema[row.typ], db.edges, id).Keys), db.index)
    requires forall k :: k in order ==> k in RefFields(schema[row.typ], db.edges, id)
    requires AddEdges(cleared, schema[row.typ], id, RefFields(schema[row.typ], db.edges, id), order) == Ok(next)
    requires next.nodes == cleared.nodes && next.index == cleared.index
    ensures PatchNode(schema, db, id, PatchFromNode(schema[db.nodes[id].typ], db, id), order) == Ok(next)
  {
    var n := db.nodes[id];
    assert ValidNode(schema, n);
    hide ValidGraph, ValidatePatchFields, ClearFields, AddEdges, PatchedRow, SyncIndex, RebuiltIndex, RefFields;
    var td := schema[n.typ];
    FullFieldsSplit(td, db.edges, id, n.fields);
    WriteBackRow(schema, n, PatchFromNode(td, db, id));
    SyncIsRebuild(schema, db.nodes, id, row);
    SameDocs(schema, db.nodes, id, row);
  }

  lemma SameDocs(schema: Schema, nodes: map<int, Node>, id: int, row: Node)
    requires id in nodes && row == nodes[id].(revision := row.revision)
    ensures RebuiltIndex(schema, nodes[id := row]) == RebuiltIndex(schema, nodes)
  {
    assert DocOf(schema, row) == DocOf(schema, nodes[id]);
  }

  lemma WriteBackRow(schema: Schema, n: Node, patch: Patch)
    requires ValidNode(schema, n) && patch.display == Some(n.display)
    requires ScalarPart(schema[n.typ], patch.fields) == n.fields
    ensures PatchedRow(schema[n.typ], n, patch) == n.(revision := n.revision + 1)
  {
    MergeOwnScalars(schema[n.typ], n.fields);
  }

  lemma WriteBackEdges(schema: Schema, db: DB, id: int, order: seq<string>, row: Node, cleared: DB) returns (next: DB)
    requires ValidSchema(schema) && Inv(schema, db) && id in db.nodes && db.nodes[id].typ in schema
    requires Enumerates(order, RefFields(schema[db.nodes[id].typ], db.edges, id).Keys)
    requires row.typ == db.nodes[id].typ && cleared.nodes == db.nodes[id := row]
    requires cleared.edges == ClearFields(db.edges, id, schema[row.typ], RefFields(schema[row.typ], db.edges, id).Keys)
    ensures forall k :: k in order ==> k in RefFields(schema[row.typ], db.edges, id)
    ensures AddEdges(cleared, schema[row.typ], id, RefFields(schema[row.typ], db.edges, id), order) == Ok(next)
    ensures next.nodes == cleared.nodes && next.index == cleared.index
    ensures ReferencesKept(schema[row.typ], id, db.edges, next.edges)
  {
    var td := schema[row.typ];
    var refs := RefFields(td, db.edges, id);
    RetypedGraph(schema, db, id, row);
    ClearedShapes(db.edges, id, td, refs.Keys);
    AllPending(db.edges, id, td, cleared.edges, order);
    next := PutBackAll(schema, db.edges, cleared, id, refs, order);
    WriteBackKeepsReferences(schema, db, id, cleared.edges, next.edges);
  }

  lemma RetypedGraph(schema: Schema, db: DB, id: int, row: Node)
    requires ValidGraph(schema, db.nodes, db.edges) && id in db.nodes && row.typ == db.nodes[id].typ
    ensures ValidGraph(schema, db.nodes[id := row], db.edges)
  {
    assert forall k :: k in db.edges ==> ValidEdge(schema, db.nodes, db.edges[k]);
    SameTypesKeepGraph(schema, db.nodes, db.nodes[id := row], db.edges);
  }

  lemma WriteBackKeepsReferences(schema: Schema, db: DB, id: int, cleared: map<int, Edge>, after: map<int, Edge>)
    requires ValidSchema(schema) && ValidEdges(schema, db.nodes, db.edges)
    requires id in db.nodes && db.nodes[id].typ in schema
    requires cleared == ClearFields(db.edges, id, schema[db.nodes[id].typ],
      RefFields(schema[db.nodes[id].typ], db.edges, id).Keys)
    requires PutBackTo(db.edges, id, schema[db.nodes[id].typ], RefFields(schema[db.nodes[id].typ], db.edges, id).Keys,
      cleared, after)
    ensures ReferencesKept(schema[db.nodes[id].typ], id, db.edges, after)
  {
    var td := schema[db.nodes[id].typ];
    var names := RefFields(td, db.edges, id).Keys;
    forall f | f in td.fields && IsRefKind(f.kind) ensures RefIds(after, id, f) == RefIds(db.edges, id, f) {
      WriteBackReadsSame(schema, db, id, f, cleared, after);
    }
    forall k | k in names ensures IsRefName(td, k) { ReadOfRef(td, db.edges, id, k); }
    WriteBackShapes(schema, db, id, td, cleared, after);
  }

  lemma AllPending(edges: map<int, Edge>, id: int, td: TypeDef, cleared: map<int, Edge>, order: seq<string>)
    requires Enumerates(order, RefFields(td, edges, id).Keys)
    requires cleared == ClearFields(edges, id, td, RefFields(td, edges, id).Keys)
    ensures forall k :: k in order ==> k in RefFields(td, edges, id)
    ensures forall i :: 0 <= i < |order| ==> Pending(edges, cleared, id, td, RefFields(td, edges, id), order[i])
  {
    var refs := RefFields(td, edges, id);
    forall k | k in order ensures k in refs { assert k in Elements(order); }
    forall i | 0 <= i < |order| ensures Pending(edges, cleared, id, td, refs, order[i]) {
      var k := order[i];
      assert k in Elements(order) && k in refs;
      ReadOfRef(td, edges, id, k);
      ClearedEmpties(edges, id, td, refs.Keys, k);
    }
  }

  lemma WriteBackShapes(schema: Schema, db: DB, id: int, td: TypeDef, cleared: map<int, Edge>, after: map<int, Edge>)
    requires ValidSchema(schema) && ValidEdges(schema, db.nodes, db.edges)
    requires id in db.nodes && db.nodes[id].typ in schema && td == schema[db.nodes[id].typ]
    requires cleared == ClearFields(db.edges, id, td, RefFields(td, db.edges, id).Keys)
    requires PutBackTo(db.edges, id, td, RefFields(td, db.edges, id).Keys, cleared, after)
    ensures Shapes(after) == KeptShapes(td, id, db.edges)
  {
    var names := RefFields(td, db.edges, id).Keys;
    forall k | k in names ensures IsRefName(td, k) { ReadOfRef(td, db.edges, id, k); }
    hide ValidSchema, RefFields;
    forall k | k in db.edges && !LostByWriteBack(td, db.edges, id, db.edges[k])
      ensures Shape(db.edges[k]) in Shapes(after) {
      if ClearedByAny(db.edges[k], id, td, names) {
        ClearedRowComesBack(schema, db, id, td, names, cleared, after, k);
      } else {
        assert Shape(cleared[k]) in Shapes(cleared);
      }
    }
    forall s | s in Shapes(after) ensures s in KeptShapes(td, id, db.edges) {
      if s in Shapes(cleared) {
        var k :| k in cleared && Shape(cleared[k]) == s;
        NotClearedIsKept(schema, db, id, td, names, k);
      } else {
        FieldShapeIsKept(schema, db, id, td, names, s);
      }
    }
    SetsEqual(Shapes(after), KeptShapes(td, id, db.edges));
  }

  lemma NotClearedIsKept(schema: Schema, db: DB, id: int, td: TypeDef, names: set<string>, k: int)
    requires names == RefFields(td, db.edges, id).Keys
    requires k in db.edges && !ClearedByAny(db.edges[k], id, td, names)
    ensures Shape(db.edges[k]) in KeptShapes(td, id, db.edges)
  {
    hide RefFields;
    assert !LostByWriteBack(td, db.edges, id, db.edges[k]);
  }

  lemma FieldShapeIsKept(schema: Schema, db: DB, id: int, td: TypeDef, names: set<string>, s: Edge)
    requires names == RefFields(td, db.edges, id).Keys && DistinctNames(td.fields)
    requires ShapeOfField(db.edges, id, td, names, s)
    ensures s in KeptShapes(td, id, db.edges)
  {
    hide RefFields;
    var f :| f in td.fields && IsRefKind(f.kind) && f.name in names && s in FieldShapes(db.edges, id, f);
    var k :| k in RowsOf(db.edges, id, f) && Shape(db.edges[k]) == s;
    FieldByNameFinds(td.fields, f);
    assert !LostByWriteBack(td, db.edges, id, db.edges[k]);
  }

  lemma ClearedRowComesBack(
    schema: Schema, db: DB, id: int, td: TypeDef, names: set<string>, cleared: map<int, Edge>, after: map<int, Edge>,
    k: int)
    requires ValidSchema(schema) && k in db.edges && ValidEdge(schema, db.nodes, db.edges[k])
    requires id in db.nodes && db.nodes[id].typ in schema && td == schema[db.nodes[id].typ]
    requires names == RefFields(td, db.edges, id).Keys
    requires db.edges[k].field in names && IsRefName(td, db.edges[k].field) && ClearedByAny(db.edges[k], id, td, names)
    requires !LostByWriteBack(td, db.edges, id, db.edges[k])
    requires PutBackTo(db.edges, id, td, names, cleared, after)
    ensures Shape(db.edges[k]) in Shapes(after)
  {
    hide RefFields, RefIds, ValidSchema;
    var f := FieldByName(td.fields, db.edges[k].field).value;
    assert k in RowsOf(db.edges, id, f);
    assert Shape(db.edges[k]) in FieldShapes(db.edges, id, f);
  }

  lemma WriteBackReadsSame(schema: Schema, db: DB, id: int, f: FieldDef, cleared: map<int, Edge>, after: map<int, Edge>)
    requires ValidSchema(schema) && id in db.nodes && db.nodes[id].typ in schema
    requires f in schema[db.nodes[id].typ].fields && IsRefKind(f.kind)
    requires cleared == ClearFields(db.edges, id, schema[db.nodes[id].typ],
      RefFields(schema[db.nodes[id].typ], db.edges, id).Keys)
    requires PutBackTo(db.edges, id, schema[db.nodes[id].typ], RefFields(schema[db.nodes[id].typ], db.edges, id).Keys,
      cleared, after)
    ensures RefIds(after, id, f) == RefIds(db.edges, id, f)
  {
    var td := schema[db.nodes[id].typ];
    FieldByNameFinds(td.fields, f);
    if f.name !in RefFields(td, db.edges, id) {
      assert f.name in RefNames(td) && ReadOf(td, db.edges, id, f.name).None?;
      assert RefIds(db.edges, id, f) == [];
      ElementsEmpty(Sorted(db.edges, RowsOf(db.edges, id, f)));
      assert RowsOf(cleared, id, f) <= RowsOf(db.edges, id, f);
      RefIdsFrame(db.edges, cleared, id, f);
    }
  }

  /** Hence every node keeps all its neighbours in every field, but for the lost edges. */
  lemma WriteBackNeighbours(schema: Schema, db: DB, id: int, order: seq<string>, next: DB, m: int, f: FieldDef)
    requires ValidSchema(schema) && Inv(schema, db) && id in db.nodes && db.nodes[id].typ in schema
    requires Enumerates(order, RefFields(schema[db.nodes[id].typ], db.edges, id).Keys)
    requires PatchNode(schema, db, id, PatchFromNode(schema[db.nodes[id].typ], db, id), order) == Ok(next)
    ensures Neighbours(next.edges, m, f)
      == set k | k in RowsOf(db.edges, m, f) && !LostByWriteBack(schema[db.nodes[id].typ], db.edges, id, db.edges[k])
           :: OtherEnd(db.edges[k], m)
  {
    hide PatchNode, RefFields, LostByWriteBack, Inv, ValidSchema;
    var td := schema[db.nodes[id].typ];
    WriteBack(schema, db, id, order);
    hide WrittenBack;
    KeptNeighbours(td, db.edges, next.edges, id, m, f) by { WrittenShapes(td, id, db, next); }
  }

  lemma WrittenShapes(td: TypeDef, id: int, db: DB, next: DB)
    requires id in db.nodes && WrittenBack(td, id, db, next)
    ensures Shapes(next.edges) == KeptShapes(td, id, db.edges)
  {
  }

  lemma KeptNeighbours(td: TypeDef, before: map<int, Edge>, after: map<int, Edge>, id: int, m: int, f: FieldDef)
    requires Shapes(after) == KeptShapes(td, id, before)
    ensures Neighbours(after, m, f)
      == set k | k in RowsOf(before, m, f) && !LostByWriteBack(td, before, id, before[k]) :: OtherEnd(before[k], m)
  {
    hide LostByWriteBack;
    var kept := set k | k in RowsOf(before, m, f) && !LostByWriteBack(td, before, id, before[k]) ::
      OtherEnd(before[k], m);
    forall x | x in Neighbours(after, m, f) ensures x in kept {
      var j :| j in RowsOf(after, m, f) && OtherEnd(after[j], m) == x;
      assert Shape(after[j]) in Shapes(after);
      var k :| k in before && !LostByWriteBack(td, before, id, before[k]) && Shape(before[k]) == Shape(after[j]);
      assert k in RowsOf(before, m, f) && OtherEnd(before[k], m) == x;
    }
    forall x | x in kept ensures x in Neighbours(after, m, f) {
      var k :| k in RowsOf(before, m, f) && !LostByWriteBack(td, before, id, before[k]) && OtherEnd(before[k], m) == x;
      assert Shape(before[k]) in KeptShapes(td, id, before);
      var j :| j in after && Shape(after[j]) == Shape(before[k]);
      assert j in RowsOf(after, m, f) && OtherEnd(after[j], m) == x;
    }
    SetsEqual(Neighbours(after, m, f), kept);
  }

  /** Without name clashes nothing is lost. */
  lemma NothingIsLost(schema: Schema, db: DB, id: int, k: int)
    requires ValidSchema(schema) && NoNameClash(schema) && ValidEdges(schema, db.nodes, db.edges)
    requires id in db.nodes && db.nodes[id].typ in schema && k in db.edges
    ensures !LostByWriteBack(schema[db.nodes[id].typ], db.edges, id, db.edges[k])
  {
    hide RefFields;
    var (td, e) := (schema[db.nodes[id].typ], db.edges[k]);
    assert ValidEdge(schema, db.nodes, e);
    if LostByWriteBack(td, db.edges, id, e) {
      ClearedRowIsOwn(schema, db.nodes, e, id, FieldByName(td.fields, e.field).value);
    }
  }

  lemma WriteBackKeepsNeighbours(schema: Schema, db: DB, id: int, order: seq<string>, next: DB, m: int, f: FieldDef)
    requires ValidSchema(schema) && NoNameClash(schema) && Inv(schema, db) && id in db.nodes
    requires db.nodes[id].typ in schema
    requires Enumerates(order, RefFields(schema[db.nodes[id].typ], db.edges, id).Keys)
    requires PatchNode(schema, db, id, PatchFromNode(schema[db.nodes[id].typ], db, id), order) == Ok(next)
    ensures Neighbours(next.edges, m, f) == Neighbours(db.edges, m, f)
  {
    hide PatchNode, RefFields, LostByWriteBack;
    WriteBackNeighbours(schema, db, id, order, next, m, f);
    forall k | k in RowsOf(db.edges, m, f)
      ensures !LostByWriteBack(schema[db.nodes[id].typ], db.edges, id, db.edges[k]) {
      NothingIsLost(schema, db, id, k);
    }
  }
}
