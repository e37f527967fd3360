/** What holds of the tables in every reachable state, and the proof that each write keeps it. */
module Invariants {
  import opened Common
  import opened Types
  import opened Graph
  import opened Store

  // ---------------------------------------------------------------- the invariant

  predicate ValidNode(schema: Schema, n: Node) {
    n.typ in schema && n.display != "" && n.revision >= 1 && ValidScalars(schema[n.typ], n.fields)
  }

  /** Existing endpoints of the declared types, schema-derived flags, canonical undirected endpoints. */
  predicate ValidEdge(schema: Schema, nodes: map<int, Node>, e: Edge) {
    && e.from in nodes && e.to in nodes
    && FieldOn(schema, nodes[e.from].typ, e.field).Some?
    && var f := FieldOn(schema, nodes[e.from].typ, e.field).value;
       && IsRefKind(f.kind)
       && nodes[e.to].typ == f.to
       && e.single == (f.kind == Ref)
       && e.symmetric == Undirected(f)
       && (Undirected(f) ==> e.from < e.to)
  }

  predicate ValidEdges(schema: Schema, nodes: map<int, Node>, edges: map<int, Edge>) {
    forall k :: k in edges ==> ValidEdge(schema, nodes, edges[k])
  }

  /** One edge per pair and field, one per directed single reference, single partners. */
  predicate NoConflicts(edges: map<int, Edge>) {
    forall i, j :: i in edges && j in edges && i != j ==> !Conflicts(edges[i], edges[j])
  }

  ghost predicate NoCycles(schema: Schema, nodes: map<int, Node>, edges: map<int, Edge>) {
    forall typ, f :: typ in schema && f in schema[typ].fields && Hierarchical(schema[typ], f) ==>
      Acyclic(FieldGraph(nodes, edges, typ, f.name))
  }

  ghost predicate ValidGraph(schema: Schema, nodes: map<int, Node>, edges: map<int, Edge>) {
    ValidEdges(schema, nodes, edges) && NoConflicts(edges) && NoCycles(schema, nodes, edges)
  }

  predicate ValidNodes(schema: Schema, nodes: map<int, Node>) {
    forall id :: id in nodes ==> 0 < id && ValidNode(schema, nodes[id])
  }

  /** What Rebuild computes from the node table alone. */
  function RebuiltIndex(schema: Schema, nodes: map<int, Node>): map<int, Doc> {
    map id | id in nodes && DocOf(schema, nodes[id]).Some? :: DocOf(schema, nodes[id]).value
  }

  ghost predicate Inv(schema: Schema, db: DB) {
    && ValidNodes(schema, db.nodes)
    && ValidGraph(schema, db.nodes, db.edges)
    && db.index == RebuiltIndex(schema, db.nodes)
  }

  // ---------------------------------------------------------------- inserting an edge

  lemma InsertedEdgeIsValid(schema: Schema, db: DB, f: FieldDef, from: int, to: int, sort: int)
    requires ValidSchema(schema) && from in db.nodes && db.nodes[from].typ in schema
    requires f in schema[db.nodes[from].typ].fields && IsRefKind(f.kind)
    requires InsertError(db, schema[db.nodes[from].typ], f, from, to, sort).None?
    ensures ValidEdge(schema, db.nodes, Stored(f, from, to, sort))
  {
    FieldByNameFinds(schema[db.nodes[from].typ].fields, f);
  }

  /** Every undirected edge points upwards, so no field that is undirected has a cycle. */
  lemma UndirectedIsAcyclic(schema: Schema, nodes: map<int, Node>, edges: map<int, Edge>, typ: string, f: FieldDef)
    requires ValidSchema(schema) && ValidEdges(schema, nodes, edges)
    requires typ in schema && f in schema[typ].fields && Undirected(f)
    ensures Acyclic(FieldGraph(nodes, edges, typ, f.name))
  {
    FieldByNameFinds(schema[typ].fields, f);
    AcyclicWhenIncreasing(FieldGraph(nodes, edges, typ, f.name));
  }

  lemma FieldGraphInsert(nodes: map<int, Node>, edges: map<int, Edge>, id: int, e: Edge, typ: string, field: string)
    requires id !in edges
    ensures
      var hit := e.field == field && e.from in nodes && nodes[e.from].typ == typ;
      FieldGraph(nodes, edges[id := e], typ, field) ==
        FieldGraph(nodes, edges, typ, field) + if hit then {(e.from, e.to)} else {}
  {
    var before := FieldGraph(nodes, edges, typ, field);
    var after := FieldGraph(nodes, edges[id := e], typ, field);
    forall p | p in before ensures p in after {
      var k :| k in edges && edges[k].field == field && edges[k].from in nodes
               && nodes[edges[k].from].typ == typ && p == (edges[k].from, edges[k].to);
      assert edges[id := e][k] == edges[k];
    }
    assert edges[id := e][id] == e;
  }

  lemma InsertKeepsAcyclic(
    schema: Schema, db: DB, f: FieldDef, from: int, to: int, sort: int, id: int, typ: string, g: FieldDef)
    requires ValidSchema(schema) && NoCycles(schema, db.nodes, db.edges)
    requires id !in db.edges && from in db.nodes && db.nodes[from].typ in schema
    requires f in schema[db.nodes[from].typ].fields && IsRefKind(f.kind)
    requires InsertError(db, schema[db.nodes[from].typ], f, from, to, sort).None?
    requires ValidEdges(schema, db.nodes, db.edges[id := Stored(f, from, to, sort)])
    requires typ in schema && g in schema[typ].fields && Hierarchical(schema[typ], g)
    ensures Acyclic(FieldGraph(db.nodes, db.edges[id := Stored(f, from, to, sort)], typ, g.name))
  {
    var e := Stored(f, from, to, sort);
    if Undirected(g) {
      UndirectedIsAcyclic(schema, db.nodes, db.edges[id := e], typ, g);
    } else {
      FieldGraphInsert(db.nodes, db.edges, id, e, typ, g.name);
      FieldByNameFinds(schema[typ].fields, g);
      FieldByNameFinds(schema[db.nodes[from].typ].fields, f);
      var before := FieldGraph(db.nodes, db.edges, typ, g.name);
      assert Acyclic(before);
      if e.field == g.name && db.nodes[e.from].typ == typ {
        assert ValidTypeDef(schema, db.nodes[from].typ, schema[db.nodes[from].typ]);
        AcyclicInsert(before, from, to);
      } else {
        assert before + {} == before;
      }
    }
  }

  lemma AllowedMeansNoConflict(db: DB, td: TypeDef, f: FieldDef, from: int, to: int, sort: int)
    requires InsertError(db, td, f, from, to, sort).None?
    ensures forall k :: k in db.edges ==> !Conflicts(db.edges[k], Stored(f, from, to, sort))
  {
    var e := Stored(f, from, to, sort);
    assert !exists k :: k in db.edges && Conflicts(db.edges[k], e);
  }

  lemma InsertKeepsNoConflicts(edges: map<int, Edge>, id: int, e: Edge)
    requires NoConflicts(edges) && id !in edges
    requires forall k :: k in edges ==> !Conflicts(edges[k], e)
    ensures NoConflicts(edges[id := e])
  {
    forall k | k in edges ensures !Conflicts(e, edges[k]) {
      assert !Conflicts(edges[k], e);
    }
  }

  lemma InsertKeepsNoCycles(schema: Schema, db: DB, f: FieldDef, from: int, to: int, sort: int, id: int)
    requires ValidSchema(schema) && NoCycles(schema, db.nodes, db.edges)
    requires id !in db.edges && from in db.nodes && db.nodes[from].typ in schema
    requires f in schema[db.nodes[from].typ].fields && IsRefKind(f.kind)
    requires InsertError(db, schema[db.nodes[from].typ], f, from, to, sort).None?
    requires ValidEdges(schema, db.nodes, db.edges[id := Stored(f, from, to, sort)])
    ensures NoCycles(schema, db.nodes, db.edges[id := Stored(f, from, to, sort)])
  {
    forall typ, g | typ in schema && g in schema[typ].fields && Hierarchical(schema[typ], g)
      ensures Acyclic(FieldGraph(db.nodes, db.edges[id := Stored(f, from, to, sort)], typ, g.name))
    {
      InsertKeepsAcyclic(schema, db, f, from, to, sort, id, typ, g);
    }
  }

  lemma InsertKeepsGraph(schema: Schema, db: DB, f: FieldDef, from: int, to: int, sort: int, next: DB)
    requires ValidSchema(schema) && ValidGraph(schema, db.nodes, db.edges)
    requires from in db.nodes && db.nodes[from].typ in schema
    requires f in schema[db.nodes[from].typ].fields && IsRefKind(f.kind)
    requires InsertEdge(db, schema[db.nodes[from].typ], f, from, to, sort) == Ok(next)
    ensures next.nodes == db.nodes && next.index == db.index
    ensures ValidGraph(schema, next.nodes, next.edges)
  {
    var id := NextId(db.edges.Keys);
    InsertedEdgeIsValid(schema, db, f, from, to, sort);
    AllowedMeansNoConflict(db, schema[db.nodes[from].typ], f, from, to, sort);
    InsertKeepsNoConflicts(db.edges, id, Stored(f, from, to, sort));
    assert ValidEdges(schema, db.nodes, db.edges[id := Stored(f, from, to, sort)]);
    InsertKeepsNoCycles(schema, db, f, from, to, sort, id);
  }

  // ---------------------------------------------------------------- removing edges

  lemma FewerEdgesKeepGraph(schema: Schema, nodes: map<int, Node>, edges: map<int, Edge>, fewer: map<int, Edge>)
    requires ValidGraph(schema, nodes, edges)
    requires forall k :: k in fewer ==> k in edges && fewer[k] == edges[k]
    ensures ValidGraph(schema, nodes, fewer)
  {
    forall typ, f | typ in schema && f in schema[typ].fields && Hierarchical(schema[typ], f)
      ensures Acyclic(FieldGraph(nodes, fewer, typ, f.name))
    {
      AcyclicSubset(FieldGraph(nodes, fewer, typ, f.name), FieldGraph(nodes, edges, typ, f.name));
    }
  }

  /** The graph part of the invariant only looks at node types. */
  lemma SameTypesKeepGraph(schema: Schema, nodes: map<int, Node>, nodes': map<int, Node>, edges: map<int, Edge>)
    requires ValidGraph(schema, nodes, edges)
    requires forall k :: k in edges ==> edges[k].from in nodes' && edges[k].to in nodes'
    requires forall id :: id in nodes && id in nodes' ==> nodes'[id].typ == nodes[id].typ
    ensures ValidGraph(schema, nodes', edges)
  {
    assert ValidEdges(schema, nodes', edges) by {
      forall k | k in edges ensures ValidEdge(schema, nodes', edges[k]) {
        assert ValidEdge(schema, nodes, edges[k]);
      }
    }
    forall typ, f | typ in schema && f in schema[typ].fields && Hierarchical(schema[typ], f)
      ensures Acyclic(FieldGraph(nodes', edges, typ, f.name))
    {
      assert FieldGraph(nodes', edges, typ, f.name) == FieldGraph(nodes, edges, typ, f.name) by {
        assert forall k :: k in edges ==> ValidEdge(schema, nodes, edges[k]);
      }
    }
  }

  // ---------------------------------------------------------------- adding references

  lemma {:induction false} AddTargetsKeepsGraph(
    schema: Schema, db: DB, f: FieldDef, from: int, ids: seq<int>, pos: nat, next: DB)
    requires ValidSchema(schema) && ValidGraph(schema, db.nodes, db.edges)
    requires from in db.nodes && db.nodes[from].typ in schema
    requires f in schema[db.nodes[from].typ].fields && IsRefKind(f.kind)
    requires pos <= |ids| && AddTargets(db, schema[db.nodes[from].typ], f, from, ids, pos) == Ok(next)
    ensures next.nodes == db.nodes && next.index == db.index
    ensures ValidGraph(schema, next.nodes, next.edges)
    decreases |ids| - pos
  {
    if pos < |ids| {
      var mid := InsertEdge(db, schema[db.nodes[from].typ], f, from, ids[pos], pos).value;
      InsertKeepsGraph(schema, db, f, from, ids[pos], pos, mid);
      AddTargetsKeepsGraph(schema, mid, f, from, ids, pos + 1, next);
    }
  }

  lemma {:induction false} AddEdgesKeepsGraph(
    schema: Schema, db: DB, from: int, refs: Fields, order: seq<string>, next: DB)
    requires ValidSchema(schema) && ValidGraph(schema, db.nodes, db.edges)
    requires from in db.nodes && db.nodes[from].typ in schema
    requires forall k :: k in order ==> k in refs && IsRefName(schema[db.nodes[from].typ], k)
    requires AddEdges(db, schema[db.nodes[from].typ], from, refs, order) == Ok(next)
    ensures next.nodes == db.nodes && next.index == db.index
    ensures ValidGraph(schema, next.nodes, next.edges)
    decreases |order|
  {
    if order != [] {
      var td := schema[db.nodes[from].typ];
      assert order[0] in order;
      if refs[order[0]] == Null {
        AddEdgesKeepsGraph(schema, db, from, refs, order[1..], next);
      } else {
        var f := FieldByName(td.fields, order[0]).value;
        var ids := TargetIds(f, refs[order[0]]).value;
        var mid := AddTargets(db, td, f, from, ids, 0).value;
        AddTargetsKeepsGraph(schema, db, f, from, ids, 0, mid);
        AddEdgesKeepsGraph(schema, mid, from, refs, order[1..], next);
      }
    }
  }

  // ---------------------------------------------------------------- the index

  /** Writing one row and syncing it is the same as rebuilding from the new table. */
  lemma SyncIsRebuild(schema: Schema, nodes: map<int, Node>, id: int, row: Node)
    ensures SyncIndex(schema, RebuiltIndex(schema, nodes), id, row) == RebuiltIndex(schema, nodes[id := row])
  {
  }

  lemma DeleteIsRebuild(schema: Schema, nodes: map<int, Node>, id: int)
    ensures RebuiltIndex(schema, nodes) - {id} == RebuiltIndex(schema, nodes - {id})
  {
  }

  // ---------------------------------------------------------------- the five writes

  /** The state CreateNode adds the references to: the new row is in the table. */
  function CreatedIn(td: TypeDef, db: DB, id: int, typ: string, display: string, fields: Fields): DB {
    db.(nodes := db.nodes[id := Node(typ, display, 1, ScalarPart(td, fields))])
  }

  /** A create that goes through: its checks, and the references it adds. */
  lemma CreateUnfolds(
    schema: Schema, db: DB, typ: string, display: string, given: Fields, order: seq<string>, next: DB, id: int)
    returns (td: TypeDef, fields: Fields, added: DB)
    requires CreateNode(schema, db, typ, display, given, order) == Ok((next, id))
    ensures typ in schema && td == schema[typ] && display != "" && ValidateFields(td, fields)
    ensures fields == ApplyDefaults(td.fields, given)
    ensures id == NextId(db.nodes.Keys) && Enumerates(order, RefPart(td, fields).Keys)
    ensures forall k :: k in order ==> k in RefPart(td, fields) && IsRefName(td, k)
    ensures AddEdges(CreatedIn(td, db, id, typ, display, fields), td, id, RefPart(td, fields), order) == Ok(added)
    ensures next == added.(index := SyncIndex(schema, added.index, id, Node(typ, display, 1, ScalarPart(td, fields))))
  {
    td := schema[typ];
    fields := ApplyDefaults(td.fields, given);
    forall k | k in order ensures k in RefPart(td, fields) && IsRefName(td, k) { assert k in Elements(order); }
    added := AddEdges(CreatedIn(td, db, id, typ, display, fields), td, id, RefPart(td, fields), order).value;
  }

  lemma NewRowKeepsGraph(schema: Schema, nodes: map<int, Node>, edges: map<int, Edge>, id: int, row: Node)
    requires ValidGraph(schema, nodes, edges) && id !in nodes
    ensures ValidGraph(schema, nodes[id := row], edges)
  {
    assert forall k :: k in edges ==> ValidEdge(schema, nodes, edges[k]);
    SameTypesKeepGraph(schema, nodes, nodes[id := row], edges);
  }

  lemma CreateKeepsInv(
    schema: Schema, db: DB, typ: string, display: string, given: Fields, order: seq<string>, next: DB, id: int)
    requires ValidSchema(schema) && Inv(schema, db)
    requires CreateNode(schema, db, typ, display, given, order) == Ok((next, id))
    ensures Inv(schema, next)
  {
    var td, fields, added := CreateUnfolds(schema, db, typ, display, given, order, next, id);
    var row := Node(typ, display, 1, ScalarPart(td, fields));
    SplitKeepsScalarsValid(td, fields);
    NewRowKeepsGraph(schema, db.nodes, db.edges, id, row);
    AddEdgesKeepsGraph(schema, CreatedIn(td, db, id, typ, display, fields), id, RefPart(td, fields), order, added);
    SyncIsRebuild(schema, db.nodes, id, row);
  }

  lemma PatchedRowIsValid(schema: Schema, n: Node, patch: Patch)
    requires ValidSchema(schema) && ValidNode(schema, n)
    requires ValidatePatchFields(schema[n.typ], patch.fields) && patch.display != Some("")
    ensures ValidNode(schema, PatchedRow(schema[n.typ], n, patch))
  {
    MergeKeepsScalars(schema, n.typ, n.fields, patch.fields);
  }

  /** The state PatchNode adds the new references to: row written, patched fields cleared. */
  function ClearedForPatch(td: TypeDef, db: DB, id: int, patch: Patch): DB
    requires id in db.nodes
  {
    DB(db.nodes[id := PatchedRow(td, db.nodes[id], patch)],
       ClearFields(db.edges, id, td, RefPart(td, patch.fields).Keys), db.index)
  }

  lemma ClearingKeepsGraph(schema: Schema, db: DB, id: int, patch: Patch)
    requires Inv(schema, db) && id in db.nodes
    ensures
      var cleared := ClearedForPatch(schema[db.nodes[id].typ], db, id, patch);
      ValidGraph(schema, cleared.nodes, cleared.edges)
  {
    assert ValidNode(schema, db.nodes[id]);
    var cleared := ClearedForPatch(schema[db.nodes[id].typ], db, id, patch);
    FewerEdgesKeepGraph(schema, db.nodes, db.edges, cleared.edges);
    assert forall k :: k in cleared.edges ==> ValidEdge(schema, db.nodes, cleared.edges[k]);
    SameTypesKeepGraph(schema, db.nodes, cleared.nodes, cleared.edges);
  }

  predicate ChangesNothing(patch: Patch) { patch.display.None? && patch.fields == map[] }

  /** An effective patch that goes through: its checks, and the references it adds. */
  lemma PatchUnfolds(
    schema: Schema, db: DB, id: int, patch: Patch, order: seq<string>, next: DB)
    returns (td: TypeDef, refs: Fields, added: DB)
    requires PatchNode(schema, db, id, patch, order) == Ok(next) && !ChangesNothing(patch)
    ensures id in db.nodes && db.nodes[id].typ in schema && td == schema[db.nodes[id].typ]
    ensures patch.revision == Some(db.nodes[id].revision) && patch.display != Some("")
    ensures ValidatePatchFields(td, patch.fields)
    ensures refs == RefPart(td, patch.fields) && Enumerates(order, refs.Keys)
    ensures forall k :: k in order ==> k in refs && IsRefName(td, k)
    ensures AddEdges(ClearedForPatch(td, db, id, patch), td, id, refs, order) == Ok(added)
    ensures next == added.(index := SyncIndex(schema, added.index, id, PatchedRow(td, db.nodes[id], patch)))
  {
    td := schema[db.nodes[id].typ];
    refs := RefPart(td, patch.fields);
    forall k | k in order ensures k in refs && IsRefName(td, k) { assert k in Elements(order); }
    added := AddEdges(ClearedForPatch(td, db, id, patch), td, id, refs, order).value;
  }

  lemma PatchKeepsInv(schema: Schema, db: DB, id: int, patch: Patch, order: seq<string>, next: DB)
    requires ValidSchema(schema) && Inv(schema, db)
    requires PatchNode(schema, db, id, patch, order) == Ok(next)
    ensures Inv(schema, next)
  {
    if !ChangesNothing(patch) {
      var td, refs, added := PatchUnfolds(schema, db, id, patch, order, next);
      assert ValidNode(schema, db.nodes[id]);
      PatchedRowIsValid(schema, db.nodes[id], patch);
      ClearingKeepsGraph(schema, db, id, patch);
      AddEdgesKeepsGraph(schema, ClearedForPatch(td, db, id, patch), id, refs, order, added);
      SyncIsRebuild(schema, db.nodes, id, PatchedRow(td, db.nodes[id], patch));
    }
  }

  lemma AddEdgeKeepsInv(schema: Schema, db: DB, from: int, to: int, name: string, sort: int, next: DB)
    requires ValidSchema(schema) && Inv(schema, db)
    requires AddEdge(schema, db, from, to, name, sort) == Ok(next)
    ensures Inv(schema, next)
  {
    var f := RefFieldOn(schema, db.nodes[from].typ, name).value;
    InsertKeepsGraph(schema, db, f, from, to, sort, next);
  }

  lemma RemoveEdgeKeepsInv(schema: Schema, db: DB, id: int, next: DB)
    requires ValidSchema(schema) && Inv(schema, db)
    requires RemoveEdge(schema, db, id) == Ok(next)
    ensures Inv(schema, next)
  {
    FewerEdgesKeepGraph(schema, db.nodes, db.edges, next.edges);
  }

  lemma DeleteKeepsInv(schema: Schema, db: DB, id: int, next: DB)
    requires ValidSchema(schema) && Inv(schema, db)
    requires DeleteNode(schema, db, id) == Ok(next)
    ensures Inv(schema, next)
  {
    FewerEdgesKeepGraph(schema, db.nodes, db.edges, next.edges);
    EndsExist(schema, db.nodes, next.edges);
    hide ValidGraph, RebuiltIndex;
    SameTypesKeepGraph(schema, db.nodes, next.nodes, next.edges);
    DeleteIsRebuild(schema, db.nodes, id);
  }

  lemma EndsExist(schema: Schema, nodes: map<int, Node>, edges: map<int, Edge>)
    requires ValidGraph(schema, nodes, edges)
    ensures forall k :: k in edges ==> edges[k].from in nodes && edges[k].to in nodes
  {
    forall k | k in edges ensures edges[k].from in nodes && edges[k].to in nodes {
      assert ValidEdge(schema, nodes, edges[k]);
    }
  }

  lemma StepKeepsInv(schema: Schema, db: DB, op: Op)
    requires ValidSchema(schema) && Inv(schema, db)
    ensures Inv(schema, Step(schema, db, op))
  {
    var next := Step(schema, db, op);
    if Apply(schema, db, op).Ok? {
      match op {
        case Create(t, d, f, order) =>
          CreateKeepsInv(schema, db, t, d, f, order, next, CreateNode(schema, db, t, d, f, order).value.1);
        case PatchOp(id, p, order) => PatchKeepsInv(schema, db, id, p, order, next);
        case AddEdgeOp(from, to, f, s) => AddEdgeKeepsInv(schema, db, from, to, f, s, next);
        case RemoveEdgeOp(e) => RemoveEdgeKeepsInv(schema, db, e, next);
        case DeleteOp(n) => DeleteKeepsInv(schema, db, n, next);
      }
    }
  }

  lemma {:induction false} RunKeepsInv(schema: Schema, ops: seq<Op>)
    requires ValidSchema(schema)
    ensures Inv(schema, Run(schema, EMPTY, ops))
    decreases |ops|
  {
    if ops == [] {
      forall typ, f | typ in schema && f in schema[typ].fields ensures Acyclic(FieldGraph(map[], map[], typ, f.name)) {
        assert FieldGraph(map[], map[], typ, f.name) == {};
      }
    } else {
      RunKeepsInv(schema, ops[..|ops| - 1]);
      StepKeepsInv(schema, Run(schema, EMPTY, ops[..|ops| - 1]), ops[|ops| - 1]);
    }
  }

  /** The invariant holds in every reachable state. */
  lemma ReachableInv(schema: Schema, db: DB)
    requires ValidSchema(schema) && Reachable(schema, db)
    ensures Inv(schema, db)
  {
    var ops :| db == Run(schema, EMPTY, ops);
    RunKeepsInv(schema, ops);
  }
}
