/** Required references and deletion (core/edge.go, core/node_delete.go). */
module Required {
  import opened Common
  import opened Types
  import opened Store
  import opened Invariants
  import opened Reads
  import opened RoundTrip

  // ---------------------------------------------------------------- what is required

  predicate HasEdge(edges: map<int, Edge>, id: int, name: string) {
    exists k :: k in edges && edges[k].from == id && edges[k].field == name
  }

  /** Every directed required reference of every node has a target. */
  predicate RequiredHeld(schema: Schema, nodes: map<int, Node>, edges: map<int, Edge>) {
    forall id, f :: id in nodes && nodes[id].typ in schema && f in schema[nodes[id].typ].fields && Demands(f) ==>
      HasEdge(edges, id, f.name)
  }

  predicate Demands(f: FieldDef) { f.required && IsRefKind(f.kind) && !Undirected(f) }

  /** The target type has an undirected field of the same name that a patch may set, and so clear. */
  predicate Exposed(schema: Schema, g: FieldDef) {
    && g.to in schema
    && var f := FieldByName(schema[g.to].fields, g.name);
       f.Some? && IsRefKind(f.value.kind) && Undirected(f.value) && !f.value.immutable
  }

  /** No node holds a directed required reference that is exposed. */
  predicate NoneExposed(schema: Schema, nodes: map<int, Node>) {
    forall id, g :: id in nodes && nodes[id].typ in schema && g in schema[nodes[id].typ].fields && Demands(g) ==>
      !Exposed(schema, g)
  }

  lemma NotExposed(schema: Schema, typ: string, g: FieldDef)
    requires ValidSchema(schema) && NoNameClash(schema)
    requires typ in schema && g in schema[typ].fields && Demands(g)
    ensures !Exposed(schema, g)
  {
    hide ValidTypeDef;
    if Exposed(schema, g) {
      var f := FieldByName(schema[g.to].fields, g.name).value;
      UndirectedStaysHome(schema, g.to, f);
      assert typ == g.to;
      OneFieldPerName(schema, typ, g);
    }
  }

  lemma OneFieldPerName(schema: Schema, typ: string, g: FieldDef)
    requires ValidSchema(schema) && typ in schema && g in schema[typ].fields
    ensures FieldByName(schema[typ].fields, g.name) == Some(g)
  {
    FieldByNameFinds(schema[typ].fields, g);
  }

  lemma NoClashNoneExposed(schema: Schema, nodes: map<int, Node>)
    requires ValidSchema(schema) && NoNameClash(schema)
    ensures NoneExposed(schema, nodes)
  {
    hide ValidSchema, NoNameClash, Exposed;
    forall id, g | id in nodes && nodes[id].typ in schema && g in schema[nodes[id].typ].fields && Demands(g)
      ensures !Exposed(schema, g)
    {
      NotExposed(schema, nodes[id].typ, g);
    }
  }

  // ---------------------------------------------------------------- adding

  predicate Extends(edges: map<int, Edge>, more: map<int, Edge>) {
    forall k :: k in edges ==> k in more && more[k] == edges[k]
  }

  lemma {:induction false} AddTargetsExtends(
    db: DB, td: TypeDef, f: FieldDef, from: int, ids: seq<int>, pos: nat, next: DB)
    requires pos <= |ids| && AddTargets(db, td, f, from, ids, pos) == Ok(next)
    ensures next.nodes == db.nodes && next.index == db.index
    ensures Extends(db.edges, next.edges)
    ensures !Undirected(f) && pos < |ids| ==> HasEdge(next.edges, from, f.name)
    decreases |ids| - pos
  {
    if pos < |ids| {
      var mid := InsertEdge(db, td, f, from, ids[pos], pos).value;
      var id := NextId(db.edges.Keys);
      AddTargetsExtends(mid, td, f, from, ids, pos + 1, next);
      assert next.edges[id] == Stored(f, from, ids[pos], pos);
    }
  }

  /** A non-empty value for a directed required reference. */
  predicate Supplies(td: TypeDef, refs: Fields, name: string) {
    && name in refs && FieldByName(td.fields, name).Some?
    && Demands(FieldByName(td.fields, name).value)
    && refs[name] != Null && !IsEmpty(FieldByName(td.fields, name).value.kind, refs[name])
  }

  lemma {:induction false} AddEdgesCovers(db: DB, td: TypeDef, from: int, refs: Fields, order: seq<string>, next: DB)
    requires forall k :: k in order ==> k in refs
    requires AddEdges(db, td, from, refs, order) == Ok(next)
    ensures next.nodes == db.nodes && next.index == db.index
    ensures Extends(db.edges, next.edges)
    ensures forall k :: k in order && Supplies(td, refs, k) ==> HasEdge(next.edges, from, k)
    decreases |order|
  {
    if order != [] {
      var name := order[0];
      assert name in order;
      var mid := db;
      if refs[name] != Null {
        var f := FieldByName(td.fields, name).value;
        var ids := TargetIds(f, refs[name]).value;
        mid := AddTargets(db, td, f, from, ids, 0).value;
        AddTargetsExtends(db, td, f, from, ids, 0, mid);
      }
      AddEdgesCovers(mid, td, from, refs, order[1..], next);
      hide AddEdges, AddTargets, TargetIds;
      forall n | n in order && Supplies(td, refs, n)
        ensures HasEdge(next.edges, from, n)
      {
        if n == name {
          var k :| k in mid.edges && mid.edges[k].from == from && mid.edges[k].field == name;
          assert next.edges[k] == mid.edges[k];
        } else {
          assert order == [name] + order[1..];
          assert n in order[1..];
        }
      }
    }
  }

  // ---------------------------------------------------------------- the five writes

  lemma CreateKeepsRequired(
    schema: Schema, db: DB, typ: string, display: string, given: Fields, order: seq<string>, next: DB, id: int)
    requires ValidSchema(schema) && RequiredHeld(schema, db.nodes, db.edges)
    requires CreateNode(schema, db, typ, display, given, order) == Ok((next, id))
    ensures RequiredHeld(schema, next.nodes, next.edges)
  {
    var td, fields, added := CreateUnfolds(schema, db, typ, display, given, order, next, id);
    var refs := RefPart(td, fields);
    AddEdgesCovers(CreatedIn(td, db, id, typ, display, fields), td, id, refs, order, added);
    forall m, f | m in next.nodes && next.nodes[m].typ in schema && f in schema[next.nodes[m].typ].fields && Demands(f)
      ensures HasEdge(next.edges, m, f.name)
    {
      if m == id {
        FieldByNameFinds(td.fields, f);
        ValidIsNotNull(f, fields[f.name]);
        assert f.name in Elements(order) && Supplies(td, refs, f.name);
      } else {
        assert HasEdge(db.edges, m, f.name);
        var k :| k in db.edges && db.edges[k].from == m && db.edges[k].field == f.name;
        assert next.edges[k] == db.edges[k];
      }
    }
  }

  /** The names of reference fields a patch may set. */
  predicate Settable(td: TypeDef, names: set<string>) {
    forall n :: n in names ==> IsRefName(td, n) && !FieldByName(td.fields, n).value.immutable
  }

  /** A patch clears no required edge of another node that is not exposed, nor of a field it does not set. */
  lemma PatchSparesRequired(schema: Schema, db: DB, id: int, names: set<string>, k: int, g: FieldDef)
    requires ValidSchema(schema) && ValidEdges(schema, db.nodes, db.edges)
    requires id in db.nodes && db.nodes[id].typ in schema && k in db.edges
    requires db.edges[k].from in db.nodes && db.nodes[db.edges[k].from].typ in schema
    requires g in schema[db.nodes[db.edges[k].from].typ].fields && Demands(g) && db.edges[k].field == g.name
    requires !Exposed(schema, g)
    requires db.edges[k].from != id || g.name !in names
    requires Settable(schema[db.nodes[id].typ], names)
    ensures k in ClearFields(db.edges, id, schema[db.nodes[id].typ], names)
  {
    var e := db.edges[k];
    assert ValidEdge(schema, db.nodes, e);
    FieldByNameFinds(schema[db.nodes[e.from].typ].fields, g);
  }

  lemma PatchKeepsRequired(schema: Schema, db: DB, id: int, patch: Patch, order: seq<string>, next: DB)
    requires ValidSchema(schema) && Inv(schema, db)
    requires NoneExposed(schema, db.nodes) && RequiredHeld(schema, db.nodes, db.edges)
    requires PatchNode(schema, db, id, patch, order) == Ok(next)
    ensures RequiredHeld(schema, next.nodes, next.edges)
  {
    if !ChangesNothing(patch) {
      var td, refs, added := PatchUnfolds(schema, db, id, patch, order, next);
      var cleared := ClearedForPatch(td, db, id, patch);
      PatchSupplies(td, patch.fields, cleared, id, refs, order, added);
      assert Settable(td, refs.Keys);
      assert ValidTypeDef(schema, db.nodes[id].typ, td);
      PatchedRequired(schema, db, id, cleared.nodes, refs, added.edges);
    }
  }

  lemma PatchSupplies(td: TypeDef, fields: Fields, cleared: DB, id: int, refs: Fields, order: seq<string>, added: DB)
    requires DistinctNames(td.fields) && ValidatePatchFields(td, fields)
    requires refs == RefPart(td, fields) && Enumerates(order, refs.Keys) && forall k :: k in order ==> k in refs
    requires AddEdges(cleared, td, id, refs, order) == Ok(added)
    ensures added.nodes == cleared.nodes && Extends(cleared.edges, added.edges)
    ensures forall f :: f in td.fields && Demands(f) && f.name in refs ==> HasEdge(added.edges, id, f.name)
  {
    AddEdgesCovers(cleared, td, id, refs, order, added);
    PatchedFieldsSupply(td, fields);
    forall f | f in td.fields && Demands(f) && f.name in refs ensures HasEdge(added.edges, id, f.name) {
      assert f.name in Elements(order) && Supplies(td, refs, f.name);
    }
  }

  lemma PatchedFieldsSupply(td: TypeDef, fields: Fields)
    requires DistinctNames(td.fields) && ValidatePatchFields(td, fields)
    ensures forall f :: f in td.fields && Demands(f) && f.name in RefPart(td, fields) ==>
      Supplies(td, RefPart(td, fields), f.name)
  {
    forall f | f in td.fields && Demands(f) && f.name in RefPart(td, fields)
      ensures Supplies(td, RefPart(td, fields), f.name)
    {
      FieldByNameFinds(td.fields, f);
    }
  }

  lemma PatchedRequired(schema: Schema, db: DB, id: int, nodes: map<int, Node>, refs: Fields, after: map<int, Edge>)
    requires ValidSchema(schema) && ValidEdges(schema, db.nodes, db.edges)
    requires NoneExposed(schema, db.nodes) && RequiredHeld(schema, db.nodes, db.edges)
    requires id in db.nodes && db.nodes[id].typ in schema
    requires nodes.Keys == db.nodes.Keys && forall m :: m in nodes ==> nodes[m].typ == db.nodes[m].typ
    requires Settable(schema[db.nodes[id].typ], refs.Keys)
    requires Extends(ClearFields(db.edges, id, schema[db.nodes[id].typ], refs.Keys), after)
    requires forall f :: f in schema[db.nodes[id].typ].fields && Demands(f) && f.name in refs ==>
      HasEdge(after, id, f.name)
    ensures RequiredHeld(schema, nodes, after)
  {
    forall m, f | m in nodes && nodes[m].typ in schema && f in schema[nodes[m].typ].fields && Demands(f)
      ensures HasEdge(after, m, f.name)
    {
      assert HasEdge(db.edges, m, f.name);
      if m != id || f.name !in refs {
        RequiredSurvives(schema, db, id, refs.Keys, after, m, f);
      }
    }
  }

  lemma RequiredSurvives(
    schema: Schema, db: DB, id: int, names: set<string>, after: map<int, Edge>, m: int, f: FieldDef)
    requires ValidSchema(schema) && ValidEdges(schema, db.nodes, db.edges)
    requires id in db.nodes && db.nodes[id].typ in schema && m in db.nodes && db.nodes[m].typ in schema
    requires f in schema[db.nodes[m].typ].fields && Demands(f) && HasEdge(db.edges, m, f.name)
    requires !Exposed(schema, f) && Settable(schema[db.nodes[id].typ], names)
    requires m != id || f.name !in names
    requires Extends(ClearFields(db.edges, id, schema[db.nodes[id].typ], names), after)
    ensures HasEdge(after, m, f.name)
  {
    var k :| k in db.edges && db.edges[k].from == m && db.edges[k].field == f.name;
    PatchSparesRequired(schema, db, id, names, k, f);
    assert after[k] == db.edges[k];
  }

  lemma RemoveKeepsRequired(schema: Schema, db: DB, id: int, next: DB)
    requires ValidSchema(schema) && RequiredHeld(schema, db.nodes, db.edges)
    requires RemoveEdge(schema, db, id) == Ok(next)
    ensures RequiredHeld(schema, next.nodes, next.edges)
  {
    var e := db.edges[id];
    forall m, f | m in next.nodes && next.nodes[m].typ in schema && f in schema[next.nodes[m].typ].fields && Demands(f)
      ensures HasEdge(next.edges, m, f.name)
    {
      assert HasEdge(db.edges, m, f.name);
      var k :| k in db.edges && db.edges[k].from == m && db.edges[k].field == f.name;
      if k == id {
        FieldByNameFinds(schema[next.nodes[m].typ].fields, f);
        var here := EdgesAt(db.edges, f, m);
        assert |here| >= 2 && id in here;
        var j := AnOther(here, id);
        assert next.edges[j] == db.edges[j];
      } else {
        assert next.edges[k] == db.edges[k];
      }
    }
  }

  // ---------------------------------------------------------------- delete

  /** A successful delete leaves every row that another node reads, and only those. */
  lemma DeleteKeepsOthers(schema: Schema, db: DB, id: int, next: DB, m: int, f: FieldDef)
    requires DeleteNode(schema, db, id) == Ok(next) && m != id
    ensures RowsOf(next.edges, m, f) == RowsOf(db.edges, m, f)
    ensures RefIds(next.edges, m, f) == RefIds(db.edges, m, f)
    ensures forall k :: k in next.edges ==> !Touches(next.edges[k], id)
  {
    forall k | k in RowsOf(db.edges, m, f) ensures k in next.edges {
      assert !RefersTo(db.edges[k], id);
    }
    RefIdsFrame(db.edges, next.edges, m, f);
  }

  /** Deletion is refused exactly when some other node's references contain the node. */
  lemma DeleteAllowedIff(schema: Schema, db: DB, id: int)
    requires ValidSchema(schema) && Inv(schema, db) && id in db.nodes
    ensures DeleteNode(schema, db, id).Ok? <==>
      forall m, f :: m in db.nodes && m != id && f in schema[db.nodes[m].typ].fields && IsRefKind(f.kind) ==>
        id !in RefIds(db.edges, m, f)
  {
    forall k | k in db.edges && RefersTo(db.edges[k], id)
      ensures exists m, f :: m in db.nodes && m != id && f in schema[db.nodes[m].typ].fields && IsRefKind(f.kind)
                             && id in RefIds(db.edges, m, f)
    {
      var m, f := ReferrerOf(schema, db, id, k);
    }
    forall m, f | m in db.nodes && m != id && f in schema[db.nodes[m].typ].fields && IsRefKind(f.kind)
                  && id in RefIds(db.edges, m, f)
      ensures exists k :: k in db.edges && RefersTo(db.edges[k], id)
    {
      var k := RowTo(db.edges, m, f, id);
    }
  }

  lemma RowTo(edges: map<int, Edge>, m: int, f: FieldDef, target: int) returns (k: int)
    requires target in RefIds(edges, m, f)
    ensures k in RowsOf(edges, m, f) && OtherEnd(edges[k], m) == target
  {
    RefersIffRead(edges, m, f, target);
    k :| k in edges && RowOf(edges[k], m, f) && OtherEnd(edges[k], m) == target;
  }

  lemma RowIsRead(edges: map<int, Edge>, m: int, f: FieldDef, k: int)
    requires k in RowsOf(edges, m, f)
    ensures OtherEnd(edges[k], m) in RefIds(edges, m, f)
  {
    RefersIffRead(edges, m, f, OtherEnd(edges[k], m));
  }

  lemma ReferrerOf(schema: Schema, db: DB, id: int, k: int) returns (m: int, f: FieldDef)
    requires ValidSchema(schema) && Inv(schema, db) && k in db.edges && RefersTo(db.edges[k], id)
    ensures m in db.nodes && m != id && db.nodes[m].typ in schema
    ensures f in schema[db.nodes[m].typ].fields && IsRefKind(f.kind) && id in RefIds(db.edges, m, f)
  {
    var e := db.edges[k];
    assert ValidEdge(schema, db.nodes, e);
    m := SourceOf(e, id);
    f := FieldOn(schema, db.nodes[e.from].typ, e.field).value;
    assert ValidTypeDef(schema, db.nodes[e.from].typ, schema[db.nodes[e.from].typ]);
    RowIsRead(db.edges, m, f, k);
  }

  lemma DeleteKeepsRequired(schema: Schema, db: DB, id: int, next: DB)
    requires RequiredHeld(schema, db.nodes, db.edges)
    requires DeleteNode(schema, db, id) == Ok(next)
    ensures RequiredHeld(schema, next.nodes, next.edges)
  {
    forall m, f | m in next.nodes && next.nodes[m].typ in schema && f in schema[next.nodes[m].typ].fields && Demands(f)
      ensures HasEdge(next.edges, m, f.name)
    {
      assert HasEdge(db.edges, m, f.name);
      var k :| k in db.edges && db.edges[k].from == m && db.edges[k].field == f.name;
      assert !RefersTo(db.edges[k], id);
      assert next.edges[k] == db.edges[k];
    }
  }

  lemma StepKeepsRequired(schema: Schema, db: DB, op: Op)
    requires ValidSchema(schema) && Inv(schema, db)
    requires NoneExposed(schema, db.nodes) && RequiredHeld(schema, db.nodes, db.edges)
    ensures RequiredHeld(schema, Step(schema, db, op).nodes, Step(schema, db, op).edges)
  {
    var next := Step(schema, db, op);
    if Apply(schema, db, op).Ok? {
      match op {
        case Create(t, d, f, order) =>
          CreateKeepsRequired(schema, db, t, d, f, order, next, CreateNode(schema, db, t, d, f, order).value.1);
        case PatchOp(id, p, order) => PatchKeepsRequired(schema, db, id, p, order, next);
        case AddEdgeOp(from, to, name, s) => AddEdgeKeepsRequired(schema, db, from, to, name, s, next);
        case RemoveEdgeOp(e) => RemoveKeepsRequired(schema, db, e, next);
        case DeleteOp(n) => DeleteKeepsRequired(schema, db, n, next);
      }
    }
  }

  lemma ExtendedKeepsRequired(schema: Schema, nodes: map<int, Node>, edges: map<int, Edge>, more: map<int, Edge>)
    requires RequiredHeld(schema, nodes, edges) && Extends(edges, more)
    ensures RequiredHeld(schema, nodes, more)
  {
    forall m, f | m in nodes && nodes[m].typ in schema && f in schema[nodes[m].typ].fields && Demands(f)
      ensures HasEdge(more, m, f.name)
    {
      assert HasEdge(edges, m, f.name);
      var k :| k in edges && edges[k].from == m && edges[k].field == f.name;
      assert more[k] == edges[k];
    }
  }

  lemma AddEdgeKeepsRequired(schema: Schema, db: DB, from: int, to: int, name: string, sort: int, next: DB)
    requires RequiredHeld(schema, db.nodes, db.edges)
    requires AddEdge(schema, db, from, to, name, sort) == Ok(next)
    ensures RequiredHeld(schema, next.nodes, next.edges)
  {
    assert Extends(db.edges, next.edges);
    ExtendedKeepsRequired(schema, db.nodes, db.edges, next.edges);
  }

  lemma {:induction false} RunKeepsRequired(schema: Schema, ops: seq<Op>)
    requires ValidSchema(schema) && NoNameClash(schema)
    ensures RequiredHeld(schema, Run(schema, EMPTY, ops).nodes, Run(schema, EMPTY, ops).edges)
    decreases |ops|
  {
    if ops != [] {
      var before := ops[..|ops| - 1];
      RunKeepsRequired(schema, before);
      RunKeepsInv(schema, before);
      NoClashNoneExposed(schema, Run(schema, EMPTY, before).nodes);
      StepKeepsRequired(schema, Run(schema, EMPTY, before), ops[|ops| - 1]);
    }
  }

  /** In every reachable state every directed required reference has a target. */
  lemma ReachableRequired(schema: Schema, db: DB)
    requires ValidSchema(schema) && NoNameClash(schema) && Reachable(schema, db)
    ensures RequiredHeld(schema, db.nodes, db.edges)
  {
    var ops :| db == Run(schema, EMPTY, ops);
    RunKeepsRequired(schema, ops);
  }

  // ---------------------------------------------------------------- required relation algebra

  /** A required reference that must lead to another node of the same type. */
  predicate NeedsPeer(td: TypeDef, f: FieldDef) {
    f in td.fields && f.required && IsRefKind(f.kind) && (Undirected(f) || Hierarchical(td, f))
  }

  lemma {:induction false} AddEdgesFindsTarget(
    db: DB, td: TypeDef, from: int, refs: Fields, order: seq<string>, f: FieldDef)
    requires forall k :: k in order ==> k in refs
    requires AddEdges(db, td, from, refs, order).Ok?
    requires f.name in order && FieldByName(td.fields, f.name) == Some(f) && NeedsPeer(td, f)
    requires refs[f.name] != Null && !IsEmpty(f.kind, refs[f.name])
    ensures exists t :: t in db.nodes && t != from && db.nodes[t].typ == f.to
    decreases |order|
  {
    var name := order[0];
    assert name in order;
    if name == f.name {
      var ids := TargetIds(f, refs[name]).value;
      assert InsertEdge(db, td, f, from, ids[0], 0).Ok?;
      assert ids[0] in db.nodes;
    } else {
      assert order == [name] + order[1..];
      if refs[name] == Null {
        AddEdgesFindsTarget(db, td, from, refs, order[1..], f);
      } else {
        var g := FieldByName(td.fields, name).value;
        var ids := TargetIds(g, refs[name]).value;
        var mid := AddTargets(db, td, g, from, ids, 0).value;
        AddTargetsExtends(db, td, g, from, ids, 0, mid);
        AddEdgesFindsTarget(mid, td, from, refs, order[1..], f);
      }
    }
  }

  /** Types with such a field have no nodes: the first one would have nothing to refer to. */
  ghost predicate NoneNeedsPeer(schema: Schema, nodes: map<int, Node>) {
    forall id, f :: id in nodes && nodes[id].typ in schema ==> !NeedsPeer(schema[nodes[id].typ], f)
  }

  lemma CreateNeedsNoPeer(
    schema: Schema, db: DB, typ: string, display: string, given: Fields, order: seq<string>, next: DB, id: int,
    f: FieldDef)
    requires ValidSchema(schema) && NoneNeedsPeer(schema, db.nodes)
    requires CreateNode(schema, db, typ, display, given, order) == Ok((next, id))
    ensures !NeedsPeer(schema[typ], f)
  {
    var td, fields, added := CreateUnfolds(schema, db, typ, display, given, order, next, id);
    if NeedsPeer(td, f) {
      FieldByNameFinds(td.fields, f);
      assert ValidTypeDef(schema, typ, td);
      ValidIsNotNull(f, fields[f.name]);
      assert f.name in Elements(order);
      AddEdgesFindsTarget(CreatedIn(td, db, id, typ, display, fields), td, id, RefPart(td, fields), order, f);
    }
  }

  lemma StepKeepsNoneNeedsPeer(schema: Schema, db: DB, op: Op)
    requires ValidSchema(schema) && NoneNeedsPeer(schema, db.nodes)
    ensures NoneNeedsPeer(schema, Step(schema, db, op).nodes)
  {
    var next := Step(schema, db, op);
    forall id, f | id in next.nodes && next.nodes[id].typ in schema ensures !NeedsPeer(schema[next.nodes[id].typ], f) {
      StepTypes(schema, db, op, id);
      hide NeedsPeer;
      if id in db.nodes {
        assert !NeedsPeer(schema[db.nodes[id].typ], f);
      } else {
        CreateNeedsNoPeer(schema, db, op.typ, op.display, op.fields, op.order, next, id, f);
      }
    }
  }

  /** A node of the next state has the type it had, or was created by this write. */
  lemma StepTypes(schema: Schema, db: DB, op: Op, id: int)
    requires id in Step(schema, db, op).nodes
    ensures id in db.nodes ==> Step(schema, db, op).nodes[id].typ == db.nodes[id].typ
    ensures id !in db.nodes ==>
      && op.Create? && CreateNode(schema, db, op.typ, op.display, op.fields, op.order) == Ok((Step(schema, db, op), id))
      && Step(schema, db, op).nodes[id].typ == op.typ
  {
    var next := Step(schema, db, op);
    if Apply(schema, db, op).Ok? {
      match op {
        case Create(t, d, g, order) =>
          var r := CreateNode(schema, db, t, d, g, order).value;
          var td, fields, added := CreateUnfolds(schema, db, t, d, g, order, r.0, r.1);
          AddEdgesCovers(CreatedIn(td, db, r.1, t, d, fields), td, r.1, RefPart(td, fields), order, added);
        case PatchOp(m, p, order) =>
          if !ChangesNothing(p) {
            var td, refs, added := PatchUnfolds(schema, db, m, p, order, next);
            AddEdgesCovers(ClearedForPatch(td, db, m, p), td, m, refs, order, added);
          }
        case AddEdgeOp(_, _, _, _) =>
        case RemoveEdgeOp(_) =>
        case DeleteOp(_) =>
      }
    }
  }

  lemma {:induction false} RunNeedsNoPeer(schema: Schema, ops: seq<Op>)
    requires ValidSchema(schema)
    ensures NoneNeedsPeer(schema, Run(schema, EMPTY, ops).nodes)
    decreases |ops|
  {
    if ops != [] {
      RunNeedsNoPeer(schema, ops[..|ops| - 1]);
      StepKeepsNoneNeedsPeer(schema, Run(schema, EMPTY, ops[..|ops| - 1]), ops[|ops| - 1]);
    }
  }

  /**
   * So in every reachable state every required reference, directed or not, has a target: a node whose
   * type requires an undirected, transitive or tree-parent reference cannot exist.
   */
  lemma ReachableRequiredAll(schema: Schema, db: DB, id: int, f: FieldDef)
    requires ValidSchema(schema) && NoNameClash(schema) && Reachable(schema, db)
    requires id in db.nodes && db.nodes[id].typ in schema && f in schema[db.nodes[id].typ].fields
    requires f.required && IsRefKind(f.kind)
    ensures !NeedsPeer(schema[db.nodes[id].typ], f) && !Undirected(f) && RefIds(db.edges, id, f) != []
  {
    var ops :| db == Run(schema, EMPTY, ops);
    RunNeedsNoPeer(schema, ops);
    RunKeepsRequired(schema, ops);
    assert !NeedsPeer(schema[db.nodes[id].typ], f);
    assert HasEdge(db.edges, id, f.name);
    var k :| k in db.edges && db.edges[k].from == id && db.edges[k].field == f.name;
    RowIsRead(db.edges, id, f, k);
  }
}
