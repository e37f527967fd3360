/**
 * What a patch prepared before an edge was added or removed does to that edge: neither write raises the
 * revision (core/edge.go), so such a patch still lands.
 */
module StaleEdges {
  import opened Common
  import opened Types
  import opened Store
  import opened Invariants
  import opened Reads
  import opened RoundTrip
  import opened Required
  import opened Revisions
  import opened ReachableStates

  // ---------------------------------------------------------------- what a patch leaves to read

  /** The targets a patch names for a field: none for null. */
  function Named(f: FieldDef, v: Value): seq<int> {
    match TargetIds(f, v) case Some(ids) => ids case None => []
  }

  lemma NullNamesNone(f: FieldDef)
    ensures Named(f, Null) == []
  {
  }

  lemma FieldAdded(db: DB, td: TypeDef, g: FieldDef, from: int, ids: seq<int>, next: DB, f: FieldDef)
    requires AddTargets(db, td, g, from, ids, 0) == Ok(next)
    requires f == g ==> RowsOf(db.edges, from, f) == {}
    requires f.name == g.name ==> f == g
    ensures RefIds(next.edges, from, f) == if f == g then ids else RefIds(db.edges, from, f)
    ensures f != g ==> RowsOf(next.edges, from, f) == RowsOf(db.edges, from, f)
  {
    AddTargetsPlaces(db, td, g, from, ids, 0, next);
    if f == g {
      PlacedReadsBack(db.edges, f, from, ids, NextId(db.edges.Keys));
    } else {
      PlacedKeepsOtherFields(db.edges, g, from, ids, f);
    }
  }

  lemma {:induction false} AddedReads(
    db: DB, td: TypeDef, from: int, refs: Fields, order: seq<string>, next: DB, f: FieldDef)
    requires Distinct(order) && forall k :: k in order ==> k in refs && IsRefName(td, k)
    requires AddEdges(db, td, from, refs, order) == Ok(next)
    requires FieldByName(td.fields, f.name) == Some(f)
    requires f.name in order ==> RowsOf(db.edges, from, f) == {}
    ensures RefIds(next.edges, from, f) == if f.name in order then Named(f, refs[f.name]) else RefIds(db.edges, from, f)
    decreases |order|
  {
    if order != [] {
      var name, rest := order[0], order[1..];
      HeadAndRest(order);
      assert f.name in order <==> f.name == name || f.name in rest;
      var mid := db;
      if refs[name] == Null {
        NullNamesNone(f);
        if f.name == name { NoRowsNoIds(db.edges, from, f); }
      } else {
        var g := FieldByName(td.fields, name).value;
        mid := AddTargets(db, td, g, from, TargetIds(g, refs[name]).value, 0).value;
        FieldAdded(db, td, g, from, TargetIds(g, refs[name]).value, mid, f);
      }
      AddedReads(mid, td, from, refs, rest, next, f);
    }
  }

  lemma NoRowsNoIds(edges: map<int, Edge>, id: int, f: FieldDef)
    requires RowsOf(edges, id, f) == {}
    ensures RefIds(edges, id, f) == []
  {
  }

  /**
   * After a patch that lands, a reference field reads as the targets the patch names for it, or as before if
   * it names none.
   */
  lemma PatchedReads(schema: Schema, db: DB, id: int, patch: Patch, order: seq<string>, next: DB, f: FieldDef)
    requires PatchNode(schema, db, id, patch, order) == Ok(next)
    requires id in db.nodes && db.nodes[id].typ in schema && IsRefKind(f.kind)
    requires FieldByName(schema[db.nodes[id].typ].fields, f.name) == Some(f)
    ensures RefIds(next.edges, id, f)
      == if f.name in patch.fields then Named(f, patch.fields[f.name]) else RefIds(db.edges, id, f)
  {
    hide RefIds, Named, RowsOf, AddEdges, PatchedRow;
    if !ChangesNothing(patch) {
      var td, refs, added := PatchUnfolds(schema, db, id, patch, order, next);
      var cleared := ClearedForPatch(td, db, id, patch);
      assert f.name in order <==> f.name in Elements(order);
      if f.name in refs {
        ClearedEmpties(db.edges, id, td, refs.Keys, f.name);
      } else {
        ClearedSpares(db.edges, id, td, refs.Keys, f);
      }
      AddedReads(cleared, td, id, refs, order, added, f);
    }
  }

  lemma ClearedSpares(edges: map<int, Edge>, id: int, td: TypeDef, names: set<string>, f: FieldDef)
    requires f.name !in names
    ensures RefIds(ClearFields(edges, id, td, names), id, f) == RefIds(edges, id, f)
  {
    var cleared := ClearFields(edges, id, td, names);
    forall k | k in RowsOf(edges, id, f) ensures k in RowsOf(cleared, id, f) {
      assert !ClearedByAny(edges[k], id, td, names);
    }
    RefIdsFrame(edges, cleared, id, f);
  }

  // ---------------------------------------------------------------- a row is read exactly at its ends

  /** n is a node whose field f reads the edge. */
  predicate ShownAt(e: Edge, n: int, f: FieldDef) { e.from == n || (Undirected(f) && e.to == n) }

  lemma EndHasField(schema: Schema, nodes: map<int, Node>, e: Edge, n: int)
    requires ValidSchema(schema) && ValidEdge(schema, nodes, e)
    requires ShownAt(e, n, FieldOn(schema, nodes[e.from].typ, e.field).value)
    ensures n in nodes && nodes[n].typ in schema
    ensures
      var f := FieldOn(schema, nodes[e.from].typ, e.field).value;
      IsRefKind(f.kind) && FieldByName(schema[nodes[n].typ].fields, f.name) == Some(f) && RowOf(e, n, f)
  {
    var typ := nodes[e.from].typ;
    assert ValidTypeDef(schema, typ, schema[typ]);
  }

  // ---------------------------------------------------------------- an edge added since the read

  /** The row AddEdge stores and where the field shows it. */
  lemma AddedEdgeIsShown(schema: Schema, db: DB, from: int, to: int, name: string, sort: int, next: DB, n: int)
    requires ValidSchema(schema) && Inv(schema, db) && AddEdge(schema, db, from, to, name, sort) == Ok(next)
    requires
      var f := RefFieldOn(schema, db.nodes[from].typ, name).value;
      n == from || (Undirected(f) && n == to)
    ensures
      var f := RefFieldOn(schema, db.nodes[from].typ, name).value;
      var other := if n == from then to else from;
      && next.nodes == db.nodes && n in db.nodes && db.nodes[n].typ in schema && f.name == name && IsRefKind(f.kind)
      && FieldByName(schema[db.nodes[n].typ].fields, name) == Some(f)
      && other in RefIds(next.edges, n, f)
  {
    var td := schema[db.nodes[from].typ];
    var f := RefFieldOn(schema, db.nodes[from].typ, name).value;
    var e := Stored(f, from, to, sort);
    AddedRow(schema, db, from, to, name, sort, next);
    hide AddEdge, Inv, RefIds, ValidEdge, ValidSchema, Stored;
    StoredEnds(f, from, to, sort);
    var k := NextId(db.edges.Keys);
    assert next.edges[k] == e;
    EndHasField(schema, db.nodes, e, n);
    assert k in RowsOf(next.edges, n, f);
    RowIsRead(next.edges, n, f, k);
  }

  lemma StoredEnds(f: FieldDef, from: int, to: int, sort: int)
    ensures
      var e := Stored(f, from, to, sort);
      && ShownAt(e, from, f) && OtherEnd(e, from) == to && e.field == f.name
      && (Undirected(f) ==> ShownAt(e, to, f) && OtherEnd(e, to) == from)
      && (e.from == from || (Undirected(f) && e.from == to))
  {
  }

  lemma AddedRow(schema: Schema, db: DB, from: int, to: int, name: string, sort: int, next: DB)
    requires ValidSchema(schema) && Inv(schema, db) && AddEdge(schema, db, from, to, name, sort) == Ok(next)
    ensures
      var f := RefFieldOn(schema, db.nodes[from].typ, name).value;
      var e := Stored(f, from, to, sort);
      && f.name == name && next == db.(edges := db.edges[NextId(db.edges.Keys) := e])
      && ValidEdge(schema, db.nodes, e) && FieldOn(schema, db.nodes[e.from].typ, e.field) == Some(f)
  {
    hide NoConflicts, NoCycles, RebuiltIndex, ValidSchema;
    var typ := db.nodes[from].typ;
    var f := RefFieldOn(schema, typ, name).value;
    InsertedEdgeIsValid(schema, db, f, from, to, sort);
    if Undirected(f) { UndirectedStaysHome(schema, typ, f); }
  }

  /**
   * A patch that lands right after AddEdge carries the revision read before it. It leaves the new reference
   * in place exactly when it does not set the field, or names the target itself.
   */
  lemma AddedEdgeSurvivesIff(
    schema: Schema, db: DB, from: int, to: int, name: string, sort: int, next: DB, n: int, patch: Patch,
    order: seq<string>, late: DB)
    requires ValidSchema(schema) && Inv(schema, db) && AddEdge(schema, db, from, to, name, sort) == Ok(next)
    requires
      var f := RefFieldOn(schema, db.nodes[from].typ, name).value;
      n == from || (Undirected(f) && n == to)
    requires PatchNode(schema, next, n, patch, order) == Ok(late)
    ensures n in db.nodes && (ChangesNothing(patch) || patch.revision == Some(db.nodes[n].revision))
    ensures
      var f := RefFieldOn(schema, db.nodes[from].typ, name).value;
      var other := if n == from then to else from;
      && other in RefIds(next.edges, n, f)
      && (other in RefIds(late.edges, n, f) <==> name !in patch.fields || other in Named(f, patch.fields[name]))
  {
    hide Inv, ValidSchema, RefIds, Named, AddEdges, PatchedRow, ClearFields;
    AddedEdgeIsShown(schema, db, from, to, name, sort, next, n);
    var f := RefFieldOn(schema, db.nodes[from].typ, name).value;
    hide AddEdge;
    PatchedReads(schema, next, n, patch, order, late, f);
  }

  /**
   * An empty list prepared before the edge was added lands whenever the field may be emptied at all,
   * and drops the new reference.
   */
  lemma AddedEdgeIsNotProtected(schema: Schema, db: DB, id: int, to: int, name: string, sort: int, next: DB)
    requires AddEdge(schema, db, id, to, name, sort) == Ok(next)
    ensures next.nodes == db.nodes
    ensures
      var td := schema[db.nodes[id].typ];
      var f := FieldByName(td.fields, name).value;
      var stale := Patch(Some(db.nodes[id].revision), None, map[name := Ids([])]);
      f.kind == RefList && !f.required && !f.immutable && db.nodes[id].revision > 0 ==>
        var late := PatchNode(schema, next, id, stale, [name]);
        late.Ok? && RowsOf(late.value.edges, id, f) == {}
  {
    AddKeepsNodes(schema, db, id, to, name, sort, next);
    var td := schema[db.nodes[id].typ];
    var f := FieldByName(td.fields, name).value;
    hide AddEdge, PatchNode, RowsOf;
    if f.kind == RefList && !f.required && !f.immutable && db.nodes[id].revision > 0 {
      EmptyListLands(schema, next, id, f);
    }
  }

  lemma AddKeepsNodes(schema: Schema, db: DB, id: int, to: int, name: string, sort: int, next: DB)
    requires AddEdge(schema, db, id, to, name, sort) == Ok(next)
    ensures next.nodes == db.nodes && id in db.nodes && db.nodes[id].typ in schema
    ensures FieldByName(schema[db.nodes[id].typ].fields, name).Some?
  {
  }

  lemma EmptyListLands(schema: Schema, db: DB, id: int, f: FieldDef)
    requires id in db.nodes && db.nodes[id].typ in schema && db.nodes[id].revision > 0
    requires FieldByName(schema[db.nodes[id].typ].fields, f.name) == Some(f)
    requires f.kind == RefList && !f.required && !f.immutable
    ensures
      var late := PatchNode(schema, db, id, Patch(Some(db.nodes[id].revision), None, map[f.name := Ids([])]), [f.name]);
      late.Ok? && RowsOf(late.value.edges, id, f) == {}
  {
    var td, given: Fields := schema[db.nodes[id].typ], map[f.name := Ids([])];
    var stale := Patch(Some(db.nodes[id].revision), None, given);
    IdsNameTargets(f, []);
    assert ValidatePatchFields(td, given);
    assert RefPart(td, given) == given && Enumerates([f.name], given.Keys) && f.name in given;
    hide ClearFields, RowsOf, PatchedRow, ValidatePatchFields, RefPart, Enumerates, AddEdges;
    var cleared := ClearedForPatch(td, db, id, stale);
    NothingAdded(cleared, td, id, f);
    ClearedEmpties(db.edges, id, td, given.Keys, f.name);
  }

  lemma NothingAdded(db: DB, td: TypeDef, id: int, f: FieldDef)
    requires FieldByName(td.fields, f.name) == Some(f) && f.kind == RefList
    ensures AddEdges(db, td, id, map[f.name := Ids([])], [f.name]) == Ok(db)
  {
    IdsNameTargets(f, []);
    assert AddTargets(db, td, f, id, [], 0) == Ok(db);
    assert [f.name][1..] == [];
  }

  // ---------------------------------------------------------------- an edge removed since the read

  lemma OnlyRowOfPair(schema: Schema, db: DB, k: int, n: int, j: int)
    requires ValidSchema(schema) && Inv(schema, db) && k in db.edges
    requires ShownAt(db.edges[k], n, FieldOn(schema, db.nodes[db.edges[k].from].typ, db.edges[k].field).value)
    requires
      var f := FieldOn(schema, db.nodes[db.edges[k].from].typ, db.edges[k].field).value;
      j in RowsOf(db.edges, n, f) && OtherEnd(db.edges[j], n) == OtherEnd(db.edges[k], n)
    ensures j == k
  {
    assert ValidEdge(schema, db.nodes, db.edges[k]) && ValidEdge(schema, db.nodes, db.edges[j]);
    assert j != k ==> !Conflicts(db.edges[k], db.edges[j]);
  }

  lemma RemovedRow(schema: Schema, db: DB, k: int, next: DB)
    requires RemoveEdge(schema, db, k) == Ok(next)
    ensures k in db.edges && next == db.(edges := db.edges - {k})
  {
  }

  lemma LandedCarries(schema: Schema, db: DB, id: int, patch: Patch, order: seq<string>)
    requires PatchNode(schema, db, id, patch, order).Ok?
    ensures id in db.nodes && (ChangesNothing(patch) || patch.revision == Some(db.nodes[id].revision))
  {
    hide AddEdges, PatchedRow;
  }

  lemma EndOfRow(schema: Schema, db: DB, k: int, n: int)
    requires ValidSchema(schema) && Inv(schema, db) && k in db.edges
    requires ShownAt(db.edges[k], n, FieldOn(schema, db.nodes[db.edges[k].from].typ, db.edges[k].field).value)
    ensures db.edges[k].from in db.nodes && FieldOn(schema, db.nodes[db.edges[k].from].typ, db.edges[k].field).Some?
    ensures n in db.nodes && db.nodes[n].typ in schema
    ensures
      var f := FieldOn(schema, db.nodes[db.edges[k].from].typ, db.edges[k].field).value;
      IsRefKind(f.kind) && FieldByName(schema[db.nodes[n].typ].fields, f.name) == Some(f)
  {
    assert ValidEdge(schema, db.nodes, db.edges[k]);
    EndHasField(schema, db.nodes, db.edges[k], n);
  }

  /** A patch that lands right after RemoveEdge brings the reference back exactly when it names the target. */
  lemma RemovedEdgeReturnsIff(
    schema: Schema, db: DB, k: int, next: DB, n: int, patch: Patch, order: seq<string>, late: DB)
    requires ValidSchema(schema) && Inv(schema, db) && RemoveEdge(schema, db, k) == Ok(next)
    requires ShownAt(db.edges[k], n, FieldOn(schema, db.nodes[db.edges[k].from].typ, db.edges[k].field).value)
    requires PatchNode(schema, next, n, patch, order) == Ok(late)
    ensures n in db.nodes && (ChangesNothing(patch) || patch.revision == Some(db.nodes[n].revision))
    ensures
      var f := FieldOn(schema, db.nodes[db.edges[k].from].typ, db.edges[k].field).value;
      var other := OtherEnd(db.edges[k], n);
      && other in RefIds(db.edges, n, f) && other !in RefIds(next.edges, n, f)
      && (other in RefIds(late.edges, n, f) <==> f.name in patch.fields && other in Named(f, patch.fields[f.name]))
  {
    var e := db.edges[k];
    var f := FieldOn(schema, db.nodes[e.from].typ, e.field).value;
    hide *;
    RemovedRow(schema, db, k, next);
    EndOfRow(schema, db, k, n);
    RemovedIsUnread(schema, db, k, n);
    LandedCarries(schema, next, n, patch, order);
    PatchedReads(schema, next, n, patch, order, late, f);
  }

  lemma RemovedIsUnread(schema: Schema, db: DB, k: int, n: int)
    requires ValidSchema(schema) && Inv(schema, db) && k in db.edges
    requires ShownAt(db.edges[k], n, FieldOn(schema, db.nodes[db.edges[k].from].typ, db.edges[k].field).value)
    ensures
      var f := FieldOn(schema, db.nodes[db.edges[k].from].typ, db.edges[k].field).value;
      var other := OtherEnd(db.edges[k], n);
      other in RefIds(db.edges, n, f) && other !in RefIds(db.edges - {k}, n, f)
  {
    var e := db.edges[k];
    var f := FieldOn(schema, db.nodes[e.from].typ, e.field).value;
    var other := OtherEnd(e, n);
    assert ValidEdge(schema, db.nodes, e);
    EndHasField(schema, db.nodes, e, n);
    hide Inv, ValidSchema, ValidEdge, RefIds, RowOf;
    assert k in RowsOf(db.edges, n, f);
    RowIsRead(db.edges, n, f, k);
    RefersIffRead(db.edges - {k}, n, f, other);
    forall j | j in db.edges && RowOf(db.edges[j], n, f) && OtherEnd(db.edges[j], n) == other ensures j == k {
      assert j in RowsOf(db.edges, n, f);
      OnlyRowOfPair(schema, db, k, n, j);
    }
  }

  // ---------------------------------------------------------------- writes in between

  /**
   * Whatever writes come between the read and the patch, as long as the node lives: a patch that lands with the
   * revision read finds the row as it was read, and leaves the field as it names it or as the writes left it.
   */
  lemma StalePatchAfterRun(
    schema: Schema, db: DB, ops: seq<Op>, id: int, patch: Patch, order: seq<string>, late: DB, f: FieldDef)
    requires Alive(schema, db, ops, id) && id in db.nodes && db.nodes[id].typ in schema && IsRefKind(f.kind)
    requires FieldByName(schema[db.nodes[id].typ].fields, f.name) == Some(f)
    requires PatchNode(schema, Run(schema, db, ops), id, patch, order) == Ok(late)
    requires !ChangesNothing(patch) && patch.revision == Some(db.nodes[id].revision)
    ensures id in Run(schema, db, ops).nodes && Run(schema, db, ops).nodes[id] == db.nodes[id]
    ensures RefIds(late.edges, id, f)
      == if f.name in patch.fields then Named(f, patch.fields[f.name]) else RefIds(Run(schema, db, ops).edges, id, f)
  {
    hide PatchNode, Run, RefIds, Named;
    var mid := Run(schema, db, ops);
    LandedCarries(schema, mid, id, patch, order);
    WholeRun(schema, db, ops);
    NoLostRowUpdate(schema, db, ops, id, 0, |ops|);
    PatchedReads(schema, mid, id, patch, order, late, f);
  }

  lemma WholeRun(schema: Schema, db: DB, ops: seq<Op>)
    ensures Run(schema, db, ops[..0]) == db && Run(schema, db, ops[..|ops|]) == Run(schema, db, ops)
  {
    assert ops[..0] == [] && ops[..|ops|] == ops;
  }

  /**
   * After AddEdge and any further writes, such a patch keeps the reference exactly when it names it or leaves
   * it alone and it is still there.
   */
  lemma AddedEdgeAfterRunIff(
    schema: Schema, db: DB, from: int, to: int, name: string, sort: int, next: DB, ops: seq<Op>, n: int,
    patch: Patch, order: seq<string>, late: DB)
    requires ValidSchema(schema) && Inv(schema, db) && AddEdge(schema, db, from, to, name, sort) == Ok(next)
    requires
      var f := RefFieldOn(schema, db.nodes[from].typ, name).value;
      n == from || (Undirected(f) && n == to)
    requires Alive(schema, next, ops, n) && PatchNode(schema, Run(schema, next, ops), n, patch, order) == Ok(late)
    requires n in db.nodes && !ChangesNothing(patch) && patch.revision == Some(db.nodes[n].revision)
    ensures
      var f := RefFieldOn(schema, db.nodes[from].typ, name).value;
      var other := if n == from then to else from;
      other in RefIds(late.edges, n, f)
      <==> if name in patch.fields then other in Named(f, patch.fields[name])
        else other in RefIds(Run(schema, next, ops).edges, n, f)
  {
    hide Inv, ValidSchema, RefIds, Named, PatchNode, Run;
    AddedEdgeIsShown(schema, db, from, to, name, sort, next, n);
    var f := RefFieldOn(schema, db.nodes[from].typ, name).value;
    hide AddEdge;
    StalePatchAfterRun(schema, next, ops, n, patch, order, late, f);
  }

  /**
   * After RemoveEdge and any further writes, it brings the reference back exactly when it names it, or
   * another write did.
   */
  lemma RemovedEdgeAfterRunIff(
    schema: Schema, db: DB, k: int, next: DB, ops: seq<Op>, n: int, patch: Patch, order: seq<string>, late: DB)
    requires ValidSchema(schema) && Inv(schema, db) && RemoveEdge(schema, db, k) == Ok(next)
    requires ShownAt(db.edges[k], n, FieldOn(schema, db.nodes[db.edges[k].from].typ, db.edges[k].field).value)
    requires Alive(schema, next, ops, n) && PatchNode(schema, Run(schema, next, ops), n, patch, order) == Ok(late)
    requires n in db.nodes && !ChangesNothing(patch) && patch.revision == Some(db.nodes[n].revision)
    ensures
      var f := FieldOn(schema, db.nodes[db.edges[k].from].typ, db.edges[k].field).value;
      var other := OtherEnd(db.edges[k], n);
      other in RefIds(late.edges, n, f)
      <==> if f.name in patch.fields then other in Named(f, patch.fields[f.name])
        else other in RefIds(Run(schema, next, ops).edges, n, f)
  {
    hide *;
    RemovedRow(schema, db, k, next);
    EndOfRow(schema, db, k, n);
    var f := FieldOn(schema, db.nodes[db.edges[k].from].typ, db.edges[k].field).value;
    StalePatchAfterRun(schema, next, ops, n, patch, order, late, f);
  }

  // ---------------------------------------------------------------- a patch of the other end

  /** A row a patch of the node adds. */
  ghost predicate NewRow(nodes: map<int, Node>, td: TypeDef, from: int, e: Edge) {
    exists g, t, pos ::
      g in td.fields && IsRefKind(g.kind) && e == Stored(g, from, t, pos) && t in nodes && nodes[t].typ == g.to
  }

  ghost predicate OnlyNewRows(db: DB, td: TypeDef, from: int, edges: map<int, Edge>) {
    && (forall k :: k in db.edges ==> k in edges && edges[k] == db.edges[k])
    && forall k :: k in edges && k !in db.edges ==> NewRow(db.nodes, td, from, edges[k])
  }

  lemma {:induction false} AddedTargetsAreNew(
    db: DB, td: TypeDef, g: FieldDef, from: int, ids: seq<int>, pos: nat, next: DB)
    requires pos <= |ids| && AddTargets(db, td, g, from, ids, pos) == Ok(next) && g in td.fields && IsRefKind(g.kind)
    ensures next.nodes == db.nodes && OnlyNewRows(db, td, from, next.edges)
    decreases |ids| - pos
  {
    if pos < |ids| {
      var mid := InsertEdge(db, td, g, from, ids[pos], pos).value;
      var k := NextId(db.edges.Keys);
      assert mid.edges == db.edges[k := Stored(g, from, ids[pos], pos)] && NewRow(db.nodes, td, from, mid.edges[k]);
      AddedTargetsAreNew(mid, td, g, from, ids, pos + 1, next);
      hide NewRow, Stored, AddTargets, InsertError;
      NewAgain(db, mid, next.edges, td, from);
    }
  }

  lemma NewAgain(db: DB, mid: DB, edges: map<int, Edge>, td: TypeDef, from: int)
    requires mid.nodes == db.nodes && OnlyNewRows(db, td, from, mid.edges) && OnlyNewRows(mid, td, from, edges)
    ensures OnlyNewRows(db, td, from, edges)
  {
    hide NewRow;
  }

  lemma {:induction false} AddedAreNew(db: DB, td: TypeDef, from: int, refs: Fields, order: seq<string>, next: DB)
    requires forall k :: k in order ==> k in refs && IsRefName(td, k)
    requires AddEdges(db, td, from, refs, order) == Ok(next)
    ensures next.nodes == db.nodes && OnlyNewRows(db, td, from, next.edges)
    decreases |order|
  {
    if order != [] {
      var name := order[0];
      assert name in order;
      var mid := db;
      if refs[name] != Null {
        var g := FieldByName(td.fields, name).value;
        mid := AddTargets(db, td, g, from, TargetIds(g, refs[name]).value, 0).value;
        AddedTargetsAreNew(db, td, g, from, TargetIds(g, refs[name]).value, 0, mid);
      }
      AddedAreNew(mid, td, from, refs, order[1..], next);
      hide OnlyNewRows, AddEdges, AddTargets;
      if refs[name] == Null { assert mid == db; } else { NewAgain(db, mid, next.edges, td, from); }
    }
  }

  /** The node's type has an undirected field of this name, which a patch that sets it clears at both ends. */
  predicate ClearsBack(td: TypeDef, name: string) {
    IsRefName(td, name) && Undirected(FieldByName(td.fields, name).value)
  }

  /** A new row is no row of a directed field of another node. */
  lemma NewRowIsNotOthers(schema: Schema, nodes: map<int, Node>, id: int, n: int, f: FieldDef, e: Edge)
    requires ValidSchema(schema) && id in nodes && nodes[id].typ in schema && n in nodes && nodes[n].typ in schema
    requires n != id
    requires f in schema[nodes[n].typ].fields && IsRefKind(f.kind) && !Undirected(f)
    requires NewRow(nodes, schema[nodes[id].typ], id, e)
    ensures !RowOf(e, n, f)
  {
    var td := schema[nodes[id].typ];
    var g, t, pos :| g in td.fields && IsRefKind(g.kind) && e == Stored(g, id, t, pos) && t in nodes
      && nodes[t].typ == g.to;
    if Undirected(g) { UndirectedStaysHome(schema, nodes[id].typ, g); }
    OneName(schema, nodes[id].typ, g);
    OneName(schema, nodes[n].typ, f);
  }

  lemma OneName(schema: Schema, typ: string, f: FieldDef)
    requires ValidSchema(schema) && typ in schema && f in schema[typ].fields
    ensures FieldByName(schema[typ].fields, f.name) == Some(f)
  {
    assert ValidTypeDef(schema, typ, schema[typ]);
    FieldByNameFinds(schema[typ].fields, f);
  }

  /**
   * What a patch of one node does to a directed field of another: only a reference to the patched node can go,
   * and it does exactly when the patch sets an undirected field that shares the name.
   */
  lemma PatchedElsewhereIff(
    schema: Schema, db: DB, id: int, patch: Patch, order: seq<string>, next: DB, n: int, f: FieldDef, x: int)
    requires ValidSchema(schema) && PatchNode(schema, db, id, patch, order) == Ok(next)
    requires id in db.nodes && db.nodes[id].typ in schema && n in db.nodes && db.nodes[n].typ in schema && n != id
    requires f in schema[db.nodes[n].typ].fields && IsRefKind(f.kind) && !Undirected(f)
    ensures x in RefIds(next.edges, n, f)
      <==> && x in RefIds(db.edges, n, f)
           && !(x == id && f.name in patch.fields && ClearsBack(schema[db.nodes[id].typ], f.name))
  {
    if !ChangesNothing(patch) {
      var td, refs, added := PatchUnfolds(schema, db, id, patch, order, next);
      var cleared := ClearedForPatch(td, db, id, patch);
      AddedAreNew(cleared, td, id, refs, order, added);
      hide PatchNode, AddEdges, PatchedRow, RefIds;
      RefersIffRead(db.edges, n, f, x);
      RefersIffRead(next.edges, n, f, x);
      forall k | k in next.edges && k !in cleared.edges ensures !RowOf(next.edges[k], n, f) {
        SameTypesNewRow(db, td, id, patch, next.edges[k]);
        NewRowIsNotOthers(schema, db.nodes, id, n, f, next.edges[k]);
      }
      hide OnlyNewRows, ValidSchema;
      OthersRows(td, db.edges, id, refs.Keys, next.edges, n, f, x) by { NewRowsExtend(cleared, td, id, next.edges); }
    }
  }

  lemma NewRowsExtend(db: DB, td: TypeDef, from: int, edges: map<int, Edge>)
    requires OnlyNewRows(db, td, from, edges)
    ensures forall k :: k in db.edges ==> k in edges && edges[k] == db.edges[k]
  {
  }

  lemma SameTypesNewRow(db: DB, td: TypeDef, id: int, patch: Patch, e: Edge)
    requires id in db.nodes && NewRow(ClearedForPatch(td, db, id, patch).nodes, td, id, e)
    ensures NewRow(db.nodes, td, id, e)
  {
    var g, t, pos :|
      && g in td.fields && IsRefKind(g.kind) && e == Stored(g, id, t, pos)
      && t in ClearedForPatch(td, db, id, patch).nodes && ClearedForPatch(td, db, id, patch).nodes[t].typ == g.to;
    assert t in db.nodes && db.nodes[t].typ == g.to;
  }

  /** Of the rows of a directed field of another node, clearing takes those to the node under an undirected namesake. */
  lemma OthersRows(
    td: TypeDef, edges: map<int, Edge>, id: int, names: set<string>, after: map<int, Edge>, n: int, f: FieldDef, x: int)
    requires n != id && !Undirected(f) && forall k :: k in names ==> IsRefName(td, k)
    requires forall k :: k in ClearFields(edges, id, td, names) ==> k in after && after[k] == edges[k]
    requires forall k :: k in after && k !in ClearFields(edges, id, td, names) ==> !RowOf(after[k], n, f)
    ensures Refers(after, n, f, x)
      <==> Refers(edges, n, f, x) && !(x == id && f.name in names && ClearsBack(td, f.name))
  {
    if Refers(after, n, f, x) {
      var k :| k in after && RowOf(after[k], n, f) && OtherEnd(after[k], n) == x;
      assert k in ClearFields(edges, id, td, names) && RowOf(edges[k], n, f);
      assert !ClearedByAny(edges[k], id, td, names);
    }
    if Refers(edges, n, f, x) && !(x == id && f.name in names && ClearsBack(td, f.name)) {
      var k :| k in edges && RowOf(edges[k], n, f) && OtherEnd(edges[k], n) == x;
      assert !ClearedByAny(edges[k], id, td, names);
      assert k in ClearFields(edges, id, td, names);
      assert RowOf(after[k], n, f);
    }
  }

  /** A directed edge just added is dropped by a patch of its target exactly when that sets an undirected namesake. */
  lemma AddedEdgeLostToTargetIff(
    schema: Schema, db: DB, from: int, to: int, name: string, sort: int, next: DB, patch: Patch, order: seq<string>,
    late: DB)
    requires ValidSchema(schema) && Inv(schema, db) && AddEdge(schema, db, from, to, name, sort) == Ok(next)
    requires !Undirected(RefFieldOn(schema, db.nodes[from].typ, name).value) && to != from
    requires PatchNode(schema, next, to, patch, order) == Ok(late)
    ensures to in next.nodes && next.nodes[to].typ in schema
    ensures to in RefIds(late.edges, from, RefFieldOn(schema, db.nodes[from].typ, name).value)
      <==> !(name in patch.fields && ClearsBack(schema[next.nodes[to].typ], name))
  {
    hide RefIds, AddEdges, PatchedRow, ClearFields;
    AddedEdgeIsShown(schema, db, from, to, name, sort, next, from);
    TargetHasType(schema, db, from, to, name, sort, next);
    var f := RefFieldOn(schema, db.nodes[from].typ, name).value;
    hide AddEdge, PatchNode, Inv, ValidSchema, ClearsBack;
    PatchedElsewhereIff(schema, next, to, patch, order, late, from, f, to);
  }

  lemma TargetHasType(schema: Schema, db: DB, from: int, to: int, name: string, sort: int, next: DB)
    requires ValidSchema(schema) && Inv(schema, db) && AddEdge(schema, db, from, to, name, sort) == Ok(next)
    ensures to in next.nodes && next.nodes[to].typ in schema
  {
    hide NoConflicts, NoCycles, RebuiltIndex;
    assert ValidNode(schema, db.nodes[to]);
  }

  // ---------------------------------------------------------------- a run that loses an edge

  const TWO_PAGES := DB(map[1 := PAGE, 2 := PAGE], map[], map[])
  const LINKED_PAGES := DB(map[1 := PAGE, 2 := PAGE], map[1 := Edge(1, "links", 2, 0, false, true)], map[])

  function LinkPages(): Op { AddEdgeOp(1, 2, "links", 0) }

  lemma SecondPageIsCreated()
    ensures Apply(ClashingSchema(), ONE_PAGE, NewPage()) == Ok(TWO_PAGES)
  {
    NextIds();
    var page := ClashingSchema()["page"];
    var f := RefListTo("links", "page", false, true);
    assert page.fields == [f];
    var none: Fields := map[];
    assert ApplyDefaults([f], none) == none;
    assert ScalarPart(page, none) == map[] && RefPart(page, none) == map[];
    assert Enumerates([], RefPart(page, none).Keys);
    assert ONE_PAGE.nodes.Keys == {1};
    assert ONE_PAGE.nodes[2 := PAGE] == TWO_PAGES.nodes;
  }

  lemma PagesAreLinked()
    ensures Apply(ClashingSchema(), TWO_PAGES, LinkPages()) == Ok(LINKED_PAGES)
  {
    NextIds();
    var page := ClashingSchema()["page"];
    var f := RefListTo("links", "page", false, true);
    assert page.fields == [f];
    assert InsertEdge(TWO_PAGES, page, f, 1, 2, 0) == Ok(LINKED_PAGES);
  }

  /**
   * Page 1 is read at revision 1, another client links it to page 2, and the first client writes back an
   * empty list with the revision it read: the write lands and the link is gone.
   */
  lemma StaleListLosesLink()
    ensures
      var s, links := ClashingSchema(), RefListTo("links", "page", false, true);
      var read := Run(s, EMPTY, [NewPage(), NewPage()]);
      var linked := Run(s, EMPTY, [NewPage(), NewPage(), LinkPages()]);
      var late := Run(s, EMPTY, [NewPage(), NewPage(), LinkPages(), UnlinkPage()]);
      && ValidSchema(s) && 1 in read.nodes && UnlinkPage().patch.revision == Some(read.nodes[1].revision)
      && linked.nodes == read.nodes && RefIds(linked.edges, 1, links) == [2]
      && Apply(s, linked, UnlinkPage()) == Ok(late) && RefIds(late.edges, 1, links) == []
  {
    hide *;
    var s := ClashingSchema();
    ClashingSchemaIsValid();
    PagesRun();
    OneLinkIsRead();
    StaleListLands();
    PageIsReadAtOne();
    OneMore(s, NewPage(), LinkPages(), UnlinkPage());
    StepOk(s, LINKED_PAGES, UnlinkPage(), Apply(s, LINKED_PAGES, UnlinkPage()).value);
  }

  lemma PageIsReadAtOne()
    ensures UnlinkPage().PatchOp? && UnlinkPage().patch.revision == Some(1)
    ensures 1 in TWO_PAGES.nodes && TWO_PAGES.nodes[1].revision == 1 && LINKED_PAGES.nodes == TWO_PAGES.nodes
  {
  }

  lemma OneMore(s: Schema, a: Op, b: Op, c: Op)
    ensures Run(s, EMPTY, [a, a, b, c]) == Step(s, Run(s, EMPTY, [a, a, b]), c)
  {
    hide Step;
    RunAppend(s, EMPTY, [a, a, b], c);
    assert [a, a, b] + [c] == [a, a, b, c];
  }

  lemma StaleListLands()
    ensures
      var s, links := ClashingSchema(), RefListTo("links", "page", false, true);
      var r := Apply(s, LINKED_PAGES, UnlinkPage());
      r.Ok? && RefIds(r.value.edges, 1, links) == []
  {
    var s, f := ClashingSchema(), RefListTo("links", "page", false, true);
    assert s["page"].fields == [f] && FieldByName(s["page"].fields, "links") == Some(f);
    PagesAreLinked();
    hide RefIds, RowsOf, PatchNode;
    AddedEdgeIsNotProtected(s, TWO_PAGES, 1, 2, "links", 0, LINKED_PAGES);
    NoRowsNoIds(PatchNode(s, LINKED_PAGES, 1, UnlinkPage().patch, ["links"]).value.edges, 1, f);
  }

  lemma OneLinkIsRead()
    ensures RefIds(LINKED_PAGES.edges, 1, RefListTo("links", "page", false, true)) == [2]
  {
    var (edges, f) := (LINKED_PAGES.edges, RefListTo("links", "page", false, true));
    assert RowsOf(edges, 1, f) == {1};
    assert InOrder(edges, [1]) && Elements([1]) == {1};
    OrderIsUnique(edges, Sorted(edges, {1}), [1]);
  }

  lemma PagesRun()
    ensures Run(ClashingSchema(), EMPTY, [NewPage(), NewPage()]) == TWO_PAGES
    ensures Run(ClashingSchema(), EMPTY, [NewPage(), NewPage(), LinkPages()]) == LINKED_PAGES
  {
    var s := ClashingSchema();
    var (a, c) := (NewPage(), LinkPages());
    hide Apply, Step, ClashingSchema, NewPage, LinkPages;
    PageIsCreated();
    SecondPageIsCreated();
    PagesAreLinked();
    RunAppend(s, EMPTY, [], a);
    RunAppend(s, EMPTY, [] + [a], a);
    RunAppend(s, EMPTY, [] + [a] + [a], c);
    StepOk(s, EMPTY, a, ONE_PAGE);
    StepOk(s, ONE_PAGE, a, TWO_PAGES);
    StepOk(s, TWO_PAGES, c, LINKED_PAGES);
    assert [] + [a] + [a] == [a, a] && [] + [a] + [a] + [c] == [a, a, c];
  }
}
