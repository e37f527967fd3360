/** Exactly when required references survive every run (core/edge.go, core/node_sql.go). */
module RequiredExact {
  import opened Common
  import opened Types
  import opened Store
  import opened Invariants
  import opened Required

  predicate OnlyPatches(ops: seq<Op>) { forall i :: 0 <= i < |ops| ==> ops[i].PatchOp? }

  // ---------------------------------------------------------------- clearing an exposed reference

  /** Clears one field: what a patch of that field to null sends. */
  function ClearPatch(db: DB, t: int, name: string): (op: Op)
    requires t in db.nodes
  {
    PatchOp(t, Patch(Some(db.nodes[t].revision), None, map[name := Null]), [name])
  }

  lemma ClearPatchIsValid(schema: Schema, db: DB, t: int, f: FieldDef)
    requires ValidSchema(schema) && t in db.nodes && db.nodes[t].typ in schema && f in schema[db.nodes[t].typ].fields
    requires IsRefKind(f.kind) && !f.required && !f.immutable
    ensures
      var td, given := schema[db.nodes[t].typ], ClearPatch(db, t, f.name).patch.fields;
      ValidatePatchFields(td, given) && RefPart(td, given) == given
  {
    FieldByNameFinds(schema[db.nodes[t].typ].fields, f);
  }

  lemma ClearPatchSucceeds(schema: Schema, db: DB, t: int, f: FieldDef)
    requires ValidSchema(schema) && t in db.nodes && db.nodes[t].typ in schema && f in schema[db.nodes[t].typ].fields
    requires IsRefKind(f.kind) && !f.required && !f.immutable && db.nodes[t].revision > 0
    ensures
      var next := Step(schema, db, ClearPatch(db, t, f.name));
      && next.nodes.Keys == db.nodes.Keys
      && (forall m :: m in next.nodes ==> next.nodes[m].typ == db.nodes[m].typ)
      && next.edges == ClearFields(db.edges, t, schema[db.nodes[t].typ], {f.name})
  {
    hide ValidatePatchFields, RefPart;
    var td, op := schema[db.nodes[t].typ], ClearPatch(db, t, f.name);
    var given, order := op.patch.fields, op.order;
    ClearPatchIsValid(schema, db, t, f);
    assert given.Keys == {f.name} && Enumerates(order, given.Keys) && f.name in given;
    var cleared := ClearedForPatch(td, db, t, op.patch);
    assert order[1..] == [];
    assert AddEdges(cleared, td, t, given, order) == Ok(cleared);
  }

  /** One target less: a patch of the node at the other end removes an edge of an exposed reference. */
  lemma ExposedLosesEdge(schema: Schema, db: DB, m: int, g: FieldDef, k: int)
    requires ValidSchema(schema) && Inv(schema, db) && NoneNeedsPeer(schema, db.nodes)
    requires m in db.nodes && db.nodes[m].typ in schema && g in schema[db.nodes[m].typ].fields
    requires Demands(g) && Exposed(schema, g)
    requires k in EdgesAt(db.edges, g, m)
    ensures db.edges[k].to in db.nodes
    ensures
      var next := Step(schema, db, ClearPatch(db, db.edges[k].to, g.name));
      && next.nodes.Keys == db.nodes.Keys
      && next.nodes[m].typ == db.nodes[m].typ
      && EdgesAt(next.edges, g, m) < EdgesAt(db.edges, g, m)
  {
    var e := db.edges[k];
    assert ValidEdge(schema, db.nodes, e);
    FieldByNameFinds(schema[db.nodes[m].typ].fields, g);
    assert ValidNode(schema, db.nodes[e.to]);
    var td := schema[g.to];
    var f := FieldByName(td.fields, g.name).value;
    assert !NeedsPeer(td, f);
    ClearPatchSucceeds(schema, db, e.to, f);
    var cleared := ClearFields(db.edges, e.to, td, {f.name});
    assert ClearedByAny(e, e.to, td, {f.name});
    assert k !in EdgesAt(cleared, g, m);
  }

  /** Any run can be continued by patches until an exposed reference is empty. */
  lemma {:induction false} ExposedIsEmptied(
    schema: Schema, start: DB, ops: seq<Op>, m: int, g: FieldDef) returns (all: seq<Op>)
    requires ValidSchema(schema)
    requires Inv(schema, Run(schema, start, ops)) && NoneNeedsPeer(schema, Run(schema, start, ops).nodes)
    requires
      var db := Run(schema, start, ops);
      && m in db.nodes && db.nodes[m].typ in schema && g in schema[db.nodes[m].typ].fields
    requires Demands(g) && Exposed(schema, g)
    ensures OnlyPatches(ops) ==> OnlyPatches(all)
    ensures !RequiredHeld(schema, Run(schema, start, all).nodes, Run(schema, start, all).edges)
    decreases |EdgesAt(Run(schema, start, ops).edges, g, m)|
  {
    hide Step, Inv, NoneNeedsPeer, RequiredHeld, Exposed;
    var db := Run(schema, start, ops);
    if !RequiredHeld(schema, db.nodes, db.edges) {
      all := ops;
    } else {
      HeldIsCounted(schema, db, m, g);
      var k := AnElement(EdgesAt(db.edges, g, m));
      ExposedLosesEdge(schema, db, m, g, k);
      var op := ClearPatch(db, db.edges[k].to, g.name);
      RunAppend(schema, start, ops, op);
      StepKeepsInv(schema, db, op);
      StepKeepsNoneNeedsPeer(schema, db, op);
      ProperSubsetIsSmaller(EdgesAt(Step(schema, db, op).edges, g, m), EdgesAt(db.edges, g, m));
      all := ExposedIsEmptied(schema, start, ops + [op], m, g);
    }
  }

  lemma ProperSubsetIsSmaller<T>(a: set<T>, b: set<T>)
    requires a < b
    ensures |a| < |b|
  {
    var x :| x in b && x !in a;
    var rest := b - {x} - a;
    assert b == a + rest + {x};
    assert a !! rest && x !in a + rest;
  }

  lemma HeldIsCounted(schema: Schema, db: DB, m: int, g: FieldDef)
    requires m in db.nodes && db.nodes[m].typ in schema && g in schema[db.nodes[m].typ].fields && Demands(g)
    requires RequiredHeld(schema, db.nodes, db.edges)
    ensures EdgesAt(db.edges, g, m) != {}
  {
    assert HasEdge(db.edges, m, g.name);
    var k :| k in db.edges && db.edges[k].from == m && db.edges[k].field == g.name;
    assert k in EdgesAt(db.edges, g, m);
  }

  // ---------------------------------------------------------------- patches do not expose

  lemma PatchKeepsTypes(schema: Schema, db: DB, op: Op)
    requires op.PatchOp?
    ensures
      var next := Step(schema, db, op);
      next.nodes.Keys == db.nodes.Keys && forall m :: m in db.nodes ==> next.nodes[m].typ == db.nodes[m].typ
  {
    if Apply(schema, db, op).Ok? && !ChangesNothing(op.patch) {
      var td, refs, added := PatchUnfolds(schema, db, op.id, op.patch, op.order, Step(schema, db, op));
      AddEdgesCovers(ClearedForPatch(td, db, op.id, op.patch), td, op.id, refs, op.order, added);
    }
  }

  lemma {:induction false} PatchesKeepRequired(schema: Schema, db: DB, ops: seq<Op>)
    requires ValidSchema(schema) && Inv(schema, db) && NoneExposed(schema, db.nodes)
    requires RequiredHeld(schema, db.nodes, db.edges)
    requires OnlyPatches(ops)
    ensures
      var end := Run(schema, db, ops);
      Inv(schema, end) && NoneExposed(schema, end.nodes) && RequiredHeld(schema, end.nodes, end.edges)
    decreases |ops|
  {
    if ops != [] {
      var before, op := ops[..|ops| - 1], ops[|ops| - 1];
      PatchesKeepRequired(schema, db, before);
      var mid := Run(schema, db, before);
      StepKeepsRequired(schema, mid, op);
      StepKeepsInv(schema, mid, op);
      PatchKeepsTypes(schema, mid, op);
    }
  }

  /**
   * In a reachable state, required references survive every sequence of patches exactly when no node
   * holds an exposed one. The condition is about the schema and the types of the nodes alone.
   */
  lemma PatchesKeepRequiredIff(schema: Schema, db: DB)
    requires ValidSchema(schema) && Reachable(schema, db) && RequiredHeld(schema, db.nodes, db.edges)
    ensures NoneExposed(schema, db.nodes) <==>
      forall ops :: OnlyPatches(ops) ==> RequiredHeld(schema, Run(schema, db, ops).nodes, Run(schema, db, ops).edges)
  {
    var past :| db == Run(schema, EMPTY, past);
    RunKeepsInv(schema, past);
    RunNeedsNoPeer(schema, past);
    if NoneExposed(schema, db.nodes) {
      forall ops | OnlyPatches(ops)
        ensures RequiredHeld(schema, Run(schema, db, ops).nodes, Run(schema, db, ops).edges) {
        PatchesKeepRequired(schema, db, ops);
      }
    } else {
      var m, g :| m in db.nodes && db.nodes[m].typ in schema && g in schema[db.nodes[m].typ].fields && Demands(g)
                  && Exposed(schema, g);
      var none: seq<Op> := [];
      assert Run(schema, db, none) == db;
      var ops := ExposedIsEmptied(schema, db, none, m, g);
      assert OnlyPatches(ops);
    }
  }

  // ---------------------------------------------------------------- all runs of all five writes

  lemma {:induction false} UnexposedRunKeepsRequired(schema: Schema, ops: seq<Op>)
    requires ValidSchema(schema)
    requires forall db :: Reachable(schema, db) ==> NoneExposed(schema, db.nodes)
    ensures RequiredHeld(schema, Run(schema, EMPTY, ops).nodes, Run(schema, EMPTY, ops).edges)
    decreases |ops|
  {
    if ops != [] {
      var before := ops[..|ops| - 1];
      UnexposedRunKeepsRequired(schema, before);
      RunKeepsInv(schema, before);
      assert Reachable(schema, Run(schema, EMPTY, before));
      StepKeepsRequired(schema, Run(schema, EMPTY, before), ops[|ops| - 1]);
    }
  }

  /**
   * Every directed required reference is held in all runs of the five writes exactly when no run
   * creates a node that holds an exposed one.
   */
  lemma AlwaysRequiredIff(schema: Schema)
    requires ValidSchema(schema)
    ensures (forall db :: Reachable(schema, db) ==> RequiredHeld(schema, db.nodes, db.edges)) <==>
            (forall db :: Reachable(schema, db) ==> NoneExposed(schema, db.nodes))
  {
    if forall db :: Reachable(schema, db) ==> NoneExposed(schema, db.nodes) {
      forall db | Reachable(schema, db) ensures RequiredHeld(schema, db.nodes, db.edges) {
        var ops :| db == Run(schema, EMPTY, ops);
        UnexposedRunKeepsRequired(schema, ops);
      }
    } else {
      var db :| Reachable(schema, db) && !NoneExposed(schema, db.nodes);
      var ops :| db == Run(schema, EMPTY, ops);
      RunKeepsInv(schema, ops);
      RunNeedsNoPeer(schema, ops);
      var m, g :| m in db.nodes && db.nodes[m].typ in schema && g in schema[db.nodes[m].typ].fields && Demands(g)
                  && Exposed(schema, g);
      var all := ExposedIsEmptied(schema, EMPTY, ops, m, g);
      assert Reachable(schema, Run(schema, EMPTY, all));
    }
  }
}
