/** Optimistic locking: what the revision of a node counts, and what it does not (core/node_sql.go). */
module Revisions {
  import opened Common
  import opened Types
  import opened Store
  import opened Invariants

  /** A write that changes the row of node id when it succeeds. */
  predicate Effective(op: Op, id: int) {
    op.PatchOp? && op.id == id && !ChangesNothing(op.patch)
  }

  /** op is a patch of id that goes through in state db. */
  ghost predicate Lands(schema: Schema, db: DB, op: Op, id: int) {
    Effective(op, id) && Apply(schema, db, op).Ok?
  }

  /** The node exists in every state the writes pass through: one incarnation of the id. */
  ghost predicate Alive(schema: Schema, db: DB, ops: seq<Op>, id: int) {
    forall i :: 0 <= i <= |ops| ==> id in Run(schema, db, ops[..i]).nodes
  }

  /** How many patches of id land. */
  ghost function Landed(schema: Schema, db: DB, ops: seq<Op>, id: int): nat
    decreases |ops|
  {
    if ops == [] then 0
    else
      var before := ops[..|ops| - 1];
      Landed(schema, db, before, id) + if Lands(schema, Run(schema, db, before), ops[|ops| - 1], id) then 1 else 0
  }

  lemma {:induction false} AddTargetsKeepsNodes(db: DB, td: TypeDef, f: FieldDef, from: int, ids: seq<int>, pos: nat)
    requires pos <= |ids|
    ensures AddTargets(db, td, f, from, ids, pos).Ok? ==> AddTargets(db, td, f, from, ids, pos).value.nodes == db.nodes
    decreases |ids| - pos
  {
    if pos < |ids| && InsertEdge(db, td, f, from, ids[pos], pos).Ok? {
      AddTargetsKeepsNodes(InsertEdge(db, td, f, from, ids[pos], pos).value, td, f, from, ids, pos + 1);
    }
  }

  lemma {:induction false} AddEdgesKeepsNodes(db: DB, td: TypeDef, from: int, refs: Fields, order: seq<string>)
    requires forall k :: k in order ==> k in refs
    ensures AddEdges(db, td, from, refs, order).Ok? ==> AddEdges(db, td, from, refs, order).value.nodes == db.nodes
    decreases |order|
  {
    if order != [] {
      var name := order[0];
      assert name in order;
      if refs[name] == Null {
        AddEdgesKeepsNodes(db, td, from, refs, order[1..]);
      } else if FieldByName(td.fields, name).Some? && TargetIds(FieldByName(td.fields, name).value, refs[name]).Some? {
        var f := FieldByName(td.fields, name).value;
        var ids := TargetIds(f, refs[name]).value;
        AddTargetsKeepsNodes(db, td, f, from, ids, 0);
        if AddTargets(db, td, f, from, ids, 0).Ok? {
          AddEdgesKeepsNodes(AddTargets(db, td, f, from, ids, 0).value, td, from, refs, order[1..]);
        }
      }
    }
  }

  /** A new node starts at revision 1 and touches no other row. */
  lemma CreatedRow(schema: Schema, db: DB, typ: string, display: string, given: Fields, order: seq<string>)
    requires CreateNode(schema, db, typ, display, given, order).Ok?
    ensures
      var (next, id) := CreateNode(schema, db, typ, display, given, order).value;
      id !in db.nodes && next.nodes.Keys == db.nodes.Keys + {id} && next.nodes[id].revision == 1
      && forall m :: m in db.nodes ==> next.nodes[m] == db.nodes[m]
  {
    var (next, id) := CreateNode(schema, db, typ, display, given, order).value;
    var td, fields, added := CreateUnfolds(schema, db, typ, display, given, order, next, id);
    AddEdgesKeepsNodes(CreatedIn(td, db, id, typ, display, fields), td, id, RefPart(td, fields), order);
  }

  /** A patch that lands carried the current revision; the next one is one higher; other rows stay. */
  lemma PatchedRowIs(schema: Schema, db: DB, id: int, patch: Patch, order: seq<string>)
    requires PatchNode(schema, db, id, patch, order).Ok? && !ChangesNothing(patch)
    ensures id in db.nodes && db.nodes[id].typ in schema && patch.revision == Some(db.nodes[id].revision)
    ensures PatchNode(schema, db, id, patch, order).value.nodes
      == db.nodes[id := PatchedRow(schema[db.nodes[id].typ], db.nodes[id], patch)]
  {
    var td, refs, added := PatchUnfolds(schema, db, id, patch, order, PatchNode(schema, db, id, patch, order).value);
    AddEdgesKeepsNodes(ClearedForPatch(td, db, id, patch), td, id, refs, order);
  }

  /** One write either leaves the row of a surviving node alone or is a patch of it that lands. */
  lemma StepRow(schema: Schema, db: DB, op: Op, id: int)
    requires id in db.nodes && id in Step(schema, db, op).nodes
    ensures
      var after := Step(schema, db, op).nodes[id];
      if Lands(schema, db, op, id)
      then op.patch.revision == Some(db.nodes[id].revision) && after.revision == db.nodes[id].revision + 1
      else after == db.nodes[id]
  {
    if Apply(schema, db, op).Ok? {
      match op {
        case Create(t, d, f, order) => CreatedRow(schema, db, t, d, f, order);
        case PatchOp(m, p, order) =>
          if Effective(op, m) {
            PatchedRowIs(schema, db, m, p, order);
          }
        case AddEdgeOp(_, _, _, _) =>
        case RemoveEdgeOp(_) =>
        case DeleteOp(_) =>
      }
    }
  }

  lemma AlivePrefix(schema: Schema, db: DB, ops: seq<Op>, id: int, n: nat)
    requires Alive(schema, db, ops, id) && n <= |ops|
    ensures Alive(schema, db, ops[..n], id)
  {
    forall i | 0 <= i <= n ensures id in Run(schema, db, ops[..n][..i]).nodes {
      assert ops[..n][..i] == ops[..i];
    }
  }

  /** While a node lives, its revision has grown by the number of patches of it that landed. */
  lemma {:induction false} RevisionCounts(schema: Schema, db: DB, ops: seq<Op>, id: int)
    requires Alive(schema, db, ops, id)
    ensures id in db.nodes && id in Run(schema, db, ops).nodes
    ensures Run(schema, db, ops).nodes[id].revision == db.nodes[id].revision + Landed(schema, db, ops, id)
    decreases |ops|
  {
    assert ops[..0] == [] && ops[..|ops|] == ops;
    assert id in Run(schema, db, ops[..0]).nodes && id in Run(schema, db, ops[..|ops|]).nodes;
    if ops != [] {
      var before := ops[..|ops| - 1];
      AlivePrefix(schema, db, ops, id, |ops| - 1);
      RevisionCounts(schema, db, before, id);
      StepRow(schema, Run(schema, db, before), ops[|ops| - 1], id);
    }
  }

  /** From its creation on, a node's revision is one more than the number of patches that landed. */
  lemma RevisionIsOnePlusPatches(
    schema: Schema, db: DB, typ: string, display: string, given: Fields, order: seq<string>,
    created: DB, id: int, ops: seq<Op>)
    requires CreateNode(schema, db, typ, display, given, order) == Ok((created, id))
    requires Alive(schema, created, ops, id)
    ensures id in Run(schema, created, ops).nodes
    ensures Run(schema, created, ops).nodes[id].revision == 1 + Landed(schema, created, ops, id)
  {
    CreatedRow(schema, db, typ, display, given, order);
    RevisionCounts(schema, created, ops, id);
  }

  lemma TrimmedTail(ops: seq<Op>, i: nat)
    requires i < |ops|
    ensures ops[i..][..|ops| - i - 1] == ops[..|ops| - 1][i..]
  {
  }

  lemma {:induction false} RunSplits(schema: Schema, db: DB, ops: seq<Op>, i: nat)
    requires i <= |ops|
    ensures Run(schema, db, ops) == Run(schema, Run(schema, db, ops[..i]), ops[i..])
    decreases |ops|
  {
    if i == |ops| {
      assert ops[..i] == ops;
    } else {
      var before := ops[..|ops| - 1];
      RunSplits(schema, db, before, i);
      assert before[..i] == ops[..i];
      TrimmedTail(ops, i);
    }
  }

  lemma AliveSuffix(schema: Schema, db: DB, ops: seq<Op>, id: int, i: nat)
    requires Alive(schema, db, ops, id) && i <= |ops|
    ensures Alive(schema, Run(schema, db, ops[..i]), ops[i..], id)
  {
    forall j | 0 <= j <= |ops| - i ensures id in Run(schema, Run(schema, db, ops[..i]), ops[i..][..j]).nodes {
      RunSplits(schema, db, ops[..i + j], i);
      assert ops[..i + j][..i] == ops[..i] && ops[..i + j][i..] == ops[i..][..j];
    }
  }

  /** The revision never falls while the node lives. */
  lemma RevisionGrows(schema: Schema, db: DB, ops: seq<Op>, id: int, i: nat, j: nat)
    requires Alive(schema, db, ops, id) && i <= j <= |ops|
    ensures id in Run(schema, db, ops[..i]).nodes && id in Run(schema, db, ops[..j]).nodes
    ensures Run(schema, db, ops[..i]).nodes[id].revision <= Run(schema, db, ops[..j]).nodes[id].revision
  {
    AlivePrefix(schema, db, ops, id, j);
    AliveSuffix(schema, db, ops[..j], id, i);
    assert ops[..j][..i] == ops[..i];
    RunSplits(schema, db, ops[..j], i);
    RevisionCounts(schema, Run(schema, db, ops[..i]), ops[..j][i..], id);
  }

  lemma RunNext(schema: Schema, db: DB, ops: seq<Op>, i: nat)
    requires i < |ops|
    ensures Run(schema, db, ops[..i + 1]) == Step(schema, Run(schema, db, ops[..i]), ops[i])
  {
    assert ops[..i + 1][..i] == ops[..i];
  }

  /** Two patches that carry the same revision never both land in one incarnation. */
  lemma SameRevisionLandsOnce(schema: Schema, db: DB, ops: seq<Op>, id: int, i: nat, j: nat)
    requires Alive(schema, db, ops, id) && i < j < |ops|
    requires Lands(schema, Run(schema, db, ops[..i]), ops[i], id)
    requires Lands(schema, Run(schema, db, ops[..j]), ops[j], id)
    ensures ops[i].patch.revision != ops[j].patch.revision
  {
    RevisionGrows(schema, db, ops, id, i + 1, j);
    RunNext(schema, db, ops, i);
    StepRow(schema, Run(schema, db, ops[..i]), ops[i], id);
    RunNext(schema, db, ops, j);
    assert id in Run(schema, db, ops[..j + 1]).nodes;
    StepRow(schema, Run(schema, db, ops[..j]), ops[j], id);
  }

  /** If a patch lands with the revision a client read earlier, the row is still the one it read. */
  lemma {:induction false} NoLostRowUpdate(schema: Schema, db: DB, ops: seq<Op>, id: int, i: nat, j: nat)
    requires Alive(schema, db, ops, id) && i <= j <= |ops|
    requires id in Run(schema, db, ops[..i]).nodes && id in Run(schema, db, ops[..j]).nodes
    requires Run(schema, db, ops[..i]).nodes[id].revision == Run(schema, db, ops[..j]).nodes[id].revision
    ensures Run(schema, db, ops[..i]).nodes[id] == Run(schema, db, ops[..j]).nodes[id]
    decreases j - i
  {
    if i < j {
      RevisionGrows(schema, db, ops, id, i, i + 1);
      RevisionGrows(schema, db, ops, id, i + 1, j);
      RunNext(schema, db, ops, i);
      StepRow(schema, Run(schema, db, ops[..i]), ops[i], id);
      NoLostRowUpdate(schema, db, ops, id, i + 1, j);
    }
  }
}
