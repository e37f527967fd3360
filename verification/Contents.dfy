/**
 * What a write that succeeds leaves in the tables, told field by field from what the caller sent
 * (core/node_sql.go, core/edge.go, types/capability.go).
 */
module Contents {
  import opened Common
  import opened Types
  import opened Store
  import opened Invariants
  import opened Reads
  import opened RoundTrip
  import opened Revisions
  import opened StaleEdges

  // ---------------------------------------------------------------- values at a path of keys

  /** What stands at a path of keys below a value, if anything does. */
  function ValueAt(v: Value, path: seq<string>): Option<Value> {
    if path == [] then Some(v)
    else if v.Obj? && path[0] in v.entries then ValueAt(v.entries[path[0]], path[1..])
    else None
  }

  /** The first n keys lead to a value in the patch that is no object, and so decides what is there. */
  predicate DecidedAt(patch: Value, path: seq<string>, n: int) {
    0 <= n <= |path| && ValueAt(patch, path[..n]).Some? && !ValueAt(patch, path[..n]).value.Obj?
  }

  /**
   * What is at a path after a patch: the patch's own value, nothing at or below its null, and what was there
   * before.
   */
  ghost predicate Overlaid(before: Value, patch: Value, after: Value, path: seq<string>) {
    && (forall n :: DecidedAt(patch, path, n) ==>
          ValueAt(after, path)
          == if n == |path| && ValueAt(patch, path) != Some(Null) then ValueAt(patch, path) else None)
    && (ValueAt(patch, path).Some? && ValueAt(patch, path).value.Obj? ==>
          ValueAt(after, path).Some? && ValueAt(after, path).value.Obj?)
    && (ValueAt(patch, path).None? && (forall n :: !DecidedAt(patch, path, n)) ==>
          ValueAt(after, path) == ValueAt(before, path))
  }

  lemma DecidedBelow(patch: Value, path: seq<string>, n: int)
    requires path != [] && patch.Obj?
    ensures DecidedAt(patch, path, n)
      <==> n > 0 && path[0] in patch.entries && DecidedAt(patch.entries[path[0]], path[1..], n - 1)
  {
    if 0 < n <= |path| {
      assert path[..n][0] == path[0] && path[..n][1..] == path[1..][..n - 1];
    }
  }

  lemma MergedEntryIs(before: Value, patch: Value, k: string)
    requires patch.Obj?
    ensures MergePatch(before, patch).Obj?
    ensures
      var t := if before.Obj? then before.entries else map[];
      var m := MergePatch(before, patch).entries;
      && (k !in patch.entries ==> (k in m <==> k in t) && (k in t ==> m[k] == t[k]))
      && (k in patch.entries && patch.entries[k] == Null ==> k !in m)
      && (k in patch.entries && patch.entries[k] != Null ==>
            k in m && m[k] == MergePatch(if k in t then t[k] else Null, patch.entries[k]))
  {
  }

  lemma DecidedHere(v: Value, path: seq<string>)
    requires !v.Obj?
    ensures forall n :: DecidedAt(v, path, n) <==> n == 0
    ensures path != [] ==> ValueAt(v, path).None?
  {
    assert path[..0] == [];
  }

  /** Merging overlays the patch at every path below the top. */
  lemma {:induction false} MergeOverlays(before: Value, patch: Value, path: seq<string>)
    requires patch.Obj? && path != []
    ensures Overlaid(before, patch, MergePatch(before, patch), path)
    decreases |path|
  {
    var k, rest := path[0], path[1..];
    MergedEntryIs(before, patch, k);
    forall n ensures DecidedAt(patch, path, n)
      <==> n > 0 && k in patch.entries && DecidedAt(patch.entries[k], rest, n - 1)
    {
      DecidedBelow(patch, path, n);
    }
    if k in patch.entries {
      var p := patch.entries[k];
      var was := if before.Obj? && k in before.entries then before.entries[k] else Null;
      hide MergePatch, DecidedAt;
      if !p.Obj? {
        NotMerged(was, p);
        DecidedHere(p, rest);
        assert DecidedAt(p, rest, 0) && DecidedAt(patch, path, 1);
        assert |path| == |rest| + 1 && (rest == [] ==> ValueAt(p, rest) == Some(p));
      } else if rest == [] {
        MergedEntryIs(was, p, "");
        NoneDecided(p);
        assert ValueAt(p, rest) == Some(p) && ValueAt(MergePatch(was, p), rest) == Some(MergePatch(was, p));
        assert forall n :: DecidedAt(patch, path, n) ==> DecidedAt(p, rest, n - 1);
      } else {
        MergeOverlays(was, p, rest);
        assert forall n :: DecidedAt(p, rest, n) ==> DecidedAt(patch, path, n + 1);
      }
    }
  }

  lemma NotMerged(before: Value, patch: Value)
    requires !patch.Obj?
    ensures MergePatch(before, patch) == patch
  {
  }

  lemma NoneDecided(v: Value)
    requires v.Obj?
    ensures forall n :: !DecidedAt(v, [], n)
  {
  }

  // ---------------------------------------------------------------- the row a patch leaves

  lemma ScalarsAtPath(td: TypeDef, fields: Fields, path: seq<string>)
    requires path != [] && !IsRefName(td, path[0])
    ensures ValueAt(Obj(ScalarPart(td, fields)), path) == ValueAt(Obj(fields), path)
    ensures forall n :: DecidedAt(Obj(ScalarPart(td, fields)), path, n) <==> DecidedAt(Obj(fields), path, n)
  {
    forall n ensures DecidedAt(Obj(ScalarPart(td, fields)), path, n) <==> DecidedAt(Obj(fields), path, n) {
      DecidedBelow(Obj(ScalarPart(td, fields)), path, n);
      DecidedBelow(Obj(fields), path, n);
    }
  }

  /**
   * The row a patch that lands leaves: at every path of keys below a scalar field what Overlaid says, and
   * nothing under a reference name. The type stays, the display is the patch's if it gives one, and every
   * other row is as it was.
   */
  lemma PatchedRowHolds(schema: Schema, db: DB, id: int, patch: Patch, order: seq<string>, next: DB, path: seq<string>)
    requires PatchNode(schema, db, id, patch, order) == Ok(next)
    requires id in db.nodes && db.nodes[id].typ in schema && path != []
    ensures next.nodes.Keys == db.nodes.Keys && forall m :: m in db.nodes && m != id ==> next.nodes[m] == db.nodes[m]
    ensures next.nodes[id].typ == db.nodes[id].typ
    ensures next.nodes[id].revision == db.nodes[id].revision + if ChangesNothing(patch) then 0 else 1
    ensures next.nodes[id].display == if patch.display.Some? then patch.display.value else db.nodes[id].display
    ensures
      var (before, after) := (Obj(db.nodes[id].fields), Obj(next.nodes[id].fields));
      if IsRefName(schema[db.nodes[id].typ], path[0]) then ValueAt(after, path) == ValueAt(before, path)
      else Overlaid(before, Obj(patch.fields), after, path)
  {
    hide Overlaid, ValueAt, IsRefName;
    var td := schema[db.nodes[id].typ];
    if ChangesNothing(patch) {
      NothingOverlaid(Obj(db.nodes[id].fields), path);
    } else {
      var td', refs, added := PatchUnfolds(schema, db, id, patch, order, next);
      AddEdgesKeepsNodes(ClearedForPatch(td, db, id, patch), td, id, refs, order);
      RowOverlays(td, db.nodes[id], patch, path);
    }
  }

  lemma NothingOverlaid(v: Value, path: seq<string>)
    requires path != []
    ensures Overlaid(v, Obj(map[]), v, path)
  {
    forall n ensures !DecidedAt(Obj(map[]), path, n) { DecidedBelow(Obj(map[]), path, n); }
  }

  lemma RowOverlays(td: TypeDef, n: Node, patch: Patch, path: seq<string>)
    requires path != []
    ensures
      var (before, after) := (Obj(n.fields), Obj(PatchedRow(td, n, patch).fields));
      if IsRefName(td, path[0]) then ValueAt(after, path) == ValueAt(before, path)
      else Overlaid(before, Obj(patch.fields), after, path)
  {
    var scalars := ScalarPart(td, patch.fields);
    var before := Obj(n.fields);
    if IsRefName(td, path[0]) {
      MergedEntryIs(before, Obj(scalars), path[0]);
    } else {
      ScalarsAtPath(td, patch.fields, path);
      if scalars == map[] {
        NothingOverlaid(before, path);
      } else {
        MergeOverlays(before, Obj(scalars), path);
      }
    }
  }

  /** One field at a time: kept when the patch does not name it, gone under null, and otherwise the patch's value. */
  lemma PatchedFieldIs(schema: Schema, db: DB, id: int, patch: Patch, order: seq<string>, next: DB, k: string)
    requires PatchNode(schema, db, id, patch, order) == Ok(next) && !ChangesNothing(patch)
    ensures id in db.nodes && id in next.nodes && db.nodes[id].typ in schema
    ensures next.nodes[id].revision == db.nodes[id].revision + 1
    ensures
      var (td, before, after) := (schema[db.nodes[id].typ], db.nodes[id].fields, next.nodes[id].fields);
      && (k !in patch.fields || IsRefName(td, k) ==>
            (k in after <==> k in before) && (k in before ==> after[k] == before[k]))
      && (k in patch.fields && !IsRefName(td, k) && patch.fields[k] == Null ==> k !in after)
      && (k in patch.fields && !IsRefName(td, k) && patch.fields[k] != Null ==>
            k in after && FieldByName(td.fields, k).Some?
            && (FieldByName(td.fields, k).value.kind != Object ==> after[k] == patch.fields[k]))
  {
    hide *;
    var td, refs, added := PatchUnfolds(schema, db, id, patch, order, next);
    PatchedRowHolds(schema, db, id, patch, order, next, [k]);
    if IsRefName(td, k) {
      SameAtKey(db.nodes[id].fields, next.nodes[id].fields, k);
    } else {
      OverlaidAtKey(db.nodes[id].fields, patch.fields, next.nodes[id].fields, k);
      PatchedValue(td, patch.fields, k);
    }
  }

  lemma PatchedValue(td: TypeDef, patch: Fields, k: string)
    requires ValidatePatchFields(td, patch)
    ensures k in patch && patch[k] != Null ==>
      FieldByName(td.fields, k).Some? && (patch[k].Obj? ==> FieldByName(td.fields, k).value.kind == Object)
  {
  }

  lemma OneKey(v: Value, k: string)
    requires v.Obj?
    ensures ValueAt(v, [k]) == if k in v.entries then Some(v.entries[k]) else None
    ensures forall n :: DecidedAt(v, [k], n) <==> n == 1 && k in v.entries && !v.entries[k].Obj?
  {
    assert [k][1..] == [] && [k][..1] == [k] && [k][..0] == [];
  }

  lemma SameAtKey(before: Fields, after: Fields, k: string)
    requires ValueAt(Obj(after), [k]) == ValueAt(Obj(before), [k])
    ensures (k in after <==> k in before) && (k in before ==> after[k] == before[k])
  {
    OneKey(Obj(before), k);
    OneKey(Obj(after), k);
  }

  lemma OverlaidAtKey(before: Fields, patch: Fields, after: Fields, k: string)
    requires Overlaid(Obj(before), Obj(patch), Obj(after), [k])
    ensures k !in patch ==> (k in after <==> k in before) && (k in before ==> after[k] == before[k])
    ensures k in patch && patch[k] == Null ==> k !in after
    ensures k in patch && patch[k] != Null ==> k in after && (!patch[k].Obj? ==> after[k] == patch[k])
  {
    OneKey(Obj(before), k);
    OneKey(Obj(patch), k);
    OneKey(Obj(after), k);
    hide ValueAt, DecidedAt;
    assert k in patch && !patch[k].Obj? ==> DecidedAt(Obj(patch), [k], 1);
  }

  // ---------------------------------------------------------------- the targets a value names

  /** The value is this id: a whole number, however it was decoded. */
  predicate IsId(v: Value, id: int) { v == Int(id) || v == Float(id as real) }

  /** The value names these targets, in this order. */
  predicate NamesTargets(f: FieldDef, v: Value, ids: seq<int>) {
    if f.kind == Ref then |ids| == 1 && IsId(v, ids[0])
    else
      || v == Ids(ids)
      || (v.List? && |v.items| == |ids| && forall i :: 0 <= i < |ids| ==> IsId(v.items[i], ids[i]))
  }

  lemma IdIs(v: Value, id: int)
    ensures ToID(v) == Some(id) <==> IsId(v, id)
  {
  }

  lemma NamedIs(f: FieldDef, v: Value, ids: seq<int>)
    requires IsRefKind(f.kind)
    ensures TargetIds(f, v) == Some(ids) <==> NamesTargets(f, v, ids)
  {
    if v.Ids? {
      if f.kind == RefList { IdsNameTargets(f, v.ids); }
    } else if f.kind == RefList {
      if v.List? { ItemsName(f, v, ids); }
    } else {
      assert |ids| == 1 ==> ids == [ids[0]];
      if |ids| == 1 { IdIs(v, ids[0]); }
      hide ToID, IsId;
    }
  }

  lemma ItemsName(f: FieldDef, v: Value, ids: seq<int>)
    requires f.kind == RefList && v.List?
    ensures TargetIds(f, v) == Some(ids)
      <==> |v.items| == |ids| && forall i :: 0 <= i < |ids| ==> IsId(v.items[i], ids[i])
  {
    forall w, id ensures ToID(w) == Some(id) <==> IsId(w, id) { IdIs(w, id); }
    hide ToID, IsId;
    if |v.items| == |ids| && forall i :: 0 <= i < |ids| ==> IsId(v.items[i], ids[i]) {
      assert forall i :: 0 <= i < |ids| ==> ToID(v.items[i]) == Some(ids[i]);
      assert TargetIds(f, v).value == ids;
    }
  }

  // ---------------------------------------------------------------- the row a create leaves

  /** What is supplied for a field: the caller's value, or else the declared default. */
  function Supplied(td: TypeDef, given: Fields, k: string): Option<Value> {
    if k in given then Some(given[k])
    else match FieldByName(td.fields, k) case Some(f) => f.default case None => None
  }

  lemma {:induction false} DefaultsSupplied(fs: seq<FieldDef>, given: Fields, k: string)
    requires DistinctNames(fs)
    ensures
      var all := ApplyDefaults(fs, given);
      var f := FieldByName(fs, k);
      var v := if k in given then Some(given[k]) else if f.Some? then f.value.default else None;
      (k in all <==> v.Some?) && (k in all ==> v == Some(all[k]))
    decreases |fs|
  {
    if fs != [] {
      var f, rest := fs[0], fs[1..];
      var more := if f.name !in given && f.default.Some? then given[f.name := f.default.value] else given;
      DefaultsSupplied(rest, more, k);
      LaterNamesDiffer(fs);
    }
  }

  lemma LaterNamesDiffer(fs: seq<FieldDef>)
    requires fs != [] && DistinctNames(fs)
    ensures DistinctNames(fs[1..]) && FieldByName(fs[1..], fs[0].name).None?
  {
    assert forall i :: 0 <= i < |fs[1..]| ==> fs[1..][i] == fs[i + 1];
    assert forall f :: f in fs[1..] ==> f.name != fs[0].name;
  }

  /**
   * The row a create leaves: a fresh id, the given type and display, and of the scalar fields exactly those
   * supplied, each with the value supplied. No other row changes.
   */
  lemma CreatedRowHolds(
    schema: Schema, db: DB, typ: string, display: string, given: Fields, order: seq<string>, next: DB, id: int,
    k: string)
    requires ValidSchema(schema) && CreateNode(schema, db, typ, display, given, order) == Ok((next, id))
    ensures typ in schema && id !in db.nodes && next.nodes.Keys == db.nodes.Keys + {id}
    ensures 0 < id && (id == 1 || id - 1 in db.nodes)
    ensures forall m :: m in db.nodes ==> m < id && next.nodes[m] == db.nodes[m]
    ensures
      var (row, v) := (next.nodes[id], Supplied(schema[typ], given, k));
      && row.typ == typ && row.display == display && row.revision == 1
      && (k in row.fields <==> v.Some? && !IsRefName(schema[typ], k))
      && (k in row.fields ==> Some(row.fields[k]) == v)
  {
    hide *;
    var td, fields, added := CreateUnfolds(schema, db, typ, display, given, order, next, id);
    AddEdgesKeepsNodes(CreatedIn(td, db, id, typ, display, fields), td, id, RefPart(td, fields), order);
    CreatedInIs(td, db, id, typ, display, fields, k);
    NextIdIs(db.nodes.Keys);
    DefaultsAre(schema, typ, given, k);
  }

  lemma CreatedInIs(td: TypeDef, db: DB, id: int, typ: string, display: string, fields: Fields, k: string)
    ensures
      var nodes := CreatedIn(td, db, id, typ, display, fields).nodes;
      && nodes.Keys == db.nodes.Keys + {id} && (forall m :: m in db.nodes && m != id ==> nodes[m] == db.nodes[m])
      && var row := nodes[id];
      && row.typ == typ && row.display == display && row.revision == 1
      && (k in row.fields <==> k in fields && !IsRefName(td, k)) && (k in row.fields ==> row.fields[k] == fields[k])
  {
  }

  lemma NextIdIs(s: set<int>)
    ensures 0 < NextId(s) && NextId(s) !in s && (NextId(s) == 1 || NextId(s) - 1 in s)
    ensures forall x :: x in s ==> x < NextId(s)
  {
  }

  lemma DefaultsAre(schema: Schema, typ: string, given: Fields, k: string)
    requires ValidSchema(schema) && typ in schema
    ensures
      var all := ApplyDefaults(schema[typ].fields, given);
      var v := Supplied(schema[typ], given, k);
      (k in all <==> v.Some?) && (k in all ==> Some(all[k]) == v)
  {
    assert ValidTypeDef(schema, typ, schema[typ]);
    DefaultsSupplied(schema[typ].fields, given, k);
  }

  // ---------------------------------------------------------------- the references a create or a patch leaves

  lemma ValidNames(f: FieldDef, v: Value)
    requires IsRefKind(f.kind) && ValidateValue(f, v)
    ensures v != Null && NamesTargets(f, v, Named(f, v))
  {
    assert TargetIds(f, v).Some?;
    NamedIs(f, v, Named(f, v));
  }

  lemma NoRowsAtNewNode(schema: Schema, db: DB, id: int, f: FieldDef)
    requires Inv(schema, db) && id !in db.nodes
    ensures RowsOf(db.edges, id, f) == {}
  {
    forall k | k in db.edges ensures !RowOf(db.edges[k], id, f) {
      assert ValidEdge(schema, db.nodes, db.edges[k]);
    }
  }

  /** A new node's reference field reads as the targets named by what is supplied for it, in that order. */
  lemma CreatedReads(
    schema: Schema, db: DB, typ: string, display: string, given: Fields, order: seq<string>, next: DB, id: int,
    f: FieldDef)
    requires ValidSchema(schema) && Inv(schema, db)
    requires CreateNode(schema, db, typ, display, given, order) == Ok((next, id))
    requires typ in schema && FieldByName(schema[typ].fields, f.name) == Some(f) && IsRefKind(f.kind)
    ensures
      var (v, ids) := (Supplied(schema[typ], given, f.name), RefIds(next.edges, id, f));
      if v.None? then ids == [] else NamesTargets(f, v.value, ids)
  {
    hide *;
    var td, fields, added := CreateUnfolds(schema, db, typ, display, given, order, next, id);
    var refs := RefPart(td, fields);
    NextIdIs(db.nodes.Keys);
    NoRowsAtNewNode(schema, db, id, f);
    NoRowsNoIds(db.edges, id, f);
    DefaultsAre(schema, typ, given, f.name);
    RefsAre(td, fields, f);
    AreEnumerated(order, refs, f.name);
    CreatedInKeepsEdges(td, db, id, typ, display, fields);
    AddedReads(CreatedIn(td, db, id, typ, display, fields), td, id, refs, order, added, f);
    if f.name in fields { ValidNames(f, fields[f.name]); }
  }

  lemma RefsAre(td: TypeDef, fields: Fields, f: FieldDef)
    requires FieldByName(td.fields, f.name) == Some(f) && IsRefKind(f.kind)
    ensures f.name in RefPart(td, fields) <==> f.name in fields
    ensures f.name in fields ==> RefPart(td, fields)[f.name] == fields[f.name]
    ensures f.name in fields && ValidateFields(td, fields) ==> ValidateValue(f, fields[f.name])
  {
  }

  lemma AreEnumerated(order: seq<string>, refs: Fields, name: string)
    requires Enumerates(order, refs.Keys)
    ensures Distinct(order) && (name in order <==> name in refs)
  {
    assert name in order <==> name in Elements(order);
  }

  lemma CreatedInKeepsEdges(td: TypeDef, db: DB, id: int, typ: string, display: string, fields: Fields)
    ensures CreatedIn(td, db, id, typ, display, fields).edges == db.edges
  {
  }

  /** After a patch that sets a reference field, it reads as the targets the value names, in that order. */
  lemma PatchedFieldReads(schema: Schema, db: DB, id: int, patch: Patch, order: seq<string>, next: DB, f: FieldDef)
    requires PatchNode(schema, db, id, patch, order) == Ok(next)
    requires id in db.nodes && db.nodes[id].typ in schema && IsRefKind(f.kind) && f.name in patch.fields
    requires FieldByName(schema[db.nodes[id].typ].fields, f.name) == Some(f)
    ensures
      var (v, ids) := (patch.fields[f.name], RefIds(next.edges, id, f));
      if v == Null then ids == [] else NamesTargets(f, v, ids)
  {
    hide *;
    SomethingChanges(patch, f.name);
    var td, refs, added := PatchUnfolds(schema, db, id, patch, order, next);
    PatchedReads(schema, db, id, patch, order, next, f);
    PatchedRefIsValid(td, patch.fields, f);
    NullNamesNone(f);
    if patch.fields[f.name] != Null { ValidNames(f, patch.fields[f.name]); }
  }

  lemma SomethingChanges(patch: Patch, k: string)
    requires k in patch.fields
    ensures !ChangesNothing(patch)
  {
  }

  lemma PatchedRefIsValid(td: TypeDef, patch: Fields, f: FieldDef)
    requires FieldByName(td.fields, f.name) == Some(f) && ValidatePatchFields(td, patch) && f.name in patch
    ensures patch[f.name] != Null ==> ValidateValue(f, patch[f.name])
  {
  }
}
