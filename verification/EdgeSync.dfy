/** syncEdgeMetadata as it runs: field by field, row by row, in one transaction (core/edge_schema.go). */
module EdgeSync {
  import opened Common
  import opened Types
  import opened Store
  import opened EdgeSchema

  // ---------------------------------------------------------------- one field

  /** SELECT ... WHERE n.type = typ AND e.field = name */
  predicate Selects(nodes: map<int, Node>, typ: string, name: string, e: Edge) {
    e.from in nodes && nodes[e.from].typ == typ && e.field == name
  }

  function SettleField(nodes: map<int, Node>, typ: string, f: FieldDef, e: Edge): Edge {
    if IsRefKind(f.kind) && Selects(nodes, typ, f.name, e) then Derived(f, e) else e
  }

  function SettleFields(nodes: map<int, Node>, typ: string, fs: seq<FieldDef>, e: Edge): Edge {
    if fs == [] then e else SettleField(nodes, typ, fs[|fs| - 1], SettleFields(nodes, typ, fs[..|fs| - 1], e))
  }

  lemma {:induction false} FieldsSettle(schema: Schema, nodes: map<int, Node>, typ: string, fs: seq<FieldDef>, e: Edge)
    requires DistinctNames(fs)
    ensures
      var f := FieldByName(fs, e.field);
      SettleFields(nodes, typ, fs, e) == if f.Some? then SettleField(nodes, typ, f.value, e) else e
    decreases |fs|
  {
    if fs != [] {
      var init, last := fs[..|fs| - 1], fs[|fs| - 1];
      FieldsSettle(schema, nodes, typ, init, e);
      forall f | f in init ensures f in fs && f.name != last.name {
        var i :| 0 <= i < |init| && init[i] == f;
        assert fs[i] == f;
      }
      assert last in fs && forall f :: f in fs ==> f in init || f == last;
      if FieldByName(init, e.field).Some? {
        FieldByNameFinds(fs, FieldByName(init, e.field).value);
      } else if last.name == e.field {
        FieldByNameFinds(fs, last);
      }
    }
  }

  /** Going through a type's fields one by one is the type's turn. */
  lemma TypeSettles(schema: Schema, nodes: map<int, Node>, typ: string, e: Edge)
    requires ValidSchema(schema) && typ in schema
    ensures SettleFields(nodes, typ, schema[typ].fields, e) == SettleIn(schema, nodes, typ, e)
  {
    assert ValidTypeDef(schema, typ, schema[typ]);
    FieldsSettle(schema, nodes, typ, schema[typ].fields, e);
  }

  lemma {:induction false} SettleSnoc(schema: Schema, nodes: map<int, Node>, types: seq<string>, typ: string, e: Edge)
    ensures Settle(schema, nodes, types + [typ], e) == SettleIn(schema, nodes, typ, Settle(schema, nodes, types, e))
  {
    SettleAppend(schema, nodes, types, [typ], e);
    var s := Settle(schema, nodes, types, e);
    assert [typ][1..] == [];
    assert Settle(schema, nodes, [typ], s) == Settle(schema, nodes, [], SettleIn(schema, nodes, typ, s));
  }

  /** The rows after a field's turn. */
  function AfterField(nodes: map<int, Node>, typ: string, f: FieldDef, rows: map<int, Edge>): map<int, Edge> {
    map k | k in rows :: SettleField(nodes, typ, f, rows[k])
  }

  method SelectRows(nodes: map<int, Node>, edges: map<int, Edge>, typ: string, name: string) returns (ids: seq<int>)
    ensures Distinct(ids) && forall k :: k in ids <==> k in edges && Selects(nodes, typ, name, edges[k])
  {
    ids := [];
    var rest := set k | k in edges && Selects(nodes, typ, name, edges[k]);
    ghost var all := rest;
    while rest != {}
      invariant rest <= all && Distinct(ids)
      invariant forall k :: k in ids <==> k in all && k !in rest
      decreases |rest|
    {
      var k := Pick(rest);
      rest := rest - {k};
      ids := ids + [k];
    }
  }

  class EdgeTable {
    const schema: Schema
    const nodes: map<int, Node>
    var edges: map<int, Edge>

    constructor (schema: Schema, nodes: map<int, Node>, edges: map<int, Edge>)
      ensures this.schema == schema && this.nodes == nodes && this.edges == edges
    {
      this.schema, this.nodes, this.edges := schema, nodes, edges;
    }

    /** syncFieldEdgeMetadata: false on a duplicate, by the map of pairs seen or by the table's own uniqueness. */
    method SyncField(typ: string, f: FieldDef) returns (ok: bool)
      requires IsRefKind(f.kind) && UniqueTriples(edges)
      modifies this`edges
      ensures ok ==> edges == AfterField(nodes, typ, f, old(edges))
      ensures ok <==> UniqueTriples(AfterField(nodes, typ, f, old(edges)))
    {
      hide AfterField, UniqueTriples, Derived, Selects, SeenAt;
      var rows := edges;
      var ids := SelectRows(nodes, rows, typ, f.name);
      var seen: map<(int, int), int> := map[];
      for i := 0 to |ids|
        invariant edges == map k | k in rows :: if k in ids[..i] then Derived(f, rows[k]) else rows[k]
        invariant UniqueTriples(edges)
        invariant forall key :: key in seen ==> SeenAt(rows, f, ids[..i], key, seen[key])
      {
        var k := ids[i];
        assert k in ids;
        var d := Derived(f, rows[k]);
        if (d.from, d.to) in seen && seen[(d.from, d.to)] != 0 {
          TwinFound(nodes, typ, f, rows, ids, i, seen[(d.from, d.to)]);
          return false;
        }
        SeenMore(rows, f, ids, i, seen, seen[(d.from, d.to) := k]);
        seen := seen[(d.from, d.to) := k];
        if exists j :: j in edges && j != k && SamePair(edges[j], d) {
          ghost var j :| j in edges && j != k && SamePair(edges[j], d);
          PairFound(nodes, typ, f, rows, ids, i, edges[j], j);
          return false;
        }
        StaysUnique(edges, k, d);
        edges := edges[k := d];
        RowDone(rows, f, ids, i, edges);
      }
      assert ids[..|ids|] == ids;
      FieldDone(nodes, typ, f, rows, ids);
      ok := true;
    }

    /** SyncRelationSchema: everything or nothing. */
    method Sync(types: seq<string>) returns (ok: bool)
      requires ValidSchema(schema) && Enumerates(types, schema.Keys) && UniqueTriples(edges)
      modifies this`edges
      ensures ok ==> edges == SettledAll(schema, nodes, types, old(edges))
      ensures !ok ==> edges == old(edges)
      ensures
        var after := SettledAll(schema, nodes, types, old(edges));
        ok <==> UniqueTriples(after) && SingleRefsHold(after)
      ensures ok ==> Consistent(old(edges), edges) && EndsSettled(schema, nodes, old(edges), edges)
      ensures ok ==> FlagsSettled(schema, nodes, types, old(edges), edges)
    {
      hide Consistent, EndsSettled, FlagsSettled, SingleRefsHold, SettledAll, Partly;
      ghost var raw := edges;
      var saved := edges;
      edges := map k | k in edges :: Cleared(edges[k]);
      NothingYet(schema, nodes, types[..0], raw, edges);
      ClearedIsUnique(raw, edges);
      for i := 0 to |types|
        invariant edges == Partly(schema, nodes, types[..i], "", [], raw)
        invariant UniqueTriples(edges)
      {
        var typ := types[i];
        TypeIsKnown(schema, types, i);
        var td := schema[typ];
        NoFieldsYet(schema, nodes, types[..i], typ, raw);
        for j := 0 to |td.fields|
          invariant edges == Partly(schema, nodes, types[..i], typ, td.fields[..j], raw)
          invariant UniqueTriples(edges)
        {
          var f := td.fields[j];
          ghost var before := edges;
          if IsRefKind(f.kind) {
            var done := SyncField(typ, f);
            if !done {
              FieldFails(schema, nodes, types, i, j, raw, before);
              edges := saved;
              return false;
            }
          }
          FieldSettled(schema, nodes, types[..i], typ, td.fields, j, raw, before, edges);
        }
        assert td.fields[..|td.fields|] == td.fields;
        TypeSettled(schema, nodes, types, i, raw);
      }
      assert types[..|types|] == types;
      NothingMore(schema, nodes, types, raw);
      if !SingleRefsHold(edges) {
        edges := saved;
        return false;
      }
      SyncedIsConsistent(schema, nodes, types, raw);
      ok := true;
    }
  }

  lemma FieldDone(nodes: map<int, Node>, typ: string, f: FieldDef, rows: map<int, Edge>, ids: seq<int>)
    requires IsRefKind(f.kind) && forall k :: k in ids <==> k in rows && Selects(nodes, typ, f.name, rows[k])
    ensures (map k | k in rows :: if k in ids then Derived(f, rows[k]) else rows[k])
      == AfterField(nodes, typ, f, rows)
  {
    var a := map k | k in rows :: if k in ids then Derived(f, rows[k]) else rows[k];
    var b := AfterField(nodes, typ, f, rows);
    forall k | k in rows ensures a[k] == b[k] {}
    assert a.Keys == b.Keys == rows.Keys;
  }

  // ---------------------------------------------------------------- how far the pass is

  /** The rows after the listed types and the listed fields of one more. */
  function Partly(
    schema: Schema, nodes: map<int, Node>, types: seq<string>, typ: string, fs: seq<FieldDef>,
    raw: map<int, Edge>): map<int, Edge>
  {
    map k | k in raw :: SettleFields(nodes, typ, fs, Settled(schema, nodes, types, raw[k]))
  }

  lemma NothingYet(
    schema: Schema, nodes: map<int, Node>, types: seq<string>, raw: map<int, Edge>, edges: map<int, Edge>)
    requires types == [] && edges == map k | k in raw :: Cleared(raw[k])
    ensures edges == Partly(schema, nodes, types, "", [], raw)
  {
    var b := Partly(schema, nodes, types, "", [], raw);
    forall k | k in raw ensures edges[k] == b[k] {}
    assert edges.Keys == b.Keys == raw.Keys;
  }

  lemma ClearedIsUnique(raw: map<int, Edge>, edges: map<int, Edge>)
    requires UniqueTriples(raw) && edges == map k | k in raw :: Cleared(raw[k])
    ensures UniqueTriples(edges)
  {
    forall i, j | i in edges && j in edges && i != j ensures !SamePair(edges[i], edges[j]) {
      assert !SamePair(raw[i], raw[j]);
    }
  }

  lemma TypeIsKnown(schema: Schema, types: seq<string>, i: nat)
    requires Enumerates(types, schema.Keys) && i < |types|
    ensures types[i] in schema
  {
    assert types[i] in Elements(types);
  }

  lemma NoFieldsYet(schema: Schema, nodes: map<int, Node>, types: seq<string>, typ: string, raw: map<int, Edge>)
    ensures Partly(schema, nodes, types, "", [], raw) == Partly(schema, nodes, types, typ, [], raw)
  {
    hide Settled;
    var a, b := Partly(schema, nodes, types, "", [], raw), Partly(schema, nodes, types, typ, [], raw);
    forall k | k in raw ensures a[k] == b[k] {}
    assert a.Keys == b.Keys == raw.Keys;
  }

  lemma FieldSettled(
    schema: Schema, nodes: map<int, Node>, types: seq<string>, typ: string, fs: seq<FieldDef>, j: nat,
    raw: map<int, Edge>, before: map<int, Edge>, after: map<int, Edge>)
    requires j < |fs| && before == Partly(schema, nodes, types, typ, fs[..j], raw)
    requires after == map k | k in before :: SettleField(nodes, typ, fs[j], before[k])
    ensures after == Partly(schema, nodes, types, typ, fs[..j + 1], raw)
  {
    hide Settled, SettleField;
    assert fs[..j + 1][..j] == fs[..j] && fs[..j + 1][j] == fs[j];
    var b := Partly(schema, nodes, types, typ, fs[..j + 1], raw);
    forall k | k in raw ensures after[k] == b[k] {}
    assert after.Keys == b.Keys == raw.Keys;
  }

  lemma TypeSettled(schema: Schema, nodes: map<int, Node>, types: seq<string>, i: nat, raw: map<int, Edge>)
    requires ValidSchema(schema) && i < |types| && types[i] in schema
    ensures Partly(schema, nodes, types[..i], types[i], schema[types[i]].fields, raw)
      == Partly(schema, nodes, types[..i + 1], "", [], raw)
  {
    assert types[..i + 1] == types[..i] + [types[i]];
    hide SettleIn, Settle, SettleFields, ValidSchema;
    var done := Partly(schema, nodes, types[..i], types[i], schema[types[i]].fields, raw);
    forall k | k in raw ensures done[k] == Settled(schema, nodes, types[..i + 1], raw[k]) {
      TypeSettles(schema, nodes, types[i], Settled(schema, nodes, types[..i], raw[k]));
      SettleSnoc(schema, nodes, types[..i], types[i], Cleared(raw[k]));
    }
    hide Settled;
    NothingMore(schema, nodes, types[..i + 1], raw);
  }

  lemma NothingMore(schema: Schema, nodes: map<int, Node>, types: seq<string>, raw: map<int, Edge>)
    ensures Partly(schema, nodes, types, "", [], raw) == SettledAll(schema, nodes, types, raw)
  {
    hide Settled;
    var a, b := Partly(schema, nodes, types, "", [], raw), SettledAll(schema, nodes, types, raw);
    forall k | k in raw ensures a[k] == b[k] {}
    assert a.Keys == b.Keys == raw.Keys;
  }

  // ---------------------------------------------------------------- a failing field

  lemma {:induction false} SettleKeepsPair(schema: Schema, nodes: map<int, Node>, types: seq<string>, a: Edge, b: Edge)
    requires SamePair(a, b)
    ensures SamePair(Settle(schema, nodes, types, a), Settle(schema, nodes, types, b))
  {
    if types != [] {
      SettleKeepsPair(schema, nodes, types[1..], SettleIn(schema, nodes, types[0], a),
        SettleIn(schema, nodes, types[0], b));
    }
  }

  lemma {:induction false} FieldsKeepPair(nodes: map<int, Node>, typ: string, fs: seq<FieldDef>, a: Edge, b: Edge)
    requires SamePair(a, b)
    ensures SamePair(SettleFields(nodes, typ, fs, a), SettleFields(nodes, typ, fs, b))
    decreases |fs|
  {
    if fs != [] {
      FieldsKeepPair(nodes, typ, fs[..|fs| - 1], a, b);
    }
  }

  /** Going through some fields and then the others is going through all. */
  lemma {:induction false} FieldsAppend(nodes: map<int, Node>, typ: string, a: seq<FieldDef>, b: seq<FieldDef>, e: Edge)
    ensures SettleFields(nodes, typ, a + b, e) == SettleFields(nodes, typ, b, SettleFields(nodes, typ, a, e))
    decreases |b|
  {
    if b == [] {
      assert a + b == a;
    } else {
      assert (a + b)[..|a + b| - 1] == a + b[..|b| - 1];
      FieldsAppend(nodes, typ, a, b[..|b| - 1], e);
    }
  }

  /** What is left to do after some types' turns and some fields of the next. */
  lemma TheRest(schema: Schema, nodes: map<int, Node>, types: seq<string>, i: nat, j: nat, e: Edge)
    requires ValidSchema(schema) && i < |types| && types[i] in schema && j <= |schema[types[i]].fields|
    ensures
      var fs := schema[types[i]].fields;
      Settled(schema, nodes, types, e)
      == Settle(schema, nodes, types[i + 1..],
                SettleFields(nodes, types[i], fs[j..],
                  SettleFields(nodes, types[i], fs[..j], Settled(schema, nodes, types[..i], e))))
  {
    var (typ, fs, s) := (types[i], schema[types[i]].fields, Settled(schema, nodes, types[..i], e));
    assert fs == fs[..j] + fs[j..];
    FieldsAppend(nodes, typ, fs[..j], fs[j..], s);
    TypeSettles(schema, nodes, typ, s);
    assert types == types[..i] + types[i..] && types[i..][0] == typ && types[i..][1..] == types[i + 1..];
    SettleAppend(schema, nodes, types[..i], types[i..], Cleared(e));
  }

  /** Rows that a field makes one pair stay one pair to the end. */
  lemma FieldFails(
    schema: Schema, nodes: map<int, Node>, types: seq<string>, i: nat, j: nat, raw: map<int, Edge>,
    before: map<int, Edge>)
    requires ValidSchema(schema) && i < |types| && types[i] in schema && j < |schema[types[i]].fields|
    requires before == Partly(schema, nodes, types[..i], types[i], schema[types[i]].fields[..j], raw)
    requires !UniqueTriples(AfterField(nodes, types[i], schema[types[i]].fields[j], before))
    ensures !UniqueTriples(SettledAll(schema, nodes, types, raw))
  {
    var (typ, fs) := (types[i], schema[types[i]].fields);
    var next := AfterField(nodes, typ, fs[j], before);
    FieldSettled(schema, nodes, types[..i], typ, fs, j, raw, before, next);
    var a, b :| a in next && b in next && a != b && SamePair(next[a], next[b]);
    hide SettleFields, Settle, ValidSchema;
    FieldsKeepPair(nodes, typ, fs[j + 1..], next[a], next[b]);
    SettleKeepsPair(schema, nodes, types[i + 1..],
                    SettleFields(nodes, typ, fs[j + 1..], next[a]), SettleFields(nodes, typ, fs[j + 1..], next[b]));
    TheRest(schema, nodes, types, i, j + 1, raw[a]);
    TheRest(schema, nodes, types, i, j + 1, raw[b]);
    var after := SettledAll(schema, nodes, types, raw);
    assert SamePair(after[a], after[b]);
  }

  lemma StaysUnique(edges: map<int, Edge>, k: int, d: Edge)
    requires UniqueTriples(edges) && forall j :: j in edges && j != k ==> !SamePair(edges[j], d)
    ensures UniqueTriples(edges[k := d])
  {
  }

  /** The key is the pair some row before i was given. */
  predicate SeenAt(rows: map<int, Edge>, f: FieldDef, before: seq<int>, key: (int, int), k: int) {
    k in before && k in rows && Derived(f, rows[k]).from == key.0 && Derived(f, rows[k]).to == key.1
  }

  /** A row that takes the pair another has now, or was given before, ends with the same pair as the other. */
  lemma PairFound(
    nodes: map<int, Node>, typ: string, f: FieldDef, rows: map<int, Edge>, ids: seq<int>, i: nat, now: Edge, j: int)
    requires i < |ids| && IsRefKind(f.kind)
    requires forall k :: k in ids <==> k in rows && Selects(nodes, typ, f.name, rows[k])
    requires j in rows && j != ids[i] && (now == rows[j] || (j in ids && now == Derived(f, rows[j])))
    requires ids[i] in rows && SamePair(now, Derived(f, rows[ids[i]]))
    ensures !UniqueTriples(AfterField(nodes, typ, f, rows))
  {
    var after := AfterField(nodes, typ, f, rows);
    assert ids[i] in ids;
    assert SamePair(after[j], after[ids[i]]);
  }

  lemma TwinFound(nodes: map<int, Node>, typ: string, f: FieldDef, rows: map<int, Edge>, ids: seq<int>, i: nat, j: int)
    requires i < |ids| && IsRefKind(f.kind) && Distinct(ids)
    requires forall k :: k in ids <==> k in rows && Selects(nodes, typ, f.name, rows[k])
    requires ids[i] in rows
    requires var d := Derived(f, rows[ids[i]]); SeenAt(rows, f, ids[..i], (d.from, d.to), j)
    ensures !UniqueTriples(AfterField(nodes, typ, f, rows))
  {
    var m :| 0 <= m < i && ids[m] == j;
    assert ids[i] in ids && ids[m] in ids;
    PairFound(nodes, typ, f, rows, ids, i, Derived(f, rows[j]), j);
  }

  lemma RowDone(rows: map<int, Edge>, f: FieldDef, ids: seq<int>, i: nat, edges: map<int, Edge>)
    requires i < |ids| && ids[i] in rows
    requires edges == (map k | k in rows ::
      if k in ids[..i] then Derived(f, rows[k]) else rows[k])[ids[i] := Derived(f, rows[ids[i]])]
    ensures edges == map k | k in rows :: if k in ids[..i + 1] then Derived(f, rows[k]) else rows[k]
  {
    assert forall k :: k in ids[..i + 1] <==> k in ids[..i] || k == ids[i];
  }

  lemma SeenMore(
    rows: map<int, Edge>, f: FieldDef, ids: seq<int>, i: nat, was: map<(int, int), int>, seen: map<(int, int), int>)
    requires i < |ids| && ids[i] in rows
    requires var d := Derived(f, rows[ids[i]]); seen == was[(d.from, d.to) := ids[i]]
    requires forall key :: key in was ==> SeenAt(rows, f, ids[..i], key, was[key])
    ensures forall key :: key in seen ==> SeenAt(rows, f, ids[..i + 1], key, seen[key])
  {
    assert forall k :: k in ids[..i + 1] <==> k in ids[..i] || k == ids[i];
    forall key | key in seen ensures SeenAt(rows, f, ids[..i + 1], key, seen[key]) {
      if key in was { assert SeenAt(rows, f, ids[..i], key, was[key]); }
    }
  }
}
