/** Completing nodes with their references, a whole batch at a time (hydrateFields in core/node_read.go). */
module Hydrate {
  import opened Common
  import opened Types
  import opened Store
  import opened Invariants
  import opened Reads
  import opened RoundTrip

  /** A node row on its way to the caller. */
  datatype Loaded = Loaded(id: int, typ: string, fields: Fields)

  /** The rows the batch query selects: outgoing ones, and both ends of symmetric ones. */
  function BatchRows(edges: map<int, Edge>, ids: set<int>): set<int> {
    set k | k in edges && (edges[k].from in ids || (edges[k].symmetric && edges[k].to in ids))
  }

  /** Rows among ks that put a value under (id, name), in order. */
  function Contributing(edges: map<int, Edge>, ks: seq<int>, id: int, name: string): (r: seq<int>)
    requires forall i :: 0 <= i < |ks| ==> ks[i] in edges
    ensures forall i :: 0 <= i < |r| ==> r[i] in edges && Contributes(edges[r[i]], id, name)
  {
    if ks == [] then []
    else
      var last := ks[|ks| - 1];
      Contributing(edges, ks[..|ks| - 1], id, name) + if Contributes(edges[last], id, name) then [last] else []
  }

  predicate Contributes(e: Edge, id: int, name: string) {
    e.field == name && (e.from == id || (e.symmetric && e.to == id))
  }

  lemma {:induction false} ContributingKeepsOrder(edges: map<int, Edge>, ks: seq<int>, id: int, name: string)
    requires InOrder(edges, ks)
    ensures InOrder(edges, Contributing(edges, ks, id, name))
    ensures Elements(Contributing(edges, ks, id, name))
      == set k | k in Elements(ks) && k in edges && Contributes(edges[k], id, name)
    decreases |ks|
  {
    if ks != [] {
      var init, last := ks[..|ks| - 1], ks[|ks| - 1];
      ContributingKeepsOrder(edges, init, id, name);
      var r := Contributing(edges, init, id, name);
      assert ks == init + [last];
      forall i | 0 <= i < |r| ensures Before(edges, r[i], last) {
        var k := r[i];
        assert k in Elements(r);
        var j :| 0 <= j < |init| && init[j] == k;
      }
      ElementsAppend(init, last);
      ElementsAppend(r, last);
    }
  }

  lemma ElementsAppend(xs: seq<int>, x: int)
    ensures Elements(xs + [x]) == Elements(xs) + {x}
  {
  }

  /** The rows of a valid table that put a value under a declared field are that field's rows. */
  lemma ContributesIsRowOf(schema: Schema, nodes: map<int, Node>, e: Edge, id: int, f: FieldDef)
    requires ValidSchema(schema) && ValidEdge(schema, nodes, e)
    requires id in nodes && nodes[id].typ in schema && f in schema[nodes[id].typ].fields && IsRefKind(f.kind)
    ensures Contributes(e, id, f.name) <==> RowOf(e, id, f)
  {
    FieldByNameFinds(schema[nodes[id].typ].fields, f);
    var g := FieldOn(schema, nodes[e.from].typ, e.field).value;
    assert ValidTypeDef(schema, nodes[e.from].typ, schema[nodes[e.from].typ]);
    assert Undirected(g) ==> g.to == nodes[e.from].typ;
  }

  /** Selecting once for a batch and sorting gives each node exactly the list it reads alone. */
  lemma BatchIsPerNode(
    schema: Schema, nodes: map<int, Node>, edges: map<int, Edge>, ids: set<int>, rows: seq<int>, id: int, f: FieldDef)
    requires ValidSchema(schema) && ValidEdges(schema, nodes, edges)
    requires id in ids && id in nodes && nodes[id].typ in schema && f in schema[nodes[id].typ].fields
    requires IsRefKind(f.kind)
    requires rows == Sorted(edges, BatchRows(edges, ids))
    ensures Ends(edges, id, Contributing(edges, rows, id, f.name)) == RefIds(edges, id, f)
  {
    var ks := Contributing(edges, rows, id, f.name);
    ContributingKeepsOrder(edges, rows, id, f.name);
    forall k | k in edges ensures Contributes(edges[k], id, f.name) <==> RowOf(edges[k], id, f) {
      ContributesIsRowOf(schema, nodes, edges[k], id, f);
    }
    forall k | k in RowsOf(edges, id, f) ensures k in Elements(ks) {
      assert k in BatchRows(edges, ids);
    }
    assert Elements(ks) == RowsOf(edges, id, f);
    OrderIsUnique(edges, ks, Sorted(edges, RowsOf(edges, id, f)));
  }

  type Values = map<(int, string), seq<int>>

  function ValueOf(values: Values, id: int, name: string): seq<int> {
    if (id, name) in values then values[(id, name)] else []
  }

  /** appendRefValue */
  function AppendRefValue(values: Values, id: int, name: string, target: int): Values {
    values[(id, name) := ValueOf(values, id, name) + [target]]
  }

  /** Both ends of one row are filed. */
  function FileRow(values: Values, ids: set<int>, e: Edge): Values {
    var mid := if e.from in ids then AppendRefValue(values, e.from, e.field, e.to) else values;
    if e.symmetric && e.to in ids then AppendRefValue(mid, e.to, e.field, e.from) else mid
  }

  lemma FiledValue(values: Values, ids: set<int>, e: Edge, id: int, name: string)
    requires id in ids && !(e.symmetric && e.from == e.to)
    ensures ValueOf(FileRow(values, ids, e), id, name) ==
            ValueOf(values, id, name) + if Contributes(e, id, name) then [OtherEnd(e, id)] else []
  {
  }

  lemma EndsAppend(edges: map<int, Edge>, id: int, ks: seq<int>, k: int)
    requires k in edges && forall i :: 0 <= i < |ks| ==> ks[i] in edges
    ensures Ends(edges, id, ks + [k]) == Ends(edges, id, ks) + [OtherEnd(edges[k], id)]
  {
  }

  lemma RowCollected(
    edges: map<int, Edge>, ids: set<int>, rows: seq<int>, n: nat, values: Values, id: int, name: string)
    requires n < |rows| && forall i :: 0 <= i < |rows| ==> rows[i] in edges
    requires id in ids && !(edges[rows[n]].symmetric && edges[rows[n]].from == edges[rows[n]].to)
    requires ValueOf(values, id, name) == Ends(edges, id, Contributing(edges, rows[..n], id, name))
    ensures ValueOf(FileRow(values, ids, edges[rows[n]]), id, name)
      == Ends(edges, id, Contributing(edges, rows[..n + 1], id, name))
  {
    assert rows[..n + 1][..n] == rows[..n];
    FiledValue(values, ids, edges[rows[n]], id, name);
    EndsAppend(edges, id, Contributing(edges, rows[..n], id, name), rows[n]);
  }

  /** The first loop: sort the rows of the batch under the nodes and fields they belong to. */
  method CollectValues(edges: map<int, Edge>, ids: set<int>, rows: seq<int>) returns (values: Values)
    requires forall i :: 0 <= i < |rows| ==> rows[i] in edges
    requires forall i :: 0 <= i < |rows| ==> !(edges[rows[i]].symmetric && edges[rows[i]].from == edges[rows[i]].to)
    ensures forall id, name :: id in ids ==>
      ValueOf(values, id, name) == Ends(edges, id, Contributing(edges, rows, id, name))
  {
    values := map[];
    for n := 0 to |rows|
      invariant forall id, name :: id in ids ==>
        ValueOf(values, id, name) == Ends(edges, id, Contributing(edges, rows[..n], id, name))
    {
      var e := edges[rows[n]];
      ghost var before := values;
      if e.from in ids {
        values := AppendRefValue(values, e.from, e.field, e.to);
      }
      if e.symmetric {
        if e.to in ids {
          values := AppendRefValue(values, e.to, e.field, e.from);
        }
      }
      forall id, name | id in ids
        ensures ValueOf(values, id, name) == Ends(edges, id, Contributing(edges, rows[..n + 1], id, name))
      {
        RowCollected(edges, ids, rows, n, before, id, name);
      }
    }
    assert rows[..|rows|] == rows;
  }

  lemma NoValuesYet(stored: Fields, values: Values, id: int)
    ensures stored + ValuesUnder([], values, id) == stored
  {
  }

  lemma OneMoreField(stored: Fields, fs: seq<FieldDef>, i: nat, values: Values, id: int)
    requires i < |fs|
    ensures
      var (f, before, after) := (fs[i], stored + ValuesUnder(fs[..i], values, id),
        stored + ValuesUnder(fs[..i + 1], values, id));
      after == if IsRefKind(f.kind) && RefValue(f, ValueOf(values, id, f.name)).Some?
               then before[f.name := RefValue(f, ValueOf(values, id, f.name)).value] else before
  {
    hide RefValue, ValueOf;
    assert fs[..i + 1][..i] == fs[..i];
  }

  /** The inner loop of the second pass: one node's reference fields, or None for a single field with several rows. */
  method FillNode(td: TypeDef, values: Values, n: Loaded) returns (r: Option<Loaded>)
    requires DistinctNames(td.fields)
    ensures
      if exists f :: f in td.fields && f.kind == Ref && |ValueOf(values, n.id, f.name)| > 1 then r.None?
      else r == Some(n.(fields := n.fields + ValuesUnder(td.fields, values, n.id)))
  {
    hide RefValue, ValueOf, ValuesUnder;
    var out := n.fields;
    NoValuesYet(n.fields, values, n.id);
    for i := 0 to |td.fields|
      invariant forall j :: 0 <= j < i && td.fields[j].kind == Ref ==> |ValueOf(values, n.id, td.fields[j].name)| <= 1
      invariant out == n.fields + ValuesUnder(td.fields[..i], values, n.id)
    {
      var f := td.fields[i];
      OneMoreField(n.fields, td.fields, i, values, n.id);
      if IsRefKind(f.kind) {
        var refs := ValueOf(values, n.id, f.name);
        if f.kind == Ref && |refs| > 1 {
          return None;
        }
        if RefValue(f, refs).Some? {
          out := out[f.name := RefValue(f, refs).value];
        }
      }
    }
    assert td.fields[..|td.fields|] == td.fields;
    r := Some(n.(fields := out));
  }

  /** The values written under the reference fields among fs, later fields over earlier ones. */
  function ValuesUnder(fs: seq<FieldDef>, values: Values, id: int): Fields {
    if fs == [] then map[]
    else
      var f := fs[|fs| - 1];
      var before := ValuesUnder(fs[..|fs| - 1], values, id);
      if IsRefKind(f.kind) && RefValue(f, ValueOf(values, id, f.name)).Some?
      then before[f.name := RefValue(f, ValueOf(values, id, f.name)).value] else before
  }

  lemma {:induction false} ValuesUnderAre(fs: seq<FieldDef>, values: Values, id: int)
    requires DistinctNames(fs)
    ensures forall i :: 0 <= i < |fs| ==>
      var f := fs[i];
      var v := if IsRefKind(f.kind) then RefValue(f, ValueOf(values, id, f.name)) else None;
      if v.Some? then f.name in ValuesUnder(fs, values, id) && ValuesUnder(fs, values, id)[f.name] == v.value
      else f.name !in ValuesUnder(fs, values, id)
    ensures forall k :: k in ValuesUnder(fs, values, id) ==> exists i :: 0 <= i < |fs| && fs[i].name == k
  {
    hide ValueOf, RefValue;
    if fs != [] {
      var init := fs[..|fs| - 1];
      ValuesUnderAre(init, values, id);
      forall k | k in ValuesUnder(fs, values, id) ensures exists i :: 0 <= i < |fs| && fs[i].name == k {
        if k in ValuesUnder(init, values, id) {
          var i :| 0 <= i < |init| && init[i].name == k;
          assert fs[i].name == k;
        }
      }
      assert forall i :: 0 <= i < |init| ==> init[i] == fs[i];
      assert fs[|fs| - 1].name !in ValuesUnder(init, values, id);
    }
  }

  lemma FilledIsFull(td: TypeDef, edges: map<int, Edge>, values: Values, id: int)
    requires DistinctNames(td.fields)
    requires forall f :: f in td.fields && IsRefKind(f.kind) ==> ValueOf(values, id, f.name) == RefIds(edges, id, f)
    ensures ValuesUnder(td.fields, values, id) == RefFields(td, edges, id)
  {
    hide ValueOf, RefIds, RefValue, DistinctNames;
    ValuesUnderAre(td.fields, values, id);
    var filled, refs := ValuesUnder(td.fields, values, id), RefFields(td, edges, id);
    forall k | k in filled ensures k in refs && refs[k] == filled[k] {
      var i :| 0 <= i < |td.fields| && td.fields[i].name == k;
      FieldByNameFinds(td.fields, td.fields[i]);
      assert ReadOf(td, edges, id, k) == RefValue(td.fields[i], RefIds(edges, id, td.fields[i]));
    }
    forall k | k in refs ensures k in filled {
      ReadOfRef(td, edges, id, k);
      var f := FieldByName(td.fields, k).value;
      var i :| 0 <= i < |td.fields| && td.fields[i] == f;
    }
  }

  function IdsOf(xs: seq<Loaded>): (ids: set<int>)
    ensures forall i :: 0 <= i < |xs| ==> xs[i].id in ids
  {
    if xs == [] then {} else IdsOf(xs[..|xs| - 1]) + {xs[|xs| - 1].id}
  }

  /** The position of each id's last occurrence. */
  predicate IndexOf(index: map<int, int>, xs: seq<Loaded>) {
    && index.Keys == IdsOf(xs)
    && (forall id :: id in index ==> 0 <= index[id] < |xs| && xs[index[id]].id == id)
    && (forall i :: 0 <= i < |xs| ==> xs[i].id in index && i <= index[xs[i].id])
  }

  method IndexNodes(nodes: array<Loaded>) returns (index: map<int, int>)
    ensures IndexOf(index, nodes[..])
  {
    index := map[];
    for i := 0 to nodes.Length
      invariant IndexOf(index, nodes[..i])
    {
      assert nodes[..i + 1][..i] == nodes[..i];
      index := index[nodes[i].id := i];
    }
    assert nodes[..nodes.Length] == nodes[..];
  }

  /** What hydrateFields leaves at one position of the batch. */
  ghost function HydratedAt(schema: Schema, edges: map<int, Edge>, given: seq<Loaded>, i: nat): Loaded
    requires i < |given| && given[i].typ in schema
  {
    var n := given[i];
    if exists j :: i < j < |given| && given[j].id == n.id then n
    else n.(fields := FullFields(schema[n.typ], edges, n.id, n.fields))
  }

  /**
   * hydrateFields: over a valid store every listed node gets exactly what it would read alone; when an
   * id is listed more than once only its last copy is filled in.
   */
  method HydrateFields(
    schema: Schema, table: map<int, Node>, edges: map<int, Edge>, rows: seq<int>, nodes: array<Loaded>)
    returns (ok: bool)
    requires ValidSchema(schema) && ValidEdges(schema, table, edges) && NoConflicts(edges)
    requires forall i :: 0 <= i < nodes.Length ==>
      nodes[i].id in table && nodes[i].typ == table[nodes[i].id].typ && nodes[i].typ in schema
    requires rows == Sorted(edges, BatchRows(edges, IdsOf(nodes[..])))
    modifies nodes
    ensures ok
    ensures forall i :: 0 <= i < nodes.Length ==> nodes[i] == HydratedAt(schema, edges, old(nodes[..]), i)
  {
    hide ValidEdges, NoConflicts, Sorted, BatchRows, HydratedAt, ValuesUnder, ValueOf;
    ghost var given := nodes[..];
    var index := IndexNodes(nodes);
    RowsAreValid(schema, table, edges, rows, index.Keys);
    var values := CollectValues(edges, index.Keys, rows);
    var todo := index.Keys;
    while todo != {}
      invariant todo <= index.Keys
      invariant forall i :: 0 <= i < |given| ==>
        nodes[i] == if given[i].id in todo then given[i] else HydratedAt(schema, edges, given, i)
      decreases |todo|
    {
      var id := Pick(todo);
      var i := index[id];
      ghost var td := schema[given[i].typ];
      NodeValues(schema, table, edges, index.Keys, rows, values, id);
      FilledIsFull(td, edges, values, id);
      assert nodes[i] == given[i];
      var filled := FillNode(schema[nodes[i].typ], values, nodes[i]);
      nodes[i] := filled.value;
      LastIsHydrated(schema, edges, given, index, id);
      todo := todo - {id};
    }
    ok := true;
  }

  lemma LastIsHydrated(schema: Schema, edges: map<int, Edge>, given: seq<Loaded>, index: map<int, int>, id: int)
    requires IndexOf(index, given) && id in index && forall i :: 0 <= i < |given| ==> given[i].typ in schema
    ensures forall i :: 0 <= i < |given| && given[i].id == id ==>
      var n := given[i];
      HydratedAt(schema, edges, given, i) ==
        if i == index[id] then n.(fields := n.fields + RefFields(schema[n.typ], edges, n.id)) else n
  {
  }

  lemma RowsAreValid(schema: Schema, table: map<int, Node>, edges: map<int, Edge>, rows: seq<int>, ids: set<int>)
    requires ValidEdges(schema, table, edges) && rows == Sorted(edges, BatchRows(edges, ids))
    ensures forall i :: 0 <= i < |rows| ==> rows[i] in edges
    ensures forall i :: 0 <= i < |rows| ==> !(edges[rows[i]].symmetric && edges[rows[i]].from == edges[rows[i]].to)
  {
    forall i | 0 <= i < |rows|
      ensures rows[i] in edges && !(edges[rows[i]].symmetric && edges[rows[i]].from == edges[rows[i]].to) {
      var k := rows[i];
      assert k in Elements(rows) && ValidEdge(schema, table, edges[k]);
    }
  }

  lemma NodeValues(
    schema: Schema, table: map<int, Node>, edges: map<int, Edge>, ids: set<int>, rows: seq<int>, values: Values,
    id: int)
    requires ValidSchema(schema) && ValidEdges(schema, table, edges) && NoConflicts(edges)
    requires id in ids && id in table && table[id].typ in schema
    requires rows == Sorted(edges, BatchRows(edges, ids))
    requires forall m, name :: m in ids ==>
      ValueOf(values, m, name) == Ends(edges, m, Contributing(edges, rows, m, name))
    ensures forall f :: f in schema[table[id].typ].fields && IsRefKind(f.kind) ==>
      ValueOf(values, id, f.name) == RefIds(edges, id, f)
    ensures forall f :: f in schema[table[id].typ].fields && f.kind == Ref ==> |ValueOf(values, id, f.name)| <= 1
  {
    forall f | f in schema[table[id].typ].fields && IsRefKind(f.kind)
      ensures ValueOf(values, id, f.name) == RefIds(edges, id, f)
      ensures f.kind == Ref ==> |ValueOf(values, id, f.name)| <= 1
    {
      BatchIsPerNode(schema, table, edges, ids, rows, id, f);
      if f.kind == Ref {
        SingleHasOneRow(schema, table, edges, id, f);
      }
    }
  }
}
