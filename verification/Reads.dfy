/** Reading references back from the edge table (core/node_read.go). */
module Reads {
  import opened Common
  import opened Types
  import opened Store

  // ---------------------------------------------------------------- ORDER BY sort, id

  predicate Before(edges: map<int, Edge>, a: int, b: int)
    requires a in edges && b in edges
  {
    edges[a].sort < edges[b].sort || (edges[a].sort == edges[b].sort && a < b)
  }

  predicate InOrder(edges: map<int, Edge>, ks: seq<int>) {
    && (forall i :: 0 <= i < |ks| ==> ks[i] in edges)
    && (forall i, j :: 0 <= i < j < |ks| ==> Before(edges, ks[i], ks[j]))
  }

  ghost function First(edges: map<int, Edge>, keys: set<int>): (k: int)
    requires keys <= edges.Keys && keys != {}
    ensures k in keys && forall j :: j in keys && j != k ==> Before(edges, k, j)
  {
    var x := AnElement(keys);
    var rest := keys - {x};
    assert forall j :: j in keys ==> j == x || j in rest;
    if rest == {} then x
    else
      var m := First(edges, rest);
      if Before(edges, x, m) then x else m
  }

  /** The keys of a set of rows in (sort, id) order. */
  ghost function Sorted(edges: map<int, Edge>, keys: set<int>): (ks: seq<int>)
    requires keys <= edges.Keys
    ensures InOrder(edges, ks) && Elements(ks) == keys
    decreases |keys|
  {
    if keys == {} then []
    else
      var k := First(edges, keys);
      var rest := Sorted(edges, keys - {k});
      SortedCons(edges, keys, k, rest);
      [k] + rest
  }

  lemma SortedCons(edges: map<int, Edge>, keys: set<int>, k: int, rest: seq<int>)
    requires k in keys && keys <= edges.Keys && forall j :: j in keys && j != k ==> Before(edges, k, j)
    requires InOrder(edges, rest) && Elements(rest) == keys - {k}
    ensures InOrder(edges, [k] + rest) && Elements([k] + rest) == keys
  {
    forall i | 0 <= i < |rest| ensures rest[i] in keys && rest[i] != k {
      var x := rest[i];
      assert x in Elements(rest);
    }
    forall x | x in keys ensures x in [k] + rest {
      if x != k {
        assert x in Elements(rest);
      }
    }
  }

  /** Rows in order are determined by which rows they are. */
  lemma {:induction false} OrderIsUnique(edges: map<int, Edge>, a: seq<int>, b: seq<int>)
    requires InOrder(edges, a) && InOrder(edges, b) && Elements(a) == Elements(b)
    ensures a == b
    decreases |a|
  {
    ElementsEmpty(a);
    ElementsEmpty(b);
    if a != [] {
      var x := a[0];
      assert x in Elements(a) && x in b;
      var y := b[0];
      assert y in Elements(b) && y in a;
      assert x == y;
      TailElements(edges, a);
      TailElements(edges, b);
      OrderIsUnique(edges, a[1..], b[1..]);
      assert a == [x] + a[1..] && b == [y] + b[1..];
    }
  }

  lemma TailElements(edges: map<int, Edge>, a: seq<int>)
    requires a != [] && InOrder(edges, a)
    ensures Elements(a[1..]) == Elements(a) - {a[0]}
  {
    forall x | x in Elements(a) && x != a[0] ensures x in a[1..] {
      var i :| 0 <= i < |a| && a[i] == x;
      assert a[1..][i - 1] == x;
    }
    forall x | x in a[1..] ensures x in a && x != a[0] {
      var i :| 0 <= i < |a| - 1 && a[1..][i] == x;
      assert a[i + 1] == x;
    }
  }

  // ---------------------------------------------------------------- one node, one field

  /** The rows of a reference field at a node: outgoing ones, both ways when undirected. */
  predicate RowOf(e: Edge, id: int, f: FieldDef) {
    e.field == f.name &&
    if Undirected(f) then e.symmetric && Touches(e, id) else e.from == id
  }

  function RowsOf(edges: map<int, Edge>, id: int, f: FieldDef): set<int> {
    set k | k in edges && RowOf(edges[k], id, f)
  }

  function OtherEnd(e: Edge, id: int): int { if e.from == id then e.to else e.from }

  function Ends(edges: map<int, Edge>, id: int, ks: seq<int>): (r: seq<int>)
    requires forall i :: 0 <= i < |ks| ==> ks[i] in edges
    ensures |r| == |ks| && forall i :: 0 <= i < |ks| ==> r[i] == OtherEnd(edges[ks[i]], id)
  {
    seq(|ks|, i requires 0 <= i < |ks| && ks[i] in edges => OtherEnd(edges[ks[i]], id))
  }

  /** refIDsForField: the targets of one field of one node, in (sort, id) order. */
  ghost function RefIds(edges: map<int, Edge>, id: int, f: FieldDef): seq<int> {
    Ends(edges, id, Sorted(edges, RowsOf(edges, id, f)))
  }

  /** other is among the references a read shows under f at the node id. */
  ghost predicate Refers(edges: map<int, Edge>, id: int, f: FieldDef, other: int) {
    exists k :: k in edges && RowOf(edges[k], id, f) && OtherEnd(edges[k], id) == other
  }

  lemma RefersIffRead(edges: map<int, Edge>, id: int, f: FieldDef, other: int)
    ensures Refers(edges, id, f, other) <==> other in RefIds(edges, id, f)
  {
    var ks := Sorted(edges, RowsOf(edges, id, f));
    if Refers(edges, id, f, other) {
      var k :| k in edges && RowOf(edges[k], id, f) && OtherEnd(edges[k], id) == other;
      assert k in RowsOf(edges, id, f);
      var i :| 0 <= i < |ks| && ks[i] == k;
      assert RefIds(edges, id, f)[i] == other;
    }
    if other in RefIds(edges, id, f) {
      var i :| 0 <= i < |RefIds(edges, id, f)| && RefIds(edges, id, f)[i] == other;
      assert ks[i] in RowsOf(edges, id, f);
    }
  }

  // ---------------------------------------------------------------- the read projection

  /** What a read puts under a reference field: an id, a list of ids, or nothing. */
  function RefValue(f: FieldDef, ids: seq<int>): Option<Value> {
    if f.kind == RefList then Some(Ids(ids))
    else if ids == [] then None
    else Some(Int(ids[0]))
  }

  function RefNames(td: TypeDef): set<string> {
    set f | f in td.fields && IsRefKind(f.kind) :: f.name
  }

  /** What a read puts under the field called k. */
  ghost function ReadOf(td: TypeDef, edges: map<int, Edge>, id: int, k: string): Option<Value> {
    match FieldByName(td.fields, k)
    case Some(f) => if IsRefKind(f.kind) then RefValue(f, RefIds(edges, id, f)) else None
    case None => None
  }

  /** The references of a node, under their field names. */
  ghost function RefFields(td: TypeDef, edges: map<int, Edge>, id: int): Fields {
    map k | k in RefNames(td) && ReadOf(td, edges, id, k).Some? :: ReadOf(td, edges, id, k).value
  }

  /** Fields as GetNode returns them: the stored scalars and every reference. */
  ghost function FullFields(td: TypeDef, edges: map<int, Edge>, id: int, scalars: Fields): Fields {
    scalars + RefFields(td, edges, id)
  }

  lemma ReadOfRef(td: TypeDef, edges: map<int, Edge>, id: int, k: string)
    requires ReadOf(td, edges, id, k).Some?
    ensures IsRefName(td, k) && k in RefNames(td)
    ensures
      var f := FieldByName(td.fields, k).value;
      f in td.fields && f.name == k && RefValue(f, RefIds(edges, id, f)) == ReadOf(td, edges, id, k)
  {
  }

  /** Splitting the fields of a read gives back the stored scalars and the references. */
  lemma FullFieldsSplit(td: TypeDef, edges: map<int, Edge>, id: int, scalars: Fields)
    requires forall k :: k in scalars ==> !IsRefName(td, k)
    ensures ScalarPart(td, FullFields(td, edges, id, scalars)) == scalars
    ensures RefPart(td, FullFields(td, edges, id, scalars)) == RefFields(td, edges, id)
  {
    var refs := RefFields(td, edges, id);
    forall k | k in refs ensures IsRefName(td, k) { ReadOfRef(td, edges, id, k); }
    MergedSplit(td, scalars, refs);
  }

  lemma MergedSplit(td: TypeDef, scalars: Fields, refs: Fields)
    requires forall k :: k in scalars ==> !IsRefName(td, k)
    requires forall k :: k in refs ==> IsRefName(td, k)
    ensures ScalarPart(td, scalars + refs) == scalars && RefPart(td, scalars + refs) == refs
  {
  }
}
