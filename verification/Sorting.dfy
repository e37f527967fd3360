/** The row order of a list query and its pages (compileSort and GetNodes in core/node_query.go). */
module Sorting {
  import opened Common
  import opened Types
  import opened Store
  import opened Query
  import opened Sql
  import opened Compile
  import opened Meaning

  datatype SortField = SortField(path: Path, desc: bool)

  /** One term of ORDER BY. */
  datatype OrderTerm = ByPath(r: Resolved, desc: bool)

  const MAX_SORT_FIELDS := 8

  const BY_UPDATED := ByPath(ColumnOn("updated_at", TIME_OPS), true)
  const BY_ID := ByPath(ColumnOn("id", Ops(true, true, false, true)), true)

  // ---------------------------------------------------------------- compiling the sort

  function SortTerm(schema: Schema, typ: string, s: SortField): Result<OrderTerm, QueryError> {
    match ResolvePath(schema, s.path, typ)
    case Err(e) => Err(e)
    case Ok(r) =>
      if IsLink(r) then Err(InvalidField)
      else if !(if r.ColumnOn? then r.ops else KindOps(r.f.kind)).sortable then Err(InvalidField)
      else Ok(ByPath(r, s.desc))
  }

  predicate SortsById(s: SortField) { s.path == SystemPath("id") }

  /** A compiled sort has one term per field, in order, and ends with the id unless it already has it. */
  predicate IsOrder(schema: Schema, typ: string, fields: seq<SortField>, terms: seq<OrderTerm>) {
    if fields == [] then terms == [BY_UPDATED, BY_ID]
    else
      && |fields| <= |terms|
      && (forall i :: 0 <= i < |fields| ==> SortTerm(schema, typ, fields[i]) == Ok(terms[i]))
      && terms[|fields|..] == if exists i :: 0 <= i < |fields| && SortsById(fields[i]) then [] else [BY_ID]
  }

  /** Why a sort is refused. */
  ghost predicate BadSort(schema: Schema, typ: string, fields: seq<SortField>) {
    || |fields| > 8
    || (exists i, j :: 0 <= i < j < |fields| && fields[i].path == fields[j].path)
    || exists i :: 0 <= i < |fields| && SortTerm(schema, typ, fields[i]).Err?
  }

  method CompileSort(
    schema: Schema, typ: string, fields: seq<SortField>) returns (res: Result<seq<OrderTerm>, QueryError>)
    ensures res.Err? <==> BadSort(schema, typ, fields)
    ensures res.Ok? ==> IsOrder(schema, typ, fields, res.value)
  {
    hide SortTerm;
    if |fields| == 0 {
      return Ok([BY_UPDATED, BY_ID]);
    }
    if |fields| > MAX_SORT_FIELDS {
      return Err(TooComplex);
    }
    var parts: seq<OrderTerm> := [];
    var hasId := false;
    var seen: set<Path> := {};
    for i := 0 to |fields|
      invariant |parts| == i && forall j :: 0 <= j < i ==> SortTerm(schema, typ, fields[j]) == Ok(parts[j])
      invariant forall j :: 0 <= j < i ==> fields[j].path in seen
      invariant forall p :: p in seen ==> exists j :: 0 <= j < i && fields[j].path == p
      invariant forall j, k :: 0 <= j < k < i ==> fields[j].path != fields[k].path
      invariant hasId <==> exists j :: 0 <= j < i && SortsById(fields[j])
    {
      var s := fields[i];
      if s.path in seen {
        return Err(InvalidField);
      }
      seen := seen + {s.path};
      var term := SortTerm(schema, typ, s);
      if term.Err? {
        return Err(term.error);
      }
      parts := parts + [term.value];
      if SortsById(s) {
        hasId := true;
      }
    }
    if !hasId {
      parts := parts + [BY_ID];
    }
    res := Ok(parts);
  }

  // ---------------------------------------------------------------- the order of rows

  function KeyOf(nodes: map<int, Node>, times: Times, t: OrderTerm, id: int): Scalar
    requires id in nodes
  {
    if IsLink(t.r) then Incomparable else ScalarOf(ValueOf(id, nodes[id], times, t.r))
  }

  /** NULL sorts before every value. */
  predicate KeyLess(a: Scalar, b: Scalar) {
    if a.Incomparable? || b.Incomparable? then a.Incomparable? && !b.Incomparable? else ScalarLess(a, b)
  }

  /** Row a comes before row b: at the first term on which they differ, or never. */
  predicate Comes(nodes: map<int, Node>, times: Times, terms: seq<OrderTerm>, a: int, b: int)
    requires a in nodes && b in nodes
  {
    terms != []
    && var (x, y) := (KeyOf(nodes, times, terms[0], a), KeyOf(nodes, times, terms[0], b));
       if x == y then Comes(nodes, times, terms[1..], a, b)
       else if terms[0].desc then KeyLess(y, x) else KeyLess(x, y)
  }

  lemma {:induction false} TextOrder(a: string, b: string, c: string)
    ensures !TextLess(a, a)
    ensures a != b ==> TextLess(a, b) || TextLess(b, a)
    ensures TextLess(a, b) && TextLess(b, c) ==> TextLess(a, c)
    ensures TextLess(a, b) ==> !TextLess(b, a)
  {
    if a != "" && b != "" {
      TextOrder(a[1..], b[1..], if c == "" then "" else c[1..]);
      assert a == [a[0]] + a[1..] && b == [b[0]] + b[1..];
    } else if a != "" {
      TextOrder(a[1..], b, c);
    }
  }

  lemma KeyOrder(a: Scalar, b: Scalar, c: Scalar)
    ensures !KeyLess(a, a)
    ensures a != b ==> KeyLess(a, b) || KeyLess(b, a)
    ensures KeyLess(a, b) && KeyLess(b, c) ==> KeyLess(a, c)
    ensures KeyLess(a, b) ==> !KeyLess(b, a)
  {
    TextOrder(if a.AsText? then a.t else "", if b.AsText? then b.t else "", if c.AsText? then c.t else "");
  }

  lemma {:induction false} ComesIsOrder(
    nodes: map<int, Node>, times: Times, terms: seq<OrderTerm>, a: int, b: int, c: int)
    requires a in nodes && b in nodes && c in nodes
    ensures !Comes(nodes, times, terms, a, a)
    ensures Comes(nodes, times, terms, a, b) && Comes(nodes, times, terms, b, c) ==> Comes(nodes, times, terms, a, c)
    ensures Comes(nodes, times, terms, a, b) ==> !Comes(nodes, times, terms, b, a)
    decreases |terms|
  {
    hide KeyLess, KeyOf;
    if terms != [] {
      var (x, y, z) := (KeyOf(nodes, times, terms[0], a), KeyOf(nodes, times, terms[0], b),
        KeyOf(nodes, times, terms[0], c));
      ComesIsOrder(nodes, times, terms[1..], a, b, c);
      KeyOrder(x, y, z);
      KeyOrder(z, y, x);
    }
  }

  /** With the id among the terms no two rows tie. */
  lemma {:induction false} IdBreaksTies(
    nodes: map<int, Node>, times: Times, terms: seq<OrderTerm>, i: nat, a: int, b: int)
    requires a in nodes && b in nodes && a != b
    requires i < |terms| && terms[i].r.ColumnOn? && terms[i].r.name == "id"
    ensures Comes(nodes, times, terms, a, b) || Comes(nodes, times, terms, b, a)
    decreases i
  {
    var (x, y) := (KeyOf(nodes, times, terms[0], a), KeyOf(nodes, times, terms[0], b));
    KeyOrder(x, y, x);
    if x == y {
      assert i > 0;
      IdBreaksTies(nodes, times, terms[1..], i - 1, a, b);
    }
  }

  lemma OrderHasId(schema: Schema, typ: string, fields: seq<SortField>, terms: seq<OrderTerm>) returns (i: nat)
    requires IsOrder(schema, typ, fields, terms)
    ensures i < |terms| && terms[i].r.ColumnOn? && terms[i].r.name == "id"
  {
    if fields == [] {
      i := 1;
    } else if j :| 0 <= j < |fields| && SortsById(fields[j]) {
      i := j;
    } else {
      i := |fields|;
      assert terms[i] == terms[|fields|..][0];
    }
  }

  // ---------------------------------------------------------------- result lists and pages

  /** ORDER BY terms over a set of rows. */
  ghost predicate Listing(nodes: map<int, Node>, times: Times, terms: seq<OrderTerm>, rows: set<int>, list: seq<int>) {
    && (forall i :: 0 <= i < |list| ==> list[i] in nodes)
    && Elements(list) == rows
    && forall i, j :: 0 <= i < j < |list| ==> Comes(nodes, times, terms, list[i], list[j])
  }

  /** A compiled sort leaves the database no choice: the list of a set of rows is unique. */
  lemma {:induction false} ListingIsUnique(
    nodes: map<int, Node>, times: Times, terms: seq<OrderTerm>, rows: set<int>, a: seq<int>, b: seq<int>)
    requires Listing(nodes, times, terms, rows, a) && Listing(nodes, times, terms, rows, b)
    ensures a == b
    decreases |a|
  {
    hide Comes;
    ElementsEmpty(a);
    ElementsEmpty(b);
    if a != [] {
      var (x, y) := (a[0], b[0]);
      assert x in Elements(b) && y in Elements(a);
      var i :| 0 <= i < |b| && b[i] == x;
      var j :| 0 <= j < |a| && a[j] == y;
      ComesIsOrder(nodes, times, terms, x, y, x);
      assert x == y;
      ListingTail(nodes, times, terms, rows, a);
      ListingTail(nodes, times, terms, rows, b);
      ListingIsUnique(nodes, times, terms, rows - {x}, a[1..], b[1..]);
      assert a == [x] + a[1..] && b == [y] + b[1..];
    }
  }

  lemma ListingTail(nodes: map<int, Node>, times: Times, terms: seq<OrderTerm>, rows: set<int>, a: seq<int>)
    requires Listing(nodes, times, terms, rows, a) && a != []
    ensures Listing(nodes, times, terms, rows - {a[0]}, a[1..])
  {
    hide Comes;
    var x, rest := a[0], a[1..];
    forall y | y in Elements(rest) ensures y in rows - {x} {
      var i :| 0 <= i < |rest| && rest[i] == y;
      assert a[i + 1] == y && y in Elements(a);
      ComesIsOrder(nodes, times, terms, x, y, x);
    }
    forall y | y in rows - {x} ensures y in Elements(rest) {
      assert y in Elements(a);
      var i :| 0 <= i < |a| && a[i] == y;
      assert rest[i - 1] == y;
    }
    SetsEqual(Elements(rest), rows - {x});
  }

  /** Under a compiled sort any two rows are in one order or the other. */
  lemma SortedRowsCompare(
    schema: Schema, typ: string, fields: seq<SortField>, nodes: map<int, Node>, times: Times, terms: seq<OrderTerm>,
    a: int, b: int)
    requires IsOrder(schema, typ, fields, terms) && a in nodes && b in nodes && a != b
    ensures Comes(nodes, times, terms, a, b) || Comes(nodes, times, terms, b, a)
  {
    var i := OrderHasId(schema, typ, fields, terms);
    IdBreaksTies(nodes, times, terms, i, a, b);
  }

  lemma {:induction false} FirstRow(
    schema: Schema, typ: string, fields: seq<SortField>, nodes: map<int, Node>, times: Times, terms: seq<OrderTerm>,
    rows: set<int>)
    returns (first: int)
    requires IsOrder(schema, typ, fields, terms) && rows <= nodes.Keys && rows != {}
    ensures first in rows && forall x :: x in rows && x != first ==> Comes(nodes, times, terms, first, x)
    decreases |rows|
  {
    hide Comes, IsOrder;
    var y := AnElement(rows);
    var rest := rows - {y};
    assert forall x :: x in rows ==> x == y || x in rest;
    first := y;
    if rest != {} {
      var z := FirstRow(schema, typ, fields, nodes, times, terms, rest);
      SortedRowsCompare(schema, typ, fields, nodes, times, terms, y, z);
      if Comes(nodes, times, terms, y, z) {
        forall x | x in rest && x != z ensures Comes(nodes, times, terms, y, x) {
          ComesIsOrder(nodes, times, terms, y, z, x);
        }
      } else {
        first := z;
      }
    }
  }

  /** A compiled sort gives every set of rows a list; by ListingIsUnique, exactly one. */
  lemma {:induction false} ListingExists(
    schema: Schema, typ: string, fields: seq<SortField>, nodes: map<int, Node>, times: Times, terms: seq<OrderTerm>,
    rows: set<int>)
    returns (list: seq<int>)
    requires IsOrder(schema, typ, fields, terms) && rows <= nodes.Keys
    ensures Listing(nodes, times, terms, rows, list)
    decreases |rows|
  {
    hide Comes, IsOrder;
    if rows == {} {
      list := [];
    } else {
      var x := FirstRow(schema, typ, fields, nodes, times, terms, rows);
      var rest := ListingExists(schema, typ, fields, nodes, times, terms, rows - {x});
      list := [x] + rest;
      forall i | 0 <= i < |rest| ensures rest[i] in rows - {x} {
        var y := rest[i];
        assert y in Elements(rest);
      }
      forall y ensures y in list <==> y in rows {
        assert y in list <==> y == x || y in Elements(rest);
      }
      SetsEqual(Elements(list), rows);
    }
  }

  /** LIMIT and OFFSET; without a limit the offset is not applied either. */
  function Page(list: seq<int>, limit: nat, offset: nat): seq<int> {
    if limit == 0 then list
    else
      var from := if offset <= |list| then offset else |list|;
      var to := if from + limit <= |list| then from + limit else |list|;
      list[from..to]
  }

  /** A page starts at the offset and holds at most the limit, in the order of the list. */
  lemma PageHolds(list: seq<int>, limit: nat, offset: nat)
    ensures limit == 0 ==> Page(list, limit, offset) == list
    ensures limit > 0 ==>
      var (page, left) := (Page(list, limit, offset), |list| - offset);
      && |page| == (if left <= 0 then 0 else if left <= limit then left else limit)
      && forall i :: 0 <= i < |page| ==> page[i] == list[offset + i]
  {
  }

  function FirstPages(list: seq<int>, size: nat, count: nat): seq<int> {
    if count == 0 then [] else FirstPages(list, size, count - 1) + Page(list, size, (count - 1) * size)
  }

  /** Consecutive pages follow each other without a gap or a repeat. */
  lemma {:induction false} PagesCoverTheList(list: seq<int>, size: nat, count: nat)
    requires size > 0
    ensures FirstPages(list, size, count) == list[..if count * size <= |list| then count * size else |list|]
  {
    if count > 0 {
      PagesCoverTheList(list, size, count - 1);
      hide Page;
      NextPage(list, size, (count - 1) * size);
      assert count * size == (count - 1) * size + size;
    }
  }

  lemma NextPage(list: seq<int>, size: nat, from: nat)
    requires size > 0
    ensures list[..if from <= |list| then from else |list|] + Page(list, size, from)
      == list[..if from + size <= |list| then from + size else |list|]
  {
  }
}
