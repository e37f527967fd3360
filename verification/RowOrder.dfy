/** The order in which rows are listed, told by the values they hold (compileSort in core/node_query.go). */
module RowOrder {
  import opened Common
  import opened Types
  import opened Store
  import opened Query
  import opened Sql
  import opened Sorting
  import opened Comparisons

  /** The sort a caller gets: the latest update first, or the given fields; then the latest id, unless id is given. */
  function FullSort(fields: seq<SortField>): seq<SortField> {
    if fields == [] then [SortField(SystemPath("updated_at"), true), SortField(SystemPath("id"), true)]
    else fields + if exists i :: 0 <= i < |fields| && fields[i].path == SystemPath("id") then []
                  else [SortField(SystemPath("id"), true)]
  }

  // ---------------------------------------------------------------- comparing two rows

  /** A number, a boolean or a text; anything else sorts like no value. */
  predicate Ranked(w: Option<Value>) { w.Some? && (w.value.Bool? || w.value.Int? || w.value.Float? || w.value.Str?) }

  ghost predicate SameRank(a: Option<Value>, b: Option<Value>) {
    || (!Ranked(a) && !Ranked(b))
    || (Ranked(a) && a == b)
    || (a.Some? && b.Some? && exists x :: IsNumber(a.value, x) && IsNumber(b.value, x))
  }

  /** No value before any, numbers by size and before texts, texts by their first difference. */
  ghost predicate Lower(a: Option<Value>, b: Option<Value>) {
    || (!Ranked(a) && Ranked(b))
    || (a.Some? && b.Some? && exists x, y :: IsNumber(a.value, x) && IsNumber(b.value, y) && x < y)
    || (a.Some? && b.Some? && b.value.Str? && exists x :: IsNumber(a.value, x))
    || (a.Some? && b.Some? && a.value.Str? && b.value.Str? && TextBefore(a.value.s, b.value.s))
  }

  function HeldAt(nodes: map<int, Node>, times: Times, s: SortField, id: int): Option<Value>
    requires id in nodes
  {
    Held(id, nodes[id], times, s.path)
  }

  /** The rows differ first at the n-th field, and there a is the lower one, or the higher if it sorts downwards. */
  ghost predicate PrecedesAt(nodes: map<int, Node>, times: Times, sort: seq<SortField>, a: int, b: int, n: int)
    requires a in nodes && b in nodes
  {
    && 0 <= n < |sort|
    && (forall m :: 0 <= m < n ==> SameRank(HeldAt(nodes, times, sort[m], a), HeldAt(nodes, times, sort[m], b)))
    && if sort[n].desc then Lower(HeldAt(nodes, times, sort[n], b), HeldAt(nodes, times, sort[n], a))
       else Lower(HeldAt(nodes, times, sort[n], a), HeldAt(nodes, times, sort[n], b))
  }

  function Rank(w: Option<Value>): Scalar { ScalarOf(if w.Some? then w.value else Null) }

  lemma RankIsOrder(a: Option<Value>, b: Option<Value>)
    ensures Rank(a) == Rank(b) <==> SameRank(a, b)
    ensures KeyLess(Rank(a), Rank(b)) <==> Lower(a, b)
  {
    RankIs(a);
    RankIs(b);
    if a.Some? && b.Some? && a.value.Str? && b.value.Str? { TextLessIs(a.value.s, b.value.s); }
    hide ScalarOf, TextLess, TextBefore, IsNumber;
  }

  lemma RankIs(a: Option<Value>)
    ensures Rank(a).Incomparable? <==> !Ranked(a)
    ensures forall t :: Rank(a) == AsText(t) <==> a == Some(Str(t))
    ensures forall x :: Rank(a) == AsNumber(x) <==> a.Some? && IsNumber(a.value, x)
  {
  }

  // ---------------------------------------------------------------- what a compiled sort does

  /** The term orders rows by the value at the field's path, in its direction. */
  ghost predicate TermIs(nodes: map<int, Node>, times: Times, t: OrderTerm, s: SortField) {
    t.desc == s.desc && forall id :: id in nodes ==> KeyOf(nodes, times, t, id) == Rank(HeldAt(nodes, times, s, id))
  }

  lemma SortTermIs(schema: Schema, typ: string, nodes: map<int, Node>, times: Times, s: SortField, t: OrderTerm)
    requires SortTerm(schema, typ, s) == Ok(t)
    ensures TermIs(nodes, times, t, s)
  {
  }

  lemma DefaultTermsAre(nodes: map<int, Node>, times: Times)
    ensures TermIs(nodes, times, BY_UPDATED, SortField(SystemPath("updated_at"), true))
    ensures TermIs(nodes, times, BY_ID, SortField(SystemPath("id"), true))
  {
  }

  lemma TermsAre(
    schema: Schema, typ: string, fields: seq<SortField>, nodes: map<int, Node>, times: Times, terms: seq<OrderTerm>)
    requires IsOrder(schema, typ, fields, terms)
    ensures |terms| == |FullSort(fields)|
    ensures forall i :: 0 <= i < |terms| ==> TermIs(nodes, times, terms[i], FullSort(fields)[i])
  {
    DefaultTermsAre(nodes, times);
    hide TermIs, SortTerm;
    forall i | 0 <= i < |fields| ensures |fields| <= |terms| && TermIs(nodes, times, terms[i], fields[i]) {
      SortTermIs(schema, typ, nodes, times, fields[i], terms[i]);
    }
    if fields != [] {
      assert (exists i :: 0 <= i < |fields| && SortsById(fields[i]))
        <==> exists i :: 0 <= i < |fields| && fields[i].path == SystemPath("id") by { IdFields(fields); }
      forall i | |fields| <= i < |terms| ensures terms[i] == terms[|fields|..][i - |fields|] {}
    }
  }

  lemma IdFields(fields: seq<SortField>)
    ensures (exists i :: 0 <= i < |fields| && SortsById(fields[i]))
      <==> exists i :: 0 <= i < |fields| && fields[i].path == SystemPath("id")
  {
    if i :| 0 <= i < |fields| && fields[i].path == SystemPath("id") { assert SortsById(fields[i]); }
  }

  /** One row is listed before another exactly when the values they hold say so. */
  lemma {:induction false} ComesIff(
    nodes: map<int, Node>, times: Times, terms: seq<OrderTerm>, sort: seq<SortField>, a: int, b: int)
    requires a in nodes && b in nodes && |terms| == |sort|
    requires forall i :: 0 <= i < |terms| ==> TermIs(nodes, times, terms[i], sort[i])
    ensures Comes(nodes, times, terms, a, b) <==> exists n :: PrecedesAt(nodes, times, sort, a, b, n)
    decreases |terms|
  {
    if terms != [] {
      var (v, w) := (HeldAt(nodes, times, sort[0], a), HeldAt(nodes, times, sort[0], b));
      assert TermIs(nodes, times, terms[0], sort[0]);
      RankIsOrder(v, w);
      RankIsOrder(w, v);
      ComesIff(nodes, times, terms[1..], sort[1..], a, b);
      RankOrder(Rank(v), Rank(w));
      hide KeyLess, SameRank, Lower, HeldAt, Rank;
      forall n | 0 < n ensures PrecedesAt(nodes, times, sort, a, b, n)
        <==> SameRank(v, w) && PrecedesAt(nodes, times, sort[1..], a, b, n - 1)
      {
        PrecedesLater(nodes, times, sort, a, b, n);
      }
      if Comes(nodes, times, terms[1..], a, b) && SameRank(v, w) {
        var n :| PrecedesAt(nodes, times, sort[1..], a, b, n);
        assert PrecedesAt(nodes, times, sort, a, b, n + 1);
      }
      assert PrecedesAt(nodes, times, sort, a, b, 0)
        <==> if sort[0].desc then Lower(w, v) else Lower(v, w);
    }
  }

  lemma RankOrder(a: Scalar, b: Scalar)
    ensures a == b ==> !KeyLess(a, b) && !KeyLess(b, a)
  {
    KeyOrder(a, b, a);
  }

  lemma PrecedesLater(nodes: map<int, Node>, times: Times, sort: seq<SortField>, a: int, b: int, n: int)
    requires a in nodes && b in nodes && sort != [] && 0 < n
    ensures PrecedesAt(nodes, times, sort, a, b, n)
      <==> && SameRank(HeldAt(nodes, times, sort[0], a), HeldAt(nodes, times, sort[0], b))
           && PrecedesAt(nodes, times, sort[1..], a, b, n - 1)
  {
    hide SameRank, Lower, HeldAt;
    var rest := sort[1..];
    if n < |sort| {
      assert forall m :: 0 <= m < n - 1 ==> rest[m] == sort[m + 1];
      if PrecedesAt(nodes, times, sort, a, b, n) {
        forall m | 0 <= m < n - 1
          ensures SameRank(HeldAt(nodes, times, rest[m], a), HeldAt(nodes, times, rest[m], b))
        {
          assert rest[m] == sort[m + 1];
        }
      }
      if SameRank(HeldAt(nodes, times, sort[0], a), HeldAt(nodes, times, sort[0], b))
         && PrecedesAt(nodes, times, rest, a, b, n - 1)
      {
        forall m | 0 <= m < n
          ensures SameRank(HeldAt(nodes, times, sort[m], a), HeldAt(nodes, times, sort[m], b))
        {
          if m > 0 { assert rest[m - 1] == sort[m]; }
        }
      }
    }
  }

  /**
   * In a list sorted by what a caller asked for, each row precedes those after it: at the first field at which
   * the values they hold differ it has the lower one, or the higher where the field sorts downwards.
   */
  lemma ListedInOrder(
    schema: Schema, typ: string, fields: seq<SortField>, nodes: map<int, Node>, times: Times, terms: seq<OrderTerm>,
    rows: set<int>, list: seq<int>, i: nat, j: nat)
    requires IsOrder(schema, typ, fields, terms) && Listing(nodes, times, terms, rows, list) && i < j < |list|
    ensures list[i] in nodes && list[j] in nodes
    ensures exists n :: PrecedesAt(nodes, times, FullSort(fields), list[i], list[j], n)
  {
    TermsAre(schema, typ, fields, nodes, times, terms);
    ComesIff(nodes, times, terms, FullSort(fields), list[i], list[j]);
    hide IsOrder, FullSort, PrecedesAt, TermIs;
  }

  // ---------------------------------------------------------------- which sorts are accepted

  /** The path leads to a value whose kind has an order. */
  predicate CanSortBy(schema: Schema, typ: string, path: Path) {
    match path
    case FieldPath(k) =>
      var f := FieldOn(schema, typ, k);
      k != "" && f.Some? && f.value.kind in {Text, Number, Boolean, Select, Timestamp, Slug}
    case SystemPath(name) => name in ["id", "revision", "type", "display", "created_at", "updated_at"]
    case _ => false
  }

  lemma SortRefusedIff(schema: Schema, typ: string, fields: seq<SortField>)
    ensures BadSort(schema, typ, fields)
      <==> || |fields| > 8
           || (exists i, j :: 0 <= i < j < |fields| && fields[i].path == fields[j].path)
           || exists i :: 0 <= i < |fields| && !CanSortBy(schema, typ, fields[i].path)
  {
    forall s ensures SortTerm(schema, typ, s).Ok? <==> CanSortBy(schema, typ, s.path) { CanSortIs(schema, typ, s); }
    hide SortTerm, CanSortBy;
  }

  lemma CanSortIs(schema: Schema, typ: string, s: SortField)
    ensures SortTerm(schema, typ, s).Ok? <==> CanSortBy(schema, typ, s.path)
  {
  }
}
