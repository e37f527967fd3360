/** The parent chain of a node, as the recursive query returns it (Ancestors in core/traverse.go). */
module Ancestors {
  import opened Common
  import opened Types
  import opened Graph
  import opened Decimal
  import opened Store
  import opened Invariants
  import opened Traverse

  /** Every row of the first k rounds and the one they start from. */
  function RowsUpTo(g: Rel, seeds: set<Row>, k: nat): set<Row> {
    if k == 0 then Rounds(g, seeds, 0) else RowsUpTo(g, seeds, k - 1) + Rounds(g, seeds, k)
  }

  /** ORDER BY depth DESC */
  predicate DeepestFirst(rows: seq<Row>, all: set<Row>) {
    && Distinct(rows) && Elements(rows) == all
    && forall i, j :: 0 <= i < j < |rows| ==> rows[i].depth >= rows[j].depth
  }

  /** No node has two edges out. */
  predicate OneParent(g: Rel) { forall d, e :: d in g && e in g && d.0 == e.0 ==> d == e }

  /** All rows of one round are the same row, at the round's depth. */
  ghost predicate OneRow(rows: set<Row>, depth: int) {
    forall v, w :: v in rows && w in rows ==> v == w && v.depth == depth
  }

  lemma {:induction false} RoundHasOneRow(g: Rel, start: int, k: nat)
    requires OneParent(g)
    ensures OneRow(Rounds(g, FirstEdges(g, start), k), k + 1)
  {
    var seeds := FirstEdges(g, start);
    if k == 0 {
      forall v, w | v in seeds && w in seeds ensures v == w && v.depth == 1 {
        var d :| d in g && d.0 == start && v == Row(d.1, 1, "," + Num(d.0) + "," + Num(d.1) + ",");
        var e :| e in g && e.0 == start && w == Row(e.1, 1, "," + Num(e.0) + "," + Num(e.1) + ",");
      }
    } else {
      RoundHasOneRow(g, start, k - 1);
      var before := Rounds(g, seeds, k - 1);
      forall v, w | v in Extend(g, before) && w in Extend(g, before) ensures v == w && v.depth == k + 1 {
        var a := FromRow(g, before, v);
        var b := FromRow(g, before, w);
        assert a == b && (a.id, v.id) in g && (b.id, w.id) in g;
      }
    }
  }

  lemma {:induction false} RowsAreRounds(g: Rel, seeds: set<Row>, k: nat, w: Row)
    ensures w in RowsUpTo(g, seeds, k) <==> exists j: nat :: j <= k && InRound(g, seeds, j, w)
  {
    hide Rounds;
    if k > 0 {
      RowsAreRounds(g, seeds, k - 1, w);
      assert InRound(g, seeds, k, w) <==> w in Rounds(g, seeds, k);
      if j: nat :| j <= k && InRound(g, seeds, j, w) { assert j <= k - 1 || j == k; }
    } else {
      assert InRound(g, seeds, 0, w) <==> w in Rounds(g, seeds, 0);
    }
  }

  predicate InRound(g: Rel, seeds: set<Row>, j: nat, w: Row) { w in Rounds(g, seeds, j) }

  /** The row a row came from is one shallower and in the table too. */
  lemma RowBefore(g: Rel, start: int, k: nat, w: Row) returns (v: Row)
    requires OneParent(g) && w in RowsUpTo(g, FirstEdges(g, start), k) && w.depth > 1
    ensures v in RowsUpTo(g, FirstEdges(g, start), k) && v.depth == w.depth - 1 && (v.id, w.id) in g
  {
    var seeds := FirstEdges(g, start);
    RowsAreRounds(g, seeds, k, w);
    var j: nat :| j <= k && InRound(g, seeds, j, w);
    RoundHasOneRow(g, start, j);
    v := FromRow(g, Rounds(g, seeds, j - 1), w);
    assert InRound(g, seeds, j - 1, v);
    RowsAreRounds(g, seeds, k, v);
    RoundHasOneRow(g, start, j - 1);
  }

  lemma SameDepthSameRow(g: Rel, start: int, k: nat, v: Row, w: Row)
    requires OneParent(g) && v in RowsUpTo(g, FirstEdges(g, start), k) && w in RowsUpTo(g, FirstEdges(g, start), k)
    requires v.depth == w.depth
    ensures v == w && 1 <= v.depth <= k + 1
    ensures v.depth == 1 ==> (start, v.id) in g
  {
    hide RowsUpTo, Rounds, FirstEdges, OneParent;
    var seeds := FirstEdges(g, start);
    RowsAreRounds(g, seeds, k, v);
    RowsAreRounds(g, seeds, k, w);
    var i: nat :| i <= k && InRound(g, seeds, i, v);
    var j: nat :| j <= k && InRound(g, seeds, j, w);
    RoundHasOneRow(g, start, i);
    RoundHasOneRow(g, start, j);
    if i == 0 { FirstRow(g, start, v); }
  }

  lemma FirstRow(g: Rel, start: int, v: Row)
    requires InRound(g, FirstEdges(g, start), 0, v)
    ensures (start, v.id) in g
  {
    var e :| e in g && e.0 == start && v == Row(e.1, 1, "," + Num(e.0) + "," + Num(e.1) + ",");
  }

  /** Depths fall by one from row to row, down to 1. */
  lemma {:induction false} DepthsCountDown(g: Rel, start: int, k: nat, rows: seq<Row>, i: nat)
    requires OneParent(g) && DeepestFirst(rows, RowsUpTo(g, FirstEdges(g, start), k)) && i < |rows|
    ensures rows[i].depth == |rows| - i
    decreases |rows| - i
  {
    hide FirstEdges, RowsUpTo, OneParent;
    var all := RowsUpTo(g, FirstEdges(g, start), k);
    var w := rows[i];
    assert w in Elements(rows);
    SameDepthSameRow(g, start, k, w, w);
    if i + 1 < |rows| {
      DepthsCountDown(g, start, k, rows, i + 1);
      var x := rows[i + 1];
      assert x in Elements(rows);
      if w.depth == x.depth {
        SameDepthSameRow(g, start, k, w, x);
      }
      var v := RowBefore(g, start, k, w);
      var j := IndexOf(rows, all, v);
      assert j > i + 1 ==> rows[i + 1].depth >= rows[j].depth;
    } else if w.depth > 1 {
      var v := RowBefore(g, start, k, w);
      AtEitherEnd(rows, all, v);
    }
  }

  lemma AtEitherEnd(rows: seq<Row>, all: set<Row>, v: Row)
    requires DeepestFirst(rows, all) && v in all
    ensures rows != [] && rows[|rows| - 1].depth <= v.depth <= rows[0].depth
  {
    assert v in Elements(rows);
    var j :| 0 <= j < |rows| && rows[j] == v;
  }

  lemma IndexOf(rows: seq<Row>, all: set<Row>, v: Row) returns (j: nat)
    requires DeepestFirst(rows, all) && v in all
    ensures j < |rows| && rows[j] == v
  {
    assert v in Elements(rows);
    j :| 0 <= j < |rows| && rows[j] == v;
  }

  function Ids(rows: seq<Row>): (ids: seq<int>)
    ensures |ids| == |rows| && forall i :: 0 <= i < |rows| ==> ids[i] == rows[i].id
  {
    seq(|rows|, i requires 0 <= i < |rows| => rows[i].id)
  }

  /** The id at position i is the parent of the next one, the last that of the start. */
  predicate LeadsUp(g: Rel, start: int, ids: seq<int>, i: int)
    requires 0 <= i < |ids|
  {
    ((if i + 1 < |ids| then ids[i + 1] else start), ids[i]) in g
  }

  /**
   * With one parent each, the rows ordered by depth are the chain from the node's parent up, root first: each
   * row's id is the parent of the next one's, and the last is the parent of the start.
   */
  lemma RowsAreTheChain(g: Rel, start: int, k: nat, rows: seq<Row>)
    requires OneParent(g) && DeepestFirst(rows, RowsUpTo(g, FirstEdges(g, start), k))
    ensures |rows| <= k + 1
    ensures forall i :: 0 <= i < |rows| ==> LeadsUp(g, start, Ids(rows), i)
  {
    hide FirstEdges, RowsUpTo, OneParent;
    forall i | 0 <= i < |rows|
      ensures LeadsUp(g, start, Ids(rows), i)
      ensures rows[i].depth <= k + 1
    {
      var w := rows[i];
      assert w in Elements(rows);
      SameDepthSameRow(g, start, k, w, w);
      DepthsCountDown(g, start, k, rows, i);
      if i + 1 < |rows| {
        var v := RowBefore(g, start, k, w);
        DepthsCountDown(g, start, k, rows, i + 1);
        assert rows[i + 1] in Elements(rows);
        SameDepthSameRow(g, start, k, v, rows[i + 1]);
      }
    }
    if rows != [] { DepthsCountDown(g, start, k, rows, 0); }
  }

  /** The chain stops early only at a node without a parent, provided no chain comes back on itself. */
  lemma ChainIsComplete(g: Rel, start: int, k: nat, rows: seq<Row>, parent: int)
    requires OneParent(g) && Acyclic(g) && DeepestFirst(rows, RowsUpTo(g, FirstEdges(g, start), k))
    requires |rows| < k + 1
    ensures rows != [] ==> (rows[0].id, parent) !in g
    ensures rows == [] ==> (start, parent) !in g
  {
    var seeds := FirstEdges(g, start);
    if rows == [] {
      ElementsEmpty(rows);
      if (start, parent) in g {
        var e := (start, parent);
        var w := Row(e.1, 1, "," + Num(e.0) + "," + Num(e.1) + ",");
        assert w in seeds && InRound(g, seeds, 0, w);
        RowsAreRounds(g, seeds, k, w);
      }
    } else if (rows[0].id, parent) in g {
      var w := rows[0];
      assert w in Elements(rows);
      DepthsCountDown(g, start, k, rows, 0);
      RowsAreRounds(g, seeds, k, w);
      var j: nat :| j <= k && InRound(g, seeds, j, w);
      RoundHasOneRow(g, start, j);
      SeedPaths(g, start);
      var s, p := RowsAreGrown(g, seeds, FirstPaths(g, start), 1, j, w);
      NextIsNew(g, p, parent);
      MarkIffInPath(p, parent);
      NextRound(g, seeds, j, w, parent);
      var next := Row(parent, w.depth + 1, w.path + Num(parent) + ",");
      assert InRound(g, seeds, j + 1, next);
      RowsAreRounds(g, seeds, k, next);
      AtEitherEnd(rows, RowsUpTo(g, seeds, k), next);
    }
  }

  lemma NextIsNew(g: Rel, p: seq<int>, x: int)
    requires Acyclic(g) && IsPath(g, p) && (p[|p| - 1], x) in g
    ensures x !in p
  {
    var q := p + [x];
    forall i | 0 <= i < |q| - 1 ensures (q[i], q[i + 1]) in g {
      if i < |p| - 1 { assert q[i] == p[i] && q[i + 1] == p[i + 1]; }
    }
    AcyclicPathsAreSimple(g, q);
    forall i | 0 <= i < |p| ensures p[i] != x { assert q[i] != q[|p|]; }
  }

  // ---------------------------------------------------------------- in a valid store

  lemma {:induction false} RoundsStayInside(g: Rel, h: Rel, s: set<int>, start: int, k: nat)
    requires h <= g && start in s && forall e :: e in g && e.0 in s ==> e in h && e.1 in s
    ensures Rounds(g, FirstEdges(g, start), k) == Rounds(h, FirstEdges(h, start), k)
    ensures forall w :: w in Rounds(g, FirstEdges(g, start), k) ==> w.id in s
  {
    var a, b := FirstEdges(g, start), FirstEdges(h, start);
    if k == 0 {
      forall w | w in a ensures w in b && w.id in s {
        var e :| e in g && e.0 == start && w == Row(e.1, 1, "," + Num(e.0) + "," + Num(e.1) + ",");
      }
      SetsEqual(a, b);
    } else {
      RoundsStayInside(g, h, s, start, k - 1);
      var rows := Rounds(g, a, k - 1);
      hide Rounds, FirstEdges;
      forall w | w in Extend(g, rows) ensures w in Extend(h, rows) && w.id in s {
        var v := FromRow(g, rows, w);
        var e := (v.id, w.id);
        assert e in g && e.0 in s;
        ExtendRow(h, rows, v, w.id);
      }
      forall w | w in Extend(h, rows) ensures w in Extend(g, rows) {
        var v := FromRow(h, rows, w);
        ExtendRow(g, rows, v, w.id);
      }
      SetsEqual(Extend(g, rows), Extend(h, rows));
      RoundsUnfold(g, a, k);
      RoundsUnfold(h, b, k);
    }
  }

  lemma RoundsUnfold(g: Rel, seeds: set<Row>, k: nat)
    requires k > 0
    ensures Rounds(g, seeds, k) == Extend(g, Rounds(g, seeds, k - 1))
  {
  }

  lemma {:induction false} TableStaysInside(g: Rel, h: Rel, s: set<int>, start: int, k: nat)
    requires h <= g && start in s && forall e :: e in g && e.0 in s ==> e in h && e.1 in s
    ensures RowsUpTo(g, FirstEdges(g, start), k) == RowsUpTo(h, FirstEdges(h, start), k)
  {
    hide Rounds, FirstEdges;
    RoundsStayInside(g, h, s, start, k);
    if k > 0 { TableStaysInside(g, h, s, start, k - 1); }
  }

  lemma SingleHasOneParent(schema: Schema, db: DB, typ: string, field: string)
    requires ValidEdges(schema, db.nodes, db.edges) && NoConflicts(db.edges)
    requires RefFieldOn(schema, typ, field).Ok? && RefFieldOn(schema, typ, field).value.kind == Ref
    ensures OneParent(FieldGraph(db.nodes, db.edges, typ, field))
  {
    var g := FieldGraph(db.nodes, db.edges, typ, field);
    forall d, e | d in g && e in g && d.0 == e.0 ensures d == e {
      var i := EdgeOf(db, typ, field, d);
      var j := EdgeOf(db, typ, field, e);
      assert ValidEdge(schema, db.nodes, db.edges[i]) && ValidEdge(schema, db.nodes, db.edges[j]);
      assert i != j ==> !Conflicts(db.edges[i], db.edges[j]);
    }
  }

  lemma EdgeOf(db: DB, typ: string, field: string, e: (int, int)) returns (k: int)
    requires e in FieldGraph(db.nodes, db.edges, typ, field)
    ensures k in db.edges && db.edges[k].field == field && db.edges[k].from in db.nodes
    ensures db.nodes[db.edges[k].from].typ == typ
    ensures e == (db.edges[k].from, db.edges[k].to)
  {
    k :| k in db.edges && db.edges[k].field == field && db.edges[k].from in db.nodes
      && db.nodes[db.edges[k].from].typ == typ
         && e == (db.edges[k].from, db.edges[k].to);
  }

  ghost predicate NoParent(g: Rel, x: int) { forall e :: e in g ==> e.0 != x }

  /** ids, root first, are the parents above start: as many as maxHops allows, or all of them. */
  ghost predicate IsParentChain(g: Rel, start: int, ids: seq<int>, maxHops: nat) {
    && |ids| <= maxHops
    && (forall i :: 0 <= i < |ids| ==> LeadsUp(g, start, ids, i))
    && (|ids| < maxHops ==> NoParent(g, if ids == [] then start else ids[0]))
  }

  /** Ancestors of a single hierarchical reference: the chain of parents in root-to-leaf order. */
  lemma AncestorsAreTheParentChain(
    schema: Schema, db: DB, typ: string, start: int, field: string, maxHops: int, rows: seq<Row>)
    requires ValidSchema(schema) && ValidGraph(schema, db.nodes, db.edges)
    requires ValidateTraversal(schema, db.nodes, typ, start, field, maxHops, false).None?
    requires RefFieldOn(schema, typ, field).value.kind == Ref
    requires maxHops > 0
    requires DeepestFirst(rows,
      RowsUpTo(FieldPairs(db.edges, field), FirstEdges(FieldPairs(db.edges, field), start), maxHops - 1))
    ensures IsParentChain(FieldGraph(db.nodes, db.edges, typ, field), start, Ids(rows), maxHops)
  {
    hide ValidSchema, NoCycles, NoConflicts, ValidEdges, IsParentChain, FirstEdges, RowsUpTo, DeepestFirst;
    var h := FieldGraph(db.nodes, db.edges, typ, field);
    TableIsOfType(schema, db, typ, start, field, maxHops);
    SingleHasOneParent(schema, db, typ, field);
    HierarchyIsAcyclic(schema, db, typ, field);
    ChainOfRows(h, start, maxHops, rows);
  }

  lemma ChainOfRows(g: Rel, start: int, maxHops: int, rows: seq<Row>)
    requires OneParent(g) && Acyclic(g) && maxHops > 0
    requires DeepestFirst(rows, RowsUpTo(g, FirstEdges(g, start), maxHops - 1))
    ensures IsParentChain(g, start, Ids(rows), maxHops)
  {
    hide RowsUpTo, FirstEdges, OneParent, DeepestFirst;
    var ids := Ids(rows);
    RowsAreTheChain(g, start, maxHops - 1, rows);
    if |rows| < maxHops {
      forall e | e in g ensures e.0 != if rows == [] then start else rows[0].id {
        ChainIsComplete(g, start, maxHops - 1, rows, e.1);
      }
    }
  }

  // ---------------------------------------------------------------- several parents

  /** A way up from start of at most maxHops references. */
  predicate WayUp(g: Rel, start: int, maxHops: nat, p: seq<int>) {
    IsPath(g, p) && p[0] == start && 2 <= |p| <= maxHops + 1
  }

  /** In an acyclic graph the rows of the table stand for the ways up. */
  lemma RowIsWayUp(g: Rel, start: int, maxHops: nat, w: Row) returns (p: seq<int>)
    requires maxHops > 0 && w in RowsUpTo(g, FirstEdges(g, start), maxHops - 1)
    ensures WayUp(g, start, maxHops, p) && w == RowFor(p, |p| - 1)
  {
    var seeds := FirstEdges(g, start);
    RowsAreRounds(g, seeds, maxHops - 1, w);
    var j: nat :| j <= maxHops - 1 && InRound(g, seeds, j, w);
    SeedPaths(g, start);
    var s;
    s, p := RowsAreGrown(g, seeds, FirstPaths(g, start), 1, j, w);
    GrownEnds(g, s, p, start);
  }

  lemma WayUpIsRow(g: Rel, start: int, maxHops: nat, p: seq<int>)
    requires Acyclic(g) && maxHops > 0 && WayUp(g, start, maxHops, p)
    ensures RowFor(p, |p| - 1) in RowsUpTo(g, FirstEdges(g, start), maxHops - 1)
  {
    hide *;
    WayUpGrows(g, start, maxHops, p);
    var seeds, s, k := FirstEdges(g, start), p[..2], |p| - 2;
    GrownAreRows(g, seeds, 1, k, s, p);
    RowIsInTable(g, seeds, maxHops - 1, k, RowFor(p, |p| - 1));
  }

  lemma WayUpGrows(g: Rel, start: int, maxHops: nat, p: seq<int>)
    requires Acyclic(g) && WayUp(g, start, maxHops, p)
    ensures 2 <= |p| <= maxHops + 1 && Grown(g, p[..2], p) && RowFor(p[..2], 1) in FirstEdges(g, start)
  {
    var e := (p[0], p[1]);
    AcyclicPathsAreSimple(g, p);
    hide Acyclic, PathText;
    assert e in g && p[..2] == [e.0, e.1];
    PathTextOfTwo(e.0, e.1);
  }

  lemma PathTextOfTwo(a: int, b: int)
    ensures PathText([a, b]) == "," + Num(a) + "," + Num(b) + ","
  {
    assert [a] + [b] == [a, b] && [] + [a] == [a];
    PathTextAppend([], a);
    PathTextAppend([a], b);
  }

  lemma RowIsInTable(g: Rel, seeds: set<Row>, last: nat, k: nat, w: Row)
    requires k <= last && w in Rounds(g, seeds, k)
    ensures w in RowsUpTo(g, seeds, last)
  {
    assert InRound(g, seeds, k, w);
    RowsAreRounds(g, seeds, last, w);
  }

  /** The ways the rows stand for, one each and all of them. */
  ghost predicate AreTheWaysUp(g: Rel, start: int, maxHops: nat, rows: seq<Row>, ways: seq<seq<int>>) {
    && |ways| == |rows| && Distinct(ways)
    && (forall i :: 0 <= i < |rows| ==> WayUp(g, start, maxHops, ways[i]) && rows[i] == RowFor(ways[i], |ways[i]| - 1))
    && forall p :: WayUp(g, start, maxHops, p) ==> p in ways
  }

  lemma RowsAreTheWaysUp(g: Rel, start: int, maxHops: nat, rows: seq<Row>) returns (ways: seq<seq<int>>)
    requires Acyclic(g) && maxHops > 0 && DeepestFirst(rows, RowsUpTo(g, FirstEdges(g, start), maxHops - 1))
    ensures AreTheWaysUp(g, start, maxHops, rows, ways)
  {
    hide RowsUpTo, FirstEdges, WayUp, RowFor;
    var all := RowsUpTo(g, FirstEdges(g, start), maxHops - 1);
    ways := [];
    for n := 0 to |rows|
      invariant |ways| == n
      invariant forall i :: 0 <= i < n ==>
        WayUp(g, start, maxHops, ways[i]) && ways[i] != [] && rows[i] == RowFor(ways[i], |ways[i]| - 1)
    {
      assert rows[n] in Elements(rows);
      var p := RowIsWayUp(g, start, maxHops, rows[n]);
      WayIsNotEmpty(g, start, maxHops, p);
      ways := ways + [p];
    }
    forall p | WayUp(g, start, maxHops, p) ensures p in ways {
      WayIsNotEmpty(g, start, maxHops, p);
      WayUpIsRow(g, start, maxHops, p);
      var i := IndexOf(rows, all, RowFor(p, |p| - 1));
      SameRowSamePath(p, ways[i]);
    }
  }

  lemma WayIsNotEmpty(g: Rel, start: int, maxHops: nat, p: seq<int>)
    requires WayUp(g, start, maxHops, p)
    ensures p != []
  {
  }

  lemma SameRowSamePath(p: seq<int>, q: seq<int>)
    requires p != [] && q != [] && RowFor(p, |p| - 1) == RowFor(q, |q| - 1)
    ensures p == q
  {
    PathTextIsInjective(p, q);
  }

  /**
   * Ancestors of any hierarchical reference, lists included: one row for every way up of at most maxHops
   * references, so a node reached along several ways is listed once for each, the longest ways first.
   */
  lemma AncestorsAreTheWaysUp(
    schema: Schema, db: DB, typ: string, start: int, field: string, maxHops: int, rows: seq<Row>)
    returns (ways: seq<seq<int>>)
    requires ValidSchema(schema) && ValidGraph(schema, db.nodes, db.edges)
    requires ValidateTraversal(schema, db.nodes, typ, start, field, maxHops, false).None?
    requires maxHops > 0
    requires DeepestFirst(rows,
      RowsUpTo(FieldPairs(db.edges, field), FirstEdges(FieldPairs(db.edges, field), start), maxHops - 1))
    ensures AreTheWaysUp(FieldGraph(db.nodes, db.edges, typ, field), start, maxHops, rows, ways)
    ensures forall i :: 0 <= i < |rows| ==>
      ways[i] != [] && rows[i].id == ways[i][|ways[i]| - 1] && rows[i].depth == |ways[i]| - 1
    ensures forall i, j :: 0 <= i < j < |rows| ==> |ways[i]| >= |ways[j]|
  {
    var h := FieldGraph(db.nodes, db.edges, typ, field);
    TableIsOfType(schema, db, typ, start, field, maxHops);
    HierarchyIsAcyclic(schema, db, typ, field);
    hide ValidSchema, ValidGraph, Acyclic, FieldGraph, FieldPairs, FirstEdges, RowsUpTo;
    ways := RowsAreTheWaysUp(h, start, maxHops, rows);
  }

  /** The query starts inside the type and the field's edges stay in it. */
  lemma TableIsOfType(schema: Schema, db: DB, typ: string, start: int, field: string, maxHops: int)
    requires ValidSchema(schema) && ValidGraph(schema, db.nodes, db.edges) && maxHops > 0
    requires ValidateTraversal(schema, db.nodes, typ, start, field, maxHops, false).None?
    ensures
      var g, h := FieldPairs(db.edges, field), FieldGraph(db.nodes, db.edges, typ, field);
      RowsUpTo(g, FirstEdges(g, start), maxHops - 1) == RowsUpTo(h, FirstEdges(h, start), maxHops - 1)
  {
    hide ValidSchema, NoCycles, NoConflicts, ValidEdges, FirstEdges, RowsUpTo;
    var g, h := FieldPairs(db.edges, field), FieldGraph(db.nodes, db.edges, typ, field);
    TraversableIsWithinType(schema, db.nodes, typ, start, field, maxHops, false);
    FieldGraphInPairs(db.nodes, db.edges, typ, field);
    forall e | e in g && e.0 in OfType(db.nodes, typ) ensures e in h && e.1 in OfType(db.nodes, typ) {
      EdgesStayInType(schema, db.nodes, db.edges, typ, field, e);
    }
    TableStaysInside(g, h, OfType(db.nodes, typ), start, maxHops - 1);
  }
}
