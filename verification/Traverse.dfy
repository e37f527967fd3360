/** The bounded recursive walks over one field (core/traverse.go), as the queries compute them. */
module Traverse {
  import opened Common
  import opened Types
  import opened Graph
  import opened Decimal
  import opened Store
  import opened Invariants

  // ---------------------------------------------------------------- the recursive queries

  /** A row of the recursive table: a node, how far it is, and the comma-delimited way to it. */
  datatype Row = Row(id: int, depth: int, path: string)

  /** One round: every edge out of a row's node, unless its end already occurs on the row's path. */
  function Extend(g: Rel, rows: set<Row>): set<Row> {
    set w, e | w in rows && e in g && e.0 == w.id && !Instr(w.path, Mark(e.1))
      :: Row(e.1, w.depth + 1, w.path + Num(e.1) + ",")
  }

  function Rounds(g: Rel, seeds: set<Row>, k: nat): set<Row> {
    if k == 0 then seeds else Extend(g, Rounds(g, seeds, k - 1))
  }

  /** SELECT DISTINCT id over the rows of the first k rounds. */
  function Found(g: Rel, seeds: set<Row>, k: nat): set<int> {
    if k == 0 then set w | w in seeds :: w.id
    else Found(g, seeds, k - 1) + set w | w in Rounds(g, seeds, k) :: w.id
  }

  /** The rows the query starts with: the edges out of the start node, not tested against the path. */
  function FirstEdges(g: Rel, start: int): set<Row> {
    set e | e in g && e.0 == start :: Row(e.1, 1, "," + Num(e.0) + "," + Num(e.1) + ",")
  }

  /** The row the equivalence query starts with: the start node itself, at distance 0. */
  function OwnRow(start: int): set<Row> {
    {Row(start, 0, "," + Num(start) + ",")}
  }

  /** The edges of a field, whatever the type of their source. */
  function FieldPairs(edges: map<int, Edge>, field: string): Rel {
    set k | k in edges && edges[k].field == field :: (edges[k].from, edges[k].to)
  }

  function Reversed(g: Rel): Rel {
    set e | e in g :: (e.1, e.0)
  }

  function Traverse(edges: map<int, Edge>, start: int, field: string, maxHops: nat): set<int>
    requires maxHops > 0
  {
    var g := FieldPairs(edges, field);
    Found(g, FirstEdges(g, start), maxHops - 1)
  }

  function Subtree(edges: map<int, Edge>, start: int, field: string, maxHops: nat): set<int>
    requires maxHops > 0
  {
    var g := Reversed(FieldPairs(edges, field));
    Found(g, FirstEdges(g, start), maxHops - 1)
  }

  /** Both directions of the symmetric edges of a field. */
  function SymmetricPairs(edges: map<int, Edge>, field: string): Rel {
    var g := set k | k in edges && edges[k].field == field && edges[k].symmetric :: (edges[k].from, edges[k].to);
    g + Reversed(g)
  }

  function EquivalenceClass(edges: map<int, Edge>, start: int, field: string, maxHops: nat): set<int> {
    Found(SymmetricPairs(edges, field), OwnRow(start), maxHops)
  }

  // ---------------------------------------------------------------- bounded reachability

  /** x can be reached from start along at least lo and at most hi edges. */
  ghost predicate Within(g: Rel, start: int, x: int, lo: int, hi: int) {
    exists p :: Connects(g, p, start, x) && lo <= |p| - 1 <= hi
  }

  /** Cutting out a loop. */
  lemma {:induction false} Shorten(g: Rel, p: seq<int>) returns (q: seq<int>)
    requires IsPath(g, p)
    ensures Connects(g, q, p[0], p[|p| - 1]) && Distinct(q) && |q| <= |p|
    decreases |p|
  {
    if i, j :| 0 <= i < j < |p| && p[i] == p[j] {
      var r := p[..i + 1] + p[j + 1..];
      forall k | 0 <= k < |r| - 1 ensures (r[k], r[k + 1]) in g {
        if k >= i {
          var m := k + (j - i);
          assert r[k] == p[m] && (p[m], p[m + 1]) in g;
        }
      }
      assert r[|r| - 1] == p[|p| - 1];
      q := Shorten(g, r);
    } else {
      q := p;
    }
  }

  // ---------------------------------------------------------------- rows are simple paths

  /** The row a path stands for. */
  function RowFor(p: seq<int>, depth: int): Row
    requires p != []
  {
    Row(p[|p| - 1], depth, PathText(p))
  }

  lemma RowForAppend(p: seq<int>, x: int, depth: int)
    requires p != []
    ensures RowFor(p + [x], depth + 1) == Row(x, depth + 1, RowFor(p, depth).path + Num(x) + ",")
  {
    PathTextAppend(p, x);
  }

  /** Rows after k rounds: paths that grew by k, never onto themselves. */
  ghost predicate Grown(g: Rel, seed: seq<int>, p: seq<int>) {
    && seed != [] && |seed| <= |p| && p[..|seed|] == seed && IsPath(g, p)
    && forall i, j :: 0 <= i < j < |p| && |seed| <= j ==> p[i] != p[j]
  }

  lemma GrownAppend(g: Rel, s: seq<int>, q: seq<int>, x: int)
    requires Grown(g, s, q) && x !in q && (q[|q| - 1], x) in g
    ensures Grown(g, s, q + [x])
  {
    var p := q + [x];
    forall i | 0 <= i < |p| - 1 ensures (p[i], p[i + 1]) in g {
      assert p[i] == q[i];
    }
    assert p[..|s|] == q[..|s|];
    assert forall i :: 0 <= i < |q| ==> p[i] == q[i] && q[i] in q;
  }

  /** A row of the next round comes from a row of this one, by an edge to a node not on its path. */
  lemma FromRow(g: Rel, rows: set<Row>, w: Row) returns (v: Row)
    requires w in Extend(g, rows)
    ensures v in rows && (v.id, w.id) in g && !Instr(v.path, Mark(w.id))
    ensures w == Row(w.id, v.depth + 1, v.path + Num(w.id) + ",")
  {
    var u, e :| u in rows && e in g && e.0 == u.id && !Instr(u.path, Mark(e.1))
                && w == Row(e.1, u.depth + 1, u.path + Num(e.1) + ",");
    v := u;
  }

  lemma {:induction false} RowsAreGrown(g: Rel, seeds: set<Row>, starts: set<seq<int>>, d: int, k: nat, w: Row)
    returns (s: seq<int>, p: seq<int>)
    requires forall s :: s in starts ==> s != [] && IsPath(g, s)
    requires seeds == set s | s in starts && s != [] :: RowFor(s, d)
    requires w in Rounds(g, seeds, k)
    ensures s in starts && Grown(g, s, p) && |p| == |s| + k && w == RowFor(p, d + k)
  {
    if k == 0 {
      s :| s in starts && s != [] && w == RowFor(s, d);
      p := s;
    } else {
      var v := FromRow(g, Rounds(g, seeds, k - 1), w);
      hide Rounds, Extend, PathText, Mark, Instr, Grown;
      var q;
      s, q := RowsAreGrown(g, seeds, starts, d, k - 1, v);
      p := q + [w.id];
      MarkIffInPath(q, w.id);
      RowForAppend(q, w.id, d + k - 1);
      GrownAppend(g, s, q, w.id);
    }
  }

  lemma GrownPrefix(g: Rel, s: seq<int>, p: seq<int>)
    requires Grown(g, s, p) && |p| > |s|
    ensures Grown(g, s, p[..|p| - 1]) && p[|p| - 1] !in p[..|p| - 1] && (p[|p| - 2], p[|p| - 1]) in g
  {
    var q := p[..|p| - 1];
    assert q[..|s|] == s;
  }

  lemma ExtendRow(g: Rel, rows: set<Row>, w: Row, x: int)
    requires w in rows && (w.id, x) in g && !Instr(w.path, Mark(x))
    ensures Row(x, w.depth + 1, w.path + Num(x) + ",") in Extend(g, rows)
  {
    var e := (w.id, x);
    assert e in g && e.0 == w.id && e.1 == x;
  }

  lemma NextRound(g: Rel, seeds: set<Row>, k: nat, w: Row, x: int)
    requires w in Rounds(g, seeds, k) && (w.id, x) in g && !Instr(w.path, Mark(x))
    ensures Row(x, w.depth + 1, w.path + Num(x) + ",") in Rounds(g, seeds, k + 1)
  {
    ExtendRow(g, Rounds(g, seeds, k), w, x);
  }

  /** A path that goes on to a new node gives a row of the next round. */
  lemma LastStep(g: Rel, q: seq<int>, x: int, d: int, k: nat, seeds: set<Row>)
    requires q != [] && x !in q && (q[|q| - 1], x) in g
    requires RowFor(q, d) in Rounds(g, seeds, k)
    ensures RowFor(q + [x], d + 1) in Rounds(g, seeds, k + 1)
  {
    hide Rounds, Extend, PathText, Mark, Instr;
    MarkIffInPath(q, x);
    RowForAppend(q, x, d);
    NextRound(g, seeds, k, RowFor(q, d), x);
  }

  lemma {:induction false} GrownAreRows(g: Rel, seeds: set<Row>, d: int, k: nat, s: seq<int>, p: seq<int>)
    requires Grown(g, s, p) && |p| == |s| + k && RowFor(s, d) in seeds
    ensures RowFor(p, d + k) in Rounds(g, seeds, k)
    decreases k
  {
    hide Extend, PathText, Mark, Instr;
    if k > 0 {
      var q, x := p[..|p| - 1], p[|p| - 1];
      GrownPrefix(g, s, p);
      GrownAreRows(g, seeds, d, k - 1, s, q);
      assert p == q + [x];
      LastStep(g, q, x, d + k - 1, k - 1, seeds);
    } else {
      assert p == p[..|s|] == s;
    }
  }

  ghost predicate HasId(rows: set<Row>, x: int) {
    exists w :: w in rows && w.id == x
  }

  lemma IdsOf(rows: set<Row>, x: int)
    ensures x in (set w | w in rows :: w.id) <==> HasId(rows, x)
  {
  }

  /** x is on a row of round j, counted from 0. */
  ghost predicate HasRow(g: Rel, seeds: set<Row>, j: nat, x: int) {
    HasId(Rounds(g, seeds, j), x)
  }

  ghost predicate HasRowBy(g: Rel, seeds: set<Row>, k: nat, x: int) {
    exists j: nat :: j <= k && HasRow(g, seeds, j, x)
  }

  lemma {:induction false} FoundIn(g: Rel, seeds: set<Row>, k: nat, x: int)
    ensures x in Found(g, seeds, k) <==> HasRowBy(g, seeds, k, x)
  {
    IdsOf(Rounds(g, seeds, k), x);
    if k > 0 {
      FoundIn(g, seeds, k - 1, x);
      MoreRounds(g, seeds, k, x);
    } else {
      assert HasRowBy(g, seeds, 0, x) <==> HasRow(g, seeds, 0, x);
    }
  }

  lemma MoreRounds(g: Rel, seeds: set<Row>, k: nat, x: int)
    requires k > 0
    ensures HasRowBy(g, seeds, k, x) <==> HasRowBy(g, seeds, k - 1, x) || HasRow(g, seeds, k, x)
  {
    if HasRowBy(g, seeds, k, x) {
      var j: nat :| j <= k && HasRow(g, seeds, j, x);
      assert j <= k - 1 || j == k;
    }
  }

  // ---------------------------------------------------------------- what the queries return

  /** A walk that starts with an edge: exactly the other nodes within reach, and the start on a self loop. */
  lemma DirectedWalk(g: Rel, start: int, maxHops: nat, x: int)
    requires maxHops > 0
    ensures x in Found(g, FirstEdges(g, start), maxHops - 1) <==>
      if x == start then (start, start) in g else Within(g, start, x, 1, maxHops)
  {
    FoundIn(g, FirstEdges(g, start), maxHops - 1, x);
    if HasRowBy(g, FirstEdges(g, start), maxHops - 1, x) {
      RowsAreReached(g, start, maxHops, x);
    }
    if x == start && (start, start) in g {
      SelfLoopIsFound(g, start, maxHops);
    }
    if x != start && Within(g, start, x, 1, maxHops) {
      ReachedHasRow(g, start, maxHops, x);
    }
  }

  function FirstPaths(g: Rel, start: int): set<seq<int>> {
    set e | e in g && e.0 == start :: [e.0, e.1]
  }

  lemma RowsAreReached(g: Rel, start: int, maxHops: nat, x: int)
    requires maxHops > 0 && HasRowBy(g, FirstEdges(g, start), maxHops - 1, x)
    ensures if x == start then (start, start) in g else Within(g, start, x, 1, maxHops)
  {
    var seeds := FirstEdges(g, start);
    SeedPaths(g, start);
    var j: nat :| j <= maxHops - 1 && HasRow(g, seeds, j, x);
    var w :| w in Rounds(g, seeds, j) && w.id == x;
    var s, p := RowsAreGrown(g, seeds, FirstPaths(g, start), 1, j, w);
    GrownEnds(g, s, p, start);
    assert p[|p| - 1] == x;
    if x != start {
      assert Connects(g, p, start, x);
    }
  }

  /** Only the first edge of a walk may lead back to its start. */
  lemma GrownEnds(g: Rel, s: seq<int>, p: seq<int>, start: int)
    requires Grown(g, s, p) && |s| == 2 && s[0] == start
    ensures |p| >= 2 && p[0] == start
    ensures p[|p| - 1] == start ==> (start, start) in g
  {
    assert p[0] == p[..2][0] && (p[0], p[1]) in g;
    if |p| > 2 {
      assert p[|p| - 1] !in p[..|p| - 1] && p[..|p| - 1][0] == start;
    }
  }

  lemma SelfLoopIsFound(g: Rel, start: int, maxHops: nat)
    requires maxHops > 0 && (start, start) in g
    ensures HasRowBy(g, FirstEdges(g, start), maxHops - 1, start)
  {
    var e := (start, start);
    var w := Row(e.1, 1, "," + Num(e.0) + "," + Num(e.1) + ",");
    assert e in g && e.0 == start;
    assert w in FirstEdges(g, start) && w.id == start;
    assert HasRow(g, FirstEdges(g, start), 0, start);
  }

  lemma ReachedHasRow(g: Rel, start: int, maxHops: nat, x: int)
    requires x != start && Within(g, start, x, 1, maxHops)
    ensures HasRowBy(g, FirstEdges(g, start), maxHops - 1, x)
  {
    SeedPaths(g, start);
    var p :| Connects(g, p, start, x) && 1 <= |p| - 1 <= maxHops;
    var q := Shorten(g, p);
    var e := (q[0], q[1]);
    var s := [e.0, e.1];
    assert e in g && s in FirstPaths(g, start) && q[..2] == s;
    GrownAreRows(g, FirstEdges(g, start), 1, |q| - 2, s, q);
    assert RowFor(q, 1 + |q| - 2).id == x;
    assert HasRow(g, FirstEdges(g, start), |q| - 2, x);
  }

  lemma SeedPaths(g: Rel, start: int)
    ensures forall s :: s in FirstPaths(g, start) ==> |s| == 2 && IsPath(g, s) && s[0] == start
    ensures FirstEdges(g, start) == set s | s in FirstPaths(g, start) && s != [] :: RowFor(s, 1)
  {
    forall e | e in g && e.0 == start
      ensures RowFor([e.0, e.1], 1) == Row(e.1, 1, "," + Num(e.0) + "," + Num(e.1) + ",")
    {
      PathTextAppend([], e.0);
      PathTextAppend([e.0], e.1);
      assert [] + [e.0] == [e.0] && [e.0] + [e.1] == [e.0, e.1];
      assert PathText([]) == ",";
    }
    forall r | r in FirstEdges(g, start) ensures r in set s | s in FirstPaths(g, start) && s != [] :: RowFor(s, 1) {
      var e :| e in g && e.0 == start && r == Row(e.1, 1, "," + Num(e.0) + "," + Num(e.1) + ",");
      assert [e.0, e.1] in FirstPaths(g, start);
    }
  }

  lemma OwnPath(start: int)
    ensures OwnRow(start) == set s | s in {[start]} && s != [] :: RowFor(s, 0)
  {
    PathTextAppend([], start);
    assert [] + [start] == [start] && PathText([]) == ",";
    assert RowFor([start], 0) == Row(start, 0, "," + Num(start) + ",");
  }

  /** A walk that starts at the node itself: exactly the nodes within reach, the start included. */
  lemma ClassWalk(g: Rel, start: int, maxHops: nat, x: int)
    ensures x in Found(g, OwnRow(start), maxHops) <==> Within(g, start, x, 0, maxHops)
  {
    FoundIn(g, OwnRow(start), maxHops, x);
    if HasRowBy(g, OwnRow(start), maxHops, x) {
      OwnRowsAreReached(g, start, maxHops, x);
    }
    if Within(g, start, x, 0, maxHops) {
      ReachedHasOwnRow(g, start, maxHops, x);
    }
  }

  lemma OwnRowsAreReached(g: Rel, start: int, maxHops: nat, x: int)
    requires HasRowBy(g, OwnRow(start), maxHops, x)
    ensures Within(g, start, x, 0, maxHops)
  {
    OwnPath(start);
    var j: nat :| j <= maxHops && HasRow(g, OwnRow(start), j, x);
    var w :| w in Rounds(g, OwnRow(start), j) && w.id == x;
    var s, p := RowsAreGrown(g, OwnRow(start), {[start]}, 0, j, w);
    assert p[0] == p[..1][0] == start;
    assert Connects(g, p, start, x);
  }

  lemma ReachedHasOwnRow(g: Rel, start: int, maxHops: nat, x: int)
    requires Within(g, start, x, 0, maxHops)
    ensures HasRowBy(g, OwnRow(start), maxHops, x)
  {
    OwnPath(start);
    var p :| Connects(g, p, start, x) && 0 <= |p| - 1 <= maxHops;
    var q := Shorten(g, p);
    assert q[..1] == [start];
    GrownAreRows(g, OwnRow(start), 0, |q| - 1, [start], q);
    assert RowFor(q, |q| - 1).id == x;
    assert HasRow(g, OwnRow(start), |q| - 1, x);
  }

  // ---------------------------------------------------------------- the guard

  datatype TraversalError = HopsOutOfRange | BadField(error: Error) | NotTraversable | BadStart

  const MAX_HOPS := 100

  function ValidateTraversal(
    schema: Schema, nodes: map<int, Node>, typ: string, start: int, field: string, maxHops: int, equivalence: bool)
    : Option<TraversalError>
  {
    if maxHops <= 0 || maxHops > MAX_HOPS then Some(HopsOutOfRange)
    else
      match RefFieldOn(schema, typ, field)
      case Err(e) => Some(BadField(e))
      case Ok(f) =>
        if !(if equivalence then f.equivalence else Hierarchical(schema[typ], f)) then Some(NotTraversable)
        else if start !in nodes || nodes[start].typ != typ then Some(BadStart)
        else None
  }

  /**
   * A walk is accepted for 1 to 100 steps from a node of the type, along an equivalence field, or along a
   * transitive field or the tree's parent field.
   */
  lemma WalkAcceptedIff(
    schema: Schema, nodes: map<int, Node>, typ: string, start: int, field: string, maxHops: int, equivalence: bool)
    ensures ValidateTraversal(schema, nodes, typ, start, field, maxHops, equivalence).None?
      <==> && 1 <= maxHops <= 100 && start in nodes && nodes[start].typ == typ && typ in schema
           && var f := FieldByName(schema[typ].fields, field);
              && f.Some? && (f.value.kind == Ref || f.value.kind == RefList)
              && if equivalence then f.value.equivalence
                 else f.value.transitive || schema[typ].treeParent == Some(field)
  {
  }

  // ---------------------------------------------------------------- walks stay inside one type

  /** Walks from a set that the larger graph never leaves use only the smaller graph's edges. */
  lemma {:induction false} StaysInside(g: Rel, h: Rel, s: set<int>, p: seq<int>)
    requires IsPath(g, p) && p[0] in s
    requires forall e :: e in g && e.0 in s ==> e in h && e.1 in s
    ensures IsPath(h, p) && p[|p| - 1] in s
    decreases |p|
  {
    if |p| > 1 {
      assert (p[0], p[1]) in g;
      StaysInside(g, h, s, p[1..]);
      assert forall i :: 1 <= i < |p| - 1 ==> p[i] == p[1..][i - 1] && p[i + 1] == p[1..][i];
    }
  }

  lemma WithinInside(g: Rel, h: Rel, s: set<int>, start: int, x: int, lo: int, hi: int)
    requires h <= g && start in s
    requires forall e :: e in g && e.0 in s ==> e in h && e.1 in s
    ensures Within(g, start, x, lo, hi) <==> Within(h, start, x, lo, hi)
    ensures Within(g, start, x, lo, hi) ==> x in s
  {
    if Within(g, start, x, lo, hi) {
      var p :| Connects(g, p, start, x) && lo <= |p| - 1 <= hi;
      StaysInside(g, h, s, p);
      assert Connects(h, p, start, x);
    }
    if Within(h, start, x, lo, hi) {
      var p :| Connects(h, p, start, x) && lo <= |p| - 1 <= hi;
      assert Connects(g, p, start, x);
    }
  }

  function OfType(nodes: map<int, Node>, typ: string): set<int> {
    set n | n in nodes && nodes[n].typ == typ
  }

  /** The reference field under this name joins nodes of one type only. */
  predicate WithinType(schema: Schema, typ: string, field: string) {
    RefFieldOn(schema, typ, field).Ok? && RefFieldOn(schema, typ, field).value.to == typ
  }

  lemma TraversableIsWithinType(
    schema: Schema, nodes: map<int, Node>, typ: string, start: int, field: string, maxHops: int, eq: bool)
    requires ValidSchema(schema) && ValidateTraversal(schema, nodes, typ, start, field, maxHops, eq).None?
    ensures WithinType(schema, typ, field) && start in OfType(nodes, typ) && 0 < maxHops <= MAX_HOPS
  {
    var f := RefFieldOn(schema, typ, field).value;
    assert ValidTypeDef(schema, typ, schema[typ]);
    assert ValidRefField(schema, typ, f);
  }

  lemma EdgesStayInType(
    schema: Schema, nodes: map<int, Node>, edges: map<int, Edge>, typ: string, field: string, e: (int, int))
    requires ValidEdges(schema, nodes, edges) && WithinType(schema, typ, field)
    requires e in FieldPairs(edges, field) && e.0 in OfType(nodes, typ)
    ensures e in FieldGraph(nodes, edges, typ, field) && e.1 in OfType(nodes, typ)
  {
    var k :| k in edges && edges[k].field == field && e == (edges[k].from, edges[k].to);
    assert ValidEdge(schema, nodes, edges[k]);
  }

  lemma FieldGraphInPairs(nodes: map<int, Node>, edges: map<int, Edge>, typ: string, field: string)
    ensures FieldGraph(nodes, edges, typ, field) <= FieldPairs(edges, field)
  {
  }

  // ---------------------------------------------------------------- following a hierarchy

  lemma AcyclicHasNoLoop(g: Rel, x: int, lo: int, hi: int)
    requires Acyclic(g) && lo >= 1
    ensures !Within(g, x, x, lo, hi) && (x, x) !in g
  {
    if Within(g, x, x, lo, hi) {
      var p :| Connects(g, p, x, x) && lo <= |p| - 1 <= hi;
      AcyclicPathsAreSimple(g, p);
    }
    ReachSelf(g, x);
  }

  /** Traverse returns exactly the nodes 1 to maxHops references away; never the start. */
  lemma TraverseIsBoundedReach(schema: Schema, db: DB, typ: string, start: int, field: string, maxHops: int, x: int)
    requires ValidSchema(schema) && ValidGraph(schema, db.nodes, db.edges)
    requires ValidateTraversal(schema, db.nodes, typ, start, field, maxHops, false).None?
    ensures maxHops > 0
    ensures x in Traverse(db.edges, start, field, maxHops)
      <==> Within(FieldGraph(db.nodes, db.edges, typ, field), start, x, 1, maxHops)
    ensures x in Traverse(db.edges, start, field, maxHops) ==> x != start && x in OfType(db.nodes, typ)
  {
    TraversableIsWithinType(schema, db.nodes, typ, start, field, maxHops, false);
    var g, h := FieldPairs(db.edges, field), FieldGraph(db.nodes, db.edges, typ, field);
    FieldGraphInPairs(db.nodes, db.edges, typ, field);
    forall e | e in g && e.0 in OfType(db.nodes, typ) ensures e in h && e.1 in OfType(db.nodes, typ) {
      EdgesStayInType(schema, db.nodes, db.edges, typ, field, e);
    }
    WithinInside(g, h, OfType(db.nodes, typ), start, x, 1, maxHops);
    HierarchyIsAcyclic(schema, db, typ, field);
    AcyclicHasNoLoop(h, start, 1, maxHops);
    DirectedWalk(g, start, maxHops, x);
  }

  lemma HierarchyIsAcyclic(schema: Schema, db: DB, typ: string, field: string)
    requires NoCycles(schema, db.nodes, db.edges) && RefFieldOn(schema, typ, field).Ok?
    requires Hierarchical(schema[typ], RefFieldOn(schema, typ, field).value)
    ensures Acyclic(FieldGraph(db.nodes, db.edges, typ, field))
  {
    var f := RefFieldOn(schema, typ, field).value;
    assert f in schema[typ].fields && f.name == field;
  }

  function Backwards(p: seq<int>): (r: seq<int>)
    ensures |r| == |p| && forall i :: 0 <= i < |p| ==> r[i] == p[|p| - 1 - i]
  {
    seq(|p|, i requires 0 <= i < |p| => p[|p| - 1 - i])
  }

  lemma InReversed(g: Rel, a: int, b: int)
    ensures (a, b) in Reversed(g) <==> (b, a) in g
  {
    if (b, a) in g {
      var e := (b, a);
      assert e in g && (a, b) == (e.1, e.0);
    }
  }

  lemma BackwardsPath(g: Rel, p: seq<int>)
    requires IsPath(Reversed(g), p)
    ensures IsPath(g, Backwards(p))
  {
    var r := Backwards(p);
    forall i | 0 <= i < |r| - 1 ensures (r[i], r[i + 1]) in g {
      var j := |p| - 2 - i;
      assert (p[j], p[j + 1]) in Reversed(g);
      InReversed(g, p[j], p[j + 1]);
    }
  }

  lemma ReversedTwice(g: Rel)
    ensures Reversed(Reversed(g)) == g
  {
    forall e | e in g ensures e in Reversed(Reversed(g)) {
      InReversed(g, e.1, e.0);
      InReversed(Reversed(g), e.0, e.1);
    }
    forall e | e in Reversed(Reversed(g)) ensures e in g {
      InReversed(Reversed(g), e.0, e.1);
      InReversed(g, e.1, e.0);
    }
  }

  lemma WithinBackwards(g: Rel, a: int, b: int, lo: int, hi: int)
    requires Within(Reversed(g), a, b, lo, hi)
    ensures Within(g, b, a, lo, hi)
  {
    var p :| Connects(Reversed(g), p, a, b) && lo <= |p| - 1 <= hi;
    BackwardsPath(g, p);
    assert Connects(g, Backwards(p), b, a);
  }

  lemma WithinReversed(g: Rel, a: int, b: int, lo: int, hi: int)
    ensures Within(Reversed(g), a, b, lo, hi) <==> Within(g, b, a, lo, hi)
  {
    if Within(Reversed(g), a, b, lo, hi) {
      WithinBackwards(g, a, b, lo, hi);
    }
    if Within(g, b, a, lo, hi) {
      ReversedTwice(g);
      WithinBackwards(Reversed(g), b, a, lo, hi);
    }
  }

  /**
   * Subtree returns exactly the other nodes, of whatever type, from which rows of the field's name lead to the
   * start in 1 to maxHops steps; of the nodes of the type, exactly those that many references below it.
   */
  lemma SubtreeIsBoundedReach(schema: Schema, db: DB, typ: string, start: int, field: string, maxHops: int, x: int)
    requires ValidSchema(schema) && ValidGraph(schema, db.nodes, db.edges)
    requires ValidateTraversal(schema, db.nodes, typ, start, field, maxHops, false).None?
    ensures maxHops > 0
    ensures x in Subtree(db.edges, start, field, maxHops)
      <==> x != start && Within(FieldPairs(db.edges, field), x, start, 1, maxHops)
    ensures x in OfType(db.nodes, typ) ==>
      (x in Subtree(db.edges, start, field, maxHops)
       <==> Within(FieldGraph(db.nodes, db.edges, typ, field), x, start, 1, maxHops))
  {
    TraversableIsWithinType(schema, db.nodes, typ, start, field, maxHops, false);
    var g, h := FieldPairs(db.edges, field), FieldGraph(db.nodes, db.edges, typ, field);
    FieldGraphInPairs(db.nodes, db.edges, typ, field);
    forall e | e in g && e.0 in OfType(db.nodes, typ) ensures e in h && e.1 in OfType(db.nodes, typ) {
      EdgesStayInType(schema, db.nodes, db.edges, typ, field, e);
    }
    if x in OfType(db.nodes, typ) { WithinInside(g, h, OfType(db.nodes, typ), x, start, 1, maxHops); }
    WithinReversed(g, start, x, 1, maxHops);
    HierarchyIsAcyclic(schema, db, typ, field);
    AcyclicHasNoLoop(h, start, 1, maxHops);
    DirectedWalk(Reversed(g), start, maxHops, x);
    InReversed(g, start, start);
    assert (start, start) !in g;
  }

  /** x is in the subtree of r exactly when r is among the nodes x leads to, for every bound. */
  lemma SubtreeIffTraverse(schema: Schema, db: DB, typ: string, r: int, x: int, field: string, maxHops: int)
    requires ValidSchema(schema) && ValidGraph(schema, db.nodes, db.edges)
    requires ValidateTraversal(schema, db.nodes, typ, r, field, maxHops, false).None?
    requires x in OfType(db.nodes, typ)
    ensures maxHops > 0
    ensures x in Subtree(db.edges, r, field, maxHops) <==> r in Traverse(db.edges, x, field, maxHops)
  {
    SubtreeIsBoundedReach(schema, db, typ, r, field, maxHops, x);
    TraverseIsBoundedReach(schema, db, typ, x, field, maxHops, r);
  }

  // ---------------------------------------------------------------- rows of other types

  /** A row of the field's name that leads from another type to the start, or to a node less than maxHops below it. */
  ghost predicate ForeignRow(
    nodes: map<int, Node>, edges: map<int, Edge>, typ: string, field: string, start: int, maxHops: int, k: int)
  {
    && k in edges && edges[k].field == field && edges[k].from !in OfType(nodes, typ)
    && (edges[k].to == start || Within(FieldGraph(nodes, edges, typ, field), edges[k].to, start, 1, maxHops - 1))
  }

  ghost predicate SubtreeInType(db: DB, typ: string, start: int, field: string, maxHops: int)
    requires maxHops > 0
  {
    forall x :: x in Subtree(db.edges, start, field, maxHops) ==> x in OfType(db.nodes, typ)
  }

  /** The last node of a path outside a set its end is in. */
  lemma LastOutside(p: seq<int>, s: set<int>) returns (i: nat)
    requires p != [] && p[0] !in s && p[|p| - 1] in s
    ensures i < |p| - 1 && p[i] !in s && forall j :: i < j < |p| ==> p[j] in s
  {
    i := |p| - 2;
    while p[i] in s
      invariant i < |p| - 1 && forall j :: i < j < |p| ==> p[j] in s
      decreases i
    {
      i := i - 1;
    }
  }

  lemma FromRowOfField(edges: map<int, Edge>, field: string, e: (int, int)) returns (k: int)
    requires e in FieldPairs(edges, field)
    ensures k in edges && edges[k].field == field && e == (edges[k].from, edges[k].to)
  {
    k :| k in edges && edges[k].field == field && e == (edges[k].from, edges[k].to);
  }

  /** The way of a foreign node to the start enters the type by a foreign row. */
  lemma ForeignEnters(
    schema: Schema, db: DB, typ: string, start: int, field: string, maxHops: int, x: int) returns (k: int)
    requires ValidEdges(schema, db.nodes, db.edges) && WithinType(schema, typ, field) && start in OfType(db.nodes, typ)
    requires x !in OfType(db.nodes, typ) && Within(FieldPairs(db.edges, field), x, start, 1, maxHops)
    ensures ForeignRow(db.nodes, db.edges, typ, field, start, maxHops, k)
  {
    var (g, h, s) := (FieldPairs(db.edges, field), FieldGraph(db.nodes, db.edges, typ, field), OfType(db.nodes, typ));
    var p :| Connects(g, p, x, start) && 1 <= |p| - 1 <= maxHops;
    var i := LastOutside(p, s);
    assert (p[i], p[i + 1]) in g;
    k := FromRowOfField(db.edges, field, (p[i], p[i + 1]));
    var q := p[i + 1..];
    if |q| > 1 {
      SubPath(g, p, i + 1, |p| - 1);
      assert p[i + 1..|p| - 1 + 1] == q;
      forall e | e in g && e.0 in s ensures e in h && e.1 in s {
        EdgesStayInType(schema, db.nodes, db.edges, typ, field, e);
      }
      StaysInside(g, h, s, q);
      assert Connects(h, q, db.edges[k].to, start);
    }
  }

  /** A foreign row puts its source into the subtree. */
  lemma ForeignIsFound(schema: Schema, db: DB, typ: string, start: int, field: string, maxHops: int, k: int)
    requires start in OfType(db.nodes, typ) && maxHops > 0
    requires ForeignRow(db.nodes, db.edges, typ, field, start, maxHops, k)
    ensures db.edges[k].from != start && Within(FieldPairs(db.edges, field), db.edges[k].from, start, 1, maxHops)
  {
    var (g, h, e) := (FieldPairs(db.edges, field), FieldGraph(db.nodes, db.edges, typ, field), db.edges[k]);
    assert (e.from, e.to) in g;
    var q := [start];
    if e.to != start {
      q :| Connects(h, q, e.to, start) && 1 <= |q| - 1 <= maxHops - 1;
      FieldGraphInPairs(db.nodes, db.edges, typ, field);
    }
    var p := [e.from] + q;
    forall i | 0 <= i < |p| - 1 ensures (p[i], p[i + 1]) in g {
      if i > 0 { assert p[i] == q[i - 1] && p[i + 1] == q[i]; }
    }
    assert Connects(g, p, e.from, start);
  }

  /**
   * The subtree stays inside the type if and only if no row of the field's name leads from another type to the
   * start or to a node less than maxHops below it.
   */
  lemma SubtreeStaysIff(schema: Schema, db: DB, typ: string, start: int, field: string, maxHops: int)
    requires ValidSchema(schema) && ValidGraph(schema, db.nodes, db.edges)
    requires ValidateTraversal(schema, db.nodes, typ, start, field, maxHops, false).None?
    ensures maxHops > 0
    ensures SubtreeInType(db, typ, start, field, maxHops)
      <==> !exists k :: ForeignRow(db.nodes, db.edges, typ, field, start, maxHops, k)
  {
    TraversableIsWithinType(schema, db.nodes, typ, start, field, maxHops, false);
    hide OfType, FieldPairs, FieldGraph, Within, Subtree, ValidGraph, ValidateTraversal;
    if k :| ForeignRow(db.nodes, db.edges, typ, field, start, maxHops, k) {
      ForeignIsFound(schema, db, typ, start, field, maxHops, k);
      SubtreeIsBoundedReach(schema, db, typ, start, field, maxHops, db.edges[k].from);
    }
    forall x | x in Subtree(db.edges, start, field, maxHops) && x !in OfType(db.nodes, typ)
      ensures exists k :: ForeignRow(db.nodes, db.edges, typ, field, start, maxHops, k)
    {
      SubtreeIsBoundedReach(schema, db, typ, start, field, maxHops, x);
      GraphHasValidEdges(schema, db);
      var k := ForeignEnters(schema, db, typ, start, field, maxHops, x);
    }
  }

  lemma GraphHasValidEdges(schema: Schema, db: DB)
    requires ValidGraph(schema, db.nodes, db.edges)
    ensures ValidEdges(schema, db.nodes, db.edges)
  {
  }

  /** Without name clashes no other type has rows that lead into the tree. */
  lemma SubtreeStaysWithoutClash(schema: Schema, db: DB, typ: string, start: int, field: string, maxHops: int)
    requires ValidSchema(schema) && NoNameClash(schema) && ValidGraph(schema, db.nodes, db.edges)
    requires ValidateTraversal(schema, db.nodes, typ, start, field, maxHops, false).None?
    ensures maxHops > 0 && SubtreeInType(db, typ, start, field, maxHops)
  {
    TraversableIsWithinType(schema, db.nodes, typ, start, field, maxHops, false);
    SubtreeStaysIff(schema, db, typ, start, field, maxHops);
    hide *;
    forall k ensures !ForeignRow(db.nodes, db.edges, typ, field, start, maxHops, k) {
      GraphHasValidEdges(schema, db);
      NoForeignRow(schema, db, typ, start, field, maxHops, k);
    }
  }

  lemma NoForeignRow(schema: Schema, db: DB, typ: string, start: int, field: string, maxHops: int, k: int)
    requires NoNameClash(schema) && ValidEdges(schema, db.nodes, db.edges)
    requires WithinType(schema, typ, field) && start in OfType(db.nodes, typ)
    ensures !ForeignRow(db.nodes, db.edges, typ, field, start, maxHops, k)
  {
    if k in db.edges && db.edges[k].field == field {
      var e := db.edges[k];
      assert ValidEdge(schema, db.nodes, e);
      if Within(FieldGraph(db.nodes, db.edges, typ, field), e.to, start, 1, maxHops - 1) {
        WithinStarts(db, typ, field, e.to, start, maxHops - 1);
      }
      hide Within, FieldGraph;
      if e.to in OfType(db.nodes, typ) { SameFieldSameType(schema, db.nodes, typ, field, e); }
    }
  }

  lemma SameFieldSameType(schema: Schema, nodes: map<int, Node>, typ: string, field: string, e: Edge)
    requires NoNameClash(schema) && ValidEdge(schema, nodes, e) && WithinType(schema, typ, field)
    requires e.field == field && e.to in OfType(nodes, typ)
    ensures nodes[e.from].typ == typ
  {
  }

  lemma WithinStarts(db: DB, typ: string, field: string, x: int, start: int, hi: int)
    requires Within(FieldGraph(db.nodes, db.edges, typ, field), x, start, 1, hi)
    ensures x in OfType(db.nodes, typ)
  {
    var p :| Connects(FieldGraph(db.nodes, db.edges, typ, field), p, x, start) && 1 <= |p| - 1 <= hi;
    assert (p[0], p[1]) in FieldGraph(db.nodes, db.edges, typ, field);
  }

  // ---------------------------------------------------------------- equivalence classes

  function BothWays(g: Rel): Rel { g + Reversed(g) }

  lemma SymmetricStaysInType(schema: Schema, nodes: map<int, Node>, edges: map<int, Edge>, field: string, k: int)
    requires ValidSchema(schema) && ValidEdges(schema, nodes, edges)
    requires k in edges && edges[k].field == field && edges[k].symmetric
    ensures edges[k].from in nodes && edges[k].to in nodes && nodes[edges[k].from].typ == nodes[edges[k].to].typ
  {
    var e := edges[k];
    assert ValidEdge(schema, nodes, e);
    var t := nodes[e.from].typ;
    assert ValidTypeDef(schema, t, schema[t]);
    assert ValidRefField(schema, t, FieldOn(schema, t, field).value);
  }

  lemma SymmetricEdgeInType(
    schema: Schema, nodes: map<int, Node>, edges: map<int, Edge>, typ: string, field: string, e: (int, int))
    requires ValidSchema(schema) && ValidEdges(schema, nodes, edges)
    requires e in SymmetricPairs(edges, field) && e.0 in OfType(nodes, typ)
    ensures e in BothWays(FieldGraph(nodes, edges, typ, field)) && e.1 in OfType(nodes, typ)
  {
    var k := SymmetricKey(edges, field, e);
    SymmetricStaysInType(schema, nodes, edges, field, k);
    var stored := (edges[k].from, edges[k].to);
    assert stored in FieldGraph(nodes, edges, typ, field);
    InReversed(FieldGraph(nodes, edges, typ, field), stored.1, stored.0);
  }

  lemma SymmetricKey(edges: map<int, Edge>, field: string, e: (int, int)) returns (k: int)
    requires e in SymmetricPairs(edges, field)
    ensures k in edges && edges[k].field == field && edges[k].symmetric
    ensures e == (edges[k].from, edges[k].to) || e == (edges[k].to, edges[k].from)
  {
    var g := set k | k in edges && edges[k].field == field && edges[k].symmetric :: (edges[k].from, edges[k].to);
    InReversed(g, e.0, e.1);
    var s := if e in g then e else (e.1, e.0);
    k :| k in edges && edges[k].field == field && edges[k].symmetric && s == (edges[k].from, edges[k].to);
  }

  lemma EquivalenceEdgesAreSymmetric(
    schema: Schema, nodes: map<int, Node>, edges: map<int, Edge>, typ: string, field: string)
    requires ValidEdges(schema, nodes, edges)
    requires RefFieldOn(schema, typ, field).Ok? && RefFieldOn(schema, typ, field).value.equivalence
    ensures BothWays(FieldGraph(nodes, edges, typ, field)) <= SymmetricPairs(edges, field)
  {
    var g := set k | k in edges && edges[k].field == field && edges[k].symmetric :: (edges[k].from, edges[k].to);
    forall e | e in FieldGraph(nodes, edges, typ, field) ensures e in g {
      var k :| k in edges && edges[k].field == field && edges[k].from in nodes && nodes[edges[k].from].typ == typ
               && e == (edges[k].from, edges[k].to);
      assert ValidEdge(schema, nodes, edges[k]);
    }
    forall e | e in Reversed(FieldGraph(nodes, edges, typ, field)) ensures e in Reversed(g) {
      InReversed(FieldGraph(nodes, edges, typ, field), e.0, e.1);
      InReversed(g, e.0, e.1);
    }
  }

  /** EquivalenceClass returns exactly the nodes at most maxHops undirected steps away, the start included. */
  lemma ClassIsBoundedReach(schema: Schema, db: DB, typ: string, start: int, field: string, maxHops: int, x: int)
    requires ValidSchema(schema) && ValidGraph(schema, db.nodes, db.edges)
    requires ValidateTraversal(schema, db.nodes, typ, start, field, maxHops, true).None?
    ensures maxHops >= 0
    ensures x in EquivalenceClass(db.edges, start, field, maxHops)
      <==> Within(BothWays(FieldGraph(db.nodes, db.edges, typ, field)), start, x, 0, maxHops)
    ensures x in EquivalenceClass(db.edges, start, field, maxHops) ==> x in OfType(db.nodes, typ)
    ensures start in EquivalenceClass(db.edges, start, field, maxHops)
  {
    TraversableIsWithinType(schema, db.nodes, typ, start, field, maxHops, true);
    var g, h := SymmetricPairs(db.edges, field), BothWays(FieldGraph(db.nodes, db.edges, typ, field));
    EquivalenceEdgesAreSymmetric(schema, db.nodes, db.edges, typ, field);
    forall e | e in g && e.0 in OfType(db.nodes, typ) ensures e in h && e.1 in OfType(db.nodes, typ) {
      SymmetricEdgeInType(schema, db.nodes, db.edges, typ, field, e);
    }
    WithinInside(g, h, OfType(db.nodes, typ), start, x, 0, maxHops);
    ClassWalk(g, start, maxHops, x);
    ClassWalk(g, start, maxHops, start);
    assert Connects(g, [start], start, start);
  }
}
