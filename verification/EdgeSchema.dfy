/**
 * Deriving the storage flags of edges from the schema (core/edge_schema.go): what a pass makes of each
 * row, when it fails, and when running it again is safe.
 */
module EdgeSchema {
  import opened Common
  import opened Types
  import opened Store
  import opened Invariants

  // ---------------------------------------------------------------- one row

  /** The field a row belongs to when the pass is at a type: rows are selected by the type of their source. */
  function FieldFor(schema: Schema, nodes: map<int, Node>, typ: string, e: Edge): Option<FieldDef> {
    if e.from in nodes && nodes[e.from].typ == typ && FieldOn(schema, typ, e.field).Some?
       && IsRefKind(FieldOn(schema, typ, e.field).value.kind)
    then FieldOn(schema, typ, e.field) else None
  }

  /** The row as a field's pass rewrites it. */
  function Derived(f: FieldDef, e: Edge): Edge {
    var swap := Undirected(f) && e.from > e.to;
    Edge(if swap then e.to else e.from, e.field, if swap then e.from else e.to, e.sort, f.kind == Ref, Undirected(f))
  }

  function SettleIn(schema: Schema, nodes: map<int, Node>, typ: string, e: Edge): Edge {
    match FieldFor(schema, nodes, typ, e) case Some(f) => Derived(f, e) case None => e
  }

  /** The row after the pass has been at each type of the list. */
  function Settle(schema: Schema, nodes: map<int, Node>, types: seq<string>, e: Edge): Edge {
    if types == [] then e else Settle(schema, nodes, types[1..], SettleIn(schema, nodes, types[0], e))
  }

  function Cleared(e: Edge): Edge { e.(single := false, symmetric := false) }

  function Settled(schema: Schema, nodes: map<int, Node>, types: seq<string>, e: Edge): Edge {
    Settle(schema, nodes, types, Cleared(e))
  }

  function SettledAll(
    schema: Schema, nodes: map<int, Node>, types: seq<string>, edges: map<int, Edge>): map<int, Edge> {
    map k | k in edges :: Settled(schema, nodes, types, edges[k])
  }

  // ---------------------------------------------------------------- what the tables enforce

  /** UNIQUE (from_node, field, to_node) */
  predicate UniqueTriples(edges: map<int, Edge>) {
    forall i, j :: i in edges && j in edges && i != j ==> !SamePair(edges[i], edges[j])
  }

  /** Foreign keys. */
  predicate Anchored(nodes: map<int, Node>, edges: map<int, Edge>) {
    forall k :: k in edges ==> edges[k].from in nodes && edges[k].to in nodes
  }

  /** n is an end of the row that a single reference may use only once. */
  predicate UsesEnd(e: Edge, n: int) { e.single && (e.from == n || (e.symmetric && e.to == n)) }

  predicate SharesEnd(a: Edge, b: Edge) {
    a.field == b.field && ((a.single && UsesEnd(b, a.from)) || (a.single && a.symmetric && UsesEnd(b, a.to)))
  }

  /** validateStoredSingleRefs: no end occurs twice for a field, a row with equal ends counting twice. */
  predicate SingleRefsHold(edges: map<int, Edge>) {
    && (forall k :: k in edges && edges[k].single && edges[k].symmetric ==> edges[k].from != edges[k].to)
    && (forall i, j :: i in edges && j in edges && i != j ==> !SharesEnd(edges[i], edges[j]))
  }

  // ---------------------------------------------------------------- a row settles

  lemma {:induction false} SettleSkips(schema: Schema, nodes: map<int, Node>, types: seq<string>, e: Edge)
    requires e.from in nodes && nodes[e.from].typ !in types
    ensures Settle(schema, nodes, types, e) == e
  {
    if types != [] {
      assert types[0] in types;
      SettleSkips(schema, nodes, types[1..], e);
    }
  }

  lemma {:induction false} SettleAppend(schema: Schema, nodes: map<int, Node>, a: seq<string>, b: seq<string>, e: Edge)
    ensures Settle(schema, nodes, a + b, e) == Settle(schema, nodes, b, Settle(schema, nodes, a, e))
    decreases |a|
  {
    if a == [] {
      assert a + b == b;
    } else {
      assert (a + b)[1..] == a[1..] + b;
      SettleAppend(schema, nodes, a[1..], b, SettleIn(schema, nodes, a[0], e));
    }
  }

  /**
   * Only the turn of the source's own type rewrites a row, and afterwards only a later turn of its new
   * source's type.
   */
  lemma SettleAt(schema: Schema, nodes: map<int, Node>, types: seq<string>, e: Edge, t: nat)
    requires Distinct(types) && t < |types| && e.from in nodes && nodes[e.from].typ == types[t]
    ensures Settle(schema, nodes, types, e)
      == Settle(schema, nodes, types[t + 1..], SettleIn(schema, nodes, types[t], e))
  {
    var a, b := types[..t], types[t..];
    assert types == a + b && b[1..] == types[t + 1..];
    SettleAppend(schema, nodes, a, b, e);
    forall i | 0 <= i < |a| ensures a[i] != types[t] { assert a[i] == types[i]; }
    SettleSkips(schema, nodes, a, e);
  }

  lemma NotLater(types: seq<string>, t: nat)
    requires Distinct(types) && t < |types|
    ensures types[t] !in types[t + 1..]
  {
    var later := types[t + 1..];
    forall i | 0 <= i < |later| ensures later[i] != types[t] { assert later[i] == types[t + 1 + i]; }
  }

  /** The row's ends, whichever way round, its field and its place in the order are kept. */
  predicate SameLink(a: Edge, b: Edge) {
    && a.field == b.field && a.sort == b.sort
    && ((a.from == b.from && a.to == b.to) || (a.from == b.to && a.to == b.from))
  }

  lemma {:induction false} SettleKeepsLink(schema: Schema, nodes: map<int, Node>, types: seq<string>, e: Edge)
    ensures SameLink(e, Settle(schema, nodes, types, e))
  {
    if types != [] {
      SettleKeepsLink(schema, nodes, types[1..], SettleIn(schema, nodes, types[0], e));
    }
  }

  // ---------------------------------------------------------------- running the pass again

  function FlagsOf(f: Option<FieldDef>): (bool, bool) {
    match f case Some(f) => (f.kind == Ref, Undirected(f)) case None => (false, false)
  }

  predicate ComesAfter(types: seq<string>, later: string, earlier: string) {
    exists i, j :: 0 <= i < j < |types| && types[i] == earlier && types[j] == later
  }

  /** A row of an undirected field, stored with the larger id first: the pass turns it round. */
  predicate Turned(schema: Schema, nodes: map<int, Node>, e: Edge)
    requires e.from in nodes
  {
    var f := FieldFor(schema, nodes, nodes[e.from].typ, e);
    f.Some? && Undirected(f.value) && e.from > e.to
  }

  /** A row whose ends an undirected field swaps onto a source of another type. */
  predicate Strays(schema: Schema, nodes: map<int, Node>, e: Edge)
    requires e.from in nodes && e.to in nodes
  {
    Turned(schema, nodes, e) && nodes[e.to].typ != nodes[e.from].typ
  }

  /** The turn of its new source's type still comes, or gives the row the flags it has. */
  predicate Recovers(schema: Schema, nodes: map<int, Node>, types: seq<string>, e: Edge)
    requires e.from in nodes && e.to in nodes
  {
    var (t, u) := (nodes[e.from].typ, nodes[e.to].typ);
    var g := FieldFor(schema, nodes, u, e.(from := e.to, to := e.from));
    g.Some? && (ComesAfter(types, u, t) || FlagsOf(g) == FlagsOf(FieldFor(schema, nodes, t, e)))
  }

  predicate Stable(schema: Schema, nodes: map<int, Node>, types: seq<string>, e: Edge)
    requires e.from in nodes && e.to in nodes
  {
    Strays(schema, nodes, e) ==> Recovers(schema, nodes, types, e)
  }

  lemma Position(types: seq<string>, t: string) returns (i: nat)
    requires t in types
    ensures i < |types| && types[i] == t
  {
    i :| 0 <= i < |types| && types[i] == t;
  }

  lemma LaterIff(types: seq<string>, i: nat, u: string)
    requires Distinct(types) && i < |types|
    ensures u in types[i + 1..] <==> ComesAfter(types, u, types[i])
  {
    var rest := types[i + 1..];
    if u in rest {
      var j := Position(rest, u);
      assert types[i] == types[i] && types[i + 1 + j] == u;
    }
    if ComesAfter(types, u, types[i]) {
      var a, b :| 0 <= a < b < |types| && types[a] == types[i] && types[b] == u;
      assert rest[b - i - 1] == u;
    }
  }

  /** A row whose source keeps its type when rewritten settles in one turn. */
  lemma SettlesInOneTurn(schema: Schema, nodes: map<int, Node>, types: seq<string>, e: Edge)
    requires Enumerates(types, schema.Keys) && e.from in nodes && e.to in nodes && !Strays(schema, nodes, e)
    ensures Settle(schema, nodes, types, e) == SettleIn(schema, nodes, nodes[e.from].typ, e)
  {
    var typ := nodes[e.from].typ;
    if typ in types {
      var t := Position(types, typ);
      SettleAt(schema, nodes, types, e, t);
      NotLater(types, t);
      SettleSkips(schema, nodes, types[t + 1..], SettleIn(schema, nodes, typ, e));
    } else {
      SettleSkips(schema, nodes, types, e);
    }
  }

  /** A stray row: rewritten at its first type's turn, and again if its new type's turn is still to come. */
  lemma StraySettles(schema: Schema, nodes: map<int, Node>, types: seq<string>, e: Edge)
    requires Enumerates(types, schema.Keys) && e.from in nodes && e.to in nodes && Strays(schema, nodes, e)
    ensures
      var (t, u) := (nodes[e.from].typ, nodes[e.to].typ);
      var first := SettleIn(schema, nodes, t, e);
      Settle(schema, nodes, types, e) == if ComesAfter(types, u, t) then SettleIn(schema, nodes, u, first) else first
  {
    var (t, u) := (nodes[e.from].typ, nodes[e.to].typ);
    assert t in schema.Keys;
    var i := Position(types, t);
    SettleAt(schema, nodes, types, e, i);
    var rest, first := types[i + 1..], SettleIn(schema, nodes, t, e);
    LaterIff(types, i, u);
    if u in rest {
      var j := Position(rest, u);
      SettleAt(schema, nodes, rest, first, j);
      NotLater(rest, j);
      SettleSkips(schema, nodes, rest[j + 1..], SettleIn(schema, nodes, u, first));
    } else {
      SettleSkips(schema, nodes, rest, first);
    }
  }

  /** A second pass leaves a row as the first left it exactly when the row is stable. */
  lemma SettledTwiceIff(schema: Schema, nodes: map<int, Node>, types: seq<string>, e: Edge)
    requires Enumerates(types, schema.Keys) && e.from in nodes && e.to in nodes
    ensures Settled(schema, nodes, types, Settled(schema, nodes, types, e)) == Settled(schema, nodes, types, e)
      <==> Stable(schema, nodes, types, e)
  {
    var c := Cleared(e);
    var s := Settled(schema, nodes, types, e);
    SettleKeepsLink(schema, nodes, types, c);
    if Strays(schema, nodes, e) {
      StraySettles(schema, nodes, types, c);
    } else {
      SettlesInOneTurn(schema, nodes, types, c);
    }
    assert !Strays(schema, nodes, s);
    SettlesInOneTurn(schema, nodes, types, Cleared(s));
  }

  /** Running the pass on its own result changes nothing exactly when every row was stable. */
  lemma SecondRunChangesNothingIff(schema: Schema, nodes: map<int, Node>, types: seq<string>, edges: map<int, Edge>)
    requires Enumerates(types, schema.Keys) && Anchored(nodes, edges)
    ensures
      var after := SettledAll(schema, nodes, types, edges);
      SettledAll(schema, nodes, types, after) == after
      <==> forall k :: k in edges ==> Stable(schema, nodes, types, edges[k])
  {
    var after := SettledAll(schema, nodes, types, edges);
    var twice := SettledAll(schema, nodes, types, after);
    forall k | k in edges ensures twice[k] == after[k] <==> Stable(schema, nodes, types, edges[k]) {
      SettledTwiceIff(schema, nodes, types, edges[k]);
    }
    hide Settled, Stable;
    assert twice.Keys == after.Keys == edges.Keys;
    if forall k :: k in edges ==> Stable(schema, nodes, types, edges[k]) {
      assert twice == after;
    }
  }

  // ---------------------------------------------------------------- what a pass establishes

  predicate Canonical(e: Edge) { e.symmetric ==> e.from <= e.to }

  lemma {:induction false} SettleKeepsCanonical(schema: Schema, nodes: map<int, Node>, types: seq<string>, e: Edge)
    requires Canonical(e)
    ensures Canonical(Settle(schema, nodes, types, e))
  {
    if types != [] {
      SettleKeepsCanonical(schema, nodes, types[1..], SettleIn(schema, nodes, types[0], e));
    }
  }

  /** One row per pair, unordered when undirected. */
  predicate OnePerPair(edges: map<int, Edge>) {
    forall i, j :: i in edges && j in edges && i != j && edges[i].field == edges[j].field ==>
      && !(edges[i].from == edges[j].from && edges[i].to == edges[j].to)
      && !(edges[i].symmetric && edges[j].symmetric && edges[i].from == edges[j].to && edges[i].to == edges[j].from)
  }

  /** The flags of the field declared for the row's source, or none if no reference field is. */
  predicate HasFlags(schema: Schema, nodes: map<int, Node>, e: Edge)
    requires e.from in nodes
  {
    (e.single, e.symmetric) == FlagsOf(FieldFor(schema, nodes, nodes[e.from].typ, e))
  }

  /** A settled row has the flags the schema gives its source exactly when the raw row was stable. */
  lemma SettledFlagsIff(schema: Schema, nodes: map<int, Node>, types: seq<string>, e: Edge)
    requires Enumerates(types, schema.Keys) && e.from in nodes && e.to in nodes
    ensures SameLink(e, Settled(schema, nodes, types, e))
    ensures HasFlags(schema, nodes, Settled(schema, nodes, types, e)) <==> Stable(schema, nodes, types, e)
  {
    var c := Cleared(e);
    SettleKeepsLink(schema, nodes, types, c);
    if Strays(schema, nodes, e) {
      StraySettles(schema, nodes, types, c);
    } else {
      SettlesInOneTurn(schema, nodes, types, c);
    }
  }

  /**
   * The flags a row settles with: those of its source's field, or, for a stray row, of its new source's if
   * that turn still comes.
   */
  function SettledFlags(schema: Schema, nodes: map<int, Node>, types: seq<string>, e: Edge): (bool, bool)
    requires e.from in nodes && e.to in nodes
  {
    var (t, u) := (nodes[e.from].typ, nodes[e.to].typ);
    var g := FieldFor(schema, nodes, u, e.(from := e.to, to := e.from));
    FlagsOf(if Strays(schema, nodes, e) && ComesAfter(types, u, t) && g.Some? then g else FieldFor(schema, nodes, t, e))
  }

  /**
   * What a pass makes of any one row: only undirected rows are turned round, directed ones keep their
   * direction. A stray row stays turned round, whatever field its new source gives it.
   */
  lemma SettledRowIs(schema: Schema, nodes: map<int, Node>, types: seq<string>, e: Edge)
    requires Enumerates(types, schema.Keys) && e.from in nodes && e.to in nodes
    ensures
      var (turned, flags) := (Turned(schema, nodes, e), SettledFlags(schema, nodes, types, e));
      Settled(schema, nodes, types, e)
      == Edge(if turned then e.to else e.from, e.field, if turned then e.from else e.to, e.sort, flags.0, flags.1)
  {
    var c := Cleared(e);
    if Strays(schema, nodes, e) {
      StraySettles(schema, nodes, types, c);
    } else {
      SettlesInOneTurn(schema, nodes, types, c);
    }
  }

  /** A row of a reference field the schema declares, between nodes of the declared types. */
  predicate Typed(schema: Schema, nodes: map<int, Node>, e: Edge) {
    && e.from in nodes && e.to in nodes && nodes[e.from].typ in schema
    && var f := FieldByName(schema[nodes[e.from].typ].fields, e.field);
       && f.Some? && (f.value.kind == Ref || f.value.kind == RefList) && nodes[e.to].typ == f.value.to
       && (f.value.symmetric || f.value.equivalence ==> e.from != e.to)
  }

  /** Whatever its flags and the order of its ends, a pass makes of a typed row the row an insert would have stored. */
  lemma TypedRowIsRepaired(schema: Schema, nodes: map<int, Node>, types: seq<string>, e: Edge)
    requires ValidSchema(schema) && Enumerates(types, schema.Keys) && Typed(schema, nodes, e)
    ensures ValidEdge(schema, nodes, Settled(schema, nodes, types, e))
    ensures
      var f := FieldByName(schema[nodes[e.from].typ].fields, e.field).value;
      Settled(schema, nodes, types, e) == Stored(f, e.from, e.to, e.sort)
  {
    var f := FieldByName(schema[nodes[e.from].typ].fields, e.field).value;
    if Undirected(f) { UndirectedStaysHome(schema, nodes[e.from].typ, f); }
    SettledRowIs(schema, nodes, types, e);
  }

  /** A pass over rows that inserts have stored changes nothing. */
  lemma ValidTableIsSettled(schema: Schema, nodes: map<int, Node>, types: seq<string>, edges: map<int, Edge>)
    requires ValidSchema(schema) && Enumerates(types, schema.Keys) && ValidEdges(schema, nodes, edges)
    ensures SettledAll(schema, nodes, types, edges) == edges
  {
    forall k | k in edges ensures Settled(schema, nodes, types, edges[k]) == edges[k] {
      var e := edges[k];
      assert ValidEdge(schema, nodes, e);
      var f := FieldByName(schema[nodes[e.from].typ].fields, e.field).value;
      TypedRowIsRepaired(schema, nodes, types, e);
      assert Stored(f, e.from, e.to, e.sort) == e;
    }
    hide Settled, ValidEdges;
    assert SettledAll(schema, nodes, types, edges).Keys == edges.Keys;
  }

  /**
   * A stray row whose new source gives it a directed field becomes a row of that field in the opposite
   * direction of the raw one; otherwise it keeps the undirected flag.
   */
  lemma StrayBecomesDirectedIff(schema: Schema, nodes: map<int, Node>, types: seq<string>, e: Edge)
    requires Enumerates(types, schema.Keys) && e.from in nodes && e.to in nodes && Strays(schema, nodes, e)
    ensures
      var (s, u) := (Settled(schema, nodes, types, e), nodes[e.to].typ);
      var g := FieldFor(schema, nodes, u, e.(from := e.to, to := e.from));
      && s.from == e.to && s.to == e.from
      && (!s.symmetric <==> ComesAfter(types, u, nodes[e.from].typ) && g.Some? && !Undirected(g.value))
  {
    SettledRowIs(schema, nodes, types, e);
  }

  /** Every row with existing ends is turned round exactly when it is undirected and stored the wrong way round. */
  predicate EndsSettled(schema: Schema, nodes: map<int, Node>, raw: map<int, Edge>, edges: map<int, Edge>) {
    forall k :: k in raw && k in edges && raw[k].from in nodes && raw[k].to in nodes ==>
      (edges[k].from, edges[k].to)
      == if Turned(schema, nodes, raw[k]) then (raw[k].to, raw[k].from) else (raw[k].from, raw[k].to)
  }

  /** The same links in canonical order, each pair once, single references once per end. */
  predicate Consistent(raw: map<int, Edge>, edges: map<int, Edge>) {
    && edges.Keys == raw.Keys
    && (forall k :: k in raw ==> SameLink(raw[k], edges[k]) && Canonical(edges[k]))
    && OnePerPair(edges) && NoConflicts(edges)
  }

  /** Each row has the flags the schema gives its source exactly when it was stable. */
  predicate FlagsSettled(
    schema: Schema, nodes: map<int, Node>, types: seq<string>, raw: map<int, Edge>, edges: map<int, Edge>) {
    forall k :: k in raw && k in edges && raw[k].from in nodes && raw[k].to in nodes ==>
      edges[k].from in nodes && (HasFlags(schema, nodes, edges[k]) <==> Stable(schema, nodes, types, raw[k]))
  }

  /** A pass that succeeds, over whatever rows, establishes all that inserts rely on. */
  lemma SyncedIsConsistent(schema: Schema, nodes: map<int, Node>, types: seq<string>, edges: map<int, Edge>)
    requires Enumerates(types, schema.Keys)
    requires UniqueTriples(SettledAll(schema, nodes, types, edges))
    requires SingleRefsHold(SettledAll(schema, nodes, types, edges))
    ensures Consistent(edges, SettledAll(schema, nodes, types, edges))
    ensures EndsSettled(schema, nodes, edges, SettledAll(schema, nodes, types, edges))
    ensures FlagsSettled(schema, nodes, types, edges, SettledAll(schema, nodes, types, edges))
  {
    var after := SettledAll(schema, nodes, types, edges);
    assert after.Keys == edges.Keys;
    forall k | k in edges
      ensures SameLink(edges[k], after[k]) && Canonical(after[k])
      ensures edges[k].from in nodes && edges[k].to in nodes ==>
        (HasFlags(schema, nodes, after[k]) <==> Stable(schema, nodes, types, edges[k]))
    {
      SettleKeepsLink(schema, nodes, types, Cleared(edges[k]));
      SettleKeepsCanonical(schema, nodes, types, Cleared(edges[k]));
      if edges[k].from in nodes && edges[k].to in nodes { SettledFlagsIff(schema, nodes, types, edges[k]); }
    }
    EndsSettle(schema, nodes, types, edges);
    hide SettledAll, Conflicts, OnePerPair, Stable, HasFlags;
    CanonicalIsOnePerPair(after);
    forall i, j | i in after && j in after && i != j ensures !Conflicts(after[i], after[j]) {
      NoSharedEnd(after, i, j);
    }
  }

  lemma EndsSettle(schema: Schema, nodes: map<int, Node>, types: seq<string>, edges: map<int, Edge>)
    requires Enumerates(types, schema.Keys)
    ensures EndsSettled(schema, nodes, edges, SettledAll(schema, nodes, types, edges))
  {
    hide Settled, Turned, SettledFlags;
    forall k | k in edges && edges[k].from in nodes && edges[k].to in nodes
      ensures
        var s := Settled(schema, nodes, types, edges[k]);
        (s.from, s.to)
        == if Turned(schema, nodes, edges[k]) then (edges[k].to, edges[k].from) else (edges[k].from, edges[k].to)
    {
      SettledRowIs(schema, nodes, types, edges[k]);
    }
  }

  lemma CanonicalIsOnePerPair(edges: map<int, Edge>)
    requires UniqueTriples(edges) && forall k :: k in edges ==> Canonical(edges[k])
    ensures OnePerPair(edges)
  {
    forall i, j | i in edges && j in edges && i != j && edges[i].field == edges[j].field && edges[i].symmetric
      && edges[j].symmetric
      ensures !(edges[i].from == edges[j].to && edges[i].to == edges[j].from)
    {
      assert Canonical(edges[i]) && Canonical(edges[j]);
      assert !SamePair(edges[i], edges[j]);
    }
  }

  lemma NoSharedEnd(edges: map<int, Edge>, i: int, j: int)
    requires UniqueTriples(edges) && SingleRefsHold(edges) && i in edges && j in edges && i != j
    ensures !Conflicts(edges[i], edges[j])
  {
    assert !SharesEnd(edges[i], edges[j]) && !SamePair(edges[i], edges[j]);
  }

  // ---------------------------------------------------------------- a row that a second run changes

  /** Posts are mutual friends of each other; one raw row has a tag as its target. */
  function PostsAndTags(): Schema {
    map["post" := TypeDef("post",
      [FieldDef("friend", RefList, "post", [], None, [], false, None, false, true, false, false)], None, None, None),
        "tag" := TypeDef("tag", [], None, None, None)]
  }

  /** Running the pass twice on a mistyped undirected row clears the flags the first run set. */
  lemma SecondRunClearsFlags()
    ensures
      var nodes := map[1 := Node("tag", "t", 1, map[]), 2 := Node("post", "p", 1, map[])];
      var raw := map[7 := Edge(2, "friend", 1, 0, false, false)];
      var once := SettledAll(PostsAndTags(), nodes, ["post", "tag"], raw);
      && ValidSchema(PostsAndTags()) && Anchored(nodes, raw)
      && once == map[7 := Edge(1, "friend", 2, 0, false, true)]
      && SettledAll(PostsAndTags(), nodes, ["post", "tag"], once) == map[7 := Edge(1, "friend", 2, 0, false, false)]
  {
    var nodes := map[1 := Node("tag", "t", 1, map[]), 2 := Node("post", "p", 1, map[])];
    var schema, types := PostsAndTags(), ["post", "tag"];
    assert "post" != "tag" by { assert "post"[0] != "tag"[0]; }
    var f := schema["post"].fields[0];
    assert schema["post"].fields == [f] && FieldOn(schema, "post", "friend") == Some(f);
    var raw, once := Edge(2, "friend", 1, 0, false, false), Edge(1, "friend", 2, 0, false, true);
    assert types[1..] == ["tag"] && ["tag"][1..] == [];
    assert SettleIn(schema, nodes, "post", raw) == once && SettleIn(schema, nodes, "tag", once) == once;
    assert Settle(schema, nodes, ["tag"], once) == Settle(schema, nodes, [], once);
    assert Settled(schema, nodes, types, raw) == once;
    var c := Cleared(once);
    assert SettleIn(schema, nodes, "post", c) == c && SettleIn(schema, nodes, "tag", c) == c;
    assert Settle(schema, nodes, ["tag"], c) == Settle(schema, nodes, [], c);
    assert Settled(schema, nodes, types, once) == c;
  }
}
