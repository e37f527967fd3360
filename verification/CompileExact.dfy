/**
 * Row selection by a compiled filter, and at which nodes of which states the emitted relation texts are
 * right: exactly where no edge that belongs to another relation is the only reason for a yes.
 */
module CompileExact {
  import opened Common
  import opened Types
  import opened Store
  import opened Invariants
  import opened Reads
  import opened Query
  import opened Sql
  import opened Compile
  import opened Meaning
  import opened CompileCorrect

  /** The scope of the outermost SELECT. */
  function AtRow(times: Times, id: int): Env { Env(None, map["nodes" := id], times) }

  /** SELECT id FROM nodes WHERE type = typ AND p */
  function Selected(nodes: map<int, Node>, edges: map<int, Edge>, times: Times, typ: string, p: Pred): set<int> {
    set id | id in nodes && Eval(nodes, edges, AtRow(times, id), All([TypeIs("nodes", typ), p])) == True
  }

  /** The nodes a filter is true of. */
  ghost function Matching(
    schema: Schema, nodes: map<int, Node>, edges: map<int, Edge>, outside: Outside, typ: string,
    e: Option<Expr>): set<int>
  {
    set id | id in nodes && nodes[id].typ == typ
      && (e.None? || TruthOf(schema, nodes, edges, outside, e.value, typ, id) == True)
  }

  /** A row is returned exactly when its type matches and the filter is true of it. */
  lemma SelectedAreMatching(
    schema: Schema, nodes: map<int, Node>, edges: map<int, Edge>, outside: Outside, sets: Sets, style: Style,
    typ: string, e: Option<Expr>)
    requires Sound(schema, nodes, edges, outside, sets)
    requires style.FieldTested? || e.None? || ExactFilter(schema, e.value, typ)
    requires CompileWhere(schema, sets, style, typ, e).Ok?
    ensures Selected(nodes, edges, outside.times, typ, CompileWhere(schema, sets, style, typ, e).value)
      == Matching(schema, nodes, edges, outside, typ, e)
  {
    var p := CompileWhere(schema, sets, style, typ, e).value;
    forall id | id in nodes
      ensures Eval(nodes, edges, AtRow(outside.times, id), All([TypeIs("nodes", typ), p])) == True
        <==> nodes[id].typ == typ && (e.None? || TruthOf(schema, nodes, edges, outside, e.value, typ, id) == True)
    {
      hide Eval, TruthOf, ExactFilter, Sound, CompileExpr;
      AllIsConjunction(nodes, edges, AtRow(outside.times, id), [TypeIs("nodes", typ), p]);
      AllHoldTwo(nodes, edges, AtRow(outside.times, id), TypeIs("nodes", typ), p);
      TypeTest(nodes, edges, AtRow(outside.times, id), "nodes", id, typ);
      if nodes[id].typ == typ {
        if e.Some? {
          CompiledIsMeant(schema, nodes, edges, outside, sets, style, e.value, typ, "nodes", 0, Counts(0, 0),
            AtRow(outside.times, id), id);
        } else {
          AlwaysHolds(nodes, edges, AtRow(outside.times, id));
        }
      }
    }
  }

  lemma AlwaysHolds(nodes: map<int, Node>, edges: map<int, Edge>, env: Env)
    ensures Eval(nodes, edges, env, Always) == True
  {
  }

  lemma TrueIsSelected(nodes: map<int, Node>, edges: map<int, Edge>, outside: Outside, typ: string, p: Pred, id: int)
    requires id in nodes && nodes[id].typ == typ
    ensures id in Selected(nodes, edges, outside.times, typ, p)
      <==> Eval(nodes, edges, AtRow(outside.times, id), p) == True
  {
    hide Eval;
    AllIsConjunction(nodes, edges, AtRow(outside.times, id), [TypeIs("nodes", typ), p]);
    AllHoldTwo(nodes, edges, AtRow(outside.times, id), TypeIs("nodes", typ), p);
    TypeTest(nodes, edges, AtRow(outside.times, id), "nodes", id, typ);
  }

  // ---------------------------------------------------------------- what the link text says

  /** In any store, EXISTS says that some edge passes the emitted tests and the rest holds at its far end. */
  lemma LinkTextSays(
    nodes: map<int, Node>, edges: map<int, Edge>, env: Env, style: Style, r: Resolved, row: string, far: string,
    rest: seq<Pred>, id: int)
    requires IsLink(r) && Stands(nodes, env, row, id) && Fresh(row, far)
    ensures Eval(nodes, edges, env, LinkExists(style, r, row, far, rest))
      == Decided(exists k, m :: Passes(nodes, edges, env, style, r, far, rest, id, k, m))
  {
    var on, where := FarEnd(r, row), All(LinkTests(style, r, row, far) + rest);
    forall k, m
      ensures k in edges && m in nodes && Joined(nodes, edges, Inner(env, far, k, m), m, on, where)
        <==> Passes(nodes, edges, env, style, r, far, rest, id, k, m)
    {
      if k in edges && m in nodes { JoinedIsTested(nodes, edges, env, style, r, row, far, rest, id, k, m); }
    }
    hide Passes, LinkTests, FarEnd, Joined;
    ExistsJoinSays(nodes, edges, env, far, on, where);
  }

  predicate Passes(
    nodes: map<int, Node>, edges: map<int, Edge>, env: Env, style: Style, r: Resolved, far: string, rest: seq<Pred>,
    id: int, k: int, m: int)
    requires IsLink(r)
  {
    k in edges && m in nodes && Tested(nodes, edges[k], style, r, id, m)
      && AllHold(nodes, edges, Inner(env, far, k, m), rest)
  }

  lemma JoinedIsTested(
    nodes: map<int, Node>, edges: map<int, Edge>, env: Env, style: Style, r: Resolved, row: string, far: string,
    rest: seq<Pred>, id: int, k: int, m: int)
    requires IsLink(r) && Stands(nodes, env, row, id) && Fresh(row, far) && k in edges && m in nodes
    ensures Joined(nodes, edges, Inner(env, far, k, m), m, FarEnd(r, row), All(LinkTests(style, r, row, far) + rest))
      <==> Tested(nodes, edges[k], style, r, id, m) && AllHold(nodes, edges, Inner(env, far, k, m), rest)
  {
    hide Eval, LinkTests, FarEnd, Tested, AllHold;
    var inner := Inner(env, far, k, m);
    InnerStands(nodes, edges, env, row, far, id, k, m);
    AllIsConjunction(nodes, edges, inner, LinkTests(style, r, row, far) + rest);
    AllHoldAppend(nodes, edges, inner, LinkTests(style, r, row, far), rest);
    LinkTestsSay(nodes, edges, inner, style, r, row, far, id, k, m);
  }

  /** An edge that passes the emitted tests although the relation does not lead along it. */
  predicate Intrudes(nodes: map<int, Node>, edges: map<int, Edge>, r: Resolved, id: int, k: int, m: int)
    requires IsLink(r)
  {
    k in edges && m in nodes && Tested(nodes, edges[k], AsWritten, r, id, m) && !Leads(nodes, edges[k], r, id, m)
  }

  /** Every edge of the relation passes the tests; the others that pass are the intruding ones. */
  lemma TestedSplits(
    schema: Schema, nodes: map<int, Node>, edges: map<int, Edge>, typ: string, r: Resolved, id: int, k: int, m: int)
    requires ValidSchema(schema) && ValidEdges(schema, nodes, edges) && ResolvesOn(schema, typ, r)
    requires id in nodes && nodes[id].typ == typ && k in edges && m in nodes
    ensures Tested(nodes, edges[k], AsWritten, r, id, m)
      <==> Leads(nodes, edges[k], r, id, m) || Intrudes(nodes, edges, r, id, k, m)
  {
    hide ValidSchema, ValidEdges;
    if Undirected(r.f) { TestedIsLeads(schema, nodes, edges, AsWritten, typ, r, id, k, m); }
  }

  // ---------------------------------------------------------------- exists

  ghost predicate ExistsAgrees(
    schema: Schema, nodes: map<int, Node>, edges: map<int, Edge>, outside: Outside, path: Path, missing: bool,
    typ: string, id: int)
  {
    && id in nodes
    && CompileExists(schema, AsWritten, path, missing, typ, "nodes").Ok?
    && Eval(nodes, edges, AtRow(outside.times, id), CompileExists(schema, AsWritten, path, missing, typ, "nodes").value)
       == TruthOf(schema, nodes, edges, outside, Expr.Exists(path, missing), typ, id)
  }

  /**
   * exists and missing on a relation, in any valid state and at any node: the emitted text agrees with its
   * meaning if and only if the node has a link of the relation, or no edge intrudes.
   */
  lemma ExistsTextIsRightIff(
    schema: Schema, nodes: map<int, Node>, edges: map<int, Edge>, outside: Outside, path: Path, missing: bool,
    typ: string, id: int)
    requires ValidSchema(schema) && ValidEdges(schema, nodes, edges) && id in nodes && nodes[id].typ == typ
    requires ResolvePath(schema, path, typ).Ok? && IsLink(ResolvePath(schema, path, typ).value)
    ensures
      var r := ResolvePath(schema, path, typ).value;
      ExistsAgrees(schema, nodes, edges, outside, path, missing, typ, id)
      <==> (exists other :: Linked(nodes, edges, r, id, other)) || !exists k, m :: Intrudes(nodes, edges, r, id, k, m)
  {
    var r := ResolvePath(schema, path, typ).value;
    ResolvedIsLink(schema, path, typ);
    NextAliasIsFresh("nodes", 0);
    hide Eval, ResolvePath, Linked, Leads, Tested, ValidEdges, ValidSchema, LinkExists, Intrudes, Passes;
    ExistsTexts(schema, nodes, edges, AsWritten, path, missing, typ, "nodes", AtRow(outside.times, id));
    ExistsTruth(schema, nodes, edges, outside, path, missing, typ, id);
    LinkTextSays(nodes, edges, AtRow(outside.times, id), AsWritten, r, "nodes", JoinName(r), [], id);
    hide CompileExists, TruthOf;
    PassingIs(schema, nodes, edges, outside, typ, r, JoinName(r), id);
  }

  /** Where the text of exists is wrong it selects a row the filter is not true of. */
  lemma WrongExistsSelects(
    schema: Schema, sets: Sets, nodes: map<int, Node>, edges: map<int, Edge>, outside: Outside, path: Path,
    typ: string, id: int)
    requires ValidSchema(schema) && ValidEdges(schema, nodes, edges) && id in nodes && nodes[id].typ == typ
    requires typ in schema
    requires ResolvePath(schema, path, typ).Ok? && IsLink(ResolvePath(schema, path, typ).value)
    requires !ExistsAgrees(schema, nodes, edges, outside, path, false, typ, id)
    ensures
      var r := CompileWhere(schema, sets, AsWritten, typ, Some(Expr.Exists(path, false)));
      && r.Ok? && id in Selected(nodes, edges, outside.times, typ, r.value)
      && id !in Matching(schema, nodes, edges, outside, typ, Some(Expr.Exists(path, false)))
  {
    hide ResolvePath, Linked, Leads, Tested, ValidEdges, ValidSchema, LinkExists, Intrudes, Passes, Selected;
    var r := ResolvePath(schema, path, typ).value;
    ResolvedIsLink(schema, path, typ);
    NextAliasIsFresh("nodes", 0);
    ExistsTextIsRightIff(schema, nodes, edges, outside, path, false, typ, id);
    ExistsTexts(schema, nodes, edges, AsWritten, path, false, typ, "nodes", AtRow(outside.times, id));
    ExistsTruth(schema, nodes, edges, outside, path, false, typ, id);
    LinkTextSays(nodes, edges, AtRow(outside.times, id), AsWritten, r, "nodes", JoinName(r), [], id);
    PassingIs(schema, nodes, edges, outside, typ, r, JoinName(r), id);
    TrueIsSelected(nodes, edges, outside, typ, CompileExists(schema, AsWritten, path, false, typ, "nodes").value, id);
    hide Eval, TruthOf, CompileExists;
  }

  lemma PassingIs(
    schema: Schema, nodes: map<int, Node>, edges: map<int, Edge>, outside: Outside, typ: string, r: Resolved,
    far: string, id: int)
    requires ValidSchema(schema) && ValidEdges(schema, nodes, edges) && ResolvesOn(schema, typ, r) && id in nodes
    requires nodes[id].typ == typ
    ensures (exists k, m :: Passes(nodes, edges, AtRow(outside.times, id), AsWritten, r, far, [], id, k, m))
      <==> (exists other :: Linked(nodes, edges, r, id, other)) || exists k, m :: Intrudes(nodes, edges, r, id, k, m)
  {
    hide Linked, Leads, Tested, ValidEdges, ValidSchema;
    var env := AtRow(outside.times, id);
    if k, m :| Passes(nodes, edges, env, AsWritten, r, far, [], id, k, m) {
      TestedSplits(schema, nodes, edges, typ, r, id, k, m);
      LinkedByEdge(nodes, edges, r, id, m);
      assert Linked(nodes, edges, r, id, m) || Intrudes(nodes, edges, r, id, k, m);
    }
    if m :| Linked(nodes, edges, r, id, m) {
      LinkedByEdge(nodes, edges, r, id, m);
      var k :| k in edges && Leads(nodes, edges[k], r, id, m);
      LeadsInRange(nodes, edges[k], r, id, m);
      TestedSplits(schema, nodes, edges, typ, r, id, k, m);
      assert Passes(nodes, edges, env, AsWritten, r, far, [], id, k, m);
    }
    if k, m :| Intrudes(nodes, edges, r, id, k, m) {
      assert Passes(nodes, edges, env, AsWritten, r, far, [], id, k, m);
    }
  }

  // ---------------------------------------------------------------- related

  /** The predicate a child filter of related compiles to. */
  function ChildText(schema: Schema, sets: Sets, r: Resolved, where: Expr): Compiled
    requires IsLink(r)
  {
    CompileExpr(schema, sets, AsWritten, where, TargetOf(r), Alias(1), 1, Counts(1, 1))
  }

  ghost predicate RelatedAgrees(
    schema: Schema, nodes: map<int, Node>, edges: map<int, Edge>, outside: Outside, sets: Sets,
    path: Path, where: Expr, typ: string, id: int)
  {
    id in nodes
    && var r := CompileWhere(schema, sets, AsWritten, typ, Some(Related(path, Some(where))));
       r.Ok? && Eval(nodes, edges, AtRow(outside.times, id), r.value)
         == TruthOf(schema, nodes, edges, outside, Related(path, Some(where)), typ, id)
  }

  /** The relation leads to a node the child is true of. */
  ghost predicate LedToMatch(
    schema: Schema, nodes: map<int, Node>, edges: map<int, Edge>, outside: Outside, r: Resolved, where: Expr, id: int,
    m: int)
    requires IsLink(r)
  {
    Linked(nodes, edges, r, id, m) && TruthOf(schema, nodes, edges, outside, where, TargetOf(r), m) == True
  }

  /** An intruding edge at whose far end the child's text is true. */
  predicate IntrudesWith(
    nodes: map<int, Node>, edges: map<int, Edge>, outside: Outside, r: Resolved, child: Pred, id: int, k: int, m: int)
    requires IsLink(r)
  {
    Intrudes(nodes, edges, r, id, k, m)
      && Eval(nodes, edges, Inner(AtRow(outside.times, id), Alias(1), k, m), child) == True
  }

  /** The relation leads along the edge to a node the child's text is true of. */
  predicate LedByText(
    nodes: map<int, Node>, edges: map<int, Edge>, outside: Outside, r: Resolved, child: Pred, id: int, k: int, m: int)
    requires IsLink(r)
  {
    && k in edges && m in nodes && Leads(nodes, edges[k], r, id, m)
    && Eval(nodes, edges, Inner(AtRow(outside.times, id), Alias(1), k, m), child) == True
  }

  /**
   * related over any child, exact or not: the text says yes where the relation, or an intruding edge, leads to a
   * node the child's text is true of; it is right exactly where that agrees with the relation and the child's meaning.
   */
  lemma RelatedTextIsRightIffLed(
    schema: Schema, nodes: map<int, Node>, edges: map<int, Edge>, outside: Outside, sets: Sets,
    path: Path, where: Expr, typ: string, id: int)
    requires ValidSchema(schema) && ValidEdges(schema, nodes, edges) && id in nodes && nodes[id].typ == typ
    requires ResolvePath(schema, path, typ).Ok? && IsLink(ResolvePath(schema, path, typ).value)
    requires CompileWhere(schema, sets, AsWritten, typ, Some(Related(path, Some(where)))).Ok?
    ensures ChildText(schema, sets, ResolvePath(schema, path, typ).value, where).Ok?
    ensures
      var r := ResolvePath(schema, path, typ).value;
      var child := ChildText(schema, sets, r, where).value.0;
      var text := Eval(nodes, edges, AtRow(outside.times, id),
                       CompileWhere(schema, sets, AsWritten, typ, Some(Related(path, Some(where)))).value);
      && text == Decided((exists k, m :: LedByText(nodes, edges, outside, r, child, id, k, m))
                         || exists k, m :: IntrudesWith(nodes, edges, outside, r, child, id, k, m))
      && (RelatedAgrees(schema, nodes, edges, outside, sets, path, where, typ, id)
          <==> (text == True <==> exists m :: LedToMatch(schema, nodes, edges, outside, r, where, id, m)))
  {
    hide ResolvePath, Linked, LinkExists, ValidSchema, ValidEdges;
    var r := ResolvePath(schema, path, typ).value;
    ResolvedIsLink(schema, path, typ);
    RelatedCompiles(schema, sets, path, where, typ);
    var child := ChildText(schema, sets, r, where).value.0;
    NextAliasIsFresh("nodes", 0);
    LinkTextSays(nodes, edges, AtRow(outside.times, id), AsWritten, r, "nodes", Alias(1), [child], id);
    hide Eval, CompileWhere, ChildText, Passes, LedToMatch, IntrudesWith, LedByText;
    PassingChildIs(schema, nodes, edges, outside, typ, r, child, id);
    RelatedTruth(schema, nodes, edges, outside, path, where, typ, id);
  }

  /**
   * related, for every child that is itself exact: the text agrees with its meaning if and only if the relation
   * leads to a node the child is true of, or no intruding edge leads to one the child's text is true of.
   */
  lemma RelatedTextIsRightIff(
    schema: Schema, nodes: map<int, Node>, edges: map<int, Edge>, outside: Outside, sets: Sets,
    path: Path, where: Expr, typ: string, id: int)
    requires Sound(schema, nodes, edges, outside, sets) && id in nodes && nodes[id].typ == typ
    requires ResolvePath(schema, path, typ).Ok? && IsLink(ResolvePath(schema, path, typ).value)
    requires CompileWhere(schema, sets, AsWritten, typ, Some(Related(path, Some(where)))).Ok?
    requires ExactFilter(schema, where, TargetOf(ResolvePath(schema, path, typ).value))
    ensures ChildText(schema, sets, ResolvePath(schema, path, typ).value, where).Ok?
    ensures
      var r := ResolvePath(schema, path, typ).value;
      var child := ChildText(schema, sets, r, where).value.0;
      RelatedAgrees(schema, nodes, edges, outside, sets, path, where, typ, id)
      <==> || (exists m :: LedToMatch(schema, nodes, edges, outside, r, where, id, m))
           || !exists k, m :: IntrudesWith(nodes, edges, outside, r, child, id, k, m)
  {
    hide Sound, ResolvePath, ExactFilter, Eval, CompileWhere, ChildText, RelatedAgrees, LedToMatch, IntrudesWith;
    hide LedByText;
    var r := ResolvePath(schema, path, typ).value;
    ResolvedIsLink(schema, path, typ);
    SoundParts(schema, nodes, edges, outside, sets);
    RelatedTextIsRightIffLed(schema, nodes, edges, outside, sets, path, where, typ, id);
    LedByTextIsMatch(schema, nodes, edges, outside, sets, typ, r, where, id);
  }

  lemma RelatedTruth(
    schema: Schema, nodes: map<int, Node>, edges: map<int, Edge>, outside: Outside, path: Path, where: Expr,
    typ: string, id: int)
    requires id in nodes && ResolvePath(schema, path, typ).Ok? && IsLink(ResolvePath(schema, path, typ).value)
    ensures TruthOf(schema, nodes, edges, outside, Related(path, Some(where)), typ, id)
      == Decided(exists m ::
        LedToMatch(schema, nodes, edges, outside, ResolvePath(schema, path, typ).value, where, id, m))
  {
    hide ResolvePath, Refers;
    var r := ResolvePath(schema, path, typ).value;
    if other :|
      Linked(nodes, edges, r, id, other) && TruthOf(schema, nodes, edges, outside, where, TargetOf(r), other) == True
    {
      assert LedToMatch(schema, nodes, edges, outside, r, where, id, other);
    }
  }

  lemma RelatedCompiles(schema: Schema, sets: Sets, path: Path, where: Expr, typ: string)
    requires ResolvePath(schema, path, typ).Ok? && IsLink(ResolvePath(schema, path, typ).value)
    requires CompileWhere(schema, sets, AsWritten, typ, Some(Related(path, Some(where)))).Ok?
    ensures ChildText(schema, sets, ResolvePath(schema, path, typ).value, where).Ok?
    ensures
      var r := ResolvePath(schema, path, typ).value;
      CompileWhere(schema, sets, AsWritten, typ, Some(Related(path, Some(where)))).value
      == LinkExists(AsWritten, r, "nodes", Alias(1), [ChildText(schema, sets, r, where).value.0])
  {
    hide ResolvePath, LinkExists;
  }

  /** At a linked node the child's text and its meaning agree. */
  lemma ChildAgrees(
    schema: Schema, nodes: map<int, Node>, edges: map<int, Edge>, outside: Outside, sets: Sets, typ: string,
    r: Resolved, where: Expr, id: int, k: int, m: int)
    requires Sound(schema, nodes, edges, outside, sets) && ResolvesOn(schema, typ, r)
    requires ExactFilter(schema, where, TargetOf(r))
    requires id in nodes && nodes[id].typ == typ && ChildText(schema, sets, r, where).Ok?
    requires k in edges && Leads(nodes, edges[k], r, id, m)
    ensures m in nodes && Linked(nodes, edges, r, id, m)
    ensures Eval(nodes, edges, Inner(AtRow(outside.times, id), Alias(1), k, m),
      ChildText(schema, sets, r, where).value.0) == True
      <==> LedToMatch(schema, nodes, edges, outside, r, where, id, m)
  {
    hide Sound, Linked, Leads, Eval, TruthOf, CompileExpr, ExactFilter, ValidSchema, ValidEdges;
    SoundParts(schema, nodes, edges, outside, sets);
    LinkedByEdge(nodes, edges, r, id, m);
    LinkedHasTargetType(schema, nodes, edges, typ, r, id, m);
    NextAliasIsFresh("nodes", 0);
    var env := Inner(AtRow(outside.times, id), Alias(1), k, m);
    CompiledIsMeant(schema, nodes, edges, outside, sets, AsWritten, where, TargetOf(r), Alias(1), 1, Counts(1, 1), env,
      m);
  }

  lemma PassingChildIs(
    schema: Schema, nodes: map<int, Node>, edges: map<int, Edge>, outside: Outside, typ: string, r: Resolved,
    child: Pred, id: int)
    requires ValidSchema(schema) && ValidEdges(schema, nodes, edges) && ResolvesOn(schema, typ, r)
    requires id in nodes && nodes[id].typ == typ
    ensures (exists k, m :: Passes(nodes, edges, AtRow(outside.times, id), AsWritten, r, Alias(1), [child], id, k, m))
      <==> || (exists k, m :: LedByText(nodes, edges, outside, r, child, id, k, m))
           || exists k, m :: IntrudesWith(nodes, edges, outside, r, child, id, k, m)
  {
    hide Leads, Tested, Eval, ValidSchema, ValidEdges, AllHold;
    var env := AtRow(outside.times, id);
    if k, m :| Passes(nodes, edges, env, AsWritten, r, Alias(1), [child], id, k, m) {
      TestedSplits(schema, nodes, edges, typ, r, id, k, m);
      AllHoldOne(nodes, edges, Inner(env, Alias(1), k, m), child);
      assert LedByText(nodes, edges, outside, r, child, id, k, m)
        || IntrudesWith(nodes, edges, outside, r, child, id, k, m);
    }
    if k, m :| LedByText(nodes, edges, outside, r, child, id, k, m) {
      TestedSplits(schema, nodes, edges, typ, r, id, k, m);
      AllHoldOne(nodes, edges, Inner(env, Alias(1), k, m), child);
      assert Passes(nodes, edges, env, AsWritten, r, Alias(1), [child], id, k, m);
    }
    if k, m :| IntrudesWith(nodes, edges, outside, r, child, id, k, m) {
      AllHoldOne(nodes, edges, Inner(env, Alias(1), k, m), child);
      assert Passes(nodes, edges, env, AsWritten, r, Alias(1), [child], id, k, m);
    }
  }

  /** With an exact child the linked nodes the text finds are those that match. */
  lemma LedByTextIsMatch(
    schema: Schema, nodes: map<int, Node>, edges: map<int, Edge>, outside: Outside, sets: Sets, typ: string,
    r: Resolved, where: Expr, id: int)
    requires Sound(schema, nodes, edges, outside, sets) && ResolvesOn(schema, typ, r)
    requires ExactFilter(schema, where, TargetOf(r))
    requires id in nodes && nodes[id].typ == typ && ChildText(schema, sets, r, where).Ok?
    ensures
      var child := ChildText(schema, sets, r, where).value.0;
      (exists k, m :: LedByText(nodes, edges, outside, r, child, id, k, m))
      <==> exists m :: LedToMatch(schema, nodes, edges, outside, r, where, id, m)
  {
    hide Sound, Linked, Leads, Eval, LedToMatch, ChildText, ExactFilter;
    var child := ChildText(schema, sets, r, where).value.0;
    if k, m :| LedByText(nodes, edges, outside, r, child, id, k, m) {
      ChildAgrees(schema, nodes, edges, outside, sets, typ, r, where, id, k, m);
    }
    if m :| LedToMatch(schema, nodes, edges, outside, r, where, id, m) {
      MatchIsLinked(schema, nodes, edges, outside, r, where, id, m);
      LinkedByEdge(nodes, edges, r, id, m);
      var k :| k in edges && Leads(nodes, edges[k], r, id, m);
      ChildAgrees(schema, nodes, edges, outside, sets, typ, r, where, id, k, m);
      assert LedByText(nodes, edges, outside, r, child, id, k, m);
    }
  }

  lemma MatchIsLinked(
    schema: Schema, nodes: map<int, Node>, edges: map<int, Edge>, outside: Outside, r: Resolved, where: Expr, id: int,
    m: int)
    requires IsLink(r) && LedToMatch(schema, nodes, edges, outside, r, where, id, m)
    ensures Linked(nodes, edges, r, id, m)
  {
  }

  // ---------------------------------------------------------------- membership

  ghost predicate InAgrees(
    schema: Schema, nodes: map<int, Node>, edges: map<int, Edge>, outside: Outside, sets: Sets,
    path: Path, given: seq<Value>, from: Option<Set>, typ: string, id: int)
  {
    && id in nodes
    && var r := CompileIn(schema, sets, AsWritten, path, given, from, typ, "nodes");
       r.Ok? && Eval(nodes, edges, AtRow(outside.times, id), r.value)
         == TruthOf(schema, nodes, edges, outside, In(path, given, from), typ, id)
  }

  /** An edge to a listed node that passes the membership tests although the relation does not lead along it. */
  predicate ListsIntruder(
    nodes: map<int, Node>, edges: map<int, Edge>, r: Resolved, values: seq<Value>, id: int, k: int, m: int)
    requires IsLink(r)
  {
    k in edges && m in nodes && Listed(nodes, edges[k], AsWritten, r, id, m) && !Leads(nodes, edges[k], r, id, m)
      && ListsId(values, m)
  }

  /**
   * in on a relation, for listed ids and for set expressions: the text agrees with its meaning if and only if
   * a linked node is a member, or no intruding edge leads to a listed node.
   */
  lemma InTextIsRightIff(
    schema: Schema, nodes: map<int, Node>, edges: map<int, Edge>, outside: Outside, sets: Sets,
    path: Path, given: seq<Value>, from: Option<Set>, typ: string, id: int)
    requires Sound(schema, nodes, edges, outside, sets) && id in nodes && nodes[id].typ == typ
    requires ResolvePath(schema, path, typ).Ok? && IsLink(ResolvePath(schema, path, typ).value)
    requires CompileIn(schema, sets, AsWritten, path, given, from, typ, "nodes").Ok?
    ensures SetValues(sets, ResolvePath(schema, path, typ).value, given, from).Ok?
    ensures
      var r := ResolvePath(schema, path, typ).value;
      var values := SetValues(sets, r, given, from).value;
      InAgrees(schema, nodes, edges, outside, sets, path, given, from, typ, id)
      <==> || (exists other ::
        Linked(nodes, edges, r, id, other) && Member(schema, nodes, edges, outside, given, from, other))
           || !exists k, m :: ListsIntruder(nodes, edges, r, values, id, k, m)
  {
    hide Sound, ResolvePath, Linked, ListsId, Member, LinkIn, ValidIds, ListsIntruder, Eval;
    var r := ResolvePath(schema, path, typ).value;
    var values := SetValues(sets, r, given, from).value;
    ResolvedIsLink(schema, path, typ);
    SoundParts(schema, nodes, edges, outside, sets);
    TargetIsNamed(schema, path, typ);
    MembersAreListed(schema, nodes, edges, outside, sets, typ, r, given, from, id);
    InTruth(schema, nodes, edges, outside, path, given, from, typ, id);
    hide TruthOf;
    if values == [] {
      NoneListed(nodes, edges, r, id);
      NeverHolds(nodes, edges, AtRow(outside.times, id));
    } else {
      LinkInSays(nodes, edges, AtRow(outside.times, id), AsWritten, r, "nodes", values, id);
      ListedIs(schema, nodes, edges, typ, r, values, id);
    }
  }

  /** Where the text of in is wrong it selects a row the filter is not true of. */
  lemma WrongInSelects(
    schema: Schema, nodes: map<int, Node>, edges: map<int, Edge>, outside: Outside, sets: Sets,
    path: Path, given: seq<Value>, from: Option<Set>, typ: string, id: int)
    requires Sound(schema, nodes, edges, outside, sets) && id in nodes && nodes[id].typ == typ && typ in schema
    requires ResolvePath(schema, path, typ).Ok? && IsLink(ResolvePath(schema, path, typ).value)
    requires CompileIn(schema, sets, AsWritten, path, given, from, typ, "nodes").Ok?
    requires !InAgrees(schema, nodes, edges, outside, sets, path, given, from, typ, id)
    ensures
      var r := CompileWhere(schema, sets, AsWritten, typ, Some(In(path, given, from)));
      && r.Ok? && id in Selected(nodes, edges, outside.times, typ, r.value)
      && id !in Matching(schema, nodes, edges, outside, typ, Some(In(path, given, from)))
  {
    hide Sound, ResolvePath, Linked, ListsId, Member, LinkIn, ValidIds, ListsIntruder, Selected, TruthOf, Listed;
    var r := ResolvePath(schema, path, typ).value;
    var values := SetValues(sets, r, given, from).value;
    InTextIsRightIff(schema, nodes, edges, outside, sets, path, given, from, typ, id);
    InTruth(schema, nodes, edges, outside, path, given, from, typ, id);
    if values == [] {
      NoneListed(nodes, edges, r, id);
    } else {
      LinkInSays(nodes, edges, AtRow(outside.times, id), AsWritten, r, "nodes", values, id);
    }
    var p := CompileIn(schema, sets, AsWritten, path, given, from, typ, "nodes").value;
    hide Eval, CompileIn;
    TrueIsSelected(nodes, edges, outside, typ, p, id);
  }

  lemma NeverHolds(nodes: map<int, Node>, edges: map<int, Edge>, env: Env)
    ensures Eval(nodes, edges, env, Never) == False
  {
  }

  lemma NoneListed(nodes: map<int, Node>, edges: map<int, Edge>, r: Resolved, id: int)
    requires IsLink(r)
    ensures forall other :: !ListsId([], other)
    ensures !exists k, m :: ListsIntruder(nodes, edges, r, [], id, k, m)
  {
  }

  /** Every edge of the relation passes the membership tests. */
  lemma LeadsIsListed(
    schema: Schema, nodes: map<int, Node>, edges: map<int, Edge>, typ: string, r: Resolved, id: int, k: int, m: int)
    requires ValidSchema(schema) && ValidEdges(schema, nodes, edges) && ResolvesOn(schema, typ, r)
    requires id in nodes && nodes[id].typ == typ && k in edges && m in nodes && Leads(nodes, edges[k], r, id, m)
    ensures Listed(nodes, edges[k], AsWritten, r, id, m)
  {
    assert ValidEdge(schema, nodes, edges[k]);
    if Undirected(r.f) {
      UndirectedStaysInType(schema, nodes, edges[k]);
      UndirectedFieldIsOwn(schema, typ, r);
    }
  }

  lemma ListedIs(
    schema: Schema, nodes: map<int, Node>, edges: map<int, Edge>, typ: string, r: Resolved, values: seq<Value>, id: int)
    requires ValidSchema(schema) && ValidEdges(schema, nodes, edges) && ResolvesOn(schema, typ, r) && id in nodes
    requires nodes[id].typ == typ
    ensures SomeListed(nodes, edges, AsWritten, r, values, id)
      <==> || (exists other :: Linked(nodes, edges, r, id, other) && ListsId(values, other))
           || exists k, m :: ListsIntruder(nodes, edges, r, values, id, k, m)
  {
    hide Linked, Leads, Listed, ListsId, ValidSchema, ValidEdges;
    if SomeListed(nodes, edges, AsWritten, r, values, id) {
      var k, m :| k in edges && m in nodes && Listed(nodes, edges[k], AsWritten, r, id, m) && ListsId(values, m);
      LinkedByEdge(nodes, edges, r, id, m);
      assert Linked(nodes, edges, r, id, m) || ListsIntruder(nodes, edges, r, values, id, k, m);
    }
    if m :| Linked(nodes, edges, r, id, m) && ListsId(values, m) {
      LinkedByEdge(nodes, edges, r, id, m);
      var k :| k in edges && Leads(nodes, edges[k], r, id, m);
      LeadsInRange(nodes, edges[k], r, id, m);
      LeadsIsListed(schema, nodes, edges, typ, r, id, k, m);
    }
    if k, m :| ListsIntruder(nodes, edges, r, values, id, k, m) {
      assert k in edges && m in nodes;
    }
  }
}
