/** Row scopes and the two list reads built on a compiled filter (core/policy.go, core/node_query.go). */
module NodeQuery {
  import opened Common
  import opened Types
  import opened Store
  import opened Query
  import opened Sql
  import opened Compile
  import opened Meaning
  import opened CompileCorrect
  import opened CompileExact
  import opened QueryCompilers

  // ---------------------------------------------------------------- scopes

  /** A server-made row scope; one that was never set is an error, not a bypass. */
  datatype Scope = Unset | Restricted(where: Expr) | Bypass

  /** A policy without an expression denies every row. */
  function PolicyScope(where: Option<Expr>): Scope {
    Restricted(if where.Some? then where.value else Constant(false))
  }

  function ApplyScope(scope: Scope, user: Option<Expr>): Result<Option<Expr>, QueryError> {
    match scope
    case Restricted(where) => Ok(Some(if user.None? then where else Logic(And, [user.value, where])))
    case Bypass => Ok(user)
    case Unset => Err(InvalidQuery)
  }

  function BuildWhere(schema: Schema, sets: Sets, style: Style, typ: string, user: Option<Expr>, scope: Scope)
    : Result<Pred, QueryError>
  {
    if typ == "" then Err(InvalidQuery)
    else
      match ApplyScope(scope, user)
      case Err(e) => Err(e)
      case Ok(e) => CompileWhere(schema, sets, style, typ, e)
  }

  ghost predicate Admits(
    schema: Schema, nodes: map<int, Node>, edges: map<int, Edge>, outside: Outside, typ: string, e: Option<Expr>,
    id: int)
    requires id in nodes
  {
    e.None? || TruthOf(schema, nodes, edges, outside, e.value, typ, id) == True
  }

  function ScopeFilter(scope: Scope): Option<Expr> { if scope.Restricted? then Some(scope.where) else None }

  predicate ExactOrTested(schema: Schema, style: Style, typ: string, e: Option<Expr>) {
    style.FieldTested? || e.None? || ExactFilter(schema, e.value, typ)
  }

  lemma BothTrue(
    schema: Schema, nodes: map<int, Node>, edges: map<int, Edge>, outside: Outside, typ: string, a: Expr, b: Expr,
    id: int)
    requires id in nodes
    ensures TruthOf(schema, nodes, edges, outside, Logic(And, [a, b]), typ, id) == True
      <==>
      && TruthOf(schema, nodes, edges, outside, a, typ, id) == True
      && TruthOf(schema, nodes, edges, outside, b, typ, id) == True
  {
    hide Linked, ResolvePath, Compares, HasValue, Member, In3;
    assert [a, b][0] == a && [a, b][1] == b;
  }

  /** The rows of a query are those of its type that both its scope and its filter are true of. */
  lemma RowsAreScopedMatches(
    schema: Schema, nodes: map<int, Node>, edges: map<int, Edge>, outside: Outside, sets: Sets, style: Style,
    typ: string, user: Option<Expr>, scope: Scope, id: int)
    requires Sound(schema, nodes, edges, outside, sets) && id in nodes
    requires ExactOrTested(schema, style, typ, user) && ExactOrTested(schema, style, typ, ScopeFilter(scope))
    requires BuildWhere(schema, sets, style, typ, user, scope).Ok?
    ensures id in Selected(nodes, edges, outside.times, typ, BuildWhere(schema, sets, style, typ, user, scope).value)
      <==> && nodes[id].typ == typ
           && Admits(schema, nodes, edges, outside, typ, user, id)
           && Admits(schema, nodes, edges, outside, typ, ScopeFilter(scope), id)
  {
    hide Sound, TruthOf, Selected, CompileWhere;
    var e := ApplyScope(scope, user).value;
    if user.Some? && scope.Restricted? {
      BothExact(schema, style, typ, user.value, scope.where);
      BothTrue(schema, nodes, edges, outside, typ, user.value, scope.where, id);
    }
    hide ExactFilter;
    SelectedAreMatching(schema, nodes, edges, outside, sets, style, typ, e);
  }

  /** A scope that was never set is an error, whatever the query. */
  lemma UnsetIsRefused(schema: Schema, sets: Sets, style: Style, typ: string, user: Option<Expr>)
    ensures BuildWhere(schema, sets, style, typ, user, Unset) == Err(InvalidQuery)
  {
  }

  /** Under a policy with an expression a query returns the rows of its own that the expression is true of. */
  lemma PolicyIsItsExpression(
    schema: Schema, nodes: map<int, Node>, edges: map<int, Edge>, outside: Outside, sets: Sets, style: Style,
    typ: string, user: Option<Expr>, policy: Expr, id: int)
    requires Sound(schema, nodes, edges, outside, sets) && id in nodes
    requires ExactOrTested(schema, style, typ, user) && ExactOrTested(schema, style, typ, Some(policy))
    requires BuildWhere(schema, sets, style, typ, user, PolicyScope(Some(policy))).Ok?
    ensures
      var p := BuildWhere(schema, sets, style, typ, user, PolicyScope(Some(policy))).value;
      id in Selected(nodes, edges, outside.times, typ, p)
      <==> && nodes[id].typ == typ && TruthOf(schema, nodes, edges, outside, policy, typ, id) == True
           && (user.None? || TruthOf(schema, nodes, edges, outside, user.value, typ, id) == True)
  {
    RowsAreScopedMatches(schema, nodes, edges, outside, sets, style, typ, user, PolicyScope(Some(policy)), id);
    hide Sound, TruthOf, Selected, BuildWhere, ExactFilter;
  }

  /** Under a policy without an expression no query returns a row, whatever its filter and its text. */
  lemma DeniedSeesNothing(
    schema: Schema, nodes: map<int, Node>, edges: map<int, Edge>, times: Times, sets: Sets, style: Style, typ: string,
    user: Option<Expr>)
    requires BuildWhere(schema, sets, style, typ, user, PolicyScope(None)).Ok?
    ensures Selected(nodes, edges, times, typ, BuildWhere(schema, sets, style, typ, user, PolicyScope(None)).value)
      == {}
  {
    var p := BuildWhere(schema, sets, style, typ, user, PolicyScope(None)).value;
    DeniedText(schema, sets, style, typ, user);
    forall id | id in nodes ensures Eval(nodes, edges, AtRow(times, id), All([TypeIs("nodes", typ), p])) != True {
      var env := AtRow(times, id);
      hide Eval;
      AllIsConjunction(nodes, edges, env, [TypeIs("nodes", typ), p]);
      AllHoldTwo(nodes, edges, env, TypeIs("nodes", typ), p);
      NeverHolds(nodes, edges, env);
      if p != Never {
        AllIsConjunction(nodes, edges, env, p.ps);
        AllHoldTwo(nodes, edges, env, p.ps[0], Never);
      }
    }
  }

  /** What a denied query compiles to: nothing holds, or nothing and the filter. */
  lemma DeniedText(schema: Schema, sets: Sets, style: Style, typ: string, user: Option<Expr>)
    requires BuildWhere(schema, sets, style, typ, user, PolicyScope(None)).Ok?
    ensures
      var p := BuildWhere(schema, sets, style, typ, user, PolicyScope(None)).value;
      p == Never || (p.All? && |p.ps| == 2 && p.ps == [p.ps[0], Never])
  {
    if user.Some? {
      var args := [user.value, Constant(false)];
      assert args[0] == user.value && args[1..] == [Constant(false)] && args[1..][1..] == [];
      var first := CompileExpr(schema, sets, style, user.value, typ, "nodes", 1, Counts(1, 0));
      assert CompileArgs(schema, sets, style, args, typ, "nodes", 1, Counts(1, 0)).Ok?;
      FalseIsNever(schema, sets, style, typ, first.value.1);
    }
  }

  lemma FalseIsNever(schema: Schema, sets: Sets, style: Style, typ: string, c: Counts)
    ensures
      var r := CompileArgs(schema, sets, style, [Constant(false)], typ, "nodes", 1, c);
      r.Ok? ==> r.value.0 == [Never]
  {
    var one := [Constant(false)];
    var rest := one[1..];
    assert rest == [];
    var first := CompileExpr(schema, sets, style, one[0], typ, "nodes", 1, c);
    if first.Ok? {
      assert CompileArgs(schema, sets, style, rest, typ, "nodes", 1, first.value.1) == Ok(([], first.value.1));
    }
  }

  lemma BothExact(schema: Schema, style: Style, typ: string, a: Expr, b: Expr)
    requires ExactOrTested(schema, style, typ, Some(a)) && ExactOrTested(schema, style, typ, Some(b))
    ensures ExactOrTested(schema, style, typ, Some(Logic(And, [a, b])))
  {
    assert forall i :: 0 <= i < 2 ==> [a, b][i] == if i == 0 then a else b;
  }

  // ---------------------------------------------------------------- scopes and limits

  lemma AloneIff(schema: Schema, sets: Sets, style: Style, typ: string, e: Expr)
    requires PlainAnswers(sets)
    ensures CompileWhere(schema, sets, style, typ, Some(e)).Ok?
      <==> typ in schema && WellTyped(schema, sets, e, typ) && Fits(e, 0, 0)
  {
    hide CompileExpr, WellTyped;
    GuardIsExact(schema, sets, style, e, typ, "nodes", 0, Counts(0, 0));
  }

  lemma MeasuresOfTwo(a: Expr, b: Expr)
    ensures Size(Logic(And, [a, b])) == 1 + Size(a) + Size(b)
    ensures Depth(Logic(And, [a, b])) == 1 + if Depth(a) > Depth(b) then Depth(a) else Depth(b)
    ensures
      var d := if RelationDepth(a) > RelationDepth(b) then RelationDepth(a) else RelationDepth(b);
      RelationDepth(Logic(And, [a, b])) == if d > 0 then 1 + d else 0
  {
    Measures([a, b]);
    Measures([b]);
    assert [a, b][1..] == [b] && [b][1..] == [];
  }

  /** One level lower, every related is still above level 4. */
  predicate RelatedStaysAbove(e: Expr) { RelationDepth(e) == 0 || 1 + RelationDepth(e) <= MAX_RELATION_DEPTH }

  /**
   * A restricting scope costs a node and a level. A filter and a scope that are each accepted alone are
   * accepted together exactly when the limits leave room for both, one level down.
   */
  lemma ScopeFitsIff(schema: Schema, sets: Sets, style: Style, typ: string, user: Expr, where: Expr)
    requires PlainAnswers(sets)
    requires BuildWhere(schema, sets, style, typ, Some(user), Bypass).Ok?
    requires BuildWhere(schema, sets, style, typ, None, Restricted(where)).Ok?
    ensures BuildWhere(schema, sets, style, typ, Some(user), Restricted(where)).Ok?
      <==> && 1 + Size(user) + Size(where) <= MAX_FILTER_NODES
           && 1 + Depth(user) <= MAX_FILTER_DEPTH && 1 + Depth(where) <= MAX_FILTER_DEPTH
           && RelatedStaysAbove(user) && RelatedStaysAbove(where)
  {
    hide CompileWhere, WellTyped, PlainAnswers, Size, Depth, RelationDepth;
    var e := Logic(And, [user, where]);
    AloneIff(schema, sets, style, typ, user);
    AloneIff(schema, sets, style, typ, where);
    AloneIff(schema, sets, style, typ, e);
    LogicTyped(schema, sets, And, [user, where], typ);
    TwoTyped(schema, sets, user, where, typ);
    MeasuresOfTwo(user, where);
  }

  lemma TwoTyped(schema: Schema, sets: Sets, a: Expr, b: Expr, typ: string)
    ensures AllWellTyped(schema, sets, [a, b], typ)
      <==> WellTyped(schema, sets, a, typ) && WellTyped(schema, sets, b, typ)
  {
    hide WellTyped;
    assert [a, b][0] == a && [a, b][1] == b;
  }

  function Negated(e: Expr): Expr { Logic(Not, [e]) }

  /** A related below three negations. */
  function DeepRelated(path: Path): Expr { Negated(Negated(Negated(Related(path, Some(Constant(true)))))) }

  /**
   * Far from the limits on size and depth, a filter that compiles alone is refused under a scope that allows
   * every row.
   */
  lemma ScopeRefusesDeepRelated(schema: Schema, sets: Sets, style: Style, typ: string, path: Path)
    requires PlainAnswers(sets) && typ != "" && typ in schema
    requires ResolvePath(schema, path, typ).Ok? && IsLink(ResolvePath(schema, path, typ).value)
    ensures
      var (user, every) := (DeepRelated(path), Constant(true));
      && BuildWhere(schema, sets, style, typ, Some(user), Bypass).Ok?
      && BuildWhere(schema, sets, style, typ, None, Restricted(every)).Ok?
      && BuildWhere(schema, sets, style, typ, Some(user), Restricted(every)) == Err(RelationTooDeep)
      && 1 + Size(user) + Size(every) == 7 && 1 + Depth(user) == 5
  {
    hide ResolvePath, LinkExists, PlainAnswers, CompileExpr, CompileArgs, CompileWhere, WellTyped;
    var r := Related(path, Some(Constant(true)));
    var user := DeepRelated(path);
    RelatedTyped(schema, sets, path, Some(Constant(true)), typ);
    TrueIsTyped(schema, sets, TargetOf(ResolvePath(schema, path, typ).value));
    TrueIsTyped(schema, sets, typ);
    NegationSays(schema, sets, r, typ);
    NegationSays(schema, sets, Negated(r), typ);
    NegationSays(schema, sets, Negated(Negated(r)), typ);
    AloneIff(schema, sets, style, typ, user);
    AloneIff(schema, sets, style, typ, Constant(true));
    MeasuresOfTwo(user, Constant(true));
    DeepIsRefused(schema, sets, style, typ, path);
  }

  lemma TrueIsTyped(schema: Schema, sets: Sets, typ: string)
    ensures WellTyped(schema, sets, Constant(true), typ)
  {
  }

  lemma NegationSays(schema: Schema, sets: Sets, e: Expr, typ: string)
    ensures WellTyped(schema, sets, Negated(e), typ) <==> WellTyped(schema, sets, e, typ)
    ensures Size(Negated(e)) == 1 + Size(e) && Depth(Negated(e)) == 1 + Depth(e)
    ensures RelationDepth(Negated(e)) == if RelationDepth(e) > 0 then 1 + RelationDepth(e) else 0
  {
    LogicTyped(schema, sets, Not, [e], typ);
    Measures([e]);
    assert [e][0] == e && [e][1..] == [];
  }

  lemma DeepIsRefused(schema: Schema, sets: Sets, style: Style, typ: string, path: Path)
    requires typ in schema
    ensures CompileWhere(schema, sets, style, typ, Some(Logic(And, [DeepRelated(path), Constant(true)])))
      == Err(RelationTooDeep)
  {
    var r := Related(path, Some(Constant(true)));
    assert CompileExpr(schema, sets, style, r, typ, "nodes", 4, Counts(4, 0)) == Err(RelationTooDeep);
    NegatedFails(schema, sets, style, r, typ, 3, RelationTooDeep);
    NegatedFails(schema, sets, style, Negated(r), typ, 2, RelationTooDeep);
    NegatedFails(schema, sets, style, Negated(Negated(r)), typ, 1, RelationTooDeep);
    hide CompileExpr;
    assert CompileArgs(schema, sets, style, [DeepRelated(path), Constant(true)], typ, "nodes", 1, Counts(1, 0))
      == Err(RelationTooDeep);
    AndFails(schema, sets, style, [DeepRelated(path), Constant(true)], typ, RelationTooDeep);
  }

  lemma NegatedFails(schema: Schema, sets: Sets, style: Style, e: Expr, typ: string, level: nat, error: QueryError)
    requires level < 4
    requires CompileExpr(schema, sets, style, e, typ, "nodes", level + 1, Counts(level + 1, 0)) == Err(error)
    ensures CompileExpr(schema, sets, style, Negated(e), typ, "nodes", level, Counts(level, 0)) == Err(error)
  {
  }

  lemma AndFails(schema: Schema, sets: Sets, style: Style, args: seq<Expr>, typ: string, error: QueryError)
    requires args != [] && CompileArgs(schema, sets, style, args, typ, "nodes", 1, Counts(1, 0)) == Err(error)
    ensures CompileExpr(schema, sets, style, Logic(And, args), typ, "nodes", 0, Counts(0, 0)) == Err(error)
  {
    hide CompileArgs;
  }

  // ---------------------------------------------------------------- counting

  const DEFAULT_COUNT_LIMIT := 10_000

  function Min(a: int, b: int): int { if a < b then a else b }

  /** SELECT COUNT(1) FROM (SELECT ... LIMIT k), or over all rows when there is no limit. */
  function CountRows(rows: set<int>, k: Option<nat>): int {
    if k.Some? then Min(|rows|, k.value) else |rows|
  }

  /** CountNodes: one row more than the limit is looked at, and the limit is reported when there is that many. */
  method CountNodes(
    schema: Schema, nodes: map<int, Node>, edges: map<int, Edge>, times: Times, sets: Sets, typ: string,
    user: Option<Expr>, scope: Scope, countLimit: int) returns (r: Result<int, QueryError>)
    ensures r.Err? <==> BuildWhere(schema, sets, AsWritten, typ, user, scope).Err?
    ensures r.Ok? ==>
      var rows := Selected(nodes, edges, times, typ, BuildWhere(schema, sets, AsWritten, typ, user, scope).value);
      r.value == if countLimit < 0 then |rows|
        else Min(|rows|, if countLimit == 0 then 10_000 else countLimit)
  {
    var limit := countLimit;
    if limit == 0 {
      limit := DEFAULT_COUNT_LIMIT;
    }
    var where := BuildWhere(schema, sets, AsWritten, typ, user, scope);
    if where.Err? {
      return Err(where.error);
    }
    var most := if limit > 0 then Some(limit + 1) else None;
    var total := CountRows(Selected(nodes, edges, times, typ, where.value), most);
    if limit > 0 && total > limit {
      return Ok(limit);
    }
    r := Ok(total);
  }
}
