/** The compiler object with its two counters, and exactly which filters its guards let through. */
module QueryCompilers {
  import opened Common
  import opened Types
  import opened Query
  import opened Sql
  import opened Compile

  // ---------------------------------------------------------------- which filters compile

  /** An answer to a set expression is never one of the compiler's own limits. */
  ghost predicate PlainAnswers(sets: Sets) {
    forall a, t :: sets(a, t) != Err(TooComplex) && sets(a, t) != Err(RelationTooDeep)
  }

  /** Nothing but the limits on size and depth could be wrong with the filter. */
  predicate WellTyped(schema: Schema, sets: Sets, e: Expr, typ: string)
    decreases e
  {
    match e
    case Constant(_) => true
    case Compare(op, path, v) =>
      var r := ResolvePath(schema, path, typ);
      r.Ok? && !IsLink(r.value) && CompareProblem(r.value, op, v).None?
    case In(path, values, from) => WellTypedIn(schema, sets, path, values, from, typ)
    case Exists(path, _) => ResolvePath(schema, path, typ).Ok?
    case Logic(op, args) =>
      && (if op == Not then |args| == 1 else args != [])
      && forall i :: 0 <= i < |args| ==> WellTyped(schema, sets, args[i], typ)
    case Related(path, where) =>
      var r := ResolvePath(schema, path, typ);
      r.Ok? && IsLink(r.value) && where.Some? && WellTyped(schema, sets, where.value, TargetOf(r.value))
  }

  predicate WellTypedIn(schema: Schema, sets: Sets, path: Path, given: seq<Value>, from: Option<Set>, typ: string) {
    var r := ResolvePath(schema, path, typ);
    r.Ok? && SetValues(sets, r.value, given, from).Ok?
    && var values := SetValues(sets, r.value, given, from).value;
       && |values| <= MAX_SET_VALUES
       && (values == [] || r.value.ColumnOn?
           || if r.value.ScalarField? then KindOps(r.value.f.kind).equal && ValidOperands(r.value.f, values)
              else ValidIds(values))
  }

  /** 256 nodes and 12 levels in all, and a related only above level 4. */
  predicate Within(size: nat, deep: nat, relations: nat, depth: nat, nodes: nat) {
    nodes + size <= 256 && depth + deep <= 12 && (relations == 0 || depth + relations <= 4)
  }

  predicate Fits(e: Expr, depth: nat, nodes: nat) { Within(Size(e), Depth(e), RelationDepth(e), depth, nodes) }

  /** The same for the arguments of an expression one level up. */
  predicate FitArgs(args: seq<Expr>, depth: nat, nodes: nat)
    requires depth > 0
  {
    args == [] || Within(Sizes(args), Depths(args), RelationDepths(args), depth - 1, nodes)
  }

  /** A filter compiles exactly when it is well typed and fits, and the limits are blamed only when it does not fit. */
  ghost predicate Judged(r: Compiled, typed: bool, e: Expr, depth: nat, c: Counts) {
    && c.nodes >= 0
    && (r.Ok? <==> typed && Fits(e, depth, c.nodes))
    && (r.Ok? ==> r.value.1.nodes == c.nodes + Size(e))
    && (r == Err(TooComplex) ==> c.nodes + Size(e) > MAX_FILTER_NODES || depth + Depth(e) > MAX_FILTER_DEPTH)
    && (r == Err(RelationTooDeep) ==> RelationDepth(e) > 0 && depth + RelationDepth(e) > MAX_RELATION_DEPTH)
  }

  ghost predicate ArgsJudged(
    r: Result<(seq<Pred>, Counts), QueryError>, typed: bool, args: seq<Expr>, depth: nat, c: Counts) {
    && c.nodes >= 0 && depth > 0
    && (r.Ok? <==> typed && FitArgs(args, depth, c.nodes))
    && (r.Ok? ==> r.value.1.nodes == c.nodes + Sizes(args))
    && (r == Err(TooComplex) ==>
       c.nodes + Sizes(args) > MAX_FILTER_NODES || depth - 1 + Depths(args) > MAX_FILTER_DEPTH)
    && (r == Err(RelationTooDeep) ==> RelationDepths(args) > 0 && depth - 1 + RelationDepths(args) > MAX_RELATION_DEPTH)
  }

  predicate AllWellTyped(schema: Schema, sets: Sets, args: seq<Expr>, typ: string) {
    forall i :: 0 <= i < |args| ==> WellTyped(schema, sets, args[i], typ)
  }

  /** An error that no limit is the reason for. */
  predicate Plain<T>(r: Result<T, QueryError>) { r != Err(TooComplex) && r != Err(RelationTooDeep) }

  lemma PathsArePlain(schema: Schema, path: Path, typ: string)
    ensures Plain(ResolvePath(schema, path, typ))
  {
  }

  lemma CompareJudged(schema: Schema, op: CompareOp, path: Path, v: Value, typ: string, row: string)
    ensures Plain(CompileCompare(schema, op, path, v, typ, row))
    ensures
      var r := ResolvePath(schema, path, typ);
      CompileCompare(schema, op, path, v, typ, row).Ok?
      <==> r.Ok? && !IsLink(r.value) && CompareProblem(r.value, op, v).None?
  {
    hide ResolvePath, KindOps, ValidateValue, ColumnAccepts, OpAllowed, TermFor;
    PathsArePlain(schema, path, typ);
  }

  lemma InJudged(
    schema: Schema, sets: Sets, style: Style, path: Path, given: seq<Value>, from: Option<Set>, typ: string,
    row: string)
    requires PlainAnswers(sets)
    ensures Plain(CompileIn(schema, sets, style, path, given, from, typ, row))
    ensures CompileIn(schema, sets, style, path, given, from, typ, row).Ok?
      <==> WellTypedIn(schema, sets, path, given, from, typ)
  {
    hide LinkIn, ValidateValue, KindOps;
  }

  lemma ExistsJudged(schema: Schema, style: Style, path: Path, missing: bool, typ: string, row: string)
    ensures Plain(CompileExists(schema, style, path, missing, typ, row))
    ensures CompileExists(schema, style, path, missing, typ, row).Ok? <==> ResolvePath(schema, path, typ).Ok?
  {
    hide LinkExists;
  }

  lemma LeafJudged(r: Result<Pred, QueryError>, typed: bool, e: Expr, depth: nat, c: Counts)
    requires c.nodes >= 0 && Size(e) == 1 && Depth(e) == 0 && RelationDepth(e) == 0
    requires Plain(r) && (r.Ok? <==> typed)
    ensures Judged(if c.nodes + 1 > MAX_FILTER_NODES || depth > MAX_FILTER_DEPTH then Err(TooComplex)
                   else Uncounted(r, c.(nodes := c.nodes + 1)), typed, e, depth, c)
  {
  }

  /** Which filters compile, at any place in a filter and under any name of the row. */
  lemma {:induction false} GuardIsExact(
    schema: Schema, sets: Sets, style: Style, e: Expr, typ: string, row: string, depth: nat, c: Counts)
    requires PlainAnswers(sets) && c.nodes >= 0
    ensures Judged(CompileExpr(schema, sets, style, e, typ, row, depth, c), WellTyped(schema, sets, e, typ), e, depth,
      c)
    decreases e, 1
  {
    hide CompileCompare, CompileIn, CompileExists, ResolvePath, LinkExists, PlainAnswers, WellTypedIn, CompareProblem;
    hide Judged;
    match e
    case Constant(b) => LeafJudged(Ok(if b then Always else Never), true, e, depth, c);
    case Compare(op, path, v) =>
      CompareJudged(schema, op, path, v, typ, row);
      LeafJudged(CompileCompare(schema, op, path, v, typ, row), WellTyped(schema, sets, e, typ), e, depth, c);
    case In(path, values, from) =>
      InJudged(schema, sets, style, path, values, from, typ, row);
      LeafJudged(CompileIn(schema, sets, style, path, values, from, typ, row), WellTyped(schema, sets, e, typ), e,
        depth, c);
    case Exists(path, missing) =>
      ExistsJudged(schema, style, path, missing, typ, row);
      LeafJudged(CompileExists(schema, style, path, missing, typ, row), WellTyped(schema, sets, e, typ), e, depth, c);
    case Logic(op, args) => LogicJudged(schema, sets, style, op, args, typ, row, depth, c);
    case Related(path, where) => RelatedJudged(schema, sets, style, path, where, typ, row, depth, c);
  }

  lemma {:induction false} RelatedJudged(
    schema: Schema, sets: Sets, style: Style, path: Path, where: Option<Expr>, typ: string, row: string, depth: nat,
    c: Counts)
    requires PlainAnswers(sets) && c.nodes >= 0
    ensures
      var e := Related(path, where);
      Judged(CompileExpr(schema, sets, style, e, typ, row, depth, c), WellTyped(schema, sets, e, typ), e, depth, c)
    decreases where, 2
  {
    hide ResolvePath, LinkExists, PlainAnswers, WellTyped;
    var r := ResolvePath(schema, path, typ);
    PathsArePlain(schema, path, typ);
    RelatedTyped(schema, sets, path, where, typ);
    if where.Some? && r.Ok? && IsLink(r.value) {
      var inner := Counts(c.nodes + 1, c.alias + 1);
      GuardIsExact(schema, sets, style, where.value, TargetOf(r.value), Alias(inner.alias), depth + 1, inner);
    }
  }

  lemma RelatedTyped(schema: Schema, sets: Sets, path: Path, where: Option<Expr>, typ: string)
    ensures
      var r := ResolvePath(schema, path, typ);
      WellTyped(schema, sets, Related(path, where), typ)
      <==> r.Ok? && IsLink(r.value) && where.Some? && WellTyped(schema, sets, where.value, TargetOf(r.value))
  {
  }

  lemma {:induction false} LogicJudged(
    schema: Schema, sets: Sets, style: Style, op: LogicOp, args: seq<Expr>, typ: string, row: string, depth: nat,
    c: Counts)
    requires PlainAnswers(sets) && c.nodes >= 0
    ensures
      var e := Logic(op, args);
      Judged(CompileExpr(schema, sets, style, e, typ, row, depth, c), WellTyped(schema, sets, e, typ), e, depth, c)
    decreases args, 2
  {
    hide PlainAnswers, WellTyped, CompileArgs, ResolvePath, CompileCompare, CompileIn, CompileExists, LinkExists;
    hide Sizes, Depths, RelationDepths, AllWellTyped;
    var c1 := c.(nodes := c.nodes + 1);
    LogicTyped(schema, sets, op, args, typ);
    ArgsAreJudged(schema, sets, style, args, typ, row, depth + 1, c1);
    if op == Not && |args| == 1 {
      OneArg(schema, sets, style, args, typ, row, depth + 1, c1);
    }
  }

  lemma LogicTyped(schema: Schema, sets: Sets, op: LogicOp, args: seq<Expr>, typ: string)
    ensures WellTyped(schema, sets, Logic(op, args), typ)
      <==> (if op == Not then |args| == 1 else args != []) && AllWellTyped(schema, sets, args, typ)
  {
  }

  lemma OneArg(
    schema: Schema, sets: Sets, style: Style, args: seq<Expr>, typ: string, row: string, depth: nat, c: Counts)
    requires |args| == 1
    ensures
      var one, all := CompileExpr(schema, sets, style, args[0], typ, row, depth, c),
        CompileArgs(schema, sets, style, args, typ, row, depth, c);
      (one.Ok? <==> all.Ok?) && (one.Ok? ==> one.value.1 == all.value.1) && (one.Err? ==> one.error == all.error)
  {
    hide CompileExpr;
    assert args[1..] == [];
  }

  lemma {:induction false} ArgsAreJudged(
    schema: Schema, sets: Sets, style: Style, args: seq<Expr>, typ: string, row: string, depth: nat, c: Counts)
    requires PlainAnswers(sets) && c.nodes >= 0 && depth > 0
    ensures ArgsJudged(CompileArgs(schema, sets, style, args, typ, row, depth, c),
      AllWellTyped(schema, sets, args, typ), args, depth, c)
    decreases args, 1
  {
    hide PlainAnswers, CompileExpr, WellTyped, Judged, ArgsJudged;
    if args == [] {
      NoArgsJudged(schema, sets, style, typ, row, depth, c);
    } else {
      GuardIsExact(schema, sets, style, args[0], typ, row, depth, c);
      var first := CompileExpr(schema, sets, style, args[0], typ, row, depth, c);
      TypedCons(schema, sets, args, typ);
      if first.Ok? {
        FirstCounted(first, WellTyped(schema, sets, args[0], typ), args[0], depth, c);
        ArgsAreJudged(schema, sets, style, args[1..], typ, row, depth, first.value.1);
        JudgedCons(first, CompileArgs(schema, sets, style, args[1..], typ, row, depth, first.value.1),
                   WellTyped(schema, sets, args[0], typ), AllWellTyped(schema, sets, args[1..], typ), args, depth, c);
      } else {
        JudgedFirst(first, WellTyped(schema, sets, args[0], typ), AllWellTyped(schema, sets, args[1..], typ), args,
          depth, c);
      }
    }
  }

  lemma NoArgsJudged(schema: Schema, sets: Sets, style: Style, typ: string, row: string, depth: nat, c: Counts)
    requires c.nodes >= 0 && depth > 0
    ensures ArgsJudged(CompileArgs(schema, sets, style, [], typ, row, depth, c), AllWellTyped(schema, sets, [], typ),
      [], depth, c)
  {
  }

  lemma FirstCounted(first: Compiled, typed: bool, e: Expr, depth: nat, c: Counts)
    requires Judged(first, typed, e, depth, c) && first.Ok?
    ensures first.value.1.nodes >= 0
  {
  }

  lemma TypedCons(schema: Schema, sets: Sets, args: seq<Expr>, typ: string)
    requires args != []
    ensures AllWellTyped(schema, sets, args, typ)
      <==> WellTyped(schema, sets, args[0], typ) && AllWellTyped(schema, sets, args[1..], typ)
  {
    hide WellTyped;
    var rest := args[1..];
    assert forall i :: 0 <= i < |rest| ==> rest[i] == args[i + 1];
    assert forall i :: 1 <= i < |args| ==> args[i] == rest[i - 1];
  }

  lemma Measures(args: seq<Expr>)
    requires args != []
    ensures Sizes(args) == Size(args[0]) + Sizes(args[1..])
    ensures Depths(args) == if 1 + Depth(args[0]) > Depths(args[1..]) then 1 + Depth(args[0]) else Depths(args[1..])
    ensures
      var d := if RelationDepth(args[0]) > 0 then 1 + RelationDepth(args[0]) else 0;
      RelationDepths(args) == if d > RelationDepths(args[1..]) then d else RelationDepths(args[1..])
    ensures args[1..] == [] ==> Sizes(args[1..]) == 0 && Depths(args[1..]) == 0 && RelationDepths(args[1..]) == 0
  {
  }

  lemma JudgedFirst(first: Compiled, typed: bool, restTyped: bool, args: seq<Expr>, depth: nat, c: Counts)
    requires args != [] && first.Err? && depth > 0 && Judged(first, typed, args[0], depth, c)
    ensures ArgsJudged(Err(first.error), typed && restTyped, args, depth, c)
  {
    Measures(args);
    hide Size, Depth, RelationDepth, Sizes, Depths, RelationDepths;
  }

  lemma JudgedCons(
    first: Compiled, rest: Result<(seq<Pred>, Counts), QueryError>, typed: bool, restTyped: bool, args: seq<Expr>,
    depth: nat, c: Counts)
    requires args != [] && depth > 0 && first.Ok? && Judged(first, typed, args[0], depth, c)
    requires ArgsJudged(rest, restTyped, args[1..], depth, first.value.1)
    ensures ArgsJudged(
      if rest.Err? then Err(rest.error) else Ok(([first.value.0] + rest.value.0, rest.value.1)),
      typed && restTyped, args, depth, c)
  {
    Measures(args);
    hide Size, Depth, RelationDepth, Sizes, Depths, RelationDepths;
  }

  // ---------------------------------------------------------------- the compiler object

  function Outcome(r: Compiled): Result<Pred, QueryError> {
    match r case Ok((p, _)) => Ok(p) case Err(e) => Err(e)
  }

  /** queryCompiler: the schema, the answers to set expressions, and the counters every call shares. */
  class QueryCompiler {
    const schema: Schema
    const sets: Sets
    var nodes: int
    var alias: int

    constructor (schema: Schema, sets: Sets)
      ensures this.schema == schema && this.sets == sets && nodes == 0 && alias == 0
    {
      this.schema, this.sets := schema, sets;
      nodes, alias := 0, 0;
    }

    function Counted(): Counts
      reads this
    {
      Counts(nodes, alias)
    }

    /** The counters before the expression at hand was counted. */
    function BeforeThis(): Counts
      reads this
    {
      Counts(nodes - 1, alias)
    }

    /** A successful call leaves the counters as the specification has them. */
    ghost predicate Did(spec: Compiled, r: Result<Pred, QueryError>)
      reads this
    {
      r == Outcome(spec) && (spec.Ok? ==> Counted() == spec.value.1)
    }

    method Compile(e: Expr, typ: string, row: string, depth: nat) returns (r: Result<Pred, QueryError>)
      modifies this
      ensures Did(CompileExpr(schema, sets, AsWritten, e, typ, row, depth, old(Counted())), r)
      decreases e, 1
    {
      nodes := nodes + 1;
      if nodes > MAX_FILTER_NODES || depth > MAX_FILTER_DEPTH {
        return Err(TooComplex);
      }
      match e
      case Constant(b) => r := Ok(if b then Always else Never);
      case Compare(op, path, v) => r := CompileCompare(schema, op, path, v, typ, row);
      case Logic(op, args) => r := CompileLogic(op, args, typ, row, depth);
      case In(path, values, from) => r := CompileMembership(path, values, from, typ, row);
      case Exists(path, missing) => r := CompileExists(schema, AsWritten, path, missing, typ, row);
      case Related(path, where) => r := CompileRelated(path, where, typ, row, depth);
    }

    /** The arguments in order, each counting on where the one before stopped. */
    method CompileLogic(
      op: LogicOp, args: seq<Expr>, typ: string, row: string, depth: nat) returns (r: Result<Pred, QueryError>)
      requires nodes <= MAX_FILTER_NODES && depth <= MAX_FILTER_DEPTH
      modifies this
      ensures Did(CompileExpr(schema, sets, AsWritten, Logic(op, args), typ, row, depth, old(BeforeThis())), r)
      decreases args, 1
    {
      if op == Not {
        if |args| != 1 {
          return Err(InvalidQuery);
        }
        var child := Compile(args[0], typ, row, depth + 1);
        return match child case Ok(p) => Ok(Negation(p)) case Err(e) => Err(e);
      }
      if args == [] {
        return Err(InvalidQuery);
      }
      var children: seq<Pred> := [];
      ghost var before := Counted();
      assert args[0..] == args;
      PrependedNone(CompileArgs(schema, sets, AsWritten, args, typ, row, depth + 1, before));
      for i := 0 to |args|
        invariant |children| == i
        invariant CompileArgs(schema, sets, AsWritten, args, typ, row, depth + 1, before)
          == Prepended(children, CompileArgs(schema, sets, AsWritten, args[i..], typ, row, depth + 1, Counted()))
      {
        ghost var now := Counted();
        assert args[i..][0] == args[i] && args[i..][1..] == args[i + 1..];
        var child := Compile(args[i], typ, row, depth + 1);
        match child {
          case Err(e) => return Err(e);
          case Ok(p) =>
            PrependedTwice(children, p,
              CompileArgs(schema, sets, AsWritten, args[i + 1..], typ, row, depth + 1, Counted()));
            children := children + [p];
        }
      }
      assert args[|args|..] == [] && children + [] == children;
      r := Ok(if op == And then All(children) else Any(children));
    }

    method CompileRelated(path: Path, where: Option<Expr>, typ: string, row: string, depth: nat)
      returns (r: Result<Pred, QueryError>)
      requires nodes <= MAX_FILTER_NODES && depth <= MAX_FILTER_DEPTH
      modifies this
      ensures Did(CompileExpr(schema, sets, AsWritten, Related(path, where), typ, row, depth, old(BeforeThis())), r)
      decreases where, 1
    {
      hide ResolvePath, LinkExists, Alias;
      if depth >= MAX_RELATION_DEPTH {
        return Err(RelationTooDeep);
      }
      match ResolvePath(schema, path, typ) {
        case Err(e) => return Err(e);
        case Ok(link) =>
          if !IsLink(link) {
            return Err(InvalidOperator);
          }
          match where {
            case None => return Err(InvalidQuery);
            case Some(w) =>
              alias := alias + 1;
              var name := Alias(alias);
              var child := Compile(w, TargetOf(link), name, depth + 1);
              r := match child case Ok(p) => Ok(LinkExists(AsWritten, link, row, name, [p])) case Err(e) => Err(e);
          }
      }
    }

    /** compileIn, with its two loops over the values. */
    method CompileMembership(path: Path, given: seq<Value>, from: Option<Set>, typ: string, row: string)
      returns (r: Result<Pred, QueryError>)
      ensures r == CompileIn(schema, sets, AsWritten, path, given, from, typ, row)
    {
      var path := ResolvePath(schema, path, typ);
      if path.Err? {
        return Err(path.error);
      }
      var resolved := path.value;
      var values := given;
      if from.Some? {
        if !IsLink(resolved) {
          return Err(InvalidOperator);
        }
        var answer := sets(from.value.address, TargetOf(resolved));
        if answer.Err? {
          return Err(answer.error);
        }
        values := answer.value;
      }
      if |values| > MAX_SET_VALUES {
        return Err(SetTooLarge);
      }
      if values == [] {
        return Ok(Never);
      }
      if resolved.ColumnOn? {
        return Ok(InList(TermFor(resolved, row), values));
      }
      if resolved.ScalarField? {
        if !KindOps(resolved.f.kind).equal {
          return Err(InvalidOperator);
        }
        for i := 0 to |values|
          invariant ValidOperands(resolved.f, values[..i])
        {
          if !ValidateValue(resolved.f, values[i]) {
            return Err(InvalidValue);
          }
          assert values[..i + 1] == values[..i] + [values[i]];
        }
        assert values[..|values|] == values;
        return Ok(InList(TermFor(resolved, row), values));
      }
      for i := 0 to |values|
        invariant ValidIds(values[..i])
      {
        var id := ToID(values[i]);
        if id.None? || id.value <= 0 {
          return Err(InvalidValue);
        }
        assert values[..i + 1] == values[..i] + [values[i]];
      }
      assert values[..|values|] == values;
      r := Ok(LinkIn(AsWritten, resolved, row, values));
    }
  }

  function Prepended(
    ps: seq<Pred>, r: Result<(seq<Pred>, Counts), QueryError>): Result<(seq<Pred>, Counts), QueryError> {
    match r case Ok((qs, c)) => Ok((ps + qs, c)) case Err(e) => Err(e)
  }

  lemma PrependedNone(r: Result<(seq<Pred>, Counts), QueryError>)
    ensures Prepended([], r) == r
  {
    if r.Ok? {
      assert [] + r.value.0 == r.value.0;
    }
  }

  lemma PrependedTwice(ps: seq<Pred>, p: Pred, r: Result<(seq<Pred>, Counts), QueryError>)
    ensures Prepended(ps, Prepended([p], r)) == Prepended(ps + [p], r)
  {
    if r.Ok? {
      assert ps + ([p] + r.value.0) == ps + [p] + r.value.0;
    }
  }
}
