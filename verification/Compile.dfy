/** From filters to SQL predicates (core/node_query_compile.go), as a function of the compiler's two counters. */
module Compile {
  import opened Common
  import opened Types
  import opened Decimal
  import opened Query
  import opened Sql
  import Like

  /** TooComplex is the bare guard on nodes and depth; the other two limits say which they are. */
  datatype QueryError =
    | InvalidQuery | InvalidField | InvalidOperator | InvalidValue
    | TooComplex | SetTooLarge | RelationTooDeep

  const MAX_RELATION_DEPTH := 4

  /**
   * AsWritten is the predicate text the compiler emits. FieldTested is the same text with the field name,
   * the symmetric flag and the source type, which the compiler already passes as arguments, tested as well.
   */
  datatype Style = AsWritten | FieldTested

  /** Answers of the database to the set expressions: address and expected type to node ids. */
  type Sets = (string, string) -> Result<seq<Value>, QueryError>

  // ---------------------------------------------------------------- paths

  datatype Resolved =
    | ColumnOn(name: string, ops: Ops)
    | ScalarField(f: FieldDef)
    | OutRef(f: FieldDef)
    | InRef(f: FieldDef, source: string)

  predicate IsLink(r: Resolved) { r.OutRef? || r.InRef? }

  function TargetOf(r: Resolved): string
    requires IsLink(r)
  {
    if r.OutRef? then r.f.to else r.source
  }

  function ResolvePath(schema: Schema, path: Path, typ: string): Result<Resolved, QueryError> {
    if path.field == "" then Err(InvalidField)
    else
      match path
      case SystemPath(name) =>
        (match ColumnOps(name) case Some(ops) => Ok(ColumnOn(name, ops)) case None => Err(InvalidField))
      case FieldPath(name) =>
        var f := FieldOn(schema, typ, name);
        if f.Some? && !IsRefKind(f.value.kind) then Ok(ScalarField(f.value)) else Err(InvalidField)
      case OutRefPath(name) =>
        var f := FieldOn(schema, typ, name);
        if f.Some? && IsRefKind(f.value.kind) then Ok(OutRef(f.value)) else Err(InvalidField)
      case InRefPath(source, name) =>
        var f := FieldOn(schema, source, name);
        if source != "" && f.Some? && IsRefKind(f.value.kind) && f.value.to == typ
        then Ok(InRef(f.value, source)) else Err(InvalidField)
  }

  function TermFor(r: Resolved, row: string): Term
    requires !IsLink(r)
  {
    if r.ColumnOn? then Column(row, r.name) else JsonField(row, r.f.name)
  }

  // ---------------------------------------------------------------- comparisons

  predicate OpAllowed(ops: Ops, op: CompareOp) {
    match op
    case EQ => ops.equal
    case NE => ops.equal
    case Contains => ops.text
    case Prefix => ops.text
    case _ => ops.ordered
  }

  /** validateCompare */
  function CompareProblem(r: Resolved, op: CompareOp, v: Value): Option<QueryError>
    requires !IsLink(r)
  {
    if v == Null then (if op == EQ || op == NE then None else Some(InvalidValue))
    else if !OpAllowed(if r.ColumnOn? then r.ops else KindOps(r.f.kind), op) then Some(InvalidOperator)
    else if !(if r.ColumnOn? then ColumnAccepts(r.name, v) else ValidateValue(r.f, v)) then Some(InvalidValue)
    else None
  }

  lemma TextOpsTakeStrings(r: Resolved, op: CompareOp, v: Value)
    requires !IsLink(r) && (r.ColumnOn? ==> ColumnOps(r.name) == Some(r.ops))
    requires CompareProblem(r, op, v).None? && (op == Contains || op == Prefix)
    ensures v.Str?
  {
  }

  function CompileCompare(schema: Schema, op: CompareOp, path: Path, v: Value, typ: string, row: string)
    : Result<Pred, QueryError>
  {
    match ResolvePath(schema, path, typ)
    case Err(e) => Err(e)
    case Ok(r) =>
      if IsLink(r) then Err(InvalidOperator)
      else if CompareProblem(r, op, v).Some? then Err(CompareProblem(r, op, v).value)
      else if v == Null then Ok(if op == EQ then IsNull(TermFor(r, row)) else NotNull(TermFor(r, row)))
      else
        match op
        case Contains =>
          TextOpsTakeStrings(r, op, v);
          Ok(LikePattern(TermFor(r, row), "%" + Like.EscapeLike(v.s) + "%"))
        case Prefix =>
          TextOpsTakeStrings(r, op, v);
          Ok(LikePattern(TermFor(r, row), Like.EscapeLike(v.s) + "%"))
        case _ => Ok(Cmp(op, TermFor(r, row), Param(v)))
  }

  // ---------------------------------------------------------------- relations

  function IdOf(row: string): Term { Column(row, "id") }

  function FieldIs(name: string): Pred { Cmp(EQ, EdgeField, Param(Str(name))) }

  function IsSymmetric(): Pred { Cmp(EQ, EdgeSymmetric, Param(Int(1))) }

  function TypeIs(row: string, typ: string): Pred { Cmp(EQ, Column(row, "type"), Param(Str(typ))) }

  /** The node at the far end of the edge e, seen from row. */
  function FarEnd(r: Resolved, row: string): Term
    requires IsLink(r)
  {
    if Undirected(r.f) then OppositeOf(row) else if r.OutRef? then EdgeTo else EdgeFrom
  }

  /** The conditions an edge e must meet to lead from row to the node joined as far. */
  function LinkTests(style: Style, r: Resolved, row: string, far: string): seq<Pred>
    requires IsLink(r)
  {
    if Undirected(r.f) then
      [FieldIs(r.f.name), IsSymmetric(), Any([Cmp(EQ, EdgeFrom, IdOf(row)), Cmp(EQ, EdgeTo, IdOf(row))])]
    else if r.OutRef? then
      [Cmp(EQ, EdgeFrom, IdOf(row))] + if style.FieldTested? then [FieldIs(r.f.name)] else []
    else
      [Cmp(EQ, EdgeTo, IdOf(row))] + if style.FieldTested? then [FieldIs(r.f.name), TypeIs(far, r.source)] else []
  }

  /** EXISTS over the edges that lead from row to some node, joined under the name far, for which rest holds. */
  function LinkExists(style: Style, r: Resolved, row: string, far: string, rest: seq<Pred>): Pred
    requires IsLink(r)
  {
    ExistsJoin(far, FarEnd(r, row), All(LinkTests(style, r, row, far) + rest))
  }

  function JoinName(r: Resolved): string
    requires IsLink(r)
  {
    if r.InRef? && !Undirected(r.f) then "src" else "target"
  }

  /** One half of a membership test: row is the near end of an edge whose far end is among the values. */
  function NearEndOf(row: string, near: Term, join: string, far: Term, tests: seq<Pred>, values: seq<Value>): Pred {
    InSelect(IdOf(row), near, join, far, All(tests + [InList(far, values)]))
  }

  function LinkIn(style: Style, r: Resolved, row: string, values: seq<Value>): Pred
    requires IsLink(r)
  {
    var name := [FieldIs(r.f.name)];
    if r.OutRef? then
      var tests := name + if style.FieldTested? then [IsSymmetric()] else [];
      if Undirected(r.f) then
        Any([NearEndOf(row, EdgeFrom, "target", EdgeTo, tests, values),
             NearEndOf(row, EdgeTo, "target", EdgeFrom, tests, values)])
      else NearEndOf(row, EdgeFrom, "target", EdgeTo, name, values)
    else if Undirected(r.f) then
      var tests := name + [IsSymmetric(), TypeIs("source", r.source)];
      Any([NearEndOf(row, EdgeTo, "source", EdgeFrom, tests, values),
           NearEndOf(row, EdgeFrom, "source", EdgeTo, tests, values)])
    else
      var source := if style.FieldTested? then [TypeIs("src", r.source)] else [];
      NearEndOf(row, EdgeTo, "src", EdgeFrom, name + source, values)
  }

  /** validateIDs */
  predicate ValidIds(values: seq<Value>) {
    forall i :: 0 <= i < |values| ==> ToID(values[i]).Some? && ToID(values[i]).value > 0
  }

  predicate ValidOperands(f: FieldDef, values: seq<Value>) {
    forall i :: 0 <= i < |values| ==> ValidateValue(f, values[i])
  }

  function SetValues(sets: Sets, r: Resolved, values: seq<Value>, from: Option<Set>): Result<seq<Value>, QueryError> {
    match from
    case None => Ok(values)
    case Some(s) => if IsLink(r) then sets(s.address, TargetOf(r)) else Err(InvalidOperator)
  }

  function CompileIn(
    schema: Schema, sets: Sets, style: Style, path: Path, given: seq<Value>, from: Option<Set>, typ: string,
    row: string)
    : Result<Pred, QueryError>
  {
    match ResolvePath(schema, path, typ)
    case Err(e) => Err(e)
    case Ok(r) =>
      match SetValues(sets, r, given, from)
      case Err(e) => Err(e)
      case Ok(values) =>
        if |values| > MAX_SET_VALUES then Err(SetTooLarge)
        else if values == [] then Ok(Never)
        else if r.ColumnOn? then Ok(InList(TermFor(r, row), values))
        else if r.ScalarField? then
          if !KindOps(r.f.kind).equal then Err(InvalidOperator)
          else if !ValidOperands(r.f, values) then Err(InvalidValue)
          else Ok(InList(TermFor(r, row), values))
        else if !ValidIds(values) then Err(InvalidValue)
        else Ok(LinkIn(style, r, row, values))
  }

  function CompileExists(schema: Schema, style: Style, path: Path, missing: bool, typ: string, row: string)
    : Result<Pred, QueryError>
  {
    match ResolvePath(schema, path, typ)
    case Err(e) => Err(e)
    case Ok(r) =>
      var p :=
        if r.ColumnOn? then NotNull(TermFor(r, row))
        else if r.ScalarField? then HasField(row, r.f.name)
        else LinkExists(style, r, row, JoinName(r), []);
      Ok(if missing then Negation(p) else p)
  }

  // ---------------------------------------------------------------- expressions

  /** The compiler's counters: expressions visited, and aliases handed out. */
  datatype Counts = Counts(nodes: int, alias: int)

  type Compiled = Result<(Pred, Counts), QueryError>

  function Alias(k: int): string { "related_" + Num(k) }

  function Uncounted(r: Result<Pred, QueryError>, c: Counts): Compiled {
    match r case Ok(p) => Ok((p, c)) case Err(e) => Err(e)
  }

  function CompileExpr(
    schema: Schema, sets: Sets, style: Style, e: Expr, typ: string, row: string, depth: nat, before: Counts): Compiled
    decreases e
  {
    var c := before.(nodes := before.nodes + 1);
    if c.nodes > MAX_FILTER_NODES || depth > MAX_FILTER_DEPTH then Err(TooComplex)
    else
      match e
      case Constant(b) => Ok((if b then Always else Never, c))
      case Compare(op, path, v) => Uncounted(CompileCompare(schema, op, path, v, typ, row), c)
      case In(path, values, from) => Uncounted(CompileIn(schema, sets, style, path, values, from, typ, row), c)
      case Exists(path, missing) => Uncounted(CompileExists(schema, style, path, missing, typ, row), c)
      case Logic(Not, args) =>
        if |args| != 1 then Err(InvalidQuery)
        else
          (match CompileExpr(schema, sets, style, args[0], typ, row, depth + 1, c)
           case Err(e) => Err(e)
           case Ok((p, c1)) => Ok((Negation(p), c1)))
      case Logic(op, args) =>
        if args == [] then Err(InvalidQuery)
        else
          (match CompileArgs(schema, sets, style, args, typ, row, depth + 1, c)
           case Err(e) => Err(e)
           case Ok((ps, c1)) => Ok((if op == And then All(ps) else Any(ps), c1)))
      case Related(path, where) =>
        if depth >= MAX_RELATION_DEPTH then Err(RelationTooDeep)
        else
          match ResolvePath(schema, path, typ)
          case Err(e) => Err(e)
          case Ok(r) =>
            if !IsLink(r) then Err(InvalidOperator)
            else
              match where
              case None => Err(InvalidQuery)
              case Some(w) =>
                var inner := c.(alias := c.alias + 1);
                match CompileExpr(schema, sets, style, w, TargetOf(r), Alias(inner.alias), depth + 1, inner)
                case Err(e) => Err(e)
                case Ok((p, c1)) => Ok((LinkExists(style, r, row, Alias(inner.alias), [p]), c1))
  }

  function CompileArgs(
    schema: Schema, sets: Sets, style: Style, args: seq<Expr>, typ: string, row: string, depth: nat, before: Counts)
    : Result<(seq<Pred>, Counts), QueryError>
    decreases args
  {
    if args == [] then Ok(([], before))
    else
      match CompileExpr(schema, sets, style, args[0], typ, row, depth, before)
      case Err(e) => Err(e)
      case Ok((p, c)) =>
        match CompileArgs(schema, sets, style, args[1..], typ, row, depth, c)
        case Err(e) => Err(e)
        case Ok((ps, c1)) => Ok(([p] + ps, c1))
  }

  /** compileWhere: no filter is the filter that holds of every row. */
  function CompileWhere(
    schema: Schema, sets: Sets, style: Style, typ: string, e: Option<Expr>): Result<Pred, QueryError> {
    if typ !in schema then Err(InvalidQuery)
    else
      match e
      case None => Ok(Always)
      case Some(e) =>
        match CompileExpr(schema, sets, style, e, typ, "nodes", 0, Counts(0, 0))
        case Err(err) => Err(err)
        case Ok((p, _)) => Ok(p)
  }
}
