/** The transport form of filters (query/spec.go), from the decoded JSON value on. */
module Spec {
  import opened Common
  import opened Types
  import opened Query

  datatype IncomingSpec = IncomingSpec(typ: string, field: string)

  datatype PredicateSpec = PredicateSpec(
    op: string,
    field: string,
    column: string,
    ref: string,
    incoming: Option<IncomingSpec>,
    value: Value,
    values: seq<Value>,
    args: seq<PredicateSpec>,
    where: Option<PredicateSpec>,
    subtree: string)

  datatype SpecError = TooNested | TooManyNodes | BadPath | MissingWhere | MissingArgs | UnknownOp

  // ---------------------------------------------------------------- decoding

  function PathOf(spec: PredicateSpec): Result<Path, SpecError> {
    var given :=
      (if spec.field != "" then 1 else 0) + (if spec.column != "" then 1 else 0)
      + (if spec.ref != "" then 1 else 0) + (if spec.incoming.Some? then 1 else 0);
    if given != 1 then Err(BadPath)
    else if spec.ref != "" then Ok(OutRefPath(spec.ref))
    else if spec.incoming.Some? then
      var i := spec.incoming.value;
      if i.typ == "" || i.field == "" then Err(BadPath) else Ok(InRefPath(i.typ, i.field))
    else if spec.column != "" then Ok(SystemPath(spec.column))
    else Ok(FieldPath(spec.field))
  }

  function CompareOpOf(op: string): Option<CompareOp> {
    if op == "eq" then Some(EQ) else if op == "ne" then Some(NE)
    else if op == "gt" then Some(GT) else if op == "gte" then Some(GTE)
    else if op == "lt" then Some(LT) else if op == "lte" then Some(LTE)
    else if op == "contains" then Some(Contains) else if op == "prefix" then Some(Prefix)
    else None
  }

  predicate NeedsNoPath(op: string) { op == "and" || op == "or" || op == "not" || op == "true" || op == "false" }

  type Decoded<T> = Result<(T, int), SpecError>

  /** expr: the filter, and the nodes counted so far. */
  function Decode(spec: PredicateSpec, depth: nat, before: int): Decoded<Expr>
    decreases spec
  {
    var n := before + 1;
    if depth > MAX_FILTER_DEPTH then Err(TooNested)
    else if n > MAX_FILTER_NODES then Err(TooManyNodes)
    else if PathOf(spec).Err? && !NeedsNoPath(spec.op) then Err(PathOf(spec).error)
    else if CompareOpOf(spec.op).Some? then Ok((Compare(CompareOpOf(spec.op).value, PathOf(spec).value, spec.value), n))
    else if spec.op == "in" then
      Ok((if spec.subtree != "" then In(PathOf(spec).value, [], Some(Subtree(spec.subtree)))
          else In(PathOf(spec).value, spec.values, None), n))
    else if spec.op == "exists" || spec.op == "missing" then
      Ok((Expr.Exists(PathOf(spec).value, spec.op == "missing"), n))
    else if spec.op == "related" then
      if spec.where.None? then Err(MissingWhere)
      else
        match Decode(spec.where.value, depth + 1, n)
        case Err(e) => Err(e)
        case Ok((w, m)) => Ok((Related(PathOf(spec).value, Some(w)), m))
    else if spec.op == "and" || spec.op == "or" then
      if spec.args == [] then Err(MissingArgs)
      else
        match DecodeArgs(spec.args, depth + 1, n)
        case Err(e) => Err(e)
        case Ok((es, m)) => Ok((Logic(if spec.op == "and" then And else Or, es), m))
    else if spec.op == "not" then
      if |spec.args| != 1 then Err(MissingArgs)
      else
        match Decode(spec.args[0], depth + 1, n)
        case Err(e) => Err(e)
        case Ok((e, m)) => Ok((Logic(Not, [e]), m))
    else if spec.op == "true" then Ok((Constant(true), n))
    else if spec.op == "false" then Ok((Constant(false), n))
    else Err(UnknownOp)
  }

  function DecodeArgs(args: seq<PredicateSpec>, depth: nat, before: int): Decoded<seq<Expr>>
    decreases args
  {
    if args == [] then Ok(([], before))
    else
      match Decode(args[0], depth, before)
      case Err(e) => Err(e)
      case Ok((e, n)) =>
        match DecodeArgs(args[1..], depth, n)
        case Err(err) => Err(err)
        case Ok((es, m)) => Ok(([e] + es, m))
  }

  /** A decoding of arguments that already holds es. */
  function Collected(es: seq<Expr>, r: Decoded<seq<Expr>>): Decoded<seq<Expr>> {
    if r.Err? then Err(r.error) else Ok((es + r.value.0, r.value.1))
  }

  /** One round of the loop over the arguments. */
  lemma ArgsStep(args: seq<PredicateSpec>, depth: nat, before: int)
    ensures args == [] ==> DecodeArgs(args, depth, before) == Ok(([], before))
    ensures args != [] ==>
      var first := Decode(args[0], depth, before);
      DecodeArgs(args, depth, before) ==
        if first.Err? then Err(first.error) else Collected([first.value.0], DecodeArgs(args[1..], depth, first.value.1))
  {
    hide Decode;
  }

  // ---------------------------------------------------------------- encoding

  const BLANK := PredicateSpec("", "", "", "", None, Null, [], [], None, "")

  function WithPath(spec: PredicateSpec, path: Path): PredicateSpec {
    match path
    case SystemPath(name) => spec.(column := name)
    case FieldPath(name) => spec.(field := name)
    case OutRefPath(name) => spec.(ref := name)
    case InRefPath(source, name) => spec.(incoming := Some(IncomingSpec(source, name)))
  }

  function OpName(op: CompareOp): string {
    match op
    case EQ => "eq" case NE => "ne" case GT => "gt" case GTE => "gte" case LT => "lt" case LTE => "lte"
    case Contains => "contains" case Prefix => "prefix"
  }

  function Encode(e: Expr): PredicateSpec {
    match e
    case Constant(b) => BLANK.(op := if b then "true" else "false")
    case Compare(op, path, v) => WithPath(BLANK.(op := OpName(op), value := v), path)
    case Logic(op, args) =>
      BLANK.(op := match op case And => "and" case Or => "or" case Not => "not", args := EncodeArgs(args))
    case In(path, values, None) => WithPath(BLANK.(op := "in", values := values), path)
    case In(path, _, Some(s)) => WithPath(BLANK.(op := "in", subtree := s.address), path)
    case Exists(path, missing) => WithPath(BLANK.(op := if missing then "missing" else "exists"), path)
    case Related(path, None) => WithPath(BLANK.(op := "related"), path)
    case Related(path, Some(w)) => WithPath(BLANK.(op := "related", where := Some(Encode(w))), path)
  }

  function EncodeArgs(args: seq<Expr>): (r: seq<PredicateSpec>)
    ensures |r| == |args|
  {
    if args == [] then [] else [Encode(args[0])] + EncodeArgs(args[1..])
  }

  predicate NamedPath(path: Path) { path.field != "" && (path.InRefPath? ==> path.source != "") }

  /** The filters the transport form has a place for. */
  predicate Encodable(e: Expr) {
    match e
    case Constant(_) => true
    case Compare(_, path, _) => NamedPath(path)
    case Logic(op, args) =>
      args != [] && (op == Not ==> |args| == 1) && forall i :: 0 <= i < |args| ==> Encodable(args[i])
    case In(path, values, from) => NamedPath(path) && (from.Some? ==> values == [] && from.value.address != "")
    case Exists(path, _) => NamedPath(path)
    case Related(path, where) => NamedPath(path) && where.Some? && Encodable(where.value)
  }

  lemma PathDecodes(spec: PredicateSpec, path: Path)
    requires NamedPath(path) && spec.field == "" && spec.column == "" && spec.ref == "" && spec.incoming.None?
    ensures PathOf(WithPath(spec, path)) == Ok(path)
  {
  }

  /** What decoding an encoded filter gives: the filter, unless it is beyond a limit. */
  ghost predicate DecodesTo(r: Decoded<Expr>, e: Expr, depth: nat, before: int) {
    if before + Size(e) <= 256 && depth + Depth(e) <= 12 then r == Ok((e, before + Size(e)))
    else r.Err?
  }

  ghost predicate ArgsDecodeTo(r: Decoded<seq<Expr>>, args: seq<Expr>, depth: nat, before: int) {
    if before + Sizes(args) <= 256 && depth - 1 + Depths(args) <= 12
    then r == Ok((args, before + Sizes(args)))
    else r.Err?
  }

  /** Decoding undoes encoding, and refuses exactly the filters beyond the node or depth limit. */
  lemma {:induction false} EncodedDecodes(e: Expr, depth: nat, before: int)
    requires Encodable(e)
    ensures DecodesTo(Decode(Encode(e), depth, before), e, depth, before)
    decreases e, 1
  {
    hide PathOf, WithPath, NamedPath;
    match e
    case Logic(op, args) => EncodedLogicDecodes(op, args, depth, before);
    case Related(path, where) =>
      var spec := BLANK.(op := "related", where := Some(Encode(where.value)));
      WithPathKeeps(spec, path);
      PathDecodes(spec, path);
      EncodedDecodes(where.value, depth + 1, before + 1);
      RelatedDecodes(path, where.value, depth, before);
    case _ => EncodedLeafDecodes(e, depth, before);
  }

  lemma WithPathKeeps(spec: PredicateSpec, path: Path)
    ensures
      var s := WithPath(spec, path);
      && s.op == spec.op && s.value == spec.value && s.values == spec.values && s.args == spec.args
      && s.where == spec.where && s.subtree == spec.subtree
  {
  }

  lemma EncodedLeafDecodes(e: Expr, depth: nat, before: int)
    requires Encodable(e) && !e.Logic? && !e.Related?
    ensures DecodesTo(Decode(Encode(e), depth, before), e, depth, before)
  {
    hide PathOf, WithPath, NamedPath;
    match e
    case Constant(b) =>
    case Compare(op, path, v) =>
      var spec := BLANK.(op := OpName(op), value := v);
      WithPathKeeps(spec, path);
      PathDecodes(spec, path);
      assert CompareOpOf(OpName(op)) == Some(op);
    case In(path, values, from) =>
      var spec := if from.None? then BLANK.(op := "in", values := values)
        else BLANK.(op := "in", subtree := from.value.address);
      WithPathKeeps(spec, path);
      PathDecodes(spec, path);
    case Exists(path, missing) =>
      var spec := BLANK.(op := if missing then "missing" else "exists");
      WithPathKeeps(spec, path);
      PathDecodes(spec, path);
  }

  lemma RelatedDecodes(path: Path, w: Expr, depth: nat, before: int)
    requires NamedPath(path)
    requires DecodesTo(Decode(Encode(w), depth + 1, before + 1), w, depth + 1, before + 1)
    ensures DecodesTo(Decode(Encode(Related(path, Some(w))), depth, before), Related(path, Some(w)), depth, before)
  {
    hide PathOf, WithPath, NamedPath;
    var spec := BLANK.(op := "related", where := Some(Encode(w)));
    WithPathKeeps(spec, path);
    PathDecodes(spec, path);
    assert CompareOpOf("related").None?;
  }

  lemma {:induction false} EncodedLogicDecodes(op: LogicOp, args: seq<Expr>, depth: nat, before: int)
    requires Encodable(Logic(op, args))
    ensures DecodesTo(Decode(Encode(Logic(op, args)), depth, before), Logic(op, args), depth, before)
    decreases args, 1
  {
    hide PathOf, DecodesTo, ArgsDecodeTo, Encode, Decode;
    if op == Not {
      EncodedDecodes(args[0], depth + 1, before + 1);
      NotDecodes(args, depth, before);
    } else if before + 1 <= MAX_FILTER_NODES && depth <= MAX_FILTER_DEPTH {
      EncodedArgsDecode(args, depth + 1, before + 1);
      AndOrDecodes(op, args, depth, before);
    } else {
      TooMuchAlready(op, args, depth, before);
    }
  }

  lemma TooMuchAlready(op: LogicOp, args: seq<Expr>, depth: nat, before: int)
    requires before + 1 > MAX_FILTER_NODES || depth > MAX_FILTER_DEPTH
    ensures DecodesTo(Decode(Encode(Logic(op, args)), depth, before), Logic(op, args), depth, before)
  {
    hide PathOf;
  }

  lemma NotEncodes(args: seq<Expr>)
    requires |args| == 1
    ensures Encode(Logic(Not, args)) == BLANK.(op := "not", args := [Encode(args[0])])
    ensures Size(Logic(Not, args)) == 1 + Sizes(args) && Depth(Logic(Not, args)) == Depths(args)
    ensures args == [args[0]] && args[1..] == []
  {
    assert EncodeArgs(args) == [Encode(args[0])];
  }

  lemma NotDecodes(args: seq<Expr>, depth: nat, before: int)
    requires |args| == 1
    requires DecodesTo(Decode(Encode(args[0]), depth + 1, before + 1), args[0], depth + 1, before + 1)
    ensures DecodesTo(Decode(Encode(Logic(Not, args)), depth, before), Logic(Not, args), depth, before)
  {
    hide PathOf, Encode, EncodeArgs, WithPath, Size, Depth;
    NotEncodes(args);
    assert Sizes(args) == Size(args[0]) + Sizes([]) && Sizes([]) == 0;
    assert Depths(args) == 1 + Depth(args[0]) by { assert Depths([]) == 0; }
    assert CompareOpOf("not").None?;
  }

  lemma AndOrDecodes(op: LogicOp, args: seq<Expr>, depth: nat, before: int)
    requires op != Not && args != []
    requires ArgsDecodeTo(DecodeArgs(EncodeArgs(args), depth + 1, before + 1), args, depth + 1, before + 1)
    ensures DecodesTo(Decode(Encode(Logic(op, args)), depth, before), Logic(op, args), depth, before)
  {
    hide PathOf, EncodeArgs, DecodeArgs;
    assert CompareOpOf("and").None? && CompareOpOf("or").None?;
  }

  lemma {:induction false} EncodedArgsDecode(args: seq<Expr>, depth: nat, before: int)
    requires depth > 0 && forall i :: 0 <= i < |args| ==> Encodable(args[i])
    ensures args != [] || (before <= MAX_FILTER_NODES && depth - 1 <= MAX_FILTER_DEPTH)
      ==> ArgsDecodeTo(DecodeArgs(EncodeArgs(args), depth, before), args, depth, before)
    decreases args, 0
  {
    hide Encodable, Encode, Decode, Size, Depth, DecodeArgs;
    ArgsStep(EncodeArgs(args), depth, before);
    if args != [] {
      EncodedDecodes(args[0], depth, before);
      EncodedArgsDecode(args[1..], depth, before + Size(args[0]));
      assert EncodeArgs(args)[0] == Encode(args[0]) && EncodeArgs(args)[1..] == EncodeArgs(args[1..]);
      assert [args[0]] + args[1..] == args;
    }
  }

  /**
   * Every transport form that decodes gives a filter the compiler's guard lets through, and is counted as the
   * compiler counts.
   */
  lemma {:induction false} DecodedIsWithinGuard(spec: PredicateSpec, depth: nat, before: int)
    requires Decode(spec, depth, before).Ok?
    ensures
      var (e, n) := Decode(spec, depth, before).value;
      n == before + Size(e) <= MAX_FILTER_NODES && depth + Depth(e) <= MAX_FILTER_DEPTH
    decreases spec
  {
    hide PathOf, CompareOpOf;
    if spec.op == "related" && CompareOpOf(spec.op).None? {
      DecodedIsWithinGuard(spec.where.value, depth + 1, before + 1);
    } else if (spec.op == "and" || spec.op == "or") && CompareOpOf(spec.op).None? {
      DecodedArgsAreWithinGuard(spec.args, depth + 1, before + 1);
    } else if spec.op == "not" && CompareOpOf(spec.op).None? {
      DecodedIsWithinGuard(spec.args[0], depth + 1, before + 1);
      var e := Decode(spec.args[0], depth + 1, before + 1).value.0;
      assert [e][1..] == [] && Sizes([]) == 0 && Depths([]) == 0;
    }
  }

  lemma {:induction false} DecodedArgsAreWithinGuard(args: seq<PredicateSpec>, depth: nat, before: int)
    requires DecodeArgs(args, depth, before).Ok? && depth > 0 && before <= MAX_FILTER_NODES
    requires depth - 1 <= MAX_FILTER_DEPTH
    ensures
      var (es, n) := DecodeArgs(args, depth, before).value;
      n == before + Sizes(es) <= MAX_FILTER_NODES && depth - 1 + Depths(es) <= MAX_FILTER_DEPTH
    decreases args
  {
    if args != [] {
      DecodedIsWithinGuard(args[0], depth, before);
      hide Decode;
      var (e, n) := Decode(args[0], depth, before).value;
      DecodedArgsAreWithinGuard(args[1..], depth, n);
      var es := DecodeArgs(args[1..], depth, n).value.0;
      assert ([e] + es)[1..] == es;
    }
  }

  // ---------------------------------------------------------------- the decoder with its shared counter

  /** The counter every level of a decoding shares. */
  class NodeCount {
    var nodes: int

    constructor ()
      ensures nodes == 0
    {
      nodes := 0;
    }
  }

  ghost predicate Did(spec: Decoded<Expr>, r: Result<Expr, SpecError>, nodes: int) {
    match spec
    case Err(e) => r == Err(e)
    case Ok((e, n)) => r == Ok(e) && nodes == n
  }

  lemma CollectedTwice(es: seq<Expr>, e: Expr, r: Decoded<seq<Expr>>)
    ensures Collected(es, Collected([e], r)) == Collected(es + [e], r)
  {
    if r.Ok? {
      assert es + ([e] + r.value.0) == es + [e] + r.value.0;
    }
  }

  method DecodeSpec(spec: PredicateSpec, depth: nat, count: NodeCount) returns (r: Result<Expr, SpecError>)
    modifies count
    ensures Did(Decode(spec, depth, old(count.nodes)), r, count.nodes)
    decreases spec, 1
  {
    hide DecodeArgs;
    if depth > MAX_FILTER_DEPTH {
      return Err(TooNested);
    }
    count.nodes := count.nodes + 1;
    if count.nodes > MAX_FILTER_NODES {
      return Err(TooManyNodes);
    }
    var path := PathOf(spec);
    if path.Err? && !NeedsNoPath(spec.op) {
      return Err(path.error);
    }
    if CompareOpOf(spec.op).Some? {
      return Ok(Compare(CompareOpOf(spec.op).value, path.value, spec.value));
    }
    match spec.op {
      case "in" =>
        if spec.subtree != "" {
          return Ok(In(path.value, [], Some(Subtree(spec.subtree))));
        }
        return Ok(In(path.value, spec.values, None));
      case "exists" => return Ok(Expr.Exists(path.value, false));
      case "missing" => return Ok(Expr.Exists(path.value, true));
      case "related" =>
        if spec.where.None? {
          return Err(MissingWhere);
        }
        var where := DecodeSpec(spec.where.value, depth + 1, count);
        if where.Err? {
          return Err(where.error);
        }
        return Ok(Related(path.value, Some(where.value)));
      case "and" => r := DecodeGroup(And, spec.args, depth, count);
      case "or" => r := DecodeGroup(Or, spec.args, depth, count);
      case "not" =>
        if |spec.args| != 1 {
          return Err(MissingArgs);
        }
        var arg := DecodeSpec(spec.args[0], depth + 1, count);
        if arg.Err? {
          return Err(arg.error);
        }
        return Ok(Logic(Not, [arg.value]));
      case "true" => return Ok(Constant(true));
      case "false" => return Ok(Constant(false));
      case _ => return Err(UnknownOp);
    }
  }

  /** The loop that fills the arguments of and / or. */
  method DecodeGroup(
    op: LogicOp, args: seq<PredicateSpec>, depth: nat, count: NodeCount) returns (r: Result<Expr, SpecError>)
    modifies count
    ensures args == [] ==> r == Err(MissingArgs)
    ensures args != [] ==>
      match DecodeArgs(args, depth + 1, old(count.nodes))
      case Err(e) => r == Err(e)
      case Ok((es, n)) => r == Ok(Logic(op, es)) && count.nodes == n
    decreases args, 1
  {
    if args == [] {
      return Err(MissingArgs);
    }
    hide DecodeArgs, Decode;
    var es: seq<Expr> := [];
    ghost var spec := DecodeArgs(args, depth + 1, count.nodes);
    assert args[0..] == args;
    assert spec.Ok? ==> [] + spec.value.0 == spec.value.0;
    for i := 0 to |args|
      invariant spec == Collected(es, DecodeArgs(args[i..], depth + 1, count.nodes))
    {
      ArgsStep(args[i..], depth + 1, count.nodes);
      assert args[i..][0] == args[i] && args[i..][1..] == args[i + 1..];
      var arg := DecodeSpec(args[i], depth + 1, count);
      if arg.Err? {
        return Err(arg.error);
      }
      CollectedTwice(es, arg.value, DecodeArgs(args[i + 1..], depth + 1, count.nodes));
      es := es + [arg.value];
    }
    ArgsStep(args[|args|..], depth + 1, count.nodes);
    assert es + [] == es;
    r := Ok(Logic(op, es));
  }
}
