/** Exactly which transport forms decode, and to what (query/spec.go). */
module SpecForms {
  import opened Common
  import opened Query
  import opened Spec

  /** The form gives this path, and no other beside it. */
  predicate PathSaid(spec: PredicateSpec, path: Path) {
    && NamedPath(path)
    && spec.field == (if path.FieldPath? then path.field else "")
    && spec.column == (if path.SystemPath? then path.field else "")
    && spec.ref == (if path.OutRefPath? then path.field else "")
    && spec.incoming == if path.InRefPath? then Some(IncomingSpec(path.source, path.field)) else None
  }

  /** The form says the filter; members its operator has no use for may hold anything. */
  predicate Says(spec: PredicateSpec, e: Expr)
    decreases e
  {
    match e
    case Constant(b) => spec.op == (if b then "true" else "false")
    case Compare(op, path, v) => spec.op == OpName(op) && PathSaid(spec, path) && spec.value == v
    case In(path, values, None) =>
      spec.op == "in" && PathSaid(spec, path) && spec.subtree == "" && spec.values == values
    case In(path, values, Some(s)) =>
      spec.op == "in" && PathSaid(spec, path) && values == [] && spec.subtree == s.address != ""
    case Exists(path, missing) => spec.op == (if missing then "missing" else "exists") && PathSaid(spec, path)
    case Related(path, where) =>
      spec.op == "related" && PathSaid(spec, path) && where.Some? && spec.where.Some?
        && Says(spec.where.value, where.value)
    case Logic(op, args) =>
      && spec.op == (match op case And => "and" case Or => "or" case Not => "not")
      && args != [] && (op == Not ==> |args| == 1)
      && |spec.args| == |args| && forall i :: 0 <= i < |args| ==> Says(spec.args[i], args[i])
  }

  lemma PathOfIff(spec: PredicateSpec, path: Path)
    ensures PathOf(spec) == Ok(path) <==> PathSaid(spec, path)
  {
  }

  lemma OpOfIff(op: string, c: CompareOp)
    ensures CompareOpOf(op) == Some(c) <==> op == OpName(c)
  {
  }

  lemma NamesDiffer()
    ensures forall n :: n in ["in", "exists", "missing", "related", "and", "or", "not", "true", "false"] ==>
      CompareOpOf(n).None?
  {
  }

  /** Whatever decodes is said. */
  lemma {:induction false} DecodedIsSaid(spec: PredicateSpec, depth: nat, before: int)
    requires Decode(spec, depth, before).Ok?
    ensures Says(spec, Decode(spec, depth, before).value.0)
    decreases spec
  {
    NamesDiffer();
    hide PathOf, PathSaid, CompareOpOf, OpName, NeedsNoPath;
    if CompareOpOf(spec.op).None? && spec.op in ["related", "and", "or", "not"] {
      if spec.op == "related" {
        RelatedDecodesTo(spec, depth, before);
        DecodedIsSaid(spec.where.value, depth + 1, before + 1);
      } else if spec.op == "not" {
        NotDecodesTo(spec, depth, before);
        DecodedIsSaid(spec.args[0], depth + 1, before + 1);
      } else {
        GroupDecodesTo(spec, depth, before);
        DecodedAreSaid(spec.args, depth + 1, before + 1);
      }
      hide Decode;
    } else {
      DecodedLeafIsSaid(spec, depth, before);
    }
  }

  lemma RelatedDecodesTo(spec: PredicateSpec, depth: nat, before: int)
    requires Decode(spec, depth, before).Ok? && spec.op == "related"
    ensures spec.where.Some? && Decode(spec.where.value, depth + 1, before + 1).Ok? && PathOf(spec).Ok?
    ensures PathSaid(spec, PathOf(spec).value)
    ensures Decode(spec, depth, before).value.0
      == Related(PathOf(spec).value, Some(Decode(spec.where.value, depth + 1, before + 1).value.0))
  {
    NamesDiffer();
    if PathOf(spec).Ok? { PathOfIff(spec, PathOf(spec).value); }
    hide PathOf, PathSaid, CompareOpOf;
  }

  lemma NotDecodesTo(spec: PredicateSpec, depth: nat, before: int)
    requires Decode(spec, depth, before).Ok? && spec.op == "not"
    ensures |spec.args| == 1 && Decode(spec.args[0], depth + 1, before + 1).Ok?
    ensures Decode(spec, depth, before).value.0 == Logic(Not, [Decode(spec.args[0], depth + 1, before + 1).value.0])
  {
    NamesDiffer();
    hide PathOf, CompareOpOf;
  }

  lemma GroupDecodesTo(spec: PredicateSpec, depth: nat, before: int)
    requires Decode(spec, depth, before).Ok? && (spec.op == "and" || spec.op == "or")
    ensures spec.args != [] && DecodeArgs(spec.args, depth + 1, before + 1).Ok?
    ensures Decode(spec, depth, before).value.0
      == Logic(if spec.op == "and" then And else Or, DecodeArgs(spec.args, depth + 1, before + 1).value.0)
  {
    NamesDiffer();
    hide PathOf, CompareOpOf, DecodeArgs;
  }

  lemma DecodedLeafIsSaid(spec: PredicateSpec, depth: nat, before: int)
    requires Decode(spec, depth, before).Ok?
    requires CompareOpOf(spec.op).Some? || spec.op !in ["related", "and", "or", "not"]
    ensures Says(spec, Decode(spec, depth, before).value.0)
  {
    NamesDiffer();
    if PathOf(spec).Ok? { PathOfIff(spec, PathOf(spec).value); }
    if CompareOpOf(spec.op).Some? { OpOfIff(spec.op, CompareOpOf(spec.op).value); }
    hide PathOf, PathSaid, CompareOpOf, OpName;
  }

  lemma {:induction false} DecodedAreSaid(args: seq<PredicateSpec>, depth: nat, before: int)
    requires DecodeArgs(args, depth, before).Ok?
    ensures
      var es := DecodeArgs(args, depth, before).value.0;
      |es| == |args| && forall i :: 0 <= i < |args| ==> Says(args[i], es[i])
    decreases args
  {
    hide Decode, Says;
    if args != [] {
      DecodedIsSaid(args[0], depth, before);
      DecodedAreSaid(args[1..], depth, Decode(args[0], depth, before).value.1);
    }
  }

  /** Whatever is said decodes, within the limits. */
  lemma {:induction false} SaidDecodes(spec: PredicateSpec, e: Expr, depth: nat, before: int)
    requires Says(spec, e) && before + Size(e) <= 256 && depth + Depth(e) <= 12
    ensures Decode(spec, depth, before) == Ok((e, before + Size(e)))
    decreases e
  {
    hide *;
    match e
    case Logic(op, args) =>
      LogicSaid(spec, op, args);
      if op == Not {
        OneArgument(args);
        SaidDecodes(spec.args[0], args[0], depth + 1, before + 1);
        NotDecodesOf(spec, depth, before);
      } else {
        SaidDecode(spec.args, args, depth + 1, before + 1);
        GroupDecodesOf(spec, depth, before);
      }
    case Related(path, where) =>
      RelatedSaid(spec, path, where);
      SaidDecodes(spec.where.value, where.value, depth + 1, before + 1);
      RelatedDecodesOf(spec, depth, before);
    case _ =>
      SizeOfLeaf(e);
      SaidLeafDecodes(spec, e, depth, before);
  }

  lemma LogicSaid(spec: PredicateSpec, op: LogicOp, args: seq<Expr>)
    requires Says(spec, Logic(op, args))
    ensures spec.op == (match op case And => "and" case Or => "or" case Not => "not")
    ensures spec.args != [] && (op == Not ==> |args| == 1)
    ensures |spec.args| == |args| && forall i :: 0 <= i < |args| ==> Says(spec.args[i], args[i])
    ensures Size(Logic(op, args)) == 1 + Sizes(args) && Depth(Logic(op, args)) == Depths(args)
  {
    hide Size, Depth;
    LogicSize(op, args);
  }

  lemma LogicSize(op: LogicOp, args: seq<Expr>)
    ensures Size(Logic(op, args)) == 1 + Sizes(args) && Depth(Logic(op, args)) == Depths(args)
  {
  }

  lemma RelatedSaid(spec: PredicateSpec, path: Path, where: Option<Expr>)
    requires Says(spec, Related(path, where))
    ensures spec.op == "related" && PathOf(spec) == Ok(path) && where.Some? && spec.where.Some?
    ensures Says(spec.where.value, where.value)
    ensures Size(Related(path, where)) == 1 + Size(where.value) && Depth(Related(path, where)) == 1 + Depth(where.value)
  {
    PathOfIff(spec, path);
    hide PathOf, PathSaid;
  }

  lemma SizeOfLeaf(e: Expr)
    requires !e.Logic? && !e.Related?
    ensures Size(e) == 1 && Depth(e) == 0
  {
  }

  lemma RelatedDecodesOf(spec: PredicateSpec, depth: nat, before: int)
    requires spec.op == "related" && spec.where.Some? && PathOf(spec).Ok? && depth <= 12 && before + 1 <= 256
    requires Decode(spec.where.value, depth + 1, before + 1).Ok?
    ensures
      var (w, n) := Decode(spec.where.value, depth + 1, before + 1).value;
      Decode(spec, depth, before) == Ok((Related(PathOf(spec).value, Some(w)), n))
  {
    NamesDiffer();
    hide PathOf, CompareOpOf;
  }

  lemma NotDecodesOf(spec: PredicateSpec, depth: nat, before: int)
    requires spec.op == "not" && |spec.args| == 1 && depth <= 12 && before + 1 <= 256
    requires Decode(spec.args[0], depth + 1, before + 1).Ok?
    ensures
      var (e, n) := Decode(spec.args[0], depth + 1, before + 1).value;
      Decode(spec, depth, before) == Ok((Logic(Not, [e]), n))
  {
    NamesDiffer();
    hide PathOf, CompareOpOf;
  }

  lemma GroupDecodesOf(spec: PredicateSpec, depth: nat, before: int)
    requires (spec.op == "and" || spec.op == "or") && spec.args != [] && depth <= 12 && before + 1 <= 256
    requires DecodeArgs(spec.args, depth + 1, before + 1).Ok?
    ensures
      var (es, n) := DecodeArgs(spec.args, depth + 1, before + 1).value;
      Decode(spec, depth, before) == Ok((Logic(if spec.op == "and" then And else Or, es), n))
  {
    NamesDiffer();
    hide PathOf, CompareOpOf, DecodeArgs;
  }

  lemma OneArgument(args: seq<Expr>)
    requires |args| == 1
    ensures args == [args[0]] && Sizes(args) == Size(args[0]) && Depths(args) == 1 + Depth(args[0])
  {
    assert args[1..] == [] && Sizes([]) == 0 && Depths([]) == 0;
  }

  lemma SaidLeafDecodes(spec: PredicateSpec, e: Expr, depth: nat, before: int)
    requires Says(spec, e) && before + 1 <= 256 && depth <= 12 && !e.Logic? && !e.Related?
    ensures Decode(spec, depth, before) == Ok((e, before + 1))
  {
    NamesDiffer();
    if !e.Constant? { PathOfIff(spec, e.path); }
    if e.Compare? { OpOfIff(spec.op, e.cmp); }
    hide PathOf, PathSaid, CompareOpOf, OpName;
  }

  lemma {:induction false} SaidDecode(specs: seq<PredicateSpec>, args: seq<Expr>, depth: nat, before: int)
    requires |specs| == |args| && forall i :: 0 <= i < |args| ==> Says(specs[i], args[i])
    requires depth > 0 && before + Sizes(args) <= 256 && depth - 1 + Depths(args) <= 12
    ensures DecodeArgs(specs, depth, before) == Ok((args, before + Sizes(args)))
    decreases args
  {
    hide Decode, Says, Size, Depth;
    if args != [] {
      SaidDecodes(specs[0], args[0], depth, before);
      SaidDecode(specs[1..], args[1..], depth, before + Size(args[0]));
      assert args == [args[0]] + args[1..];
    }
  }

  /** A form decodes to a filter exactly when it says it and the filter is within 256 nodes and 12 levels. */
  lemma DecodesIff(spec: PredicateSpec, e: Expr)
    ensures Decode(spec, 0, 0).Ok? && Decode(spec, 0, 0).value.0 == e
      <==> Says(spec, e) && Size(e) <= 256 && Depth(e) <= 12
  {
    hide Decode, Says;
    if Decode(spec, 0, 0).Ok? {
      DecodedIsSaid(spec, 0, 0);
      DecodedIsWithinGuard(spec, 0, 0);
    }
    if Says(spec, e) && Size(e) <= 256 && Depth(e) <= 12 { SaidDecodes(spec, e, 0, 0); }
  }
}
