/**
 * What a comparison selects, from the predicate the compiler emits: numbers by their size, texts by equality
 * and by their first difference, occurrence up to ASCII case, and nothing where there is no value
 * (core/node_query_compile.go, types/kind.go).
 */
module Comparisons {
  import opened Common
  import opened Types
  import opened Store
  import opened Query
  import opened Sql
  import opened Compile
  import opened Meaning
  import opened CompileCorrect
  import opened CompileExact
  import Like

  // ---------------------------------------------------------------- what a row holds

  /** The value a row holds where a path leads, if it holds any. */
  function Held(id: int, n: Node, times: Times, path: Path): Option<Value> {
    match path
    case FieldPath(k) => if k in n.fields && n.fields[k] != Null then Some(n.fields[k]) else None
    case SystemPath(name) =>
      if name == "id" then Some(Int(id))
      else if name == "type" then Some(Str(n.typ))
      else if name == "display" then Some(Str(n.display))
      else if name == "revision" then Some(Int(n.revision))
      else if name == "created_at" && id in times then Some(Str(times[id].created))
      else if name == "updated_at" && id in times then Some(Str(times[id].updated))
      else if name == "fields" then Some(Obj(n.fields))
      else None
    case _ => None
  }

  /** The value is this number, or a boolean that stands for it. */
  predicate IsNumber(v: Value, x: real) {
    v == Float(x) || (v.Int? && v.i as real == x) || (v == Bool(true) && x == 1.0) || (v == Bool(false) && x == 0.0)
  }

  predicate NumbersMeet(op: CompareOp, x: real, y: real) {
    match op
    case EQ => x == y
    case NE => x != y
    case LT => x < y
    case LTE => x <= y
    case GT => x > y
    case GTE => x >= y
    case Contains => false
    case Prefix => false
  }

  /** The texts differ first at position i, where a has the lower character or ends. */
  predicate DifferAt(a: string, b: string, i: int) {
    0 <= i <= |a| && i < |b| && a[..i] == b[..i] && (i == |a| || a[i] < b[i])
  }

  /** Text a comes before text b: at the first difference, or as a proper beginning. */
  ghost predicate TextBefore(a: string, b: string) { exists i :: DifferAt(a, b, i) }

  /** The same letter, or an ASCII letter in the other case. */
  predicate SameLetter(a: char, b: char) {
    a == b || ('a' <= a <= 'z' && b as int == a as int - 32) || ('A' <= a <= 'Z' && b as int == a as int + 32)
  }

  predicate SameLetters(a: string, b: string) {
    |a| == |b| && forall i :: 0 <= i < |a| ==> SameLetter(a[i], b[i])
  }

  predicate OccursAt(s: string, t: string, i: int) { 0 <= i <= |s| - |t| && SameLetters(s[i..i + |t|], t) }

  ghost predicate TextsMeet(op: CompareOp, s: string, t: string) {
    match op
    case EQ => s == t
    case NE => s != t
    case LT => TextBefore(s, t)
    case LTE => !TextBefore(t, s)
    case GT => TextBefore(t, s)
    case GTE => !TextBefore(s, t)
    case Contains => exists i :: OccursAt(s, t, i)
    case Prefix => OccursAt(s, t, 0)
  }

  // ---------------------------------------------------------------- the emitted predicate on one row

  /** The predicate text of one filter, or what stops it. */
  function TextOf(schema: Schema, sets: Sets, style: Style, typ: string, e: Expr): Result<Pred, QueryError> {
    CompileWhere(schema, sets, style, typ, Some(e))
  }

  ghost predicate Selects(
    schema: Schema, nodes: map<int, Node>, edges: map<int, Edge>, times: Times, sets: Sets, style: Style, typ: string,
    e: Expr, id: int)
  {
    var p := TextOf(schema, sets, style, typ, e);
    p.Ok? && id in Selected(nodes, edges, times, typ, p.value)
  }

  lemma SelectsIff(
    schema: Schema, nodes: map<int, Node>, edges: map<int, Edge>, times: Times, sets: Sets, style: Style, typ: string,
    e: Expr, id: int)
    requires TextOf(schema, sets, style, typ, e).Ok? && id in nodes && nodes[id].typ == typ
    ensures Selects(schema, nodes, edges, times, sets, style, typ, e, id)
      <==> Eval(nodes, edges, AtRow(times, id), TextOf(schema, sets, style, typ, e).value) == True
  {
    var (p, env) := (TextOf(schema, sets, style, typ, e).value, AtRow(times, id));
    hide Eval, CompileWhere;
    AllIsConjunction(nodes, edges, env, [TypeIs("nodes", typ), p]);
    AllHoldTwo(nodes, edges, env, TypeIs("nodes", typ), p);
    TypeTest(nodes, edges, env, "nodes", id, typ);
  }

  /** The term a path compiles to has the value the row holds. */
  lemma TermIsHeld(
    schema: Schema, nodes: map<int, Node>, edges: map<int, Edge>, times: Times, path: Path, typ: string, id: int)
    requires id in nodes && ResolvePath(schema, path, typ).Ok? && !IsLink(ResolvePath(schema, path, typ).value)
    ensures
      var v := ValueIn(nodes, edges, AtRow(times, id), TermFor(ResolvePath(schema, path, typ).value, "nodes"));
      match Held(id, nodes[id], times, path)
      case Some(w) => v == w && v != Null
      case None => v == Null
  {
  }

  lemma DifferStep(a: string, b: string, i: int)
    requires a != "" && b != ""
    ensures DifferAt(a, b, i) <==> if i == 0 then a[0] < b[0] else a[0] == b[0] && DifferAt(a[1..], b[1..], i - 1)
  {
    if 0 < i <= |a| && i < |b| {
      assert a[..i] == [a[0]] + a[1..][..i - 1] && b[..i] == [b[0]] + b[1..][..i - 1];
    }
  }

  lemma {:induction false} TextLessIs(a: string, b: string)
    ensures TextLess(a, b) <==> TextBefore(a, b)
    decreases |a|
  {
    if a == "" || b == "" {
      assert a == "" && b != "" ==> DifferAt(a, b, 0);
    } else {
      TextLessIs(a[1..], b[1..]);
      forall i ensures DifferAt(a, b, i)
        <==> if i == 0 then a[0] < b[0] else a[0] == b[0] && DifferAt(a[1..], b[1..], i - 1)
      {
        DifferStep(a, b, i);
      }
      hide DifferAt;
      if a[0] == b[0] && TextBefore(a[1..], b[1..]) {
        var i :| DifferAt(a[1..], b[1..], i);
        assert i == -1 || DifferAt(a, b, i + 1);
      }
      assert a[0] < b[0] ==> DifferAt(a, b, 0);
    }
  }

  lemma FoldsAre(a: char, b: char)
    ensures Like.Fold(a) == Like.Fold(b) <==> SameLetter(a, b)
  {
  }

  lemma SameLettersIs(a: string, b: string)
    ensures Like.SameFolded(a, b) <==> SameLetters(a, b)
  {
    forall i | 0 <= i < |a| && |a| == |b| ensures Like.Fold(a[i]) == Like.Fold(b[i]) <==> SameLetter(a[i], b[i]) {
      FoldsAre(a[i], b[i]);
    }
    hide Like.Fold, SameLetter;
  }

  lemma OccursIs(s: string, t: string)
    ensures Like.StartsWith(s, t) <==> TextsMeet(Prefix, s, t)
    ensures Like.Occurs(s, t) <==> TextsMeet(Contains, s, t)
  {
    hide Like.SameFolded, SameLetters;
    if |t| <= |s| {
      SameLettersIs(s[..|t|], t);
      assert s[..|t|] == s[0..0 + |t|];
    }
    forall i | 0 <= i <= |s| ensures Like.StartsWith(s[i..], t) <==> OccursAt(s, t, i) {
      if i <= |s| - |t| {
        assert s[i..][..|t|] == s[i..i + |t|];
        SameLettersIs(s[i..i + |t|], t);
      }
    }
  }

  /** The comparison of two values that are numbers, or texts, or of which the first is missing. */
  lemma ComparedNumbers(op: CompareOp, v: Value, w: Value, x: real, y: real)
    requires op != Contains && op != Prefix && IsNumber(v, x) && IsNumber(w, y)
    ensures Compare3(op, v, w) == Decided(NumbersMeet(op, x, y))
  {
  }

  lemma ComparedTexts(op: CompareOp, s: string, t: string)
    requires op != Contains && op != Prefix
    ensures Compare3(op, Str(s), Str(t)) == Decided(TextsMeet(op, s, t))
  {
    TextLessIs(s, t);
    TextLessIs(t, s);
    hide TextBefore, TextLess;
  }

  /** What a comparison comes to, told by what the row holds. */
  function Outcomes(op: CompareOp, held: Value, v: Value): Truth {
    if v == Null then Decided((held == Null) == (op == EQ))
    else if op == Contains then (if held.Str? && v.Str? then Decided(Like.Occurs(held.s, v.s)) else Unknown)
    else if op == Prefix then (if held.Str? && v.Str? then Decided(Like.StartsWith(held.s, v.s)) else Unknown)
    else Compare3(op, held, v)
  }

  /** The predicate of a comparison with a value, on the value the row holds. */
  lemma EmittedCompare(
    schema: Schema, nodes: map<int, Node>, edges: map<int, Edge>, times: Times, sets: Sets, style: Style,
    op: CompareOp, path: Path, v: Value, typ: string, id: int)
    requires TextOf(schema, sets, style, typ, Compare(op, path, v)).Ok? && id in nodes && nodes[id].typ == typ
    ensures
      var h := Held(id, nodes[id], times, path);
      Eval(nodes, edges, AtRow(times, id), TextOf(schema, sets, style, typ, Compare(op, path, v)).value)
      == Outcomes(op, if h.Some? then h.value else Null, v)
  {
    hide *;
    CompareTextIs(schema, sets, style, op, path, v, typ);
    var r := ResolvePath(schema, path, typ).value;
    TermIsHeld(schema, nodes, edges, times, path, typ, id);
    if op == Contains || op == Prefix {
      if v != Null { TextPatterns(nodes, edges, times, r, v.s, id); }
    }
    LeafTruth(nodes, edges, AtRow(times, id), TermFor(r, "nodes"), op, v);
    OutcomeIs(op, ValueIn(nodes, edges, AtRow(times, id), TermFor(r, "nodes")), v);
  }

  /** The text of a comparison that compiles. */
  lemma CompareTextIs(schema: Schema, sets: Sets, style: Style, op: CompareOp, path: Path, v: Value, typ: string)
    requires TextOf(schema, sets, style, typ, Compare(op, path, v)).Ok?
    ensures ResolvePath(schema, path, typ).Ok? && !IsLink(ResolvePath(schema, path, typ).value)
    ensures v != Null && (op == Contains || op == Prefix) ==> v.Str?
    ensures
      var t := TermFor(ResolvePath(schema, path, typ).value, "nodes");
      TextOf(schema, sets, style, typ, Compare(op, path, v))
      == Ok(if v == Null then (if op == EQ then IsNull(t) else NotNull(t))
            else if op == Contains then LikePattern(t, "%" + Like.EscapeLike(v.s) + "%")
            else if op == Prefix then LikePattern(t, Like.EscapeLike(v.s) + "%")
            else Cmp(op, t, Param(v)))
  {
    LeafCompiles(schema, sets, style, typ, Compare(op, path, v), 0, Counts(0, 0));
    ResolvedOps(schema, path, typ);
    var r := ResolvePath(schema, path, typ);
    if r.Ok? && !IsLink(r.value) && CompareProblem(r.value, op, v).None? && (op == Contains || op == Prefix)
      && v != Null {
      TextOpsTakeStrings(r.value, op, v);
    }
    hide CompareProblem, ResolvePath, TermFor, Like.EscapeLike;
  }

  lemma LeafTruth(nodes: map<int, Node>, edges: map<int, Edge>, env: Env, t: Term, op: CompareOp, v: Value)
    ensures Eval(nodes, edges, env, IsNull(t)) == Decided(ValueIn(nodes, edges, env, t) == Null)
    ensures Eval(nodes, edges, env, NotNull(t)) == Decided(ValueIn(nodes, edges, env, t) != Null)
    ensures Eval(nodes, edges, env, Cmp(op, t, Param(v))) == Compare3(op, ValueIn(nodes, edges, env, t), v)
  {
    hide Compare3, Decided;
  }

  lemma OutcomeIs(op: CompareOp, held: Value, v: Value)
    ensures v == Null && op == EQ ==> Outcomes(op, held, v) == Decided(held == Null)
    ensures v == Null && op != EQ ==> Outcomes(op, held, v) == Decided(held != Null)
    ensures v != Null && op == Contains ==>
      Outcomes(op, held, v) == if held.Str? && v.Str? then Decided(Like.Occurs(held.s, v.s)) else Unknown
    ensures v != Null && op == Prefix ==>
      Outcomes(op, held, v) == if held.Str? && v.Str? then Decided(Like.StartsWith(held.s, v.s)) else Unknown
    ensures v != Null && op != Contains && op != Prefix ==> Outcomes(op, held, v) == Compare3(op, held, v)
  {
    hide Compare3, Like.Occurs, Like.StartsWith;
  }

  lemma ResolvedOps(schema: Schema, path: Path, typ: string)
    requires ResolvePath(schema, path, typ).Ok?
    ensures
      var r := ResolvePath(schema, path, typ).value;
      r.ColumnOn? ==> ColumnOps(r.name) == Some(r.ops)
  {
  }

  lemma TextPatterns(nodes: map<int, Node>, edges: map<int, Edge>, times: Times, r: Resolved, v: string, id: int)
    requires !IsLink(r)
    ensures
      var (env, t) := (AtRow(times, id), TermFor(r, "nodes"));
      var held := ValueIn(nodes, edges, env, t);
      && Eval(nodes, edges, env, LikePattern(t, "%" + Like.EscapeLike(v) + "%"))
         == (if held.Str? then Decided(Like.Occurs(held.s, v)) else Unknown)
      && Eval(nodes, edges, env, LikePattern(t, Like.EscapeLike(v) + "%"))
         == (if held.Str? then Decided(Like.StartsWith(held.s, v)) else Unknown)
  {
    var held := ValueIn(nodes, edges, AtRow(times, id), TermFor(r, "nodes"));
    if held.Str? {
      Like.ContainsPatternIsExact(v, held.s);
      Like.PrefixPatternIsExact(v, held.s);
    }
    hide ValueIn, TermFor, Like.LikeMatch, Like.EscapeLike, Like.Occurs, Like.StartsWith;
  }

  // ---------------------------------------------------------------- what a comparison selects

  lemma NegationSelects(
    schema: Schema, nodes: map<int, Node>, edges: map<int, Edge>, times: Times, sets: Sets, style: Style, typ: string,
    e: Expr, id: int)
    requires TextOf(schema, sets, style, typ, Logic(Not, [e])).Ok? && id in nodes && nodes[id].typ == typ
    requires e.Compare? || e.In?
    ensures TextOf(schema, sets, style, typ, e).Ok?
    ensures Selects(schema, nodes, edges, times, sets, style, typ, Logic(Not, [e]), id)
      <==> Eval(nodes, edges, AtRow(times, id), TextOf(schema, sets, style, typ, e).value) == False
  {
    hide *;
    NegationCompiles(schema, sets, style, typ, e);
    SelectsIff(schema, nodes, edges, times, sets, style, typ, Logic(Not, [e]), id);
    NegationTruth(nodes, edges, AtRow(times, id), TextOf(schema, sets, style, typ, e).value);
  }

  lemma NegationTruth(nodes: map<int, Node>, edges: map<int, Edge>, env: Env, p: Pred)
    ensures Eval(nodes, edges, env, Negation(p)) == True <==> Eval(nodes, edges, env, p) == False
    ensures Eval(nodes, edges, env, Negation(p)) == False <==> Eval(nodes, edges, env, p) == True
  {
  }

  lemma NegationCompiles(schema: Schema, sets: Sets, style: Style, typ: string, e: Expr)
    requires TextOf(schema, sets, style, typ, Logic(Not, [e])).Ok? && (e.Compare? || e.In?)
    ensures TextOf(schema, sets, style, typ, e).Ok?
    ensures TextOf(schema, sets, style, typ, Logic(Not, [e])) == Ok(Negation(TextOf(schema, sets, style, typ, e).value))
  {
    LeafCompiles(schema, sets, style, typ, e, 0, Counts(0, 0));
    LeafCompiles(schema, sets, style, typ, e, 1, Counts(1, 0));
    hide CompileCompare, CompileIn;
    assert Logic(Not, [e]).args[0] == e;
    NotCompiles(schema, sets, style, typ, e);
  }

  /** A comparison compiles to the same predicate at any place. */
  lemma LeafCompiles(schema: Schema, sets: Sets, style: Style, typ: string, e: Expr, depth: nat, c: Counts)
    requires (e.Compare? || e.In?) && c.nodes < MAX_FILTER_NODES && depth <= MAX_FILTER_DEPTH
    ensures
      var leaf := if e.Compare? then CompileCompare(schema, e.cmp, e.path, e.operand, typ, "nodes")
                  else CompileIn(schema, sets, style, e.path, e.values, e.from, typ, "nodes");
      CompileExpr(schema, sets, style, e, typ, "nodes", depth, c) == Uncounted(leaf, c.(nodes := c.nodes + 1))
  {
    hide CompileCompare, CompileIn;
  }

  lemma NotCompiles(schema: Schema, sets: Sets, style: Style, typ: string, e: Expr)
    ensures
      var inner := CompileExpr(schema, sets, style, e, typ, "nodes", 1, Counts(1, 0));
      CompileExpr(schema, sets, style, Logic(Not, [e]), typ, "nodes", 0, Counts(0, 0))
      == match inner case Err(err) => Err(err) case Ok((p, c)) => Ok((Negation(p), c))
  {
    assert Logic(Not, [e]).args[0] == e;
  }

  /** A comparison of numbers, and its negation, select by size; booleans are the numbers 0 and 1. */
  lemma NumbersCompare(
    schema: Schema, nodes: map<int, Node>, edges: map<int, Edge>, times: Times, sets: Sets, style: Style,
    op: CompareOp, path: Path, v: Value, typ: string, id: int, w: Value, x: real, y: real)
    requires id in nodes && nodes[id].typ == typ && Held(id, nodes[id], times, path) == Some(w)
    requires IsNumber(w, x) && IsNumber(v, y)
    ensures
      var e := Compare(op, path, v);
      TextOf(schema, sets, style, typ, e).Ok? ==>
        (Selects(schema, nodes, edges, times, sets, style, typ, e, id) <==> NumbersMeet(op, x, y))
    ensures
      var e := Logic(Not, [Compare(op, path, v)]);
      TextOf(schema, sets, style, typ, e).Ok? ==>
        (Selects(schema, nodes, edges, times, sets, style, typ, e, id)
         <==> op != Contains && op != Prefix && !NumbersMeet(op, x, y))
  {
    hide *;
    Outcome(schema, nodes, edges, times, sets, style, op, path, v, typ, id);
    NumbersDecide(op, w, v, x, y);
  }

  /** A comparison of texts, and its negation: equality, first difference, and occurrence up to ASCII case. */
  lemma TextsCompare(
    schema: Schema, nodes: map<int, Node>, edges: map<int, Edge>, times: Times, sets: Sets, style: Style,
    op: CompareOp, path: Path, t: string, typ: string, id: int, s: string)
    requires id in nodes && nodes[id].typ == typ && Held(id, nodes[id], times, path) == Some(Str(s))
    ensures
      var e := Compare(op, path, Str(t));
      TextOf(schema, sets, style, typ, e).Ok? ==>
        (Selects(schema, nodes, edges, times, sets, style, typ, e, id) <==> TextsMeet(op, s, t))
    ensures
      var e := Logic(Not, [Compare(op, path, Str(t))]);
      TextOf(schema, sets, style, typ, e).Ok? ==>
        (Selects(schema, nodes, edges, times, sets, style, typ, e, id) <==> !TextsMeet(op, s, t))
  {
    hide *;
    Outcome(schema, nodes, edges, times, sets, style, op, path, Str(t), typ, id);
    TextsDecide(op, s, t);
  }

  /** Null is what a row without a value holds. */
  lemma NullCompares(
    schema: Schema, nodes: map<int, Node>, edges: map<int, Edge>, times: Times, sets: Sets, style: Style,
    op: CompareOp, path: Path, typ: string, id: int)
    requires id in nodes && nodes[id].typ == typ && TextOf(schema, sets, style, typ, Compare(op, path, Null)).Ok?
    ensures op == EQ || op == NE
    ensures Selects(schema, nodes, edges, times, sets, style, typ, Compare(op, path, Null), id)
      <==> (Held(id, nodes[id], times, path).None? <==> op == EQ)
  {
    Outcome(schema, nodes, edges, times, sets, style, op, path, Null, typ, id);
    NullOps(schema, sets, style, op, path, typ);
    HeldIsNotNull(id, nodes[id], times, path);
    hide Held, Selects, TextOf;
  }

  /** A row without a value is selected by no comparison with a value, nor by its negation. */
  lemma MissingIsNotSelected(
    schema: Schema, nodes: map<int, Node>, edges: map<int, Edge>, times: Times, sets: Sets, style: Style,
    op: CompareOp, path: Path, v: Value, typ: string, id: int)
    requires id in nodes && nodes[id].typ == typ && Held(id, nodes[id], times, path).None? && v != Null
    ensures
      var e := Compare(op, path, v);
      && !Selects(schema, nodes, edges, times, sets, style, typ, e, id)
      && !Selects(schema, nodes, edges, times, sets, style, typ, Logic(Not, [e]), id)
  {
    Outcome(schema, nodes, edges, times, sets, style, op, path, v, typ, id);
    hide Held, Selected, TextOf;
  }

  lemma Outcome(
    schema: Schema, nodes: map<int, Node>, edges: map<int, Edge>, times: Times, sets: Sets, style: Style,
    op: CompareOp, path: Path, v: Value, typ: string, id: int)
    requires id in nodes && nodes[id].typ == typ
    ensures
      var (h, e) := (Held(id, nodes[id], times, path), Compare(op, path, v));
      var out := Outcomes(op, if h.Some? then h.value else Null, v);
      && (TextOf(schema, sets, style, typ, e).Ok? ==>
            (Selects(schema, nodes, edges, times, sets, style, typ, e, id) <==> out == True))
      && (TextOf(schema, sets, style, typ, Logic(Not, [e])).Ok? ==>
            (Selects(schema, nodes, edges, times, sets, style, typ, Logic(Not, [e]), id) <==> out == False))
  {
    hide *;
    var e := Compare(op, path, v);
    if TextOf(schema, sets, style, typ, e).Ok? {
      SelectsIff(schema, nodes, edges, times, sets, style, typ, e, id);
      EmittedCompare(schema, nodes, edges, times, sets, style, op, path, v, typ, id);
    }
    if TextOf(schema, sets, style, typ, Logic(Not, [e])).Ok? {
      NegationSelects(schema, nodes, edges, times, sets, style, typ, e, id);
      EmittedCompare(schema, nodes, edges, times, sets, style, op, path, v, typ, id);
    }
  }

  lemma NumbersDecide(op: CompareOp, w: Value, v: Value, x: real, y: real)
    requires IsNumber(w, x) && IsNumber(v, y)
    ensures Outcomes(op, w, v) == if op == Contains || op == Prefix then Unknown else Decided(NumbersMeet(op, x, y))
    ensures Outcomes(op, w, v) == True <==> NumbersMeet(op, x, y)
    ensures Outcomes(op, w, v) == False <==> op != Contains && op != Prefix && !NumbersMeet(op, x, y)
  {
    if op != Contains && op != Prefix { ComparedNumbers(op, w, v, x, y); }
    hide Compare3;
  }

  lemma TextsDecide(op: CompareOp, s: string, t: string)
    ensures Outcomes(op, Str(s), Str(t)) == True <==> TextsMeet(op, s, t)
    ensures Outcomes(op, Str(s), Str(t)) == False <==> !TextsMeet(op, s, t)
  {
    OccursIs(s, t);
    if op != Contains && op != Prefix { ComparedTexts(op, s, t); }
    hide TextsMeet, Compare3, Like.Occurs, Like.StartsWith;
  }

  lemma NullOps(schema: Schema, sets: Sets, style: Style, op: CompareOp, path: Path, typ: string)
    requires TextOf(schema, sets, style, typ, Compare(op, path, Null)).Ok?
    ensures op == EQ || op == NE
  {
  }

  lemma HeldIsNotNull(id: int, n: Node, times: Times, path: Path)
    ensures Held(id, n, times, path) != Some(Null)
  {
  }

  // ---------------------------------------------------------------- lists of values

  /** The text of a list test on a value, on the value the row holds. */
  lemma EmittedIn(
    schema: Schema, nodes: map<int, Node>, edges: map<int, Edge>, times: Times, sets: Sets, style: Style,
    path: Path, values: seq<Value>, typ: string, id: int)
    requires TextOf(schema, sets, style, typ, In(path, values, None)).Ok? && id in nodes && nodes[id].typ == typ
    requires path.FieldPath? || path.SystemPath?
    ensures
      var h := Held(id, nodes[id], times, path);
      Eval(nodes, edges, AtRow(times, id), TextOf(schema, sets, style, typ, In(path, values, None)).value)
      == if values == [] then False else In3(if h.Some? then h.value else Null, values)
  {
    hide *;
    InTextIs(schema, sets, style, path, values, typ);
    TermIsHeld(schema, nodes, edges, times, path, typ, id);
    ListTruth(nodes, edges, AtRow(times, id), TermFor(ResolvePath(schema, path, typ).value, "nodes"), values);
  }

  lemma InTextIs(schema: Schema, sets: Sets, style: Style, path: Path, values: seq<Value>, typ: string)
    requires TextOf(schema, sets, style, typ, In(path, values, None)).Ok? && (path.FieldPath? || path.SystemPath?)
    ensures ResolvePath(schema, path, typ).Ok? && !IsLink(ResolvePath(schema, path, typ).value)
    ensures TextOf(schema, sets, style, typ, In(path, values, None))
      == Ok(if values == [] then Never else InList(TermFor(ResolvePath(schema, path, typ).value, "nodes"), values))
  {
    LeafCompiles(schema, sets, style, typ, In(path, values, None), 0, Counts(0, 0));
    hide TermFor, ValidOperands, KindOps, LinkIn;
  }

  lemma ListTruth(nodes: map<int, Node>, edges: map<int, Edge>, env: Env, t: Term, values: seq<Value>)
    ensures Eval(nodes, edges, env, Never) == False
    ensures Eval(nodes, edges, env, InList(t, values)) == In3(ValueIn(nodes, edges, env, t), values)
  {
    hide In3, ValueIn;
  }

  /** A list of numbers selects the rows that hold one of them, a list of texts those that hold one of them. */
  lemma ListSelects(
    schema: Schema, nodes: map<int, Node>, edges: map<int, Edge>, times: Times, sets: Sets, style: Style,
    path: Path, values: seq<Value>, typ: string, id: int)
    requires TextOf(schema, sets, style, typ, In(path, values, None)).Ok? && id in nodes && nodes[id].typ == typ
    requires path.FieldPath? || path.SystemPath?
    ensures
      var selected := Selects(schema, nodes, edges, times, sets, style, typ, In(path, values, None), id);
      match Held(id, nodes[id], times, path)
      case None => !selected
      case Some(w) =>
        && (forall x :: IsNumber(w, x) ==> (selected <==> exists i :: 0 <= i < |values| && IsNumber(values[i], x)))
        && (w.Str? ==> (selected <==> w in values))
  {
    hide *;
    SelectsIff(schema, nodes, edges, times, sets, style, typ, In(path, values, None), id);
    EmittedIn(schema, nodes, edges, times, sets, style, path, values, typ, id);
    NullIsInNone(values);
    match Held(id, nodes[id], times, path)
    case None =>
    case Some(w) =>
      forall x | IsNumber(w, x)
        ensures In3(w, values) == True <==> exists i :: 0 <= i < |values| && IsNumber(values[i], x)
      {
        NumberInList(w, values, x);
      }
      if w.Str? { TextInList(w.s, values); }
  }

  lemma NullIsInNone(values: seq<Value>)
    ensures In3(Null, values) != True && (values != [] ==> In3(Null, values) == Unknown)
  {
    assert values != [] ==> Compare3(EQ, Null, values[0]) == Unknown;
  }

  lemma NumberInList(w: Value, values: seq<Value>, x: real)
    requires IsNumber(w, x)
    ensures In3(w, values) == True <==> exists i :: 0 <= i < |values| && IsNumber(values[i], x)
  {
    forall i | 0 <= i < |values| ensures Compare3(EQ, w, values[i]) == True <==> IsNumber(values[i], x) {
      NumberEquals(w, values[i], x);
    }
    hide Compare3, IsNumber;
  }

  lemma NumberEquals(w: Value, v: Value, x: real)
    requires IsNumber(w, x)
    ensures Compare3(EQ, w, v) == True <==> IsNumber(v, x)
  {
  }

  lemma TextInList(s: string, values: seq<Value>)
    ensures In3(Str(s), values) == True <==> Str(s) in values
  {
    forall i | 0 <= i < |values| ensures Compare3(EQ, Str(s), values[i]) == True <==> values[i] == Str(s) {
      TextEquals(s, values[i]);
    }
    hide Compare3;
  }

  lemma TextEquals(s: string, v: Value)
    ensures Compare3(EQ, Str(s), v) == True <==> v == Str(s)
  {
  }

  // ---------------------------------------------------------------- which comparisons are accepted

  /** The kinds of field each operator may be used on. */
  predicate KindTakes(k: Kind, op: CompareOp) {
    if op == EQ || op == NE then k in {Text, Textarea, Number, Boolean, Select, Timestamp, Image, File, Slug}
    else if op == Contains || op == Prefix then k in {Text, Textarea, Richtext, Slug}
    else k in {Number, Timestamp}
  }

  predicate ColumnTakes(name: string, op: CompareOp) {
    if op == EQ || op == NE then name in ["id", "revision", "type", "display", "created_at", "updated_at"]
    else if op == Contains || op == Prefix then name in ["type", "display"]
    else name in ["id", "revision", "created_at", "updated_at"]
  }

  /** The path leads to a value, what is there takes the operator, and the operand is of its sort. */
  predicate Comparable(schema: Schema, op: CompareOp, path: Path, v: Value, typ: string) {
    && typ in schema
    && (v == Null ==> op == EQ || op == NE)
    && match path
       case FieldPath(k) =>
         var f := FieldByName(schema[typ].fields, k);
         && k != "" && f.Some? && !IsRefKind(f.value.kind)
         && (v != Null ==> KindTakes(f.value.kind, op) && ValidateValue(f.value, v))
       case SystemPath(name) =>
         && name in ["id", "revision", "type", "display", "created_at", "updated_at", "fields"]
         && (v != Null ==> ColumnTakes(name, op) && if name in ["id", "revision"] then ToID(v).Some? else v.Str?)
       case _ => false
  }

  lemma CompareCompilesIff(
    schema: Schema, sets: Sets, style: Style, op: CompareOp, path: Path, v: Value, typ: string)
    ensures TextOf(schema, sets, style, typ, Compare(op, path, v)).Ok? <==> Comparable(schema, op, path, v, typ)
  {
    if typ in schema { LeafCompiles(schema, sets, style, typ, Compare(op, path, v), 0, Counts(0, 0)); }
    match path
    case FieldPath(k) =>
      if typ in schema && FieldByName(schema[typ].fields, k).Some? {
        KindTable(FieldByName(schema[typ].fields, k).value.kind, op);
      }
      hide KindOps, OpAllowed, KindTakes, ValidateValue;
    case SystemPath(name) =>
      ColumnTable(name, op);
      hide ColumnOps, OpAllowed, ColumnTakes;
    case _ =>
  }

  lemma KindTable(k: Kind, op: CompareOp)
    ensures OpAllowed(KindOps(k), op) <==> KindTakes(k, op)
  {
  }

  lemma ColumnTable(name: string, op: CompareOp)
    ensures ColumnOps(name).Some?
      <==> name in ["id", "revision", "type", "display", "created_at", "updated_at", "fields"]
    ensures ColumnOps(name).Some? ==> (OpAllowed(ColumnOps(name).value, op) <==> ColumnTakes(name, op))
  {
  }

  // ---------------------------------------------------------------- where paths lead

  /** The path names a column, or a field the schema declares of the sort the path stands for. */
  predicate PathLeads(schema: Schema, path: Path, typ: string) {
    && path.field != ""
    && match path
       case SystemPath(name) => name in ["id", "revision", "type", "display", "created_at", "updated_at", "fields"]
       case FieldPath(k) => Declares(schema, typ, k) && !IsReference(schema, typ, k)
       case OutRefPath(k) => Declares(schema, typ, k) && IsReference(schema, typ, k)
       case InRefPath(source, k) =>
         && source != "" && Declares(schema, source, k) && IsReference(schema, source, k)
         && FieldByName(schema[source].fields, k).value.to == typ
  }

  predicate Declares(schema: Schema, typ: string, k: string) {
    typ in schema && FieldByName(schema[typ].fields, k).Some?
  }

  predicate IsReference(schema: Schema, typ: string, k: string)
    requires Declares(schema, typ, k)
  {
    var f := FieldByName(schema[typ].fields, k).value;
    f.kind == Ref || f.kind == RefList
  }

  /** A path resolves exactly where it leads, to the field declared there, or to the column. */
  lemma PathResolvesIff(schema: Schema, path: Path, typ: string)
    ensures ResolvePath(schema, path, typ).Ok? <==> PathLeads(schema, path, typ)
    ensures ResolvePath(schema, path, typ).Ok? ==>
      var r := ResolvePath(schema, path, typ).value;
      && (r.ColumnOn? <==> path.SystemPath?) && (r.ScalarField? <==> path.FieldPath?)
      && (r.OutRef? <==> path.OutRefPath?) && (r.InRef? <==> path.InRefPath?)
      && (r.ColumnOn? ==> r.name == path.field)
      && (r.ScalarField? || r.OutRef? ==> FieldByName(schema[typ].fields, path.field) == Some(r.f))
      && (r.InRef? ==> r.source == path.source && FieldByName(schema[r.source].fields, path.field) == Some(r.f))
  {
    hide KindOps;
  }

  // ---------------------------------------------------------------- which lists and tests are accepted

  /** A positive whole number. */
  predicate IsRowId(v: Value) { (v.Int? && v.i > 0) || (v.Float? && v.r.Floor as real == v.r && v.r > 0.0) }

  /** At most 100 values, of which a field asks that it could hold them and a reference that they are ids. */
  predicate Listable(schema: Schema, path: Path, values: seq<Value>, typ: string) {
    && |values| <= 100
    && match path
       case SystemPath(_) => true
       case FieldPath(k) =>
         values == [] || (Declares(schema, typ, k)
         && var f := FieldByName(schema[typ].fields, k).value;
            KindTakes(f.kind, EQ) && forall i :: 0 <= i < |values| ==> ValidateValue(f, values[i]))
       case _ => forall i :: 0 <= i < |values| ==> IsRowId(values[i])
  }

  lemma InCompilesIff(schema: Schema, sets: Sets, style: Style, path: Path, values: seq<Value>, typ: string)
    ensures TextOf(schema, sets, style, typ, In(path, values, None)).Ok?
      <==> typ in schema && PathLeads(schema, path, typ) && Listable(schema, path, values, typ)
  {
    PathResolvesIff(schema, path, typ);
    if typ in schema { LeafCompiles(schema, sets, style, typ, In(path, values, None), 0, Counts(0, 0)); }
    RowIdsAre(values);
    if path.FieldPath? && PathLeads(schema, path, typ) {
      KindTable(FieldByName(schema[typ].fields, path.field).value.kind, EQ);
    }
    hide ResolvePath, PathLeads, LinkIn, KindOps, KindTakes, ValidateValue, ValidIds, IsRowId, CompileExpr;
  }

  lemma RowIdsAre(values: seq<Value>)
    ensures ValidIds(values) <==> forall i :: 0 <= i < |values| ==> IsRowId(values[i])
  {
    forall i | 0 <= i < |values| ensures IsRowId(values[i]) <==> ToID(values[i]).Some? && ToID(values[i]).value > 0 {
      RowIdIs(values[i]);
    }
    hide ToID, IsRowId;
  }

  lemma RowIdIs(v: Value)
    ensures IsRowId(v) <==> ToID(v).Some? && ToID(v).value > 0
  {
  }

  /** A set expression compiles on a reference only, when its address resolves and lists at most 100 ids. */
  lemma SetCompilesIff(schema: Schema, sets: Sets, style: Style, path: Path, s: Set, given: seq<Value>, typ: string)
    ensures TextOf(schema, sets, style, typ, In(path, given, Some(s))).Ok?
      <==> && typ in schema && PathLeads(schema, path, typ) && (path.OutRefPath? || path.InRefPath?)
           && var target := TargetOf(ResolvePath(schema, path, typ).value);
              && sets(s.address, target).Ok? && |sets(s.address, target).value| <= 100
              && forall i :: 0 <= i < |sets(s.address, target).value| ==> IsRowId(sets(s.address, target).value[i])
  {
    PathResolvesIff(schema, path, typ);
    var e := In(path, given, Some(s));
    if typ in schema { LeafCompiles(schema, sets, style, typ, e, 0, Counts(0, 0)); }
    if PathLeads(schema, path, typ) && (path.OutRefPath? || path.InRefPath?) {
      var target := TargetOf(ResolvePath(schema, path, typ).value);
      if sets(s.address, target).Ok? { RowIdsAre(sets(s.address, target).value); }
    }
    hide ResolvePath, PathLeads, LinkIn, KindOps, ValidateValue, ValidIds, IsRowId, CompileExpr;
  }

  /** exists and missing compile wherever the path leads. */
  lemma ExistsCompilesIff(schema: Schema, sets: Sets, style: Style, path: Path, missing: bool, typ: string)
    ensures TextOf(schema, sets, style, typ, Expr.Exists(path, missing)).Ok?
      <==> typ in schema && PathLeads(schema, path, typ)
  {
    PathResolvesIff(schema, path, typ);
    hide ResolvePath, PathLeads, LinkExists;
  }

  // ---------------------------------------------------------------- connectives

  /** Negation exchanges true and false; and is true when all are and false when one is; or the other way round. */
  lemma ConnectivesAreKleene(
    schema: Schema, nodes: map<int, Node>, edges: map<int, Edge>, outside: Outside, args: seq<Expr>, typ: string,
    id: int)
    requires id in nodes
    ensures
      var truth := (e: Expr) => TruthOf(schema, nodes, edges, outside, e, typ, id);
      && (truth(Logic(And, args)) == True <==> forall i :: 0 <= i < |args| ==> truth(args[i]) == True)
      && (truth(Logic(And, args)) == False <==> exists i :: 0 <= i < |args| && truth(args[i]) == False)
      && (truth(Logic(Or, args)) == True <==> exists i :: 0 <= i < |args| && truth(args[i]) == True)
      && (truth(Logic(Or, args)) == False <==> forall i :: 0 <= i < |args| ==> truth(args[i]) == False)
      && (|args| == 1 ==> (truth(Logic(Not, args)) == True <==> truth(args[0]) == False))
      && (|args| == 1 ==> (truth(Logic(Not, args)) == False <==> truth(args[0]) == True))
  {
    hide ResolvePath, Compares, HasValue, Linked, Member, In3;
  }

  // ---------------------------------------------------------------- negated lists

  /** Values a row can be compared with. */
  predicate AllRanked(values: seq<Value>) {
    forall i :: 0 <= i < |values| ==> values[i].Bool? || values[i].Int? || values[i].Float? || values[i].Str?
  }

  /** The negation of a list selects the rows that hold another value, and never one without. */
  lemma ListRefuses(
    schema: Schema, nodes: map<int, Node>, edges: map<int, Edge>, times: Times, sets: Sets, style: Style,
    path: Path, values: seq<Value>, typ: string, id: int)
    requires TextOf(schema, sets, style, typ, Logic(Not, [In(path, values, None)])).Ok?
    requires id in nodes && nodes[id].typ == typ && values != [] && AllRanked(values)
    requires path.FieldPath? || path.SystemPath?
    ensures
      var refused := Selects(schema, nodes, edges, times, sets, style, typ, Logic(Not, [In(path, values, None)]), id);
      match Held(id, nodes[id], times, path)
      case None => !refused
      case Some(w) =>
        && (forall x :: IsNumber(w, x) ==> (refused <==> forall i :: 0 <= i < |values| ==> !IsNumber(values[i], x)))
        && (w.Str? ==> (refused <==> w !in values))
  {
    hide *;
    NegationSelects(schema, nodes, edges, times, sets, style, typ, In(path, values, None), id);
    EmittedIn(schema, nodes, edges, times, sets, style, path, values, typ, id);
    NullIsInNone(values);
    match Held(id, nodes[id], times, path)
    case None =>
    case Some(w) =>
      forall x | IsNumber(w, x)
        ensures In3(w, values) == False <==> forall i :: 0 <= i < |values| ==> !IsNumber(values[i], x)
      {
        NumberInList(w, values, x);
        RankedIsDecided(w, values);
      }
      if w.Str? {
        TextInList(w.s, values);
        RankedIsDecided(w, values);
      }
  }

  lemma RankedIsDecided(w: Value, values: seq<Value>)
    requires AllRanked(values) && (w.Str? || exists x :: IsNumber(w, x))
    ensures In3(w, values) != Unknown
  {
    forall i | 0 <= i < |values| ensures Compare3(EQ, w, values[i]) != Unknown {}
    hide Compare3;
  }

  // ---------------------------------------------------------------- why a comparison is refused

  /** Why a comparison does not compile: the first of these that applies. */
  lemma CompareErrorIs(
    schema: Schema, sets: Sets, style: Style, op: CompareOp, path: Path, v: Value, typ: string)
    requires typ in schema
    ensures
      var r := TextOf(schema, sets, style, typ, Compare(op, path, v));
      var takes := if path.FieldPath? && PathLeads(schema, path, typ)
                   then KindTakes(FieldByName(schema[typ].fields, path.field).value.kind, op)
                   else ColumnTakes(path.field, op);
      if !PathLeads(schema, path, typ) then r == Err(InvalidField)
      else if path.OutRefPath? || path.InRefPath? then r == Err(InvalidOperator)
      else if v == Null then (if op == EQ || op == NE then r.Ok? else r == Err(InvalidValue))
      else if !takes then r == Err(InvalidOperator)
      else r.Ok? || r == Err(InvalidValue)
  {
    PathResolvesIff(schema, path, typ);
    CompareErrorCases(schema, op, path, v, typ);
    LeafCompiles(schema, sets, style, typ, Compare(op, path, v), 0, Counts(0, 0));
    if path.FieldPath? && PathLeads(schema, path, typ) {
      KindTable(FieldByName(schema[typ].fields, path.field).value.kind, op);
    }
    ColumnTable(path.field, op);
    hide CompileCompare, PathLeads, KindTakes, ColumnTakes, KindOps, ColumnOps, OpAllowed, CompileExpr;
  }

  lemma CompareErrorCases(schema: Schema, op: CompareOp, path: Path, v: Value, typ: string)
    ensures
      var (r, c) := (ResolvePath(schema, path, typ), CompileCompare(schema, op, path, v, typ, "nodes"));
      && (r.Err? ==> r == Err(InvalidField) && c == Err(InvalidField))
      && (r.Ok? && IsLink(r.value) ==> c == Err(InvalidOperator))
      && (r.Ok? && r.value.ColumnOn? ==> ColumnOps(r.value.name) == Some(r.value.ops))
      && (r.Ok? && !IsLink(r.value) ==>
            var ops := if r.value.ColumnOn? then r.value.ops else KindOps(r.value.f.kind);
            && (v == Null ==> if op == EQ || op == NE then c.Ok? else c == Err(InvalidValue))
            && (v != Null && !OpAllowed(ops, op) ==> c == Err(InvalidOperator))
            && (v != Null && OpAllowed(ops, op) ==> c.Ok? || c == Err(InvalidValue)))
  {
    hide KindOps, OpAllowed, ValidateValue, ColumnAccepts, TermFor;
  }
}
