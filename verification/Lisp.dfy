/**
 * The textual filter syntax (query/lisp.go). A text is a sequence of bytes. Go's number and string
 * syntaxes, which this does not model, are the functions a Lexicon supplies.
 */
module Lisp {
  import opened Common
  import opened Types
  import opened Query

  const MAX_FILTER_BYTES := 4096

  datatype LispError =
    | TooLong | TooNested | TooManyNodes | UnexpectedEnd | UnexpectedClose | Unterminated | EmptyToken
    | TooManyItems | NotAValue | Trailing | BadArguments | BadPath | UnknownFunction | Unbound | NotACall

  datatype Atom =
    | Word(s: string)
    | Hole(name: string)
    | Literal(v: Value)
    | Items(items: seq<Atom>)

  datatype Sexp = Atomic(atom: Atom) | Call(head: string, args: seq<Sexp>)

  /** strconv.Unquote and strconv.ParseFloat, None where they report an error. */
  datatype Lexicon = Lexicon(unquote: string -> Option<string>, number: string -> Option<Value>)

  type Params = map<string, Value>

  // ---------------------------------------------------------------- tokens

  predicate IsBlank(c: char) { c == ' ' || c == '\t' || c == '\n' }

  predicate IsDelimiter(c: char) { IsBlank(c) || c in "()[]" }

  function SkipSpace(t: string): (r: string)
    ensures |r| <= |t| && (r != "" ==> !IsBlank(r[0])) && t[|t| - |r|..] == r
  {
    if t != "" && IsBlank(t[0]) then SkipSpace(t[1..]) else t
  }

  /** The length of a quoted string after its opening quote, the closing quote included; None if it never closes. */
  function QuotedLength(t: string, escaped: bool): (n: Option<nat>)
    ensures n.Some? ==> 1 <= n.value <= |t|
  {
    if t == "" then None
    else if !escaped && t[0] == '"' then Some(1)
    else
      match QuotedLength(t[1..], !escaped && t[0] == '\\')
      case None => None
      case Some(n) => Some(n + 1)
  }

  function PlainLength(t: string): (n: nat)
    ensures n <= |t|
  {
    if t == "" || IsDelimiter(t[0]) then 0 else 1 + PlainLength(t[1..])
  }

  function Token(text: string): (r: Result<(string, string), LispError>)
    ensures r.Ok? ==> r.value.0 != "" && |r.value.1| < |text|
  {
    var t := SkipSpace(text);
    if t != "" && t[0] == '"' then CutQuoted(t) else CutPlain(t)
  }

  function CutQuoted(t: string): (r: Result<(string, string), LispError>)
    requires t != ""
    ensures r.Ok? ==> r.value.0 != "" && |r.value.1| < |t|
  {
    match QuotedLength(t[1..], false)
    case None => Err(Unterminated)
    case Some(n) => Ok((t[..n + 1], t[n + 1..]))
  }

  function CutPlain(t: string): (r: Result<(string, string), LispError>)
    ensures r.Ok? ==> r.value.0 != "" && |r.value.1| < |t|
  {
    var n := PlainLength(t);
    if n == 0 then Err(EmptyToken) else Ok((t[..n], t[n..]))
  }

  predicate HasPrefix(s: string, p: string) { |p| <= |s| && s[..|p|] == p }

  function ParseAtom(lex: Lexicon, token: string): Atom {
    if |token| >= 2 && token[0] == '"' && token[|token| - 1] == '"' && lex.unquote(token).Some? then
      Literal(Str(lex.unquote(token).value))
    else if HasPrefix(token, "{:") && |token| >= 3 && token[|token| - 1] == '}' then Hole(token[2..|token| - 1])
    else if lex.number(token).Some? then Literal(lex.number(token).value)
    else if token == "true" then Literal(Bool(true))
    else if token == "false" then Literal(Bool(false))
    else if token == "null" then Literal(Null)
    else Word(token)
  }

  // ---------------------------------------------------------------- expressions

  type Parsed<T> = Result<(T, string, int), LispError>

  /** One expression off the front of the text: what it is, what is left, and the nodes counted so far. */
  function ParseExpr(lex: Lexicon, text: string, nodes: int, depth: nat): (r: Parsed<Sexp>)
    ensures r.Ok? ==> |r.value.1| < |text|
    decreases |text|, 1
  {
    if depth > MAX_FILTER_DEPTH then Err(TooNested)
    else if nodes + 1 > MAX_FILTER_NODES then Err(TooManyNodes)
    else
      var t := SkipSpace(text);
      if t == "" then Err(UnexpectedEnd)
      else if t[0] == '(' then
        match Token(t[1..])
        case Err(e) => Err(e)
        case Ok((head, rest)) =>
          (match ParseArgs(lex, rest, nodes + 1, depth + 1)
           case Err(e) => Err(e)
           case Ok((args, left, n)) => Ok((Call(head, args), left, n)))
      else if t[0] == ')' then Err(UnexpectedClose)
      else if t[0] == '[' then
        match ParseItems(lex, t[1..], 0, nodes + 1, depth + 1)
        case Err(e) => Err(e)
        case Ok((items, left, n)) => Ok((Atomic(Items(items)), left, n))
      else
        match Token(t)
        case Err(e) => Err(e)
        case Ok((token, left)) => Ok((Atomic(ParseAtom(lex, token)), left, nodes + 1))
  }

  function ParseArgs(lex: Lexicon, text: string, nodes: int, depth: nat): (r: Parsed<seq<Sexp>>)
    ensures r.Ok? ==> |r.value.1| < |text|
    decreases |text|, 2
  {
    var t := SkipSpace(text);
    if t == "" then Err(Unterminated)
    else if t[0] == ')' then Ok(([], t[1..], nodes))
    else
      match ParseExpr(lex, t, nodes, depth)
      case Err(e) => Err(e)
      case Ok((arg, left, n)) =>
        match ParseArgs(lex, left, n, depth)
        case Err(e) => Err(e)
        case Ok((args, rest, m)) => Ok(([arg] + args, rest, m))
  }

  function ParseItems(lex: Lexicon, text: string, count: nat, nodes: int, depth: nat): (r: Parsed<seq<Atom>>)
    ensures r.Ok? ==> |r.value.1| < |text|
    decreases |text|, 2
  {
    var t := SkipSpace(text);
    if t == "" then Err(Unterminated)
    else if t[0] == ']' then Ok(([], t[1..], nodes))
    else if count >= MAX_SET_VALUES then Err(TooManyItems)
    else
      match ParseExpr(lex, t, nodes, depth)
      case Err(e) => Err(e)
      case Ok((item, left, n)) =>
        if item.Call? then Err(NotAValue)
        else
          match ParseItems(lex, left, count + 1, n, depth)
          case Err(e) => Err(e)
          case Ok((items, rest, m)) => Ok(([item.atom] + items, rest, m))
  }

  // ---------------------------------------------------------------- from s-expressions to filters

  function CompareOpOf(head: string): Option<CompareOp> {
    if head == "=" then Some(EQ) else if head == "!=" then Some(NE)
    else if head == ">" then Some(GT) else if head == ">=" then Some(GTE)
    else if head == "<" then Some(LT) else if head == "<=" then Some(LTE)
    else if head == "contains" then Some(Contains) else if head == "prefix" then Some(Prefix)
    else None
  }

  /** The one place of the only dot, or None. */
  function SoleDot(s: string): (r: Option<nat>)
    ensures r.Some? ==> r.value < |s|
  {
    if s == "" then None
    else if s[0] == '.' then (if '.' in s[1..] then None else Some(0))
    else
      match SoleDot(s[1..])
      case None => None
      case Some(i) => Some(i + 1)
  }

  function ParsePath(raw: Sexp): Result<Path, LispError> {
    if raw.Call? then Err(BadPath)
    else
      var text := match raw.atom case Word(s) => s case Literal(Str(s)) => s case _ => "";
      if text == "" then Err(BadPath)
      else if HasPrefix(text, "->") then Ok(OutRefPath(text[2..]))
      else if HasPrefix(text, "<-") then
        match SoleDot(text[2..])
        case None => Err(BadPath)
        case Some(i) => Ok(InRefPath(text[2..][..i], text[2..][i + 1..]))
      else if text[0] == '$' then
        if |text| == 1 || text[1] == '.' then Err(BadPath) else Ok(FieldPath(text[1..]))
      else Ok(SystemPath(text))
  }

  function ResolveAtom(a: Atom, params: Params): Result<Value, LispError> {
    match a
    case Word(s) => Ok(Str(s))
    case Literal(v) => Ok(v)
    case Hole(name) => if name in params then Ok(params[name]) else Err(Unbound)
    case Items(items) =>
      match ResolveAtoms(items, params)
      case Err(e) => Err(e)
      case Ok(vs) => Ok(List(vs))
  }

  function ResolveAtoms(items: seq<Atom>, params: Params): Result<seq<Value>, LispError> {
    if items == [] then Ok([])
    else
      match ResolveAtom(items[0], params)
      case Err(e) => Err(e)
      case Ok(v) =>
        match ResolveAtoms(items[1..], params)
        case Err(e) => Err(e)
        case Ok(vs) => Ok([v] + vs)
  }

  function ResolveValue(raw: Sexp, params: Params): Result<Value, LispError> {
    if raw.Call? then Err(NotAValue) else ResolveAtom(raw.atom, params)
  }

  function SliceValues(v: Value): Result<seq<Value>, LispError> {
    if v == Null then Err(BadArguments)
    else if AsItems(v).None? then Ok([v])
    else if |AsItems(v).value| > MAX_SET_VALUES then Err(TooManyItems)
    else Ok(AsItems(v).value)
  }

  function BuildSet(raw: Sexp, params: Params): Result<Set, LispError> {
    if !raw.Call? || raw.head != "subtree" || |raw.args| != 1 then Err(BadArguments)
    else
      match ResolveValue(raw.args[0], params)
      case Err(e) => Err(e)
      case Ok(v) => if v.Str? && v.s != "" then Ok(Subtree(v.s)) else Err(BadArguments)
  }

  function BuildExpr(raw: Sexp, params: Params): Result<Expr, LispError> {
    match raw
    case Atomic(_) => Err(NotACall)
    case Call(head, args) =>
      if CompareOpOf(head).Some? then
        if |args| != 2 then Err(BadArguments)
        else
          match ParsePath(args[0])
          case Err(e) => Err(e)
          case Ok(path) =>
            match ResolveValue(args[1], params)
            case Err(e) => Err(e)
            case Ok(v) => Ok(Compare(CompareOpOf(head).value, path, v))
      else if head == "and" || head == "or" then
        if args == [] then Err(BadArguments)
        else
          match BuildAll(args, params)
          case Err(e) => Err(e)
          case Ok(es) => Ok(Logic(if head == "or" then Or else And, es))
      else if head == "not" then
        if |args| != 1 then Err(BadArguments)
        else
          match BuildExpr(args[0], params)
          case Err(e) => Err(e)
          case Ok(e) => Ok(Logic(Not, [e]))
      else if head == "in" then
        if |args| != 2 then Err(BadArguments)
        else
          match ParsePath(args[0])
          case Err(e) => Err(e)
          case Ok(path) =>
            if args[1].Call? && args[1].head == "subtree" then
              match BuildSet(args[1], params)
              case Err(e) => Err(e)
              case Ok(s) => Ok(In(path, [], Some(s)))
            else
              match ResolveValue(args[1], params)
              case Err(e) => Err(e)
              case Ok(v) =>
                match SliceValues(v)
                case Err(e) => Err(e)
                case Ok(vs) => Ok(In(path, vs, None))
      else if head == "exists" || head == "missing" then
        if |args| != 1 then Err(BadArguments)
        else
          match ParsePath(args[0])
          case Err(e) => Err(e)
          case Ok(path) => Ok(Expr.Exists(path, head == "missing"))
      else if head == "related" then
        if |args| != 2 then Err(BadArguments)
        else
          match ParsePath(args[0])
          case Err(e) => Err(e)
          case Ok(path) =>
            match BuildExpr(args[1], params)
            case Err(e) => Err(e)
            case Ok(e) => Ok(Related(path, Some(e)))
      else Err(UnknownFunction)
  }

  function BuildAll(args: seq<Sexp>, params: Params): Result<seq<Expr>, LispError> {
    if args == [] then Ok([])
    else
      match BuildExpr(args[0], params)
      case Err(e) => Err(e)
      case Ok(e) =>
        match BuildAll(args[1..], params)
        case Err(err) => Err(err)
        case Ok(es) => Ok([e] + es)
  }

  function ParseLisp(lex: Lexicon, src: string, params: Params): Result<Expr, LispError> {
    if |src| > MAX_FILTER_BYTES then Err(TooLong)
    else
      match ParseExpr(lex, SkipSpace(src), 0, 0)
      case Err(e) => Err(e)
      case Ok((raw, rest, _)) => if SkipSpace(rest) != "" then Err(Trailing) else BuildExpr(raw, params)
  }

  // ---------------------------------------------------------------- accepted filters are within the compiler's guard

  function Count(s: Sexp): (n: nat)
    ensures n >= 1
  {
    match s case Atomic(a) => AtomCount(a) case Call(_, args) => 1 + Counts(args)
  }

  function Counts(args: seq<Sexp>): nat {
    if args == [] then 0 else Count(args[0]) + Counts(args[1..])
  }

  function AtomCount(a: Atom): (n: nat)
    ensures n >= 1
  {
    if a.Items? then 1 + AtomCounts(a.items) else 1
  }

  function AtomCounts(items: seq<Atom>): nat {
    if items == [] then 0 else AtomCount(items[0]) + AtomCounts(items[1..])
  }

  function Deep(s: Sexp): nat {
    match s case Atomic(a) => AtomDeep(a) case Call(_, args) => Deeps(args)
  }

  function Deeps(args: seq<Sexp>): nat {
    if args == [] then 0
    else
      var d, rest := 1 + Deep(args[0]), Deeps(args[1..]);
      if d > rest then d else rest
  }

  function AtomDeep(a: Atom): nat {
    if a.Items? then AtomDeeps(a.items) else 0
  }

  function AtomDeeps(items: seq<Atom>): nat {
    if items == [] then 0
    else
      var d, rest := 1 + AtomDeep(items[0]), AtomDeeps(items[1..]);
      if d > rest then d else rest
  }

  /** The three shapes of a successful parse. */
  lemma ParsedForms(lex: Lexicon, text: string, nodes: int, depth: nat)
    requires ParseExpr(lex, text, nodes, depth).Ok?
    ensures depth <= MAX_FILTER_DEPTH && nodes + 1 <= MAX_FILTER_NODES && SkipSpace(text) != ""
    ensures
      var t := SkipSpace(text);
      var r := ParseExpr(lex, text, nodes, depth).value;
      if t[0] == '(' then
        && Token(t[1..]).Ok?
        && var args := ParseArgs(lex, Token(t[1..]).value.1, nodes + 1, depth + 1);
           args.Ok? && r == (Call(Token(t[1..]).value.0, args.value.0), args.value.1, args.value.2)
      else if t[0] == '[' then
        && var items := ParseItems(lex, t[1..], 0, nodes + 1, depth + 1);
           items.Ok? && r == (Atomic(Items(items.value.0)), items.value.1, items.value.2)
      else r.0.Atomic? && !r.0.atom.Items? && r.2 == nodes + 1
  {
    hide Token, ParseArgs, ParseItems, SkipSpace;
  }

  lemma {:induction false} ParsedIsBounded(lex: Lexicon, text: string, nodes: int, depth: nat)
    requires ParseExpr(lex, text, nodes, depth).Ok?
    ensures
      var (s, _, n) := ParseExpr(lex, text, nodes, depth).value;
      nodes + Count(s) <= n <= MAX_FILTER_NODES && depth + Deep(s) <= MAX_FILTER_DEPTH
    decreases |text|, 1
  {
    hide Token, ParseExpr, ParseArgs, ParseItems, SkipSpace;
    var t := SkipSpace(text);
    ParsedForms(lex, text, nodes, depth);
    if t[0] == '(' {
      ParsedArgsAreBounded(lex, Token(t[1..]).value.1, nodes + 1, depth + 1);
    } else if t[0] == '[' {
      ParsedItemsAreBounded(lex, t[1..], 0, nodes + 1, depth + 1);
    }
  }

  lemma {:induction false} ParsedArgsAreBounded(lex: Lexicon, text: string, nodes: int, depth: nat)
    requires ParseArgs(lex, text, nodes, depth).Ok? && nodes <= MAX_FILTER_NODES && depth > 0
    requires depth - 1 <= MAX_FILTER_DEPTH
    ensures
      var (args, _, n) := ParseArgs(lex, text, nodes, depth).value;
      nodes + Counts(args) <= n <= MAX_FILTER_NODES && depth - 1 + Deeps(args) <= MAX_FILTER_DEPTH
    decreases |text|, 2
  {
    hide ParseExpr;
    var t := SkipSpace(text);
    if t[0] != ')' {
      ParsedIsBounded(lex, t, nodes, depth);
      var (arg, left, n) := ParseExpr(lex, t, nodes, depth).value;
      ParsedArgsAreBounded(lex, left, n, depth);
      var (args, rest, m) := ParseArgs(lex, left, n, depth).value;
      assert ([arg] + args)[1..] == args;
    }
  }

  /** The two shapes of a list of items that parses. */
  lemma ItemsForms(lex: Lexicon, text: string, count: nat, nodes: int, depth: nat)
    requires ParseItems(lex, text, count, nodes, depth).Ok?
    ensures
      var (t, r) := (SkipSpace(text), ParseItems(lex, text, count, nodes, depth).value);
      && t != ""
      && (t[0] == ']' ==> r.0 == [] && r.2 == nodes)
      && (t[0] != ']' ==>
            && ParseExpr(lex, t, nodes, depth).Ok?
            && var (item, left, n) := ParseExpr(lex, t, nodes, depth).value;
            && item.Atomic? && ParseItems(lex, left, count + 1, n, depth).Ok?
            && var (items, _, m) := ParseItems(lex, left, count + 1, n, depth).value;
               r.0 == [item.atom] + items && r.2 == m)
  {
    hide ParseExpr, SkipSpace;
  }

  lemma ItemsCount(item: Atom, items: seq<Atom>)
    ensures AtomCounts([item] + items) == AtomCount(item) + AtomCounts(items)
    ensures 1 + AtomDeep(item) <= AtomDeeps([item] + items)
    ensures AtomDeeps([item] + items) == AtomDeeps(items) || AtomDeeps([item] + items) == 1 + AtomDeep(item)
  {
    hide AtomCount, AtomDeep;
    assert ([item] + items)[1..] == items;
  }

  lemma {:induction false} ParsedItemsAreBounded(lex: Lexicon, text: string, count: nat, nodes: int, depth: nat)
    requires ParseItems(lex, text, count, nodes, depth).Ok? && nodes <= MAX_FILTER_NODES
    requires depth > 0 && depth - 1 <= MAX_FILTER_DEPTH
    ensures
      var (items, _, n) := ParseItems(lex, text, count, nodes, depth).value;
      nodes + AtomCounts(items) <= n <= MAX_FILTER_NODES && depth - 1 + AtomDeeps(items) <= MAX_FILTER_DEPTH
    decreases |text|, 2
  {
    hide ParseExpr, ParseItems, SkipSpace, AtomCount, AtomDeep;
    var t := SkipSpace(text);
    ItemsForms(lex, text, count, nodes, depth);
    if t[0] != ']' {
      ParsedIsBounded(lex, t, nodes, depth);
      var (item, left, n) := ParseExpr(lex, t, nodes, depth).value;
      ParsedItemsAreBounded(lex, left, count + 1, n, depth);
      ItemsCount(item.atom, ParseItems(lex, left, count + 1, n, depth).value.0);
    }
  }

  lemma {:induction false} BuiltIsBounded(raw: Sexp, params: Params)
    requires BuildExpr(raw, params).Ok?
    ensures Size(BuildExpr(raw, params).value) <= Count(raw) && Depth(BuildExpr(raw, params).value) <= Deep(raw)
    decreases raw
  {
    hide ParsePath, ResolveValue, SliceValues, BuildSet;
    var args := raw.args;
    if CompareOpOf(raw.head).Some? {
    } else if raw.head == "and" || raw.head == "or" {
      BuiltAllAreBounded(args, params);
    } else if raw.head == "not" {
      BuiltIsBounded(args[0], params);
      OneArgument(BuildExpr(args[0], params).value, args);
    } else if raw.head == "related" {
      BuiltIsBounded(args[1], params);
      CountsOfTwo(args);
    }
  }

  lemma OneArgument(e: Expr, args: seq<Sexp>)
    requires |args| == 1
    ensures Sizes([e]) == Size(e) && Counts(args) == Count(args[0])
    ensures Depths([e]) == 1 + Depth(e) && Deeps(args) == 1 + Deep(args[0])
  {
    assert [e][1..] == [] && args[1..] == [];
    assert Sizes([]) == 0 && Counts([]) == 0 && Depths([]) == 0 && Deeps([]) == 0;
  }

  lemma CountsOfTwo(args: seq<Sexp>)
    requires |args| == 2
    ensures Counts(args) == Count(args[0]) + Count(args[1]) && Deeps(args) >= 1 + Deep(args[1])
  {
    assert args[1..][0] == args[1] && args[1..][1..] == [];
    assert Counts(args[1..]) == Count(args[1]) + Counts([]);
    assert Deeps(args[1..]) >= 1 + Deep(args[1]);
  }

  lemma {:induction false} BuiltAllAreBounded(args: seq<Sexp>, params: Params)
    requires BuildAll(args, params).Ok?
    ensures Sizes(BuildAll(args, params).value) <= Counts(args) && Depths(BuildAll(args, params).value) <= Deeps(args)
    decreases args
  {
    if args != [] {
      BuiltIsBounded(args[0], params);
      BuiltAllAreBounded(args[1..], params);
      var e, es := BuildExpr(args[0], params).value, BuildAll(args[1..], params).value;
      assert ([e] + es)[1..] == es;
    }
  }

  /** A text that parses gives a filter the compiler's guard lets through. */
  lemma AcceptedIsWithinGuard(lex: Lexicon, src: string, params: Params)
    requires ParseLisp(lex, src, params).Ok?
    ensures Size(ParseLisp(lex, src, params).value) <= 256 && Depth(ParseLisp(lex, src, params).value) <= 12
  {
    hide ParseExpr, BuildExpr;
    ParsedIsBounded(lex, SkipSpace(src), 0, 0);
    BuiltIsBounded(ParseExpr(lex, SkipSpace(src), 0, 0).value.0, params);
  }

  // ---------------------------------------------------------------- printing

  /** What a printer is free to choose: the atom that stands for an operand, and the text of a literal. */
  datatype Printer = Printer(operand: Value -> Atom, literal: Value -> string)

  function Show(s: Sexp, p: Printer): string {
    match s
    case Atomic(a) => ShowAtom(a, p)
    case Call(head, args) => "(" + head + ShowArgs(args, p) + ")"
  }

  function ShowArgs(args: seq<Sexp>, p: Printer): string {
    if args == [] then "" else " " + Show(args[0], p) + ShowArgs(args[1..], p)
  }

  function ShowAtom(a: Atom, p: Printer): string {
    match a
    case Word(w) => w
    case Hole(name) => "{:" + name + "}"
    case Literal(v) => p.literal(v)
    case Items(items) => "[" + ShowItems(items, p) + "]"
  }

  function ShowItems(items: seq<Atom>, p: Printer): string {
    if items == [] then "" else " " + ShowAtom(items[0], p) + ShowItems(items[1..], p)
  }

  predicate PlainToken(w: string) {
    w != "" && w[0] != '"' && forall i :: 0 <= i < |w| ==> !IsDelimiter(w[i])
  }

  /** A token that ends where the text after it begins: without delimiters, or quoted. */
  predicate WholeToken(w: string) {
    PlainToken(w) || (w != "" && w[0] == '"' && QuotedLength(w[1..], false) == Some(|w| - 1))
  }

  /** Atoms the parser reads back from what is shown. Go's literal syntax enters here. */
  predicate ShowableAtom(lex: Lexicon, a: Atom, p: Printer) {
    if a.Items? then |a.items| <= MAX_SET_VALUES && forall i :: 0 <= i < |a.items| ==> ShowableAtom(lex, a.items[i], p)
    else WholeToken(ShowAtom(a, p)) && ParseAtom(lex, ShowAtom(a, p)) == a
  }

  predicate Showable(lex: Lexicon, s: Sexp, p: Printer) {
    match s
    case Atomic(a) => ShowableAtom(lex, a, p)
    case Call(head, args) => PlainToken(head) && forall i :: 0 <= i < |args| ==> Showable(lex, args[i], p)
  }

  predicate Ends(rest: string) { rest == "" || IsDelimiter(rest[0]) }

  lemma {:induction false} PlainLengthOf(w: string, rest: string)
    requires Ends(rest) && forall i :: 0 <= i < |w| ==> !IsDelimiter(w[i])
    ensures PlainLength(w + rest) == |w|
  {
    if w == "" {
      assert w + rest == rest;
    } else {
      assert (w + rest)[1..] == w[1..] + rest;
      PlainLengthOf(w[1..], rest);
    }
  }

  lemma {:induction false} QuotedLengthOf(w: string, rest: string, escaped: bool)
    requires QuotedLength(w, escaped).Some?
    ensures QuotedLength(w + rest, escaped) == QuotedLength(w, escaped)
  {
    assert (w + rest)[0] == w[0] && (w + rest)[1..] == w[1..] + rest;
    if escaped || w[0] != '"' {
      QuotedLengthOf(w[1..], rest, !escaped && w[0] == '\\');
    }
  }

  lemma TokenOf(w: string, rest: string)
    requires WholeToken(w) && Ends(rest)
    ensures Token(w + rest) == Ok((w, rest)) && SkipSpace(w + rest) == w + rest
  {
    var text := w + rest;
    Halves(w, rest);
    assert SkipSpace(text) == text by { hide *; NoSkip(text); }
    if PlainToken(w) { PlainCut(w, rest); } else { QuotedCut(w, rest); }
    hide CutPlain, CutQuoted, PlainToken, QuotedLength, SkipSpace;
  }

  lemma Halves(w: string, rest: string)
    requires w != ""
    ensures (w + rest)[0] == w[0] && (w + rest)[1..] == w[1..] + rest
    ensures (w + rest)[..|w|] == w && (w + rest)[|w|..] == rest
  {
  }

  lemma NoSkip(text: string)
    requires text != "" && !IsBlank(text[0])
    ensures SkipSpace(text) == text
  {
  }

  lemma PlainCut(w: string, rest: string)
    requires PlainToken(w) && Ends(rest)
    ensures CutPlain(w + rest) == Ok((w, rest))
  {
    PlainLengthOf(w, rest);
    Halves(w, rest);
    hide PlainLength, IsDelimiter;
  }

  lemma QuotedCut(w: string, rest: string)
    requires w != "" && w[0] == '"' && QuotedLength(w[1..], false) == Some(|w| - 1)
    ensures CutQuoted(w + rest) == Ok((w, rest))
  {
    Halves(w, rest);
    QuotedLengthOf(w[1..], rest, false);
    hide QuotedLength;
  }

  predicate HasRoom(nodes: int, depth: nat) { nodes + 1 <= MAX_FILTER_NODES && depth <= MAX_FILTER_DEPTH }

  lemma ParseToken(lex: Lexicon, token: string, rest: string, nodes: int, depth: nat)
    requires WholeToken(token) && Ends(rest)
    ensures ParseExpr(lex, token + rest, nodes, depth).Ok? <==> HasRoom(nodes, depth)
    ensures HasRoom(nodes, depth) ==>
      ParseExpr(lex, token + rest, nodes, depth) == Ok((Atomic(ParseAtom(lex, token)), rest, nodes + 1))
  {
    hide Token, ParseAtom, ParseArgs, ParseItems, QuotedLength;
    TokenOf(token, rest);
    assert (token + rest)[0] == token[0];
  }

  lemma ParseCall(lex: Lexicon, head: string, rest: string, nodes: int, depth: nat)
    requires PlainToken(head) && Ends(rest)
    ensures
      var args := ParseArgs(lex, rest, nodes + 1, depth + 1);
      var r := ParseExpr(lex, "(" + head + rest, nodes, depth);
      && (r.Ok? <==> HasRoom(nodes, depth) && args.Ok?)
      && (r.Ok? ==> r.value == (Call(head, args.value.0), args.value.1, args.value.2))
  {
    hide Token, ParseAtom, ParseArgs, ParseItems;
    var text := "(" + head + rest;
    TokenOf(head, rest);
    assert text[1..] == head + rest;
  }

  lemma ParseList(lex: Lexicon, rest: string, nodes: int, depth: nat)
    ensures
      var items := ParseItems(lex, rest, 0, nodes + 1, depth + 1);
      var r := ParseExpr(lex, "[" + rest, nodes, depth);
      && (r.Ok? <==> HasRoom(nodes, depth) && items.Ok?)
      && (r.Ok? ==> r.value == (Atomic(Items(items.value.0)), items.value.1, items.value.2))
  {
    hide Token, ParseAtom, ParseArgs, ParseItems;
    assert ("[" + rest)[1..] == rest;
  }

  lemma ParseNoArgs(lex: Lexicon, rest: string, nodes: int, depth: nat)
    ensures ParseArgs(lex, ")" + rest, nodes, depth) == Ok(([], rest, nodes))
  {
    hide ParseExpr;
    assert (")" + rest)[1..] == rest;
  }

  lemma ParseNoItems(lex: Lexicon, rest: string, count: nat, nodes: int, depth: nat)
    ensures ParseItems(lex, "]" + rest, count, nodes, depth) == Ok(([], rest, nodes))
  {
    hide ParseExpr;
    assert ("]" + rest)[1..] == rest;
  }

  lemma ParseMoreArgs(lex: Lexicon, text: string, nodes: int, depth: nat)
    requires text != "" && !IsBlank(text[0]) && text[0] != ')'
    ensures
      var first := ParseExpr(lex, text, nodes, depth);
      var all := ParseArgs(lex, " " + text, nodes, depth);
      if first.Err? then all.Err?
      else
        var more := ParseArgs(lex, first.value.1, first.value.2, depth);
        if more.Err? then all.Err? else all == Ok(([first.value.0] + more.value.0, more.value.1, more.value.2))
  {
    hide ParseExpr;
    assert (" " + text)[1..] == text;
    assert SkipSpace(" " + text) == text;
  }

  lemma ParseMoreItems(lex: Lexicon, text: string, count: nat, nodes: int, depth: nat)
    requires text != "" && !IsBlank(text[0]) && text[0] != ']' && count < MAX_SET_VALUES
    requires ParseExpr(lex, text, nodes, depth).Ok? ==> ParseExpr(lex, text, nodes, depth).value.0.Atomic?
    ensures
      var first := ParseExpr(lex, text, nodes, depth);
      var all := ParseItems(lex, " " + text, count, nodes, depth);
      if first.Err? then all.Err?
      else
        var more := ParseItems(lex, first.value.1, count + 1, first.value.2, depth);
        if more.Err? then all.Err? else all == Ok(([first.value.0.atom] + more.value.0, more.value.1, more.value.2))
  {
    hide ParseExpr;
    assert (" " + text)[1..] == text;
    assert SkipSpace(" " + text) == text;
  }

  predicate Fits(count: nat, deep: nat, nodes: int, depth: nat) {
    nodes + count <= 256 && depth + deep <= 12
  }

  /** What is shown parses exactly within the limits, and then back to itself, counting exactly its own nodes. */
  lemma {:induction false} ShownParses(lex: Lexicon, s: Sexp, p: Printer, rest: string, nodes: int, depth: nat)
    requires Showable(lex, s, p) && Ends(rest)
    ensures ParseExpr(lex, Show(s, p) + rest, nodes, depth).Ok? <==> Fits(Count(s), Deep(s), nodes, depth)
    ensures Fits(Count(s), Deep(s), nodes, depth) ==>
      ParseExpr(lex, Show(s, p) + rest, nodes, depth) == Ok((s, rest, nodes + Count(s)))
    decreases s
  {
    hide ParseExpr, ParseArgs, PlainToken, ShowableAtom, AtomCount, AtomDeep, ShowAtom;
    match s
    case Atomic(a) => ShownAtomParses(lex, a, p, rest, nodes, depth);
    case Call(head, args) =>
      var tail := ShowArgs(args, p) + ")" + rest;
      assert Show(s, p) + rest == "(" + head + tail;
      ShowArgsEnds(args, p, rest);
      ParseCall(lex, head, tail, nodes, depth);
      if HasRoom(nodes, depth) { ShownArgsParse(lex, args, p, rest, nodes + 1, depth + 1); }
  }

  lemma {:induction false} ShownAtomParses(lex: Lexicon, a: Atom, p: Printer, rest: string, nodes: int, depth: nat)
    requires ShowableAtom(lex, a, p) && Ends(rest)
    ensures ParseExpr(lex, ShowAtom(a, p) + rest, nodes, depth).Ok? <==> Fits(AtomCount(a), AtomDeep(a), nodes, depth)
    ensures Fits(AtomCount(a), AtomDeep(a), nodes, depth) ==>
      ParseExpr(lex, ShowAtom(a, p) + rest, nodes, depth) == Ok((Atomic(a), rest, nodes + AtomCount(a)))
    decreases a
  {
    hide ParseAtom, ParseExpr, ParseItems, WholeToken;
    if a.Items? {
      var tail := ShowItems(a.items, p) + "]" + rest;
      assert ShowAtom(a, p) + rest == "[" + tail;
      ParseList(lex, tail, nodes, depth);
      if HasRoom(nodes, depth) { ShownItemsParse(lex, a.items, p, rest, 0, nodes + 1, depth + 1); }
    } else {
      ParseToken(lex, ShowAtom(a, p), rest, nodes, depth);
    }
  }

  lemma ShowArgsEnds(args: seq<Sexp>, p: Printer, rest: string)
    ensures Ends(ShowArgs(args, p) + ")" + rest)
  {
    hide Show;
    var text := ShowArgs(args, p) + ")" + rest;
    if args == [] {
      assert text[0] == ')';
    } else {
      assert text[0] == ShowArgs(args, p)[0] == ' ';
    }
  }

  lemma ShowItemsEnds(items: seq<Atom>, p: Printer, rest: string)
    ensures Ends(ShowItems(items, p) + "]" + rest)
  {
    hide ShowAtom;
    var text := ShowItems(items, p) + "]" + rest;
    if items == [] {
      assert text[0] == ']';
    } else {
      assert text[0] == ShowItems(items, p)[0] == ' ';
    }
  }

  lemma {:induction false} ShownArgsParse(
    lex: Lexicon, args: seq<Sexp>, p: Printer, rest: string, nodes: int, depth: nat)
    requires forall i :: 0 <= i < |args| ==> Showable(lex, args[i], p)
    requires depth > 0 && Fits(0, 0, nodes, depth - 1)
    ensures
      var parsed := ParseArgs(lex, ShowArgs(args, p) + ")" + rest, nodes, depth);
      && (parsed.Ok? <==> Fits(Counts(args), Deeps(args), nodes, depth - 1))
      && (parsed.Ok? ==> parsed.value == (args, rest, nodes + Counts(args)))
    decreases args
  {
    hide Show, Showable, ParseExpr, ParseArgs, Count, Deep;
    var text := ShowArgs(args, p) + ")" + rest;
    if args == [] {
      assert text == ")" + rest;
      ParseNoArgs(lex, rest, nodes, depth);
    } else {
      var tail := ShowArgs(args[1..], p) + ")" + rest;
      var first := Show(args[0], p) + tail;
      assert text == " " + first;
      ShowArgsEnds(args[1..], p, rest);
      ShownParses(lex, args[0], p, tail, nodes, depth);
      ShowStarts(lex, args[0], p, tail);
      ParseMoreArgs(lex, first, nodes, depth);
      if Fits(Count(args[0]), Deep(args[0]), nodes, depth) {
        ShownArgsParse(lex, args[1..], p, rest, nodes + Count(args[0]), depth);
        assert [args[0]] + args[1..] == args;
      }
    }
  }

  lemma {:induction false} ShownItemsParse(
    lex: Lexicon, items: seq<Atom>, p: Printer, rest: string, count: nat, nodes: int, depth: nat)
    requires forall i :: 0 <= i < |items| ==> ShowableAtom(lex, items[i], p)
    requires count + |items| <= MAX_SET_VALUES && depth > 0 && Fits(0, 0, nodes, depth - 1)
    ensures
      var parsed := ParseItems(lex, ShowItems(items, p) + "]" + rest, count, nodes, depth);
      && (parsed.Ok? <==> Fits(AtomCounts(items), AtomDeeps(items), nodes, depth - 1))
      && (parsed.Ok? ==> parsed.value == (items, rest, nodes + AtomCounts(items)))
    decreases items
  {
    hide ShowAtom, ShowableAtom, ParseExpr, ParseItems, AtomCount, AtomDeep;
    var text := ShowItems(items, p) + "]" + rest;
    if items == [] {
      assert text == "]" + rest;
      ParseNoItems(lex, rest, count, nodes, depth);
    } else {
      var tail := ShowItems(items[1..], p) + "]" + rest;
      var first := ShowAtom(items[0], p) + tail;
      assert text == " " + first;
      ShowItemsEnds(items[1..], p, rest);
      ShownAtomParses(lex, items[0], p, tail, nodes, depth);
      ShowAtomStarts(lex, items[0], p, tail);
      ParseMoreItems(lex, first, count, nodes, depth);
      if Fits(AtomCount(items[0]), AtomDeep(items[0]), nodes, depth) {
        ShownItemsParse(lex, items[1..], p, rest, count + 1, nodes + AtomCount(items[0]), depth);
        assert [items[0]] + items[1..] == items;
      }
    }
  }

  lemma ShowStarts(lex: Lexicon, s: Sexp, p: Printer, rest: string)
    requires Showable(lex, s, p)
    ensures
      var text := Show(s, p) + rest;
      text != "" && text[0] != ')' && !IsBlank(text[0])
  {
    hide ShowArgs, ShowAtom, ShowableAtom;
    if s.Atomic? { ShowAtomStarts(lex, s.atom, p, rest); }
    assert s.Call? ==> Show(s, p)[0] == '(';
  }

  lemma ShowAtomStarts(lex: Lexicon, a: Atom, p: Printer, rest: string)
    requires ShowableAtom(lex, a, p)
    ensures
      var text := ShowAtom(a, p) + rest;
      text != "" && text[0] != ')' && text[0] != ']' && !IsBlank(text[0])
  {
    hide ShowItems, ParseAtom, QuotedLength;
    assert ShowAtom(a, p) != "" && (ShowAtom(a, p) + rest)[0] == ShowAtom(a, p)[0];
  }

  // ---------------------------------------------------------------- filters as text

  function OpToken(op: CompareOp): string {
    match op
    case EQ => "=" case NE => "!=" case GT => ">" case GTE => ">=" case LT => "<" case LTE => "<="
    case Contains => "contains" case Prefix => "prefix"
  }

  function PathToken(path: Path): string {
    match path
    case SystemPath(name) => name
    case FieldPath(name) => "$" + name
    case OutRefPath(name) => "->" + name
    case InRefPath(source, name) => "<-" + source + "." + name
  }

  /** A token that is neither a placeholder nor a literal. */
  predicate IsWord(lex: Lexicon, w: string) {
    && PlainToken(w) && !(HasPrefix(w, "{:") && w[|w| - 1] == '}')
    && lex.number(w).None? && w != "true" && w != "false" && w != "null"
  }

  /** A path the syntax can write: its name does not look like another kind of path. */
  predicate Writable(lex: Lexicon, path: Path) {
    && IsWord(lex, PathToken(path))
    && match path
       case SystemPath(name) => !HasPrefix(name, "->") && !HasPrefix(name, "<-") && name[0] != '$'
       case FieldPath(name) => name != "" && name[0] != '.'
       case OutRefPath(_) => true
       case InRefPath(source, name) => '.' !in source && '.' !in name
  }

  /** Operands are written as the printer chooses: placeholders, words, literals or lists of those. */
  function ToSexp(e: Expr, p: Printer): Sexp {
    match e
    case Constant(b) => Atomic(Literal(Bool(b)))
    case Compare(op, path, v) => Call(OpToken(op), [Atomic(Word(PathToken(path))), Atomic(p.operand(v))])
    case Logic(op, args) =>
      Call(match op case And => "and" case Or => "or" case Not => "not", ToSexps(args, p))
    case In(path, values, None) => Call("in", [Atomic(Word(PathToken(path))), Atomic(p.operand(List(values)))])
    case In(path, _, Some(s)) =>
      Call("in", [Atomic(Word(PathToken(path))), Call("subtree", [Atomic(p.operand(Str(s.address)))])])
    case Exists(path, missing) => Call(if missing then "missing" else "exists", [Atomic(Word(PathToken(path)))])
    case Related(path, None) => Call("related", [Atomic(Word(PathToken(path)))])
    case Related(path, Some(w)) => Call("related", [Atomic(Word(PathToken(path))), ToSexp(w, p)])
  }

  function ToSexps(args: seq<Expr>, p: Printer): (r: seq<Sexp>)
    ensures |r| == |args|
  {
    if args == [] then [] else [ToSexp(args[0], p)] + ToSexps(args[1..], p)
  }

  predicate Bound(lex: Lexicon, v: Value, p: Printer, params: Params) {
    ShowableAtom(lex, p.operand(v), p) && ResolveAtom(p.operand(v), params) == Ok(v)
  }

  /** A placeholder whose parameter holds the operand always serves, whatever the lexicon. */
  lemma PlaceholderIsBound(lex: Lexicon, v: Value, name: string, p: Printer, params: Params)
    requires p.operand(v) == Hole(name) && PlainToken("{:" + name + "}") && name in params && params[name] == v
    ensures Bound(lex, v, p, params)
  {
    var token := "{:" + name + "}";
    assert token[..2] == "{:" && token[2..|token| - 1] == name;
  }

  /**
   * The text is a literal for the value: the three constants by their names, a number by a text the lexicon reads
   * as that number, a string by a quoted text it unquotes to that string.
   */
  predicate Spells(lex: Lexicon, v: Value, token: string) {
    match v
    case Bool(b) => token == (if b then "true" else "false") && lex.number(token).None?
    case Null => token == "null" && lex.number(token).None?
    case Str(s) => WholeToken(token) && token[0] == '"' && lex.unquote(token) == Some(s)
    case Int(_) => IsNumeral(token) && lex.number(token) == Some(v)
    case Float(_) => IsNumeral(token) && lex.number(token) == Some(v)
    case _ => false
  }

  predicate IsNumeral(token: string) { PlainToken(token) && !HasPrefix(token, "{:") }

  /** A literal stands for its value. */
  lemma LiteralIsBound(lex: Lexicon, v: Value, p: Printer, params: Params)
    requires p.operand(v) == Literal(v) && Spells(lex, v, p.literal(v))
    ensures Bound(lex, v, p, params)
  {
    var token := p.literal(v);
    if v.Str? {
      QuotedEnds(token[1..], false);
    } else {
      ConstantsArePlain();
    }
    hide QuotedLength, PlainToken;
  }

  lemma ConstantsArePlain()
    ensures forall t :: t in ["true", "false", "null"] ==> PlainToken(t) && !HasPrefix(t, "{:") && t[0] != '"'
    ensures "true" != "false"
  {
    var (yes, no, none) := ("true", "false", "null");
    assert |yes| == 4 && |no| == 5 && |none| == 4;
    assert yes[0] == 't' && yes[1] == 'r' && yes[2] == 'u' && yes[3] == 'e';
    assert no[0] == 'f' && no[1] == 'a' && no[2] == 'l' && no[3] == 's' && no[4] == 'e';
    assert none[0] == 'n' && none[1] == 'u' && none[2] == 'l' && none[3] == 'l';
    assert PlainToken(yes) && PlainToken(no) && PlainToken(none);
    assert yes[..2][0] == 't' && no[..2][0] == 'f' && none[..2][0] == 'n';
  }

  /** A quoted text closes with a quote. */
  lemma {:induction false} QuotedEnds(t: string, escaped: bool)
    requires QuotedLength(t, escaped).Some?
    ensures t != "" && t[QuotedLength(t, escaped).value - 1] == '"'
  {
    if escaped || t[0] != '"' { QuotedEnds(t[1..], !escaped && t[0] == '\\'); }
  }

  /** A bare word stands for itself. */
  lemma WordIsBound(lex: Lexicon, s: string, p: Printer, params: Params)
    requires p.operand(Str(s)) == Word(s) && IsWord(lex, s)
    ensures Bound(lex, Str(s), p, params)
  {
  }

  /** A list of at most 100 atoms stands for the list of their values. */
  lemma ListIsBound(lex: Lexicon, vs: seq<Value>, atoms: seq<Atom>, p: Printer, params: Params)
    requires p.operand(List(vs)) == Items(atoms) && |atoms| == |vs| <= MAX_SET_VALUES
    requires forall i :: 0 <= i < |vs| ==> ShowableAtom(lex, atoms[i], p) && ResolveAtom(atoms[i], params) == Ok(vs[i])
    ensures Bound(lex, List(vs), p, params)
  {
    AtomsResolve(atoms, vs, params);
    hide ResolveAtoms;
  }

  lemma {:induction false} AtomsResolve(atoms: seq<Atom>, vs: seq<Value>, params: Params)
    requires |atoms| == |vs| && forall i :: 0 <= i < |vs| ==> ResolveAtom(atoms[i], params) == Ok(vs[i])
    ensures ResolveAtoms(atoms, params) == Ok(vs)
    decreases |atoms|
  {
    hide ResolveAtom;
    if atoms != [] {
      AtomsResolve(atoms[1..], vs[1..], params);
      assert vs == [vs[0]] + vs[1..];
    }
  }

  /** The filters the syntax has a form for, their operands bound. */
  predicate Sayable(lex: Lexicon, e: Expr, p: Printer, params: Params) {
    match e
    case Constant(_) => false
    case Compare(_, path, v) => Writable(lex, path) && Bound(lex, v, p, params)
    case Logic(op, args) =>
      args != [] && (op == Not ==> |args| == 1) && forall i :: 0 <= i < |args| ==> Sayable(lex, args[i], p, params)
    case In(path, values, None) =>
      Writable(lex, path) && |values| <= MAX_SET_VALUES && Bound(lex, List(values), p, params)
    case In(path, values, Some(s)) =>
      Writable(lex, path) && values == [] && s.address != "" && Bound(lex, Str(s.address), p, params)
    case Exists(path, _) => Writable(lex, path)
    case Related(path, where) => Writable(lex, path) && where.Some? && Sayable(lex, where.value, p, params)
  }

  lemma {:induction false} SoleDotOf(a: string, b: string)
    requires '.' !in a && '.' !in b
    ensures SoleDot(a + "." + b) == Some(|a|)
  {
    if a == "" {
      assert (a + "." + b)[1..] == b;
    } else {
      assert (a + "." + b)[1..] == a[1..] + "." + b;
      SoleDotOf(a[1..], b);
    }
  }

  lemma PathParses(lex: Lexicon, path: Path, p: Printer)
    requires Writable(lex, path)
    ensures ParsePath(Atomic(Word(PathToken(path)))) == Ok(path)
    ensures Showable(lex, Atomic(Word(PathToken(path))), p)
  {
    PathIsWord(lex, path, p);
    hide IsWord, Showable, ParseAtom, PlainToken;
    var text := PathToken(path);
    match path
    case SystemPath(name) =>
    case FieldPath(name) => assert text[1..] == name && text[0] == '$' && text[1] == name[0];
    case OutRefPath(name) => assert text[..2] == "->" && text[2..] == name;
    case InRefPath(source, name) => IncomingParses(source, name);
  }

  lemma PathIsWord(lex: Lexicon, path: Path, p: Printer)
    requires Writable(lex, path)
    ensures PathToken(path) != "" && Showable(lex, Atomic(Word(PathToken(path))), p)
  {
    hide PathToken;
  }

  lemma IncomingParses(source: string, name: string)
    requires '.' !in source && '.' !in name
    ensures ParsePath(Atomic(Word("<-" + source + "." + name))) == Ok(InRefPath(source, name))
  {
    var text := "<-" + source + "." + name;
    assert text[..2] == "<-" && text[2..] == source + "." + name && text[0] == '<' && text[1] == '-';
    SoleDotOf(source, name);
    assert (source + "." + name)[..|source|] == source && (source + "." + name)[|source| + 1..] == name;
  }

  lemma PlainHeads()
    ensures forall op :: PlainToken(OpToken(op))
    ensures PlainToken("and") && PlainToken("or") && PlainToken("not") && PlainToken("in") && PlainToken("subtree")
    ensures PlainToken("exists") && PlainToken("missing") && PlainToken("related")
  {
  }

  lemma {:induction false} SaidIsShowable(lex: Lexicon, e: Expr, p: Printer, params: Params)
    requires Sayable(lex, e, p, params)
    ensures Showable(lex, ToSexp(e, p), p)
    decreases e
  {
    hide PlainToken, ParseAtom, IsWord;
    PlainHeads();
    match e
    case Compare(op, path, v) => PathParses(lex, path, p);
    case Logic(op, args) => SaidAreShowable(lex, args, p, params);
    case In(path, values, None) => PathParses(lex, path, p);
    case In(path, values, Some(s)) =>
      PathParses(lex, path, p);
      var address := Atomic(p.operand(Str(s.address)));
      assert Showable(lex, address, p);
      assert Showable(lex, Call("subtree", [address]), p);
    case Exists(path, missing) => PathParses(lex, path, p);
    case Related(path, where) =>
      PathParses(lex, path, p);
      SaidIsShowable(lex, where.value, p, params);
  }

  lemma {:induction false} SaidAreShowable(lex: Lexicon, args: seq<Expr>, p: Printer, params: Params)
    requires forall i :: 0 <= i < |args| ==> Sayable(lex, args[i], p, params)
    ensures forall i :: 0 <= i < |args| ==> Showable(lex, ToSexps(args, p)[i], p)
    decreases args
  {
    if args != [] {
      SaidIsShowable(lex, args[0], p, params);
      SaidAreShowable(lex, args[1..], p, params);
      hide Showable, ToSexp;
      forall i | 0 <= i < |args| ensures Showable(lex, ToSexps(args, p)[i], p) {
        if i > 0 { assert ToSexps(args, p)[i] == ToSexps(args[1..], p)[i - 1]; }
      }
    }
  }

  /** The s-expression of a filter is read back as that filter. */
  lemma {:induction false} SaidIsBuilt(lex: Lexicon, e: Expr, p: Printer, params: Params)
    requires Sayable(lex, e, p, params)
    ensures BuildExpr(ToSexp(e, p), params) == Ok(e)
    decreases e
  {
    hide PlainToken, ParseAtom, IsWord, ParsePath, Writable, PathToken;
    hide CompareOpOf, OpToken, BuildSet, SliceValues, AsItems;
    match e
    case Compare(op, path, v) => SaidLeafIsBuilt(lex, e, p, params);
    case Logic(op, args) =>
      NotCompareOps();
      if op == Not {
        SaidIsBuilt(lex, args[0], p, params);
        assert ToSexps(args, p)[0] == ToSexp(args[0], p);
        assert args == [args[0]];
      } else {
        SaidAreBuilt(lex, args, p, params);
      }
    case In(path, values, from) => SaidLeafIsBuilt(lex, e, p, params);
    case Exists(path, missing) => SaidLeafIsBuilt(lex, e, p, params);
    case Related(path, where) =>
      NotCompareOps();
      PathParses(lex, path, p);
      SaidIsBuilt(lex, where.value, p, params);
  }

  lemma NotCompareOps()
    ensures CompareOpOf("and").None? && CompareOpOf("or").None? && CompareOpOf("not").None?
    ensures CompareOpOf("related").None?
  {
  }

  lemma SaidLeafIsBuilt(lex: Lexicon, e: Expr, p: Printer, params: Params)
    requires Sayable(lex, e, p, params) && (e.Compare? || e.In? || e.Exists?)
    ensures BuildExpr(ToSexp(e, p), params) == Ok(e)
  {
    hide PlainToken, ParseAtom, IsWord, ParsePath, Writable, PathToken;
    PathParses(lex, e.path, p);
    if e.Compare? { OpTokenReadsBack(e.cmp); }
  }

  lemma OpTokenReadsBack(op: CompareOp)
    ensures CompareOpOf(OpToken(op)) == Some(op)
  {
  }

  lemma {:induction false} SaidAreBuilt(lex: Lexicon, args: seq<Expr>, p: Printer, params: Params)
    requires forall i :: 0 <= i < |args| ==> Sayable(lex, args[i], p, params)
    ensures BuildAll(ToSexps(args, p), params) == Ok(args)
    decreases args
  {
    hide Sayable, ToSexp, BuildExpr;
    if args != [] {
      SaidIsBuilt(lex, args[0], p, params);
      SaidAreBuilt(lex, args[1..], p, params);
      assert ToSexps(args, p)[0] == ToSexp(args[0], p) && ToSexps(args, p)[1..] == ToSexps(args[1..], p);
      assert [args[0]] + args[1..] == args;
    }
  }

  /** The parser's limits on a text: its bytes, and the nodes and levels of what it shows. */
  predicate WithinLimits(e: Expr, p: Printer) {
    |Show(ToSexp(e, p), p)| <= 4096 && Fits(Count(ToSexp(e, p)), Deep(ToSexp(e, p)), 0, 0)
  }

  /** Printing a filter and parsing the text gives the filter back within the parser's limits, and fails beyond them. */
  lemma PrintedParsesBack(lex: Lexicon, e: Expr, p: Printer, params: Params)
    requires Sayable(lex, e, p, params)
    ensures ParseLisp(lex, Show(ToSexp(e, p), p), params).Ok? <==> WithinLimits(e, p)
    ensures WithinLimits(e, p) ==> ParseLisp(lex, Show(ToSexp(e, p), p), params) == Ok(e)
  {
    hide Sayable, ToSexp, BuildExpr, ParseExpr, Show, Count, Deep;
    var s := ToSexp(e, p);
    SaidIsShowable(lex, e, p, params);
    SaidIsBuilt(lex, e, p, params);
    ShownParses(lex, s, p, "", 0, 0);
    ShowStarts(lex, s, p, "");
    assert Show(s, p) + "" == Show(s, p);
  }

  /** The text of a comparison with a literal parses to the comparison with the value. */
  lemma LiteralComparisonParses(lex: Lexicon, op: CompareOp, path: Path, v: Value, token: string, params: Params)
    requires Writable(lex, path) && Spells(lex, v, token)
    requires |OpToken(op)| + |PathToken(path)| + |token| + 4 <= 4096
    ensures ParseLisp(lex, "(" + OpToken(op) + " " + PathToken(path) + " " + token + ")", params)
      == Ok(Compare(op, path, v))
  {
    var p := Printer(w => Literal(w), w => token);
    LiteralIsBound(lex, v, p, params);
    ComparisonShows(op, path, v, p);
    hide *;
    PrintedParsesBack(lex, Compare(op, path, v), p, params);
  }

  lemma ComparisonShows(op: CompareOp, path: Path, v: Value, p: Printer)
    requires p.operand(v) == Literal(v)
    ensures
      var s := ToSexp(Compare(op, path, v), p);
      && Show(s, p) == "(" + OpToken(op) + " " + PathToken(path) + " " + p.literal(v) + ")"
      && Count(s) == 3 && Deep(s) == 1
  {
    var args := [Atomic(Word(PathToken(path))), Atomic(Literal(v))];
    TwoArgs(Word(PathToken(path)), Literal(v), p);
    hide OpToken, PathToken, ShowArgs, Counts, Deeps;
    assert ToSexp(Compare(op, path, v), p) == Call(OpToken(op), args);
  }

  lemma TwoArgs(a: Atom, b: Atom, p: Printer)
    requires !a.Items? && !b.Items?
    ensures
      var args := [Atomic(a), Atomic(b)];
      && ShowArgs(args, p) == " " + ShowAtom(a, p) + " " + ShowAtom(b, p)
      && Counts(args) == 2 && Deeps(args) == 1
  {
    var args := [Atomic(a), Atomic(b)];
    assert args[1..] == [Atomic(b)] && args[1..][1..] == [];
    assert ShowArgs([], p) == "" && Counts([]) == 0 && Deeps([]) == 0;
    assert ShowArgs(args[1..], p) == " " + ShowAtom(b, p) + "";
    assert Counts(args[1..]) == 1 && Deeps(args[1..]) == 1;
    hide ShowAtom;
    assert ShowArgs(args, p) == " " + ShowAtom(a, p) + (" " + ShowAtom(b, p));
  }
}
