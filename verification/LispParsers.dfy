/** The parser object of query/lisp.go: a position and a node count moved over the text. */
module LispParsers {
  import opened Common
  import opened Query
  import opened Lisp

  /** What a call must return and how far it must move, given the text that was left. */
  ghost predicate Reads<T>(spec: Parsed<T>, r: Result<T, LispError>, left: string, nodes: int) {
    match spec
    case Err(e) => r == Err(e)
    case Ok((v, rest, n)) => r == Ok(v) && left == rest && nodes == n
  }

  /** The same for a token. */
  predicate Cuts(spec: Result<(string, string), LispError>, r: Result<string, LispError>, left: string) {
    match spec
    case Err(e) => r == Err(e)
    case Ok((token, rest)) => r == Ok(token) && left == rest
  }

  class LispParser {
    const lex: Lexicon
    const src: string
    var pos: nat
    var nodes: int

    constructor (lex: Lexicon, src: string)
      ensures this.lex == lex && this.src == src && pos == 0 && nodes == 0
    {
      this.lex, this.src := lex, src;
      pos, nodes := 0, 0;
    }

    predicate Valid()
      reads this
    {
      pos <= |src|
    }

    /** The text not yet read. */
    function Left(): string
      requires Valid()
      reads this
    {
      src[pos..]
    }

    method Skip()
      requires Valid()
      modifies this`pos
      ensures Valid() && Left() == SkipSpace(old(Left())) && pos >= old(pos)
    {
      hide SkipSpace;
      ghost var t := Left();
      while pos < |src| && IsBlank(src[pos])
        invariant old(pos) <= pos <= |src|
        invariant SkipSpace(src[pos..]) == SkipSpace(t)
      {
        assert src[pos..][0] == src[pos] && src[pos..][1..] == src[pos + 1..];
        SkipStep(src[pos..]);
        pos := pos + 1;
      }
      assert pos < |src| ==> src[pos..][0] == src[pos];
      SkipStep(src[pos..]);
    }

    method ReadToken() returns (r: Result<string, LispError>)
      requires Valid()
      modifies this`pos
      ensures Valid() && (r.Ok? ==> pos > old(pos))
      ensures Cuts(Token(old(Left())), r, Left())
    {
      hide SkipSpace, CutPlain, CutQuoted;
      Skip();
      ghost var t := Left();
      assert pos < |src| ==> t[0] == src[pos];
      if pos < |src| && src[pos] == '"' {
        r := ReadQuoted();
      } else {
        r := ReadPlain();
      }
    }

    /** The loop over a quoted string: a backslash makes the next character ordinary. */
    method ReadQuoted() returns (r: Result<string, LispError>)
      requires Valid() && pos < |src|
      modifies this`pos
      ensures Valid()
      ensures Cuts(CutQuoted(old(Left())), r, Left())
    {
      var start := pos;
      ghost var t := Left();
      pos := pos + 1;
      var escaped := false;
      assert t[1..] == src[pos..];
      while pos < |src|
        invariant start < pos <= |src|
        invariant QuotedFrom(t[1..], QuotedLength(src[pos..], escaped), pos - start - 1)
      {
        var c := src[pos];
        assert src[pos..][0] == c && src[pos..][1..] == src[pos + 1..];
        if escaped {
          escaped := false;
          pos := pos + 1;
        } else if c == '\\' {
          escaped := true;
          pos := pos + 1;
        } else if c == '"' {
          pos := pos + 1;
          assert t[..pos - start] == src[start..pos] && t[pos - start..] == src[pos..];
          return Ok(src[start..pos]);
        } else {
          pos := pos + 1;
        }
      }
      r := Err(Unterminated);
    }

    method ReadPlain() returns (r: Result<string, LispError>)
      requires Valid()
      modifies this`pos
      ensures Valid()
      ensures Cuts(CutPlain(old(Left())), r, Left())
    {
      var start := pos;
      ghost var t := Left();
      while pos < |src| && !IsDelimiter(src[pos])
        invariant start <= pos <= |src|
        invariant PlainLength(t) == pos - start + PlainLength(src[pos..])
      {
        assert src[pos..][0] == src[pos] && src[pos..][1..] == src[pos + 1..];
        pos := pos + 1;
      }
      assert pos < |src| ==> src[pos..][0] == src[pos];
      assert t[..pos - start] == src[start..pos] && t[pos - start..] == src[pos..];
      if start == pos {
        return Err(EmptyToken);
      }
      r := Ok(src[start..pos]);
    }

    method Parse(depth: nat) returns (r: Result<Sexp, LispError>)
      requires Valid()
      modifies this`pos, this`nodes
      ensures Valid() && Reads(ParseExpr(lex, old(Left()), old(nodes), depth), r, Left(), nodes)
      decreases |src| - pos, 1
    {
      hide Reads, Cuts, ParseExpr, ParseArgs, ParseItems, Token, ParseAtom, SkipSpace;
      ghost var text, n := Left(), nodes;
      if depth > MAX_FILTER_DEPTH {
        FailsAt(lex, text, n, depth, TooNested, Left(), nodes);
        return Err(TooNested);
      }
      nodes := nodes + 1;
      if nodes > MAX_FILTER_NODES {
        FailsAt(lex, text, n, depth, TooManyNodes, Left(), nodes);
        return Err(TooManyNodes);
      }
      Skip();
      if pos >= |src| {
        FailsAt(lex, text, n, depth, UnexpectedEnd, Left(), nodes);
        return Err(UnexpectedEnd);
      }
      ghost var t := Left();
      assert t != "" && t[0] == src[pos] && t[1..] == src[pos + 1..];
      if src[pos] == '(' {
        pos := pos + 1;
        var head := ReadToken();
        ghost var rest := Left();
        if head.Err? {
          HeadFails(lex, text, n, depth, head.error, rest, nodes);
          return Err(head.error);
        }
        var args := ParseCallArgs(depth);
        r := CallOf(head.value, args);
        CallReads(lex, text, n, depth, head.value, rest, args, Left(), nodes);
      } else if src[pos] == ')' {
        r := Err(UnexpectedClose);
        FailsAt(lex, text, n, depth, UnexpectedClose, Left(), nodes);
      } else if src[pos] == '[' {
        pos := pos + 1;
        var items := ParseArray(depth);
        r := ArrayOf(items);
        ArrayReads(lex, text, n, depth, items, Left(), nodes);
      } else {
        var token := ReadToken();
        r := AtomOf(lex, token);
        AtomReads(lex, text, n, depth, token, Left(), nodes);
      }
    }

    /** The loop that collects the arguments of a call up to its closing parenthesis. */
    method ParseCallArgs(depth: nat) returns (r: Result<seq<Sexp>, LispError>)
      requires Valid()
      modifies this`pos, this`nodes
      ensures Valid() && Reads(ParseArgs(lex, old(Left()), old(nodes), depth + 1), r, Left(), nodes)
      decreases |src| - pos, 2
    {
      hide ParseArgs, ParseItems, ParseExpr, SkipSpace, Token;
      var args: seq<Sexp> := [];
      ghost var spec := ParseArgs(lex, Left(), nodes, depth + 1);
      AfterNone(spec);
      while true
        invariant Valid() && pos >= old(pos)
        invariant spec == After(args, ParseArgs(lex, Left(), nodes, depth + 1))
        decreases |src| - pos
      {
        ArgsStep(lex, Left(), nodes, depth + 1);
        Skip();
        ghost var t := Left();
        assert pos < |src| ==> t[0] == src[pos];
        if pos >= |src| {
          return Err(Unterminated);
        }
        if src[pos] == ')' {
          pos := pos + 1;
          assert t[1..] == Left() && args + [] == args;
          return Ok(args);
        }
        var arg := Parse(depth + 1);
        if arg.Err? {
          return Err(arg.error);
        }
        AfterTwice(args, arg.value, ParseArgs(lex, Left(), nodes, depth + 1));
        args := args + [arg.value];
      }
    }

    /** The loop that collects the values of an array up to its closing bracket. */
    method ParseArray(depth: nat) returns (r: Result<seq<Atom>, LispError>)
      requires Valid()
      modifies this`pos, this`nodes
      ensures Valid() && Reads(ParseItems(lex, old(Left()), 0, old(nodes), depth + 1), r, Left(), nodes)
      decreases |src| - pos, 3
    {
      hide ParseItems;
      var items: seq<Atom> := [];
      ghost var spec := ParseItems(lex, Left(), 0, nodes, depth + 1);
      AfterNone(spec);
      while true
        invariant Valid() && pos >= old(pos)
        invariant spec == After(items, ParseItems(lex, Left(), |items|, nodes, depth + 1))
        decreases |src| - pos
      {
        var item := ReadItem(|items|, depth);
        match item {
          case Err(e) => return Err(e);
          case Ok(None) =>
            assert items + [] == items;
            return Ok(items);
          case Ok(Some(value)) =>
            AfterTwice(items, value, ParseItems(lex, Left(), |items| + 1, nodes, depth + 1));
            items := items + [value];
        }
      }
    }

    /** The next value of an array that already holds count, or None at its closing bracket. */
    method ReadItem(count: nat, depth: nat) returns (r: Result<Option<Atom>, LispError>)
      requires Valid()
      modifies this`pos, this`nodes
      ensures Valid() && (r.Ok? ==> pos > old(pos))
      ensures
        var spec := ParseItems(lex, old(Left()), count, old(nodes), depth + 1);
        match r
        case Err(e) => spec == Err(e)
        case Ok(None) => spec == Ok(([], Left(), nodes))
        case Ok(Some(value)) => spec == After([value], ParseItems(lex, Left(), count + 1, nodes, depth + 1))
      decreases |src| - pos, 2
    {
      ItemsStep(lex, Left(), count, nodes, depth + 1);
      hide ParseItems, ParseExpr, SkipSpace;
      Skip();
      ghost var t := Left();
      assert pos < |src| ==> t[0] == src[pos];
      if pos >= |src| {
        return Err(Unterminated);
      }
      if src[pos] == ']' {
        pos := pos + 1;
        assert t[1..] == Left();
        return Ok(None);
      }
      if count >= MAX_SET_VALUES {
        return Err(TooManyItems);
      }
      var item := Parse(depth + 1);
      if item.Err? {
        return Err(item.error);
      }
      if item.value.Call? {
        return Err(NotAValue);
      }
      r := Ok(Some(item.value.atom));
    }
  }

  lemma SkipStep(t: string)
    ensures SkipSpace(t) == if t != "" && IsBlank(t[0]) then SkipSpace(t[1..]) else t
  {
  }

  /** A parse that had already collected xs. */
  function After<T>(xs: seq<T>, r: Parsed<seq<T>>): Parsed<seq<T>> {
    if r.Err? then Err(r.error) else Ok((xs + r.value.0, r.value.1, r.value.2))
  }

  lemma AfterNone<T>(r: Parsed<seq<T>>)
    ensures After([], r) == r
  {
    if r.Ok? {
      assert [] + r.value.0 == r.value.0;
    }
  }

  /** One round of the argument loop. */
  lemma ArgsStep(lex: Lexicon, text: string, nodes: int, depth: nat)
    ensures
      var t := SkipSpace(text);
      ParseArgs(lex, text, nodes, depth) ==
        if t == "" then Err(Unterminated)
        else if t[0] == ')' then Ok(([], t[1..], nodes))
        else
          var arg := ParseExpr(lex, t, nodes, depth);
          if arg.Err? then Err(arg.error) else After([arg.value.0], ParseArgs(lex, arg.value.1, arg.value.2, depth))
  {
    hide ParseExpr, SkipSpace;
  }

  /** One round of the array loop. */
  lemma ItemsStep(lex: Lexicon, text: string, count: nat, nodes: int, depth: nat)
    ensures
      var t := SkipSpace(text);
      ParseItems(lex, text, count, nodes, depth) ==
        if t == "" then Err(Unterminated)
        else if t[0] == ']' then Ok(([], t[1..], nodes))
        else if count >= MAX_SET_VALUES then Err(TooManyItems)
        else
          var item := ParseExpr(lex, t, nodes, depth);
          if item.Err? then Err(item.error)
          else if item.value.0.Call? then Err(NotAValue)
          else After([item.value.0.atom], ParseItems(lex, item.value.1, count + 1, item.value.2, depth))
  {
    hide ParseExpr, SkipSpace;
  }

  lemma AfterTwice<T>(xs: seq<T>, x: T, r: Parsed<seq<T>>)
    ensures After(xs, After([x], r)) == After(xs + [x], r)
  {
    if r.Ok? {
      assert xs + ([x] + r.value.0) == xs + [x] + r.value.0;
    }
  }

  /** The closing quote of t is found n characters on from where the rest of the scan finds it. */
  ghost predicate QuotedFrom(t: string, rest: Option<nat>, n: nat) {
    match rest
    case None => QuotedLength(t, false).None?
    case Some(m) => QuotedLength(t, false) == Some(n + m)
  }

  // The branches of ParseExpr, as the method leaves them.

  lemma FailsAt(lex: Lexicon, text: string, nodes: int, depth: nat, e: LispError, left: string, n: int)
    requires
      var t := SkipSpace(text);
      || (depth > MAX_FILTER_DEPTH && e == TooNested)
      || (depth <= MAX_FILTER_DEPTH && nodes + 1 > MAX_FILTER_NODES && e == TooManyNodes)
      || (HasRoom(nodes, depth) && t == "" && e == UnexpectedEnd)
      || (HasRoom(nodes, depth) && t != "" && t[0] == ')' && e == UnexpectedClose)
    ensures Reads(ParseExpr(lex, text, nodes, depth), Err(e), left, n)
  {
    hide ParseArgs, ParseItems, Token, ParseAtom, SkipSpace;
  }

  /** A list or a call opens here. */
  predicate Opens(text: string, c: char, nodes: int, depth: nat) {
    HasRoom(nodes, depth) && SkipSpace(text) != "" && SkipSpace(text)[0] == c
  }

  function CallOf(head: string, args: Result<seq<Sexp>, LispError>): Result<Sexp, LispError> {
    match args case Ok(exprs) => Ok(Call(head, exprs)) case Err(e) => Err(e)
  }

  function ArrayOf(items: Result<seq<Atom>, LispError>): Result<Sexp, LispError> {
    match items case Ok(atoms) => Ok(Atomic(Items(atoms))) case Err(e) => Err(e)
  }

  function AtomOf(lex: Lexicon, token: Result<string, LispError>): Result<Sexp, LispError> {
    match token case Ok(word) => Ok(Atomic(ParseAtom(lex, word))) case Err(e) => Err(e)
  }

  lemma HeadFails(lex: Lexicon, text: string, nodes: int, depth: nat, e: LispError, left: string, n: int)
    requires Opens(text, '(', nodes, depth) && Cuts(Token(SkipSpace(text)[1..]), Err(e), left)
    ensures Reads(ParseExpr(lex, text, nodes, depth), Err(e), left, n)
  {
    hide ParseArgs, ParseItems, Token, ParseAtom, SkipSpace;
  }

  lemma CallReads(
    lex: Lexicon, text: string, nodes: int, depth: nat, head: string, rest: string,
    args: Result<seq<Sexp>, LispError>, left: string, n: int)
    requires Opens(text, '(', nodes, depth) && Cuts(Token(SkipSpace(text)[1..]), Ok(head), rest)
    requires Reads(ParseArgs(lex, rest, nodes + 1, depth + 1), args, left, n)
    ensures Reads(ParseExpr(lex, text, nodes, depth), CallOf(head, args), left, n)
  {
    hide ParseArgs, ParseItems, Token, ParseAtom, SkipSpace;
  }

  lemma ArrayReads(
    lex: Lexicon, text: string, nodes: int, depth: nat, items: Result<seq<Atom>, LispError>, left: string, n: int)
    requires Opens(text, '[', nodes, depth)
    requires Reads(ParseItems(lex, SkipSpace(text)[1..], 0, nodes + 1, depth + 1), items, left, n)
    ensures Reads(ParseExpr(lex, text, nodes, depth), ArrayOf(items), left, n)
  {
    hide ParseArgs, ParseItems, Token, ParseAtom, SkipSpace;
  }

  lemma AtomReads(
    lex: Lexicon, text: string, nodes: int, depth: nat, token: Result<string, LispError>, left: string, n: int)
    requires HasRoom(nodes, depth) && SkipSpace(text) != "" && SkipSpace(text)[0] !in "()["
    requires Cuts(Token(SkipSpace(text)), token, left) && n == nodes + 1
    ensures Reads(ParseExpr(lex, text, nodes, depth), AtomOf(lex, token), left, n)
  {
    hide ParseArgs, ParseItems, Token, ParseAtom, SkipSpace;
  }

  lemma LispSteps(lex: Lexicon, src: string, params: Params)
    ensures |src| > MAX_FILTER_BYTES ==> ParseLisp(lex, src, params) == Err(TooLong)
    ensures |src| <= MAX_FILTER_BYTES ==>
      var raw := ParseExpr(lex, SkipSpace(src), 0, 0);
      ParseLisp(lex, src, params)
      == if raw.Err? then Err(raw.error)
         else if SkipSpace(raw.value.1) != "" then Err(Trailing) else BuildExpr(raw.value.0, params)
  {
    hide ParseExpr, BuildExpr, SkipSpace;
  }

  /** ParseLisp as the parser object performs it. */
  method Parse(lex: Lexicon, src: string, params: Params) returns (r: Result<Expr, LispError>)
    ensures r == ParseLisp(lex, src, params)
  {
    LispSteps(lex, src, params);
    hide ParseLisp, ParseExpr, BuildExpr, SkipSpace;
    if |src| > MAX_FILTER_BYTES {
      return Err(TooLong);
    }
    var parser := new LispParser(lex, src);
    assert parser.Left() == src;
    parser.Skip();
    var raw := parser.Parse(0);
    if raw.Err? {
      return Err(raw.error);
    }
    parser.Skip();
    assert parser.Left() == "" <==> parser.pos == |src|;
    if parser.pos != |src| {
      return Err(Trailing);
    }
    r := BuildExpr(raw.value, params);
  }
}
