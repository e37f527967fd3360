/** Exactly which texts are filters, and which ones (query/lisp.go): the lexemes of a tree within the limits. */
module LispTexts {
  import opened Common
  import opened Types
  import opened Query
  import opened Lisp

  // ---------------------------------------------------------------- lexemes and trees

  /** A bracket, or a token: a quoted text or a run without blanks and brackets. */
  datatype Lexeme = Mark(c: char) | Piece(w: string)

  /** The lexemes of a text; None where a quoted text does not close. Blanks, tabs and newlines only separate. */
  function Lex(t: string): Option<seq<Lexeme>>
    decreases |t|, 1
  {
    LexFrom(SkipSpace(t))
  }

  function LexFrom(u: string): Option<seq<Lexeme>>
    decreases |u|, 0
  {
    if u == "" then Some([])
    else if u[0] in "()[]" then Before(Mark(u[0]), Lex(u[1..]))
    else match Token(u) case Err(_) => None case Ok((w, rest)) => Before(Piece(w), Lex(rest))
  }

  function Before(l: Lexeme, ls: Option<seq<Lexeme>>): Option<seq<Lexeme>> {
    match ls case None => None case Some(s) => Some([l] + s)
  }

  /** A token, a call in parentheses with its head, or a list in brackets. */
  datatype Tree = Leaf(w: string) | Node(head: string, kids: seq<Tree>) | Listing(kids: seq<Tree>)

  function Yield(t: Tree): seq<Lexeme> {
    match t
    case Leaf(w) => [Piece(w)]
    case Node(head, kids) => [Mark('('), Piece(head)] + Yields(kids) + [Mark(')')]
    case Listing(kids) => [Mark('[')] + Yields(kids) + [Mark(']')]
  }

  function Yields(kids: seq<Tree>): seq<Lexeme> {
    if kids == [] then [] else Yield(kids[0]) + Yields(kids[1..])
  }

  /** The s-expression of a tree: each token read as an atom; a list holds at most 100 atoms and no call. */
  function Denotes(lex: Lexicon, t: Tree): Option<Sexp> {
    match t
    case Leaf(w) => Some(Atomic(ParseAtom(lex, w)))
    case Node(head, kids) =>
      (match DenoteAll(lex, kids) case None => None case Some(args) => Some(Call(head, args)))
    case Listing(kids) =>
      if |kids| > 100 then None
      else match DenoteAtoms(lex, kids) case None => None case Some(items) => Some(Atomic(Items(items)))
  }

  function DenoteAll(lex: Lexicon, kids: seq<Tree>): Option<seq<Sexp>> {
    if kids == [] then Some([])
    else
      var first, rest := Denotes(lex, kids[0]), DenoteAll(lex, kids[1..]);
      if first.Some? && rest.Some? then Some([first.value] + rest.value) else None
  }

  function DenoteAtoms(lex: Lexicon, kids: seq<Tree>): Option<seq<Atom>> {
    if kids == [] then Some([])
    else
      var first, rest := Denotes(lex, kids[0]), DenoteAtoms(lex, kids[1..]);
      if first.Some? && first.value.Atomic? && rest.Some? then Some([first.value.atom] + rest.value) else None
  }

  function Nodes(t: Tree): (n: nat)
    ensures n >= 1
  {
    if t.Leaf? then 1 else 1 + NodesOf(t.kids)
  }

  function NodesOf(kids: seq<Tree>): nat {
    if kids == [] then 0 else Nodes(kids[0]) + NodesOf(kids[1..])
  }

  function Levels(t: Tree): nat {
    if t.Leaf? then 0 else LevelsOf(t.kids)
  }

  function LevelsOf(kids: seq<Tree>): nat {
    if kids == [] then 0
    else
      var d, rest := 1 + Levels(kids[0]), LevelsOf(kids[1..]);
      if d > rest then d else rest
  }

  // ---------------------------------------------------------------- reading lexemes off a text

  /** The text begins with these lexemes, and the rest follows. */
  predicate Begins(t: string, ls: seq<Lexeme>, rest: string) {
    Lex(t) == match Lex(rest) case None => None case Some(ms) => Some(ls + ms)
  }

  lemma {:induction false} SkipTwice(t: string)
    ensures SkipSpace(SkipSpace(t)) == SkipSpace(t)
  {
  }

  lemma TokenSkips(t: string)
    ensures Token(SkipSpace(t)) == Token(t)
  {
    SkipTwice(t);
    hide CutQuoted, CutPlain, SkipSpace;
  }

  lemma LexSkips(t: string)
    ensures Lex(SkipSpace(t)) == Lex(t)
    ensures Token(SkipSpace(t)) == Token(t)
  {
    SkipTwice(t);
    TokenSkips(t);
    hide Token, SkipSpace, LexFrom;
  }

  /** Blanks, tabs and newlines in front make no difference. */
  lemma BlankIsSkipped(c: char, t: string)
    requires c == ' ' || c == '\t' || c == '\n'
    ensures Lex([c] + t) == Lex(t)
  {
    assert ([c] + t)[1..] == t;
    hide LexFrom;
  }

  lemma LexMark(t: string)
    requires SkipSpace(t) != "" && SkipSpace(t)[0] in "()[]"
    ensures Begins(t, [Mark(SkipSpace(t)[0])], SkipSpace(t)[1..])
  {
  }

  lemma LexToken(t: string)
    requires Token(t).Ok?
    ensures SkipSpace(t) != "" && SkipSpace(t)[0] !in "()[]"
    ensures Begins(t, [Piece(Token(t).value.0)], Token(t).value.1)
  {
    LexSkips(t);
    SkipTwice(t);
    hide QuotedLength;
  }

  lemma BeginsTrans(a: string, x: seq<Lexeme>, b: string, y: seq<Lexeme>, c: string)
    requires Begins(a, x, b) && Begins(b, y, c)
    ensures Begins(a, x + y, c)
  {
    hide Lex;
    if Lex(c).Some? { assert x + (y + Lex(c).value) == x + y + Lex(c).value; }
  }

  lemma BeginsHere(t: string)
    ensures Begins(t, [], t) && Begins(SkipSpace(t), [], t) && Begins(t, [], SkipSpace(t))
  {
    LexSkips(t);
    hide Lex;
    if Lex(t).Some? { assert [] + Lex(t).value == Lex(t).value; }
  }

  // ---------------------------------------------------------------- what parses is the text of a tree

  /** The tree read off the text: what it denotes, its lexemes in front of the rest, and what it costs. */
  ghost predicate TreeOf(lex: Lexicon, text: string, t: Tree, s: Sexp, rest: string, nodes: int, depth: nat, n: int) {
    && Denotes(lex, t) == Some(s) && Begins(text, Yield(t), rest)
    && n == nodes + Nodes(t) <= 256 && depth + Levels(t) <= 12
  }

  /** The shapes of a successful parse. */
  lemma ParsedShapes(lex: Lexicon, text: string, nodes: int, depth: nat)
    requires ParseExpr(lex, text, nodes, depth).Ok?
    ensures nodes + 1 <= 256 && depth <= 12 && SkipSpace(text) != "" && SkipSpace(text)[0] != ')'
    ensures
      var t := SkipSpace(text);
      var r := ParseExpr(lex, text, nodes, depth).value;
      if t[0] == '(' then
        && Token(t[1..]).Ok?
        && var args := ParseArgs(lex, Token(t[1..]).value.1, nodes + 1, depth + 1);
           args.Ok? && r == (Call(Token(t[1..]).value.0, args.value.0), args.value.1, args.value.2)
      else if t[0] == '[' then
        && var items := ParseItems(lex, t[1..], 0, nodes + 1, depth + 1);
           items.Ok? && r == (Atomic(Items(items.value.0)), items.value.1, items.value.2)
      else
        Token(text).Ok? && r == (Atomic(ParseAtom(lex, Token(text).value.0)), Token(text).value.1, nodes + 1)
  {
    LexSkips(text);
    hide Token, ParseArgs, ParseItems, SkipSpace, ParseAtom, Lex;
  }

  lemma {:induction false} ParsedTree(lex: Lexicon, text: string, nodes: int, depth: nat) returns (t: Tree)
    requires ParseExpr(lex, text, nodes, depth).Ok?
    ensures
      var (s, rest, n) := ParseExpr(lex, text, nodes, depth).value;
      TreeOf(lex, text, t, s, rest, nodes, depth, n)
    decreases |text|, 1
  {
    hide *;
    var u := SkipSpace(text);
    ParsedShapes(lex, text, nodes, depth);
    var (s, rest, n) := ParseExpr(lex, text, nodes, depth).value;
    if u[0] == '(' {
      var (head, after) := Token(u[1..]).value;
      var kids := ParsedKids(lex, after, nodes + 1, depth + 1);
      t := Node(head, kids);
      CallTree(lex, text, kids, nodes, depth);
    } else if u[0] == '[' {
      var kids := ParsedAtoms(lex, u[1..], 0, nodes + 1, depth + 1);
      t := Listing(kids);
      ListTree(lex, text, kids, nodes, depth);
    } else {
      t := Leaf(Token(text).value.0);
      LeafTree(lex, text, nodes, depth);
    }
  }

  /** The kids of a call up to its closing parenthesis. */
  ghost predicate KidsOf(
    lex: Lexicon, text: string, kids: seq<Tree>, args: seq<Sexp>, rest: string, nodes: int, depth: nat, n: int)
  {
    && DenoteAll(lex, kids) == Some(args) && Begins(text, Yields(kids) + [Mark(')')], rest)
    && n == nodes + NodesOf(kids) <= 256 && depth - 1 + LevelsOf(kids) <= 12
  }

  lemma {:induction false} ParsedKids(lex: Lexicon, text: string, nodes: int, depth: nat) returns (kids: seq<Tree>)
    requires ParseArgs(lex, text, nodes, depth).Ok? && nodes <= 256 && 0 < depth <= 13
    ensures
      var (args, rest, n) := ParseArgs(lex, text, nodes, depth).value;
      KidsOf(lex, text, kids, args, rest, nodes, depth, n)
    decreases |text|, 2
  {
    hide *;
    ArgsShapes(lex, text, nodes, depth);
    var u := SkipSpace(text);
    if u[0] == ')' {
      kids := [];
      NoKids(lex, text, nodes, depth);
    } else {
      var first := ParsedTree(lex, u, nodes, depth);
      var (arg, left, n) := ParseExpr(lex, u, nodes, depth).value;
      NodesFit(lex, u, first, arg, left, nodes, depth, n);
      var more := ParsedKids(lex, left, n, depth);
      kids := [first] + more;
      MoreKids(lex, text, first, more, nodes, depth);
    }
  }

  ghost predicate AtomsOf(
    lex: Lexicon, text: string, kids: seq<Tree>, items: seq<Atom>, rest: string, count: nat, nodes: int, depth: nat,
    n: int)
  {
    && DenoteAtoms(lex, kids) == Some(items) && Begins(text, Yields(kids) + [Mark(']')], rest)
    && n == nodes + NodesOf(kids) <= 256 && depth - 1 + LevelsOf(kids) <= 12 && count + |kids| <= 100
  }

  lemma {:induction false} ParsedAtoms(lex: Lexicon, text: string, count: nat, nodes: int, depth: nat)
    returns (kids: seq<Tree>)
    requires ParseItems(lex, text, count, nodes, depth).Ok? && nodes <= 256 && 0 < depth <= 13 && count <= 100
    ensures
      var (items, rest, n) := ParseItems(lex, text, count, nodes, depth).value;
      AtomsOf(lex, text, kids, items, rest, count, nodes, depth, n)
    decreases |text|, 2
  {
    hide *;
    ItemsShapes(lex, text, count, nodes, depth);
    var u := SkipSpace(text);
    if u[0] == ']' {
      kids := [];
      NoAtoms(lex, text, count, nodes, depth);
    } else {
      var first := ParsedTree(lex, u, nodes, depth);
      var (item, left, n) := ParseExpr(lex, u, nodes, depth).value;
      NodesFit(lex, u, first, item, left, nodes, depth, n);
      var more := ParsedAtoms(lex, left, count + 1, n, depth);
      kids := [first] + more;
      MoreAtoms(lex, text, first, more, count, nodes, depth);
    }
  }

  lemma NodesFit(lex: Lexicon, text: string, t: Tree, s: Sexp, rest: string, nodes: int, depth: nat, n: int)
    requires TreeOf(lex, text, t, s, rest, nodes, depth, n)
    ensures n <= 256
  {
    hide Denotes, Begins, Yield, Levels;
  }

  lemma ArgsShapes(lex: Lexicon, text: string, nodes: int, depth: nat)
    requires ParseArgs(lex, text, nodes, depth).Ok?
    ensures
      var (u, r) := (SkipSpace(text), ParseArgs(lex, text, nodes, depth).value);
      && u != "" && |u| <= |text|
      && (u[0] == ')' ==> r == ([], u[1..], nodes))
      && (u[0] != ')' ==>
            && ParseExpr(lex, u, nodes, depth).Ok?
            && var (arg, left, n) := ParseExpr(lex, u, nodes, depth).value;
               |left| < |u| && ParseArgs(lex, left, n, depth).Ok?
               && var (args, rest, m) := ParseArgs(lex, left, n, depth).value;
                  r == ([arg] + args, rest, m))
  {
    hide ParseExpr;
  }

  lemma ItemsShapes(lex: Lexicon, text: string, count: nat, nodes: int, depth: nat)
    requires ParseItems(lex, text, count, nodes, depth).Ok?
    ensures
      var (u, r) := (SkipSpace(text), ParseItems(lex, text, count, nodes, depth).value);
      && u != "" && |u| <= |text|
      && (u[0] == ']' ==> r == ([], u[1..], nodes))
      && (u[0] != ']' ==>
            && count < 100 && ParseExpr(lex, u, nodes, depth).Ok?
            && var (item, left, n) := ParseExpr(lex, u, nodes, depth).value;
               item.Atomic? && |left| < |u| && ParseItems(lex, left, count + 1, n, depth).Ok?
               && var (items, rest, m) := ParseItems(lex, left, count + 1, n, depth).value;
                  r == ([item.atom] + items, rest, m))
  {
    hide ParseExpr;
  }

  lemma NodeIs(lex: Lexicon, head: string, kids: seq<Tree>)
    ensures Yield(Node(head, kids)) == [Mark('(')] + [Piece(head)] + (Yields(kids) + [Mark(')')])
    ensures Nodes(Node(head, kids)) == 1 + NodesOf(kids) && Levels(Node(head, kids)) == LevelsOf(kids)
    ensures Denotes(lex, Node(head, kids))
      == if DenoteAll(lex, kids).Some? then Some(Call(head, DenoteAll(lex, kids).value)) else None
  {
  }

  lemma ListingIs(lex: Lexicon, kids: seq<Tree>)
    ensures Yield(Listing(kids)) == [Mark('[')] + (Yields(kids) + [Mark(']')])
    ensures Nodes(Listing(kids)) == 1 + NodesOf(kids) && Levels(Listing(kids)) == LevelsOf(kids)
    ensures |kids| <= 100 ==>
      Denotes(lex, Listing(kids))
      == if DenoteAtoms(lex, kids).Some? then Some(Atomic(Items(DenoteAtoms(lex, kids).value))) else None
  {
  }

  lemma NothingBelow(lex: Lexicon)
    ensures Yields([]) + [Mark(')')] == [Mark(')')] && Yields([]) + [Mark(']')] == [Mark(']')]
    ensures NodesOf([]) == 0 && LevelsOf([]) == 0 && DenoteAll(lex, []) == Some([]) && DenoteAtoms(lex, []) == Some([])
  {
  }

  lemma IsTree(lex: Lexicon, text: string, t: Tree, s: Sexp, rest: string, nodes: int, depth: nat, n: int)
    requires Denotes(lex, t) == Some(s) && Begins(text, Yield(t), rest)
    requires n == nodes + Nodes(t) <= 256 && depth + Levels(t) <= 12
    ensures TreeOf(lex, text, t, s, rest, nodes, depth, n)
  {
  }

  lemma AreKids(
    lex: Lexicon, text: string, kids: seq<Tree>, args: seq<Sexp>, rest: string, nodes: int, depth: nat, n: int)
    requires DenoteAll(lex, kids) == Some(args) && Begins(text, Yields(kids) + [Mark(')')], rest)
    requires n == nodes + NodesOf(kids) <= 256 && depth - 1 + LevelsOf(kids) <= 12
    ensures KidsOf(lex, text, kids, args, rest, nodes, depth, n)
  {
  }

  lemma KidsAre(
    lex: Lexicon, text: string, kids: seq<Tree>, args: seq<Sexp>, rest: string, nodes: int, depth: nat, n: int)
    requires KidsOf(lex, text, kids, args, rest, nodes, depth, n)
    ensures DenoteAll(lex, kids) == Some(args) && Begins(text, Yields(kids) + [Mark(')')], rest)
    ensures n == nodes + NodesOf(kids) <= 256 && depth - 1 + LevelsOf(kids) <= 12
  {
  }

  lemma AreAtoms(
    lex: Lexicon, text: string, kids: seq<Tree>, items: seq<Atom>, rest: string, count: nat, nodes: int, depth: nat,
    n: int)
    requires DenoteAtoms(lex, kids) == Some(items) && Begins(text, Yields(kids) + [Mark(']')], rest)
    requires n == nodes + NodesOf(kids) <= 256 && depth - 1 + LevelsOf(kids) <= 12 && count + |kids| <= 100
    ensures AtomsOf(lex, text, kids, items, rest, count, nodes, depth, n)
  {
  }

  lemma AtomsAre(
    lex: Lexicon, text: string, kids: seq<Tree>, items: seq<Atom>, rest: string, count: nat, nodes: int, depth: nat,
    n: int)
    requires AtomsOf(lex, text, kids, items, rest, count, nodes, depth, n)
    ensures DenoteAtoms(lex, kids) == Some(items) && Begins(text, Yields(kids) + [Mark(']')], rest)
    ensures n == nodes + NodesOf(kids) <= 256 && depth - 1 + LevelsOf(kids) <= 12 && count + |kids| <= 100
  {
  }

  lemma LeafTree(lex: Lexicon, text: string, nodes: int, depth: nat)
    requires Token(text).Ok? && nodes + 1 <= 256 && depth <= 12
    ensures
      var (w, rest) := Token(text).value;
      TreeOf(lex, text, Leaf(w), Atomic(ParseAtom(lex, w)), rest, nodes, depth, nodes + 1)
  {
    LexToken(text);
    hide Begins, Token, ParseAtom;
  }

  lemma CallTree(lex: Lexicon, text: string, kids: seq<Tree>, nodes: int, depth: nat)
    requires SkipSpace(text) != "" && SkipSpace(text)[0] == '(' && Token(SkipSpace(text)[1..]).Ok?
    requires ParseArgs(lex, Token(SkipSpace(text)[1..]).value.1, nodes + 1, depth + 1).Ok? && depth <= 12
    requires
      var after := Token(SkipSpace(text)[1..]).value.1;
      var (args, rest, n) := ParseArgs(lex, after, nodes + 1, depth + 1).value;
      KidsOf(lex, after, kids, args, rest, nodes + 1, depth + 1, n)
    ensures
      var (head, after) := Token(SkipSpace(text)[1..]).value;
      var (args, rest, n) := ParseArgs(lex, after, nodes + 1, depth + 1).value;
      TreeOf(lex, text, Node(head, kids), Call(head, args), rest, nodes, depth, n)
  {
    hide *;
    var u := SkipSpace(text);
    var (head, after) := Token(u[1..]).value;
    var (args, rest, n) := ParseArgs(lex, after, nodes + 1, depth + 1).value;
    LexMark(text);
    LexToken(u[1..]);
    KidsAre(lex, after, kids, args, rest, nodes + 1, depth + 1, n);
    NodeIs(lex, head, kids);
    BeginsTrans(text, [Mark('(')], u[1..], [Piece(head)], after);
    BeginsTrans(text, [Mark('(')] + [Piece(head)], after, Yields(kids) + [Mark(')')], rest);
    IsTree(lex, text, Node(head, kids), Call(head, args), rest, nodes, depth, n);
  }

  lemma ListTree(lex: Lexicon, text: string, kids: seq<Tree>, nodes: int, depth: nat)
    requires SkipSpace(text) != "" && SkipSpace(text)[0] == '['
    requires ParseItems(lex, SkipSpace(text)[1..], 0, nodes + 1, depth + 1).Ok? && depth <= 12
    requires
      var (items, rest, n) := ParseItems(lex, SkipSpace(text)[1..], 0, nodes + 1, depth + 1).value;
      AtomsOf(lex, SkipSpace(text)[1..], kids, items, rest, 0, nodes + 1, depth + 1, n)
    ensures
      var (items, rest, n) := ParseItems(lex, SkipSpace(text)[1..], 0, nodes + 1, depth + 1).value;
      TreeOf(lex, text, Listing(kids), Atomic(Items(items)), rest, nodes, depth, n)
  {
    hide *;
    var u := SkipSpace(text);
    var (items, rest, n) := ParseItems(lex, u[1..], 0, nodes + 1, depth + 1).value;
    LexMark(text);
    AtomsAre(lex, u[1..], kids, items, rest, 0, nodes + 1, depth + 1, n);
    ListingIs(lex, kids);
    BeginsTrans(text, [Mark('[')], u[1..], Yields(kids) + [Mark(']')], rest);
    IsTree(lex, text, Listing(kids), Atomic(Items(items)), rest, nodes, depth, n);
  }

  lemma NoKids(lex: Lexicon, text: string, nodes: int, depth: nat)
    requires SkipSpace(text) != "" && SkipSpace(text)[0] == ')' && nodes <= 256 && 0 < depth <= 13
    ensures KidsOf(lex, text, [], [], SkipSpace(text)[1..], nodes, depth, nodes)
  {
    hide *;
    LexMark(text);
    NothingBelow(lex);
    AreKids(lex, text, [], [], SkipSpace(text)[1..], nodes, depth, nodes);
  }

  lemma NoAtoms(lex: Lexicon, text: string, count: nat, nodes: int, depth: nat)
    requires SkipSpace(text) != "" && SkipSpace(text)[0] == ']' && nodes <= 256 && 0 < depth <= 13 && count <= 100
    ensures AtomsOf(lex, text, [], [], SkipSpace(text)[1..], count, nodes, depth, nodes)
  {
    hide *;
    LexMark(text);
    NothingBelow(lex);
    AreAtoms(lex, text, [], [], SkipSpace(text)[1..], count, nodes, depth, nodes);
  }

  lemma KidsCons(first: Tree, more: seq<Tree>)
    ensures ([first] + more)[0] == first && ([first] + more)[1..] == more
    ensures NodesOf([first] + more) == Nodes(first) + NodesOf(more)
    ensures LevelsOf([first] + more) == LevelsOf(more) || LevelsOf([first] + more) == 1 + Levels(first)
    ensures LevelsOf([first] + more) >= LevelsOf(more) && LevelsOf([first] + more) >= 1 + Levels(first)
    ensures Yields([first] + more) == Yield(first) + Yields(more)
  {
  }

  /** The lexemes of one tree, then of more and a bracket. */
  lemma BeginsCons(text: string, first: Tree, left: string, more: seq<Tree>, c: char, rest: string)
    requires Begins(SkipSpace(text), Yield(first), left) && Begins(left, Yields(more) + [Mark(c)], rest)
    ensures Begins(text, Yields([first] + more) + [Mark(c)], rest)
  {
    BeginsHere(text);
    KidsCons(first, more);
    hide *;
    BeginsTrans(text, [], SkipSpace(text), Yield(first), left);
    BeginsTrans(text, [] + Yield(first), left, Yields(more) + [Mark(c)], rest);
    assert [] + Yield(first) + (Yields(more) + [Mark(c)]) == Yields([first] + more) + [Mark(c)];
  }

  lemma MoreKids(lex: Lexicon, text: string, first: Tree, more: seq<Tree>, nodes: int, depth: nat)
    requires ParseExpr(lex, SkipSpace(text), nodes, depth).Ok? && depth > 0
    requires
      var (arg, left, n) := ParseExpr(lex, SkipSpace(text), nodes, depth).value;
      && TreeOf(lex, SkipSpace(text), first, arg, left, nodes, depth, n) && ParseArgs(lex, left, n, depth).Ok?
      && var (args, rest, m) := ParseArgs(lex, left, n, depth).value;
         KidsOf(lex, left, more, args, rest, n, depth, m)
    ensures
      var (arg, left, n) := ParseExpr(lex, SkipSpace(text), nodes, depth).value;
      var (args, rest, m) := ParseArgs(lex, left, n, depth).value;
      KidsOf(lex, text, [first] + more, [arg] + args, rest, nodes, depth, m)
  {
    var (arg, left, n) := ParseExpr(lex, SkipSpace(text), nodes, depth).value;
    var (args, rest, m) := ParseArgs(lex, left, n, depth).value;
    KidsCons(first, more);
    hide Begins, ParseExpr, ParseArgs, SkipSpace, Yield, Yields, Nodes, NodesOf, Levels, LevelsOf, Denotes;
    BeginsCons(text, first, left, more, ')', rest);
  }

  lemma MoreAtoms(lex: Lexicon, text: string, first: Tree, more: seq<Tree>, count: nat, nodes: int, depth: nat)
    requires ParseExpr(lex, SkipSpace(text), nodes, depth).Ok? && depth > 0
    requires
      var (item, left, n) := ParseExpr(lex, SkipSpace(text), nodes, depth).value;
      && item.Atomic? && TreeOf(lex, SkipSpace(text), first, item, left, nodes, depth, n)
      && ParseItems(lex, left, count + 1, n, depth).Ok?
      && var (items, rest, m) := ParseItems(lex, left, count + 1, n, depth).value;
         AtomsOf(lex, left, more, items, rest, count + 1, n, depth, m)
    ensures
      var (item, left, n) := ParseExpr(lex, SkipSpace(text), nodes, depth).value;
      var (items, rest, m) := ParseItems(lex, left, count + 1, n, depth).value;
      AtomsOf(lex, text, [first] + more, [item.atom] + items, rest, count, nodes, depth, m)
  {
    var (item, left, n) := ParseExpr(lex, SkipSpace(text), nodes, depth).value;
    var (items, rest, m) := ParseItems(lex, left, count + 1, n, depth).value;
    KidsCons(first, more);
    hide Begins, ParseExpr, ParseItems, SkipSpace, Yield, Yields, Nodes, NodesOf, Levels, LevelsOf, Denotes;
    BeginsCons(text, first, left, more, ']', rest);
  }

  // ---------------------------------------------------------------- the text of a tree parses

  lemma LexStarts(t: string, ls: seq<Lexeme>)
    requires Lex(t) == Some(ls) && ls != []
    ensures SkipSpace(t) != ""
    ensures ls[0].Mark? ==>
      SkipSpace(t)[0] == ls[0].c && ls[0].c in "()[]" && Lex(SkipSpace(t)[1..]) == Some(ls[1..])
    ensures ls[0].Piece? ==>
      && SkipSpace(t)[0] !in "()[]" && Token(t).Ok? && Token(t).value.0 == ls[0].w
      && Lex(Token(t).value.1) == Some(ls[1..])
  {
    LexSkips(t);
    var u := SkipSpace(t);
    hide Token, SkipSpace;
    if u[0] in "()[]" {
      assert ls == [Mark(u[0])] + Lex(u[1..]).value;
    } else {
      assert ls == [Piece(Token(u).value.0)] + Lex(Token(u).value.1).value;
    }
  }

  lemma YieldStarts(t: Tree)
    ensures Yield(t) != [] && Yield(t)[0] != Mark(')') && Yield(t)[0] != Mark(']')
  {
  }

  /** What the parser makes of a text: the s-expression, how many nodes, and the lexemes that are left. */
  ghost predicate Parses(r: Parsed<Sexp>, s: Sexp, n: int, tail: seq<Lexeme>) {
    r.Ok? && r.value.0 == s && r.value.2 == n && Lex(r.value.1) == Some(tail)
  }

  lemma {:induction false} TreeParses(
    lex: Lexicon, text: string, t: Tree, s: Sexp, tail: seq<Lexeme>, nodes: int, depth: nat)
    requires Lex(text) == Some(Yield(t) + tail) && Denotes(lex, t) == Some(s)
    requires nodes + Nodes(t) <= 256 && depth + Levels(t) <= 12
    ensures Parses(ParseExpr(lex, text, nodes, depth), s, nodes + Nodes(t), tail)
    decreases t, 1
  {
    hide *;
    YieldStarts(t);
    assert (Yield(t) + tail)[0] == Yield(t)[0];
    LexStarts(text, Yield(t) + tail);
    var u := SkipSpace(text);
    match t
    case Leaf(w) => LeafParses(lex, text, w, tail, nodes, depth);
    case Node(head, kids) =>
      NodeIs(lex, head, kids);
      var after := NodeOpens(text, head, kids, tail);
      KidsParse(lex, after, kids, DenoteAll(lex, kids).value, tail, nodes + 1, depth + 1);
      NodeParses(lex, text, head, kids, tail, nodes, depth);
    case Listing(kids) =>
      ListingDenotes(lex, kids);
      ListingIs(lex, kids);
      ListingOpens(text, kids, tail);
      AtomsParse(lex, u[1..], kids, DenoteAtoms(lex, kids).value, tail, 0, nodes + 1, depth + 1);
      ListingParses(lex, text, kids, tail, nodes, depth);
  }

  lemma ListingDenotes(lex: Lexicon, kids: seq<Tree>)
    requires Denotes(lex, Listing(kids)).Some?
    ensures |kids| <= 100 && DenoteAtoms(lex, kids).Some?
  {
  }

  lemma LeafParses(lex: Lexicon, text: string, w: string, tail: seq<Lexeme>, nodes: int, depth: nat)
    requires Lex(text) == Some(Yield(Leaf(w)) + tail) && nodes + 1 <= 256 && depth <= 12
    ensures Parses(ParseExpr(lex, text, nodes, depth), Atomic(ParseAtom(lex, w)), nodes + 1, tail)
    ensures Denotes(lex, Leaf(w)) == Some(Atomic(ParseAtom(lex, w))) && Nodes(Leaf(w)) == 1
  {
    LeafIs(lex, w);
    hide *;
    var ls := Yield(Leaf(w)) + tail;
    assert ls[0] == Piece(w) && ls[1..] == tail;
    LexStarts(text, ls);
    TokenParses(lex, text, nodes, depth);
    AreParses(ParseExpr(lex, text, nodes, depth), Atomic(ParseAtom(lex, w)), nodes + 1, tail);
  }

  lemma LeafIs(lex: Lexicon, w: string)
    ensures Yield(Leaf(w)) == [Piece(w)] && Nodes(Leaf(w)) == 1
    ensures Denotes(lex, Leaf(w)) == Some(Atomic(ParseAtom(lex, w)))
  {
  }

  lemma AreParses(r: Parsed<Sexp>, s: Sexp, n: int, tail: seq<Lexeme>)
    requires r.Ok? && r.value.0 == s && r.value.2 == n && Lex(r.value.1) == Some(tail)
    ensures Parses(r, s, n, tail)
  {
  }

  lemma TokenParses(lex: Lexicon, text: string, nodes: int, depth: nat)
    requires SkipSpace(text) != "" && SkipSpace(text)[0] !in "()[]" && Token(text).Ok?
    requires nodes + 1 <= 256 && depth <= 12
    ensures ParseExpr(lex, text, nodes, depth)
      == Ok((Atomic(ParseAtom(lex, Token(text).value.0)), Token(text).value.1, nodes + 1))
  {
    LexSkips(text);
    hide Token, SkipSpace, ParseAtom, ParseArgs, ParseItems, Lex;
  }

  /** After the parenthesis and the head come the lexemes of the kids. */
  lemma NodeOpens(text: string, head: string, kids: seq<Tree>, tail: seq<Lexeme>) returns (after: string)
    requires Lex(text) == Some(Yield(Node(head, kids)) + tail)
    ensures SkipSpace(text) != "" && SkipSpace(text)[0] == '('
    ensures Token(SkipSpace(text)[1..]) == Ok((head, after)) && Lex(after) == Some(Yields(kids) + [Mark(')')] + tail)
  {
    hide Lex, Token, SkipSpace;
    var more := Yields(kids) + [Mark(')')] + tail;
    NodeLexemes(head, kids, tail);
    LexStarts(text, [Mark('('), Piece(head)] + more);
    assert ([Mark('('), Piece(head)] + more)[1..] == [Piece(head)] + more;
    LexStarts(SkipSpace(text)[1..], [Piece(head)] + more);
    assert ([Piece(head)] + more)[1..] == more;
    after := Token(SkipSpace(text)[1..]).value.1;
  }

  lemma NodeLexemes(head: string, kids: seq<Tree>, tail: seq<Lexeme>)
    ensures Yield(Node(head, kids)) + tail == [Mark('('), Piece(head)] + (Yields(kids) + [Mark(')')] + tail)
  {
    hide Yields;
  }

  lemma ListingLexemes(kids: seq<Tree>, tail: seq<Lexeme>)
    ensures Yield(Listing(kids)) + tail == [Mark('[')] + (Yields(kids) + [Mark(']')] + tail)
  {
    hide Yields;
  }

  lemma ListingOpens(text: string, kids: seq<Tree>, tail: seq<Lexeme>)
    requires Lex(text) == Some(Yield(Listing(kids)) + tail)
    ensures SkipSpace(text) != "" && SkipSpace(text)[0] == '['
    ensures Lex(SkipSpace(text)[1..]) == Some(Yields(kids) + [Mark(']')] + tail)
  {
    hide Lex, Token, SkipSpace;
    var more := Yields(kids) + [Mark(']')] + tail;
    ListingLexemes(kids, tail);
    LexStarts(text, [Mark('[')] + more);
    assert ([Mark('[')] + more)[1..] == more;
  }

  lemma NodeParses(
    lex: Lexicon, text: string, head: string, kids: seq<Tree>, tail: seq<Lexeme>, nodes: int, depth: nat)
    requires SkipSpace(text) != "" && SkipSpace(text)[0] == '(' && Token(SkipSpace(text)[1..]).Ok?
    requires Token(SkipSpace(text)[1..]).value.0 == head && nodes + 1 <= 256 && depth <= 12
    requires DenoteAll(lex, kids).Some?
    requires
      var args := ParseArgs(lex, Token(SkipSpace(text)[1..]).value.1, nodes + 1, depth + 1);
      && args.Ok? && args.value.0 == DenoteAll(lex, kids).value && args.value.2 == nodes + 1 + NodesOf(kids)
      && Lex(args.value.1) == Some(tail)
    ensures Parses(ParseExpr(lex, text, nodes, depth), Call(head, DenoteAll(lex, kids).value),
      nodes + 1 + NodesOf(kids), tail)
  {
    hide Lex, Token, SkipSpace, ParseArgs, DenoteAll, NodesOf;
  }

  lemma ListingParses(lex: Lexicon, text: string, kids: seq<Tree>, tail: seq<Lexeme>, nodes: int, depth: nat)
    requires SkipSpace(text) != "" && SkipSpace(text)[0] == '[' && nodes + 1 <= 256 && depth <= 12
    requires DenoteAtoms(lex, kids).Some?
    requires
      var items := ParseItems(lex, SkipSpace(text)[1..], 0, nodes + 1, depth + 1);
      && items.Ok? && items.value.0 == DenoteAtoms(lex, kids).value && items.value.2 == nodes + 1 + NodesOf(kids)
      && Lex(items.value.1) == Some(tail)
    ensures
      var s := Atomic(Items(DenoteAtoms(lex, kids).value));
      Parses(ParseExpr(lex, text, nodes, depth), s, nodes + 1 + NodesOf(kids), tail)
  {
    hide Lex, Token, SkipSpace, ParseItems, DenoteAtoms, NodesOf;
  }

  lemma {:induction false} KidsParse(
    lex: Lexicon, text: string, kids: seq<Tree>, args: seq<Sexp>, tail: seq<Lexeme>, nodes: int, depth: nat)
    requires Lex(text) == Some(Yields(kids) + [Mark(')')] + tail) && DenoteAll(lex, kids) == Some(args)
    requires nodes + NodesOf(kids) <= 256 && depth > 0 && depth - 1 + LevelsOf(kids) <= 12
    ensures
      var r := ParseArgs(lex, text, nodes, depth);
      r.Ok? && r.value.0 == args && r.value.2 == nodes + NodesOf(kids) && Lex(r.value.1) == Some(tail)
    decreases kids, 0
  {
    hide *;
    var ls := Yields(kids) + [Mark(')')] + tail;
    if kids == [] {
      NothingBelow(lex);
      assert ls == [Mark(')')] + tail && ls[1..] == tail && ls[0] == Mark(')');
      LexStarts(text, ls);
      ArgsEnd(lex, text, nodes, depth);
    } else {
      KidsUnfold(lex, kids);
      var more := Yields(kids[1..]) + [Mark(')')] + tail;
      assert ls == Yield(kids[0]) + more;
      LexSkips(text);
      TreeParses(lex, SkipSpace(text), kids[0], Denotes(lex, kids[0]).value, more, nodes, depth);
      YieldStarts(kids[0]);
      LexStarts(text, ls);
      var left := ParsesLeaves(lex, SkipSpace(text), Denotes(lex, kids[0]).value, nodes + Nodes(kids[0]), more, nodes,
        depth);
      KidsParse(lex, left, kids[1..], DenoteAll(lex, kids[1..]).value, tail, nodes + Nodes(kids[0]), depth);
      ArgsGoOn(lex, text, nodes, depth);
    }
  }

  lemma ParsesLeaves(lex: Lexicon, text: string, s: Sexp, n: int, tail: seq<Lexeme>, nodes: int, depth: nat)
    returns (left: string)
    requires Parses(ParseExpr(lex, text, nodes, depth), s, n, tail)
    ensures ParseExpr(lex, text, nodes, depth) == Ok((s, left, n)) && Lex(left) == Some(tail)
  {
    left := ParseExpr(lex, text, nodes, depth).value.1;
  }

  lemma KidsUnfold(lex: Lexicon, kids: seq<Tree>)
    requires kids != []
    ensures Yields(kids) == Yield(kids[0]) + Yields(kids[1..])
    ensures NodesOf(kids) == Nodes(kids[0]) + NodesOf(kids[1..])
    ensures 1 + Levels(kids[0]) <= LevelsOf(kids) && LevelsOf(kids[1..]) <= LevelsOf(kids)
    ensures DenoteAll(lex, kids).Some? ==>
      && Denotes(lex, kids[0]).Some? && DenoteAll(lex, kids[1..]).Some?
      && DenoteAll(lex, kids).value == [Denotes(lex, kids[0]).value] + DenoteAll(lex, kids[1..]).value
    ensures DenoteAtoms(lex, kids).Some? ==>
      && Denotes(lex, kids[0]).Some? && Denotes(lex, kids[0]).value.Atomic? && DenoteAtoms(lex, kids[1..]).Some?
      && DenoteAtoms(lex, kids).value == [Denotes(lex, kids[0]).value.atom] + DenoteAtoms(lex, kids[1..]).value
  {
    hide Denotes, Yield;
  }

  lemma ArgsEnd(lex: Lexicon, text: string, nodes: int, depth: nat)
    requires SkipSpace(text) != "" && SkipSpace(text)[0] == ')'
    ensures ParseArgs(lex, text, nodes, depth) == Ok(([], SkipSpace(text)[1..], nodes))
  {
    hide ParseExpr;
  }

  lemma ArgsGoOn(lex: Lexicon, text: string, nodes: int, depth: nat)
    requires SkipSpace(text) != "" && SkipSpace(text)[0] != ')' && ParseExpr(lex, SkipSpace(text), nodes, depth).Ok?
    requires
      var (arg, left, n) := ParseExpr(lex, SkipSpace(text), nodes, depth).value;
      ParseArgs(lex, left, n, depth).Ok?
    ensures
      var (arg, left, n) := ParseExpr(lex, SkipSpace(text), nodes, depth).value;
      var (args, rest, m) := ParseArgs(lex, left, n, depth).value;
      ParseArgs(lex, text, nodes, depth) == Ok(([arg] + args, rest, m))
  {
    hide ParseExpr;
  }

  lemma ItemsEnd(lex: Lexicon, text: string, count: nat, nodes: int, depth: nat)
    requires SkipSpace(text) != "" && SkipSpace(text)[0] == ']'
    ensures ParseItems(lex, text, count, nodes, depth) == Ok(([], SkipSpace(text)[1..], nodes))
  {
    hide ParseExpr;
  }

  lemma ItemsGoOn(lex: Lexicon, text: string, count: nat, nodes: int, depth: nat)
    requires SkipSpace(text) != "" && SkipSpace(text)[0] != ']' && ParseExpr(lex, SkipSpace(text), nodes, depth).Ok?
    requires count < 100 && ParseExpr(lex, SkipSpace(text), nodes, depth).value.0.Atomic?
    requires
      var (item, left, n) := ParseExpr(lex, SkipSpace(text), nodes, depth).value;
      ParseItems(lex, left, count + 1, n, depth).Ok?
    ensures
      var (item, left, n) := ParseExpr(lex, SkipSpace(text), nodes, depth).value;
      var (items, rest, m) := ParseItems(lex, left, count + 1, n, depth).value;
      ParseItems(lex, text, count, nodes, depth) == Ok(([item.atom] + items, rest, m))
  {
    hide ParseExpr;
  }

  lemma {:induction false} AtomsParse(
    lex: Lexicon, text: string, kids: seq<Tree>, items: seq<Atom>, tail: seq<Lexeme>, count: nat, nodes: int,
    depth: nat)
    requires Lex(text) == Some(Yields(kids) + [Mark(']')] + tail) && DenoteAtoms(lex, kids) == Some(items)
    requires nodes + NodesOf(kids) <= 256 && depth > 0 && depth - 1 + LevelsOf(kids) <= 12 && count + |kids| <= 100
    ensures
      var r := ParseItems(lex, text, count, nodes, depth);
      r.Ok? && r.value.0 == items && r.value.2 == nodes + NodesOf(kids) && Lex(r.value.1) == Some(tail)
    decreases kids, 0
  {
    hide *;
    var ls := Yields(kids) + [Mark(']')] + tail;
    if kids == [] {
      NothingBelow(lex);
      assert ls == [Mark(']')] + tail && ls[1..] == tail && ls[0] == Mark(']');
      LexStarts(text, ls);
      ItemsEnd(lex, text, count, nodes, depth);
    } else {
      KidsUnfold(lex, kids);
      var more := Yields(kids[1..]) + [Mark(']')] + tail;
      assert ls == Yield(kids[0]) + more;
      LexSkips(text);
      TreeParses(lex, SkipSpace(text), kids[0], Denotes(lex, kids[0]).value, more, nodes, depth);
      YieldStarts(kids[0]);
      LexStarts(text, ls);
      var left := ParsesLeaves(lex, SkipSpace(text), Denotes(lex, kids[0]).value, nodes + Nodes(kids[0]), more, nodes,
        depth);
      AtomsParse(lex, left, kids[1..], DenoteAtoms(lex, kids[1..]).value, tail, count + 1, nodes + Nodes(kids[0]),
        depth);
      ItemsGoOn(lex, text, count, nodes, depth);
    }
  }

  // ---------------------------------------------------------------- from s-expressions to filters

  /** The atom stands for the path: written as a word or as a quoted text. */
  predicate PathSaid(raw: Sexp, path: Path) {
    && raw.Atomic? && (raw.atom == Word(PathToken(path)) || raw.atom == Literal(Str(PathToken(path))))
    && PathNamed(path)
  }

  /** The atom stands for the value, given what the placeholders are bound to. */
  predicate ValueSaid(raw: Sexp, v: Value, params: Params) { raw.Atomic? && Stands(raw.atom, v, params) }

  predicate Stands(a: Atom, v: Value, params: Params)
    decreases a
  {
    match a
    case Word(s) => v == Str(s)
    case Literal(w) => v == w
    case Hole(name) => name in params && v == params[name]
    case Items(items) =>
      v.List? && |v.items| == |items| && forall i :: 0 <= i < |items| ==> Stands(items[i], v.items[i], params)
  }

  /** A call has the arity its head asks for. */
  predicate IsCall(raw: Sexp, head: string, arity: nat) { raw.Call? && raw.head == head && |raw.args| == arity }

  /** The s-expression says the filter. A value that is no list lists itself; null lists nothing. */
  ghost predicate Says(raw: Sexp, e: Expr, params: Params)
    decreases e
  {
    match e
    case Constant(_) => false
    case Compare(op, path, v) =>
      IsCall(raw, OpToken(op), 2) && PathSaid(raw.args[0], path) && ValueSaid(raw.args[1], v, params)
    case In(path, values, None) =>
      && IsCall(raw, "in", 2) && PathSaid(raw.args[0], path) && |values| <= 100
      && raw.args[1].Atomic? && ListSaid(raw.args[1], values, params)
    case In(path, values, Some(s)) =>
      && IsCall(raw, "in", 2) && PathSaid(raw.args[0], path) && values == [] && s.address != ""
      && IsCall(raw.args[1], "subtree", 1) && ValueSaid(raw.args[1].args[0], Str(s.address), params)
    case Exists(path, missing) => IsCall(raw, if missing then "missing" else "exists", 1) && PathSaid(raw.args[0], path)
    case Related(path, where) =>
      IsCall(raw, "related", 2) && PathSaid(raw.args[0], path) && where.Some? && Says(raw.args[1], where.value, params)
    case Logic(op, args) =>
      && args != [] && (op == Not ==> |args| == 1)
      && IsCall(raw, match op case And => "and" case Or => "or" case Not => "not", |args|)
      && forall i :: 0 <= i < |args| ==> Says(raw.args[i], args[i], params)
  }

  ghost predicate ListSaid(raw: Sexp, values: seq<Value>, params: Params) {
    exists v :: ValueSaid(raw, v, params) && v != Null
      && if AsItems(v).Some? then values == AsItems(v).value else values == [v]
  }

  lemma {:induction false} SoleDotIs(s: string, i: int)
    ensures SoleDot(s) == (if 0 <= i then Some(i) else None) && 0 <= i ==>
      i < |s| && s[i] == '.' && '.' !in s[..i] && '.' !in s[i + 1..]
    decreases |s|
  {
    if s != "" && 0 <= i && SoleDot(s) == Some(i) && s[0] != '.' {
      SoleDotIs(s[1..], i - 1);
      assert s[..i] == [s[0]] + s[1..][..i - 1] && s[i + 1..] == s[1..][i..];
    }
  }

  lemma InPathIff(text: string, source: string, name: string)
    ensures
      (match SoleDot(text) case None => false case Some(i) => source == text[..i] && name == text[i + 1..])
      <==> text == source + "." + name && '.' !in source && '.' !in name
  {
    if SoleDot(text).Some? {
      var i := SoleDot(text).value;
      SoleDotIs(text, i);
      assert text == text[..i] + "." + text[i + 1..];
      if text == source + "." + name && '.' !in source && '.' !in name { SoleDotOf(source, name); }
    } else if text == source + "." + name && '.' !in source && '.' !in name {
      SoleDotOf(source, name);
    }
  }

  /** A path of this kind can have this name. */
  predicate PathNamed(path: Path) {
    match path
    case SystemPath(name) => name != "" && name[0] != '$' && !HasPrefix(name, "->") && !HasPrefix(name, "<-")
    case FieldPath(name) => name != "" && name[0] != '.'
    case OutRefPath(_) => true
    case InRefPath(source, name) => '.' !in source && '.' !in name
  }

  lemma PrefixIs(t: string, p: string, rest: string)
    ensures t == p + rest <==> HasPrefix(t, p) && t[|p|..] == rest
  {
    if HasPrefix(t, p) { assert t == t[..|p|] + t[|p|..]; }
    if t == p + rest { assert t[..|p|] == p && t[|p|..] == rest; }
  }

  lemma PathTextIff(text: string, path: Path)
    ensures ParsePath(Atomic(Word(text))) == Ok(path) <==> text == PathToken(path) && PathNamed(path)
  {
    match path
    case SystemPath(name) =>
    case FieldPath(name) => FieldTextIff(text, name);
    case OutRefPath(name) => PrefixIs(text, "->", name);
    case InRefPath(source, name) => InTextIff(text, source, name);
  }

  lemma FieldTextIff(text: string, name: string)
    ensures ParsePath(Atomic(Word(text))) == Ok(FieldPath(name)) <==> text == "$" + name && name != "" && name[0] != '.'
  {
    PrefixIs(text, "$", name);
    if text != "" { assert text[..1] == [text[0]]; }
  }

  lemma InTextIff(text: string, source: string, name: string)
    ensures ParsePath(Atomic(Word(text))) == Ok(InRefPath(source, name))
      <==> text == "<-" + source + "." + name && '.' !in source && '.' !in name
  {
    PrefixIs(text, "<-", source + "." + name);
    assert "<-" + source + "." + name == "<-" + (source + "." + name);
    if HasPrefix(text, "<-") {
      assert text[0] == text[..2][0] == '<' && text[1] == text[..2][1] == '-';
      InPathIff(text[2..], source, name);
    }
  }

  lemma PathParsesIff(raw: Sexp, path: Path)
    ensures ParsePath(raw) == Ok(path) <==> PathSaid(raw, path)
  {
    if raw.Atomic? && (raw.atom.Word? || (raw.atom.Literal? && raw.atom.v.Str?)) {
      var text := if raw.atom.Word? then raw.atom.s else raw.atom.v.s;
      PathTextIff(text, path);
      SameText(raw, text);
      hide ParsePath, PathToken, HasPrefix;
    } else {
      NoText(raw);
    }
  }

  lemma SameText(raw: Sexp, text: string)
    requires raw == Atomic(Word(text)) || raw == Atomic(Literal(Str(text)))
    ensures ParsePath(raw) == ParsePath(Atomic(Word(text)))
  {
    hide SoleDot, HasPrefix;
  }

  lemma NoText(raw: Sexp)
    requires !(raw.Atomic? && (raw.atom.Word? || (raw.atom.Literal? && raw.atom.v.Str?)))
    ensures ParsePath(raw).Err?
  {
  }

  lemma {:induction false} StandsIff(a: Atom, v: Value, params: Params)
    ensures ResolveAtom(a, params) == Ok(v) <==> Stands(a, v, params)
    decreases a
  {
    if a.Items? {
      if v.List? { StandAllIff(a.items, v.items, params); }
      hide ResolveAtoms;
    }
  }

  lemma {:induction false} StandAllIff(items: seq<Atom>, vs: seq<Value>, params: Params)
    ensures ResolveAtoms(items, params) == Ok(vs)
      <==> |vs| == |items| && forall i :: 0 <= i < |items| ==> Stands(items[i], vs[i], params)
    decreases items
  {
    if items != [] {
      if vs != [] {
        StandsIff(items[0], vs[0], params);
        StandAllIff(items[1..], vs[1..], params);
        assert vs == [vs[0]] + vs[1..];
      }
      hide Stands, ResolveAtom;
      if |vs| == |items| { HeadAndTail(items, vs, params); }
    }
  }

  lemma HeadAndTail(items: seq<Atom>, vs: seq<Value>, params: Params)
    requires items != [] && |vs| == |items|
    ensures (forall i :: 0 <= i < |items| ==> Stands(items[i], vs[i], params))
      <==>
      && Stands(items[0], vs[0], params)
      && forall i :: 0 <= i < |items[1..]| ==> Stands(items[1..][i], vs[1..][i], params)
  {
    hide Stands;
    if
      && Stands(items[0], vs[0], params)
      && forall i :: 0 <= i < |items[1..]| ==> Stands(items[1..][i], vs[1..][i], params)
    {
      forall i | 0 <= i < |items| ensures Stands(items[i], vs[i], params) {
        if i > 0 { assert items[1..][i - 1] == items[i] && vs[1..][i - 1] == vs[i]; }
      }
    }
  }

  lemma ValueParsesIff(raw: Sexp, v: Value, params: Params)
    ensures ResolveValue(raw, params) == Ok(v) <==> ValueSaid(raw, v, params)
  {
    if raw.Atomic? { StandsIff(raw.atom, v, params); }
    hide ResolveAtom, Stands;
  }

  lemma HeadsDiffer()
    ensures forall op :: OpToken(op) !in ["and", "or", "not", "in", "exists", "missing", "related"]
    ensures forall h :: h in ["and", "or", "not", "in", "exists", "missing", "related"] ==> CompareOpOf(h).None?
  {
  }

  lemma OpParsesIff(head: string, op: CompareOp)
    ensures CompareOpOf(head) == Some(op) <==> head == OpToken(op)
  {
  }

  /** What an s-expression is read as says it. */
  lemma {:induction false} BuiltIsSaid(raw: Sexp, params: Params)
    requires BuildExpr(raw, params).Ok?
    ensures Says(raw, BuildExpr(raw, params).value, params)
    decreases raw
  {
    HeadsDiffer();
    hide ParsePath, PathSaid, ResolveValue, ValueSaid, BuildSet, SliceValues, OpToken, CompareOpOf;
    if CompareOpOf(raw.head).None? && raw.head in ["and", "or", "not", "related"] {
      CompositeIsSaid(raw, params);
    } else {
      LeafIsSaid(raw, params);
    }
  }

  lemma {:induction false} CompositeIsSaid(raw: Sexp, params: Params)
    requires BuildExpr(raw, params).Ok? && raw.head in ["and", "or", "not", "related"]
    ensures Says(raw, BuildExpr(raw, params).value, params)
    decreases raw, 0
  {
    HeadsDiffer();
    hide ParsePath, PathSaid, ResolveValue, ValueSaid, BuildSet, SliceValues, OpToken, CompareOpOf;
    if raw.head == "not" {
      BuiltIsSaid(raw.args[0], params);
    } else if raw.head == "related" {
      PathParsesIff(raw.args[0], ParsePath(raw.args[0]).value);
      BuiltIsSaid(raw.args[1], params);
    } else {
      BuiltAreSaid(raw.args, params);
    }
  }

  lemma {:induction false} BuiltAreSaid(args: seq<Sexp>, params: Params)
    requires BuildAll(args, params).Ok?
    ensures
      var es := BuildAll(args, params).value;
      |es| == |args| && forall i :: 0 <= i < |args| ==> Says(args[i], es[i], params)
    decreases args
  {
    hide BuildExpr, Says;
    if args != [] {
      BuiltIsSaid(args[0], params);
      BuiltAreSaid(args[1..], params);
    }
  }

  lemma LeafIsSaid(raw: Sexp, params: Params)
    requires BuildExpr(raw, params).Ok? && raw.head !in ["and", "or", "not", "related"]
    ensures Says(raw, BuildExpr(raw, params).value, params)
  {
    HeadsDiffer();
    var e := BuildExpr(raw, params).value;
    PathParsesIff(raw.args[0], e.path);
    if e.Compare? {
      OpParsesIff(raw.head, e.cmp);
      ValueParsesIff(raw.args[1], e.operand, params);
    } else if e.In? && e.from.None? {
      ListParsesIff(raw.args[1], e.values, params);
    } else if e.In? {
      SetParsesIff(raw.args[1], e.from.value, params);
    }
    hide ParsePath, PathSaid, ResolveValue, ValueSaid, BuildSet, SliceValues, OpToken, CompareOpOf, ListSaid;
  }

  /** The listed values of an in. */
  function Listed(raw: Sexp, params: Params): Result<seq<Value>, LispError> {
    match ResolveValue(raw, params) case Err(e) => Err(e) case Ok(v) => SliceValues(v)
  }

  lemma ListParsesIff(raw: Sexp, values: seq<Value>, params: Params)
    ensures Listed(raw, params) == Ok(values) <==> ListSaid(raw, values, params) && |values| <= 100
  {
    forall v ensures ResolveValue(raw, params) == Ok(v) <==> ValueSaid(raw, v, params) {
      ValueParsesIff(raw, v, params);
    }
    hide ResolveValue, ValueSaid, AsItems;
  }

  lemma SetParsesIff(raw: Sexp, s: Set, params: Params)
    ensures BuildSet(raw, params) == Ok(s)
      <==> IsCall(raw, "subtree", 1) && s.address != "" && ValueSaid(raw.args[0], Str(s.address), params)
  {
    if IsCall(raw, "subtree", 1) { ValueParsesIff(raw.args[0], Str(s.address), params); }
    hide ResolveValue, ValueSaid;
  }

  /** What says a filter is read as it. */
  lemma {:induction false} SaidIsRead(raw: Sexp, e: Expr, params: Params)
    requires Says(raw, e, params)
    ensures BuildExpr(raw, params) == Ok(e)
    decreases e
  {
    HeadsDiffer();
    match e
    case Logic(op, args) =>
      if op == Not {
        SaidIsRead(raw.args[0], args[0], params);
        assert args == [args[0]];
      } else {
        SaidAreRead(raw.args, args, params);
      }
      hide ParsePath, ResolveValue, BuildSet, SliceValues, CompareOpOf, BuildAll;
    case Related(path, where) =>
      PathParsesIff(raw.args[0], path);
      SaidIsRead(raw.args[1], where.value, params);
      hide ParsePath, PathSaid, ResolveValue, BuildSet, SliceValues, CompareOpOf;
    case _ => SaidLeafIsRead(raw, e, params);
  }

  lemma {:induction false} SaidAreRead(raws: seq<Sexp>, args: seq<Expr>, params: Params)
    requires |raws| == |args| && forall i :: 0 <= i < |args| ==> Says(raws[i], args[i], params)
    ensures BuildAll(raws, params) == Ok(args)
    decreases args
  {
    hide BuildExpr, Says;
    if args != [] {
      SaidIsRead(raws[0], args[0], params);
      SaidAreRead(raws[1..], args[1..], params);
      assert args == [args[0]] + args[1..];
    }
  }

  lemma SaidLeafIsRead(raw: Sexp, e: Expr, params: Params)
    requires Says(raw, e, params) && !e.Logic? && !e.Related?
    ensures BuildExpr(raw, params) == Ok(e)
  {
    HeadsDiffer();
    PathParsesIff(raw.args[0], e.path);
    if e.Compare? {
      OpParsesIff(raw.head, e.cmp);
      ValueParsesIff(raw.args[1], e.operand, params);
    } else if e.In? && e.from.None? {
      ListParsesIff(raw.args[1], e.values, params);
    } else if e.In? {
      SetParsesIff(raw.args[1], e.from.value, params);
    }
    hide ParsePath, PathSaid, ResolveValue, ValueSaid, BuildSet, SliceValues, OpToken, CompareOpOf, ListSaid;
  }

  // ---------------------------------------------------------------- the front end

  /** The text is made of the lexemes of a tree within the limits, and the tree says the filter. */
  ghost predicate IsTextOf(lex: Lexicon, src: string, params: Params, e: Expr, t: Tree) {
    && |src| <= 4096 && Lex(src) == Some(Yield(t)) && Nodes(t) <= 256 && Levels(t) <= 12
    && Denotes(lex, t).Some? && Says(Denotes(lex, t).value, e, params)
  }

  /** A text parses to a filter exactly when it is a text of the filter. */
  lemma ParsesIff(lex: Lexicon, src: string, params: Params, e: Expr)
    ensures ParseLisp(lex, src, params) == Ok(e) <==> exists t :: IsTextOf(lex, src, params, e, t)
  {
    if ParseLisp(lex, src, params) == Ok(e) {
      var t := TextHasTree(lex, src, params, e);
      assert IsTextOf(lex, src, params, e, t);
    }
    if t :| IsTextOf(lex, src, params, e, t) { TreeIsRead(lex, src, params, e, t); }
  }

  lemma LispUnfolds(lex: Lexicon, src: string, params: Params, e: Expr)
    ensures ParseLisp(lex, src, params) == Ok(e)
      <==>
      && |src| <= 4096 && ParseExpr(lex, SkipSpace(src), 0, 0).Ok?
      && SkipSpace(ParseExpr(lex, SkipSpace(src), 0, 0).value.1) == ""
      && BuildExpr(ParseExpr(lex, SkipSpace(src), 0, 0).value.0, params) == Ok(e)
  {
    hide ParseExpr, BuildExpr, SkipSpace;
  }

  lemma LexEnds(t: string)
    ensures Lex(t) == Some([]) <==> SkipSpace(t) == ""
  {
    hide Token, SkipSpace;
  }

  lemma TextHasTree(lex: Lexicon, src: string, params: Params, e: Expr) returns (t: Tree)
    requires ParseLisp(lex, src, params) == Ok(e)
    ensures IsTextOf(lex, src, params, e, t)
  {
    hide *;
    LispUnfolds(lex, src, params, e);
    t := ParsedTree(lex, SkipSpace(src), 0, 0);
    var (raw, rest, n) := ParseExpr(lex, SkipSpace(src), 0, 0).value;
    TreeIs(lex, SkipSpace(src), t, raw, rest, 0, 0, n);
    LexEnds(rest);
    LexSkips(src);
    BuiltIsSaid(raw, params);
    AllOfText(SkipSpace(src), Yield(t), rest);
    AreTextOf(lex, src, params, e, t);
  }

  lemma TreeIs(lex: Lexicon, text: string, t: Tree, s: Sexp, rest: string, nodes: int, depth: nat, n: int)
    requires TreeOf(lex, text, t, s, rest, nodes, depth, n)
    ensures Denotes(lex, t) == Some(s) && Begins(text, Yield(t), rest)
    ensures n == nodes + Nodes(t) <= 256 && depth + Levels(t) <= 12
  {
  }

  lemma AllOfText(text: string, ls: seq<Lexeme>, rest: string)
    requires Begins(text, ls, rest) && Lex(rest) == Some([])
    ensures Lex(text) == Some(ls)
  {
    hide Lex;
    assert ls + [] == ls;
  }

  lemma AreTextOf(lex: Lexicon, src: string, params: Params, e: Expr, t: Tree)
    requires |src| <= 4096 && Lex(src) == Some(Yield(t)) && Nodes(t) <= 256 && Levels(t) <= 12
    requires Denotes(lex, t).Some? && Says(Denotes(lex, t).value, e, params)
    ensures IsTextOf(lex, src, params, e, t)
  {
    hide Lex, Yield, Nodes, Levels, Denotes, Says;
  }

  lemma TextOfIs(lex: Lexicon, src: string, params: Params, e: Expr, t: Tree)
    requires IsTextOf(lex, src, params, e, t)
    ensures |src| <= 4096 && Lex(src) == Some(Yield(t)) && Nodes(t) <= 256 && Levels(t) <= 12
    ensures Denotes(lex, t).Some? && Says(Denotes(lex, t).value, e, params)
  {
    hide Lex, Yield, Nodes, Levels, Denotes, Says;
  }

  lemma TreeIsRead(lex: Lexicon, src: string, params: Params, e: Expr, t: Tree)
    requires IsTextOf(lex, src, params, e, t)
    ensures ParseLisp(lex, src, params) == Ok(e)
  {
    hide *;
    TextOfIs(lex, src, params, e, t);
    var raw := Denotes(lex, t).value;
    LexSkips(src);
    assert Yield(t) + [] == Yield(t);
    TreeParses(lex, SkipSpace(src), t, raw, [], 0, 0);
    var rest := ParsesLeaves(lex, SkipSpace(src), raw, Nodes(t), [], 0, 0);
    LexEnds(rest);
    SaidIsRead(raw, e, params);
    LispUnfolds(lex, src, params, e);
  }
}
