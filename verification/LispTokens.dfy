/** What the tokens of a text are and what they stand for (query/lisp.go), told from the characters. */
module LispTokens {
  import opened Common
  import opened Types
  import opened Lisp

  predicate Separates(c: char) { c == ' ' || c == '\t' || c == '\n' }

  predicate Delimits(c: char) { Separates(c) || c == '(' || c == ')' || c == '[' || c == ']' }

  /** Exactly the leading blanks, tabs and newlines of a text are skipped. */
  lemma SpaceIff(b: string, r: string)
    ensures SkipSpace(b + r) == r
      <==> (r == "" || !Separates(r[0])) && forall i :: 0 <= i < |b| ==> Separates(b[i])
  {
    if SkipSpace(b + r) == r { SkippedSeparate(b, r); }
    if (r == "" || !Separates(r[0])) && forall i :: 0 <= i < |b| ==> Separates(b[i]) { SeparatorsAreSkipped(b, r); }
    hide SkipSpace;
  }

  lemma {:induction false} SkippedSeparate(b: string, r: string)
    requires SkipSpace(b + r) == r
    ensures forall i :: 0 <= i < |b| ==> Separates(b[i])
  {
    if b != "" {
      First(b, r);
      assert Separates(b[0]) by { assert |b + r| > |r|; }
      SkippedSeparate(b[1..], r);
      hide SkipSpace;
      forall i | 0 <= i < |b| ensures Separates(b[i]) { assert i > 0 ==> b[i] == b[1..][i - 1]; }
    }
  }

  lemma {:induction false} SeparatorsAreSkipped(b: string, r: string)
    requires (r == "" || !Separates(r[0])) && forall i :: 0 <= i < |b| ==> Separates(b[i])
    ensures SkipSpace(b + r) == r
  {
    if b == "" {
      assert b + r == r;
    } else {
      First(b, r);
      SeparatorsAreSkipped(b[1..], r);
    }
  }

  lemma First(b: string, r: string)
    requires b != ""
    ensures (b + r)[0] == b[0] && (b + r)[1..] == b[1..] + r
  {
  }

  /** What follows an opening quote: characters and pairs led by a backslash, up to the first quote outside a pair. */
  predicate ClosesQuote(s: string) {
    s != "" &&
    if s[0] == '"' then |s| == 1
    else if s[0] == '\\' then |s| >= 2 && ClosesQuote(s[2..])
    else ClosesQuote(s[1..])
  }

  predicate Quoted(w: string) { w != "" && w[0] == '"' && ClosesQuote(w[1..]) }

  /** A run without delimiters, up to the next one. */
  predicate RunUpTo(w: string, rest: string) {
    && w != "" && w[0] != '"' && (forall i :: 0 <= i < |w| ==> !Delimits(w[i]))
    && (rest == "" || Delimits(rest[0]))
  }

  /** The token in front of a text is a quoted text, or the run up to the next delimiter. */
  lemma TokenIff(t: string, w: string, rest: string)
    ensures Token(t) == Ok((w, rest))
      <==> SkipSpace(t) == w + rest && (Quoted(w) || RunUpTo(w, rest))
  {
    var u := SkipSpace(t);
    if u != "" && u[0] == '"' {
      QuotedIff(u, w, rest);
    } else {
      PlainIff(u, w, rest);
    }
    assert w != "" ==> (w + rest)[0] == w[0];
    hide CutQuoted, CutPlain, SkipSpace, ClosesQuote;
  }

  lemma PlainIff(u: string, w: string, rest: string)
    requires u == "" || u[0] != '"'
    ensures CutPlain(u) == Ok((w, rest)) <==> u == w + rest && RunUpTo(w, rest)
  {
    PlainRun(u);
    if u == w + rest && RunUpTo(w, rest) { PlainLengthOf(w, rest); }
    hide PlainLength;
  }

  lemma {:induction false} PlainRun(u: string)
    ensures forall i :: 0 <= i < PlainLength(u) ==> !Delimits(u[i])
    ensures PlainLength(u) == |u| || Delimits(u[PlainLength(u)])
  {
    if u != "" && !IsDelimiter(u[0]) {
      PlainRun(u[1..]);
      forall i | 0 <= i < PlainLength(u) ensures !Delimits(u[i]) { assert i > 0 ==> u[i] == u[1..][i - 1]; }
    }
  }

  lemma QuotedIff(u: string, w: string, rest: string)
    requires u != "" && u[0] == '"'
    ensures CutQuoted(u) == Ok((w, rest)) <==> u == w + rest && Quoted(w)
  {
    if CutQuoted(u) == Ok((w, rest)) {
      QuotedCloses(u[1..]);
      assert w[1..] == u[1..][..|w| - 1];
    }
    if u == w + rest && Quoted(w) {
      assert u[1..] == w[1..] + rest;
      ClosedLength(w[1..], rest);
    }
    hide QuotedLength, ClosesQuote;
  }

  lemma {:induction false} QuotedCloses(s: string)
    requires QuotedLength(s, false).Some?
    ensures ClosesQuote(s[..QuotedLength(s, false).value])
    decreases |s|
  {
    var n := QuotedLength(s, false).value;
    if s[0] == '\\' {
      assert QuotedLength(s[1..], true) == Some(n - 1);
      assert s[1..][1..] == s[2..] && QuotedLength(s[2..], false) == Some(n - 2);
      QuotedCloses(s[2..]);
      assert s[..n][2..] == s[2..][..n - 2];
    } else if s[0] != '"' {
      QuotedCloses(s[1..]);
      assert s[..n][1..] == s[1..][..n - 1];
    }
  }

  lemma {:induction false} ClosedLength(s: string, rest: string)
    requires ClosesQuote(s)
    ensures QuotedLength(s + rest, false) == Some(|s|)
    decreases |s|
  {
    var t := s + rest;
    assert t[0] == s[0] && t[1..] == s[1..] + rest;
    if s[0] == '\\' {
      ClosedLength(s[2..], rest);
      assert t[1..][1..] == s[2..] + rest;
      assert QuotedLength(t[1..], true) == Some(|s| - 1);
    } else if s[0] != '"' {
      ClosedLength(s[1..], rest);
    }
  }

  // ---------------------------------------------------------------- atoms

  predicate IsQuotation(lex: Lexicon, w: string) {
    |w| >= 2 && w[0] == '"' && w[|w| - 1] == '"' && lex.unquote(w).Some?
  }

  ghost predicate IsPlaceholder(w: string) { exists name :: w == "{:" + name + "}" }

  predicate IsConstant(w: string, v: Value) {
    (w == "true" && v == Bool(true)) || (w == "false" && v == Bool(false)) || (w == "null" && v == Null)
  }

  /** A quoted text, else a placeholder, else a number, else one of three constants, else the word itself. */
  ghost predicate StandsFor(lex: Lexicon, w: string, a: Atom) {
    if IsQuotation(lex, w) then a.Literal? && a.v.Str? && lex.unquote(w) == Some(a.v.s)
    else if IsPlaceholder(w) then a.Hole? && w == "{:" + a.name + "}"
    else if lex.number(w).Some? then a.Literal? && lex.number(w) == Some(a.v)
    else if w == "true" || w == "false" || w == "null" then a.Literal? && IsConstant(w, a.v)
    else a == Word(w)
  }

  lemma AtomIff(lex: Lexicon, w: string, a: Atom)
    ensures ParseAtom(lex, w) == a <==> StandsFor(lex, w, a)
  {
    PlaceholderIff(w);
    ConstantsDiffer();
    if a.Hole? { NameOf(w, a.name); }
    hide HasPrefix, IsPlaceholder;
  }

  lemma ConstantsDiffer()
    ensures "true" != "false"
  {
    assert "true"[0] != "false"[0];
  }

  lemma PlaceholderIff(w: string)
    ensures IsPlaceholder(w) <==> HasPrefix(w, "{:") && |w| >= 3 && w[|w| - 1] == '}'
    ensures IsPlaceholder(w) ==> w == "{:" + w[2..|w| - 1] + "}"
  {
    if HasPrefix(w, "{:") && |w| >= 3 && w[|w| - 1] == '}' {
      assert w == w[..2] + w[2..|w| - 1] + [w[|w| - 1]];
    }
    if name :| w == "{:" + name + "}" { NameOf(w, name); }
  }

  lemma NameOf(w: string, name: string)
    ensures w == "{:" + name + "}" ==>
      |w| >= 3 && w[..2] == "{:" && w[|w| - 1] == '}' && w[2..|w| - 1] == name
  {
  }
}
