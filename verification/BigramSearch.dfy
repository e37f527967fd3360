/**
 * Phrase search over the bigram index: which texts a query of CJK characters finds, compared with the texts
 * it occurs in. How FTS5 cuts text that is not CJK is the function words.
 */
module BigramSearch {
  import opened Bigram
  import opened Types

  type Words = string -> seq<string>

  predicate AllCjk(s: string) { forall i :: 0 <= i < |s| ==> IsCjk(s[i]) }

  /** No word of a text that is not CJK is a pair of CJK characters. */
  predicate Foreign(ts: seq<string>) {
    forall i :: 0 <= i < |ts| ==> !(|ts[i]| == 2 && AllCjk(ts[i]))
  }

  predicate At(s: string, q: string, i: int) { 0 <= i <= |s| - |q| && s[i..i + |q|] == q }

  predicate Occurs(s: string, q: string) { exists i :: 0 <= i <= |s| && At(s, q, i) }

  predicate PhraseAt(ts: seq<string>, p: seq<string>, i: int) { 0 <= i <= |ts| - |p| && ts[i..i + |p|] == p }

  /** The tokens of p stand next to each other somewhere in ts. */
  predicate HasPhrase(ts: seq<string>, p: seq<string>) { exists i :: 0 <= i <= |ts| && PhraseAt(ts, p, i) }

  // ---------------------------------------------------------------- pieces

  /** A stretch of the text that puts tokens into the index. */
  datatype Piece = Cjk(text: string) | Other(tokens: seq<string>)

  predicate ValidPiece(p: Piece) {
    match p case Cjk(t) => t != "" && AllCjk(t) case Other(ts) => ts != [] && Foreign(ts)
  }

  predicate ValidPieces(ps: seq<Piece>) { forall i :: 0 <= i < |ps| ==> ValidPiece(ps[i]) }

  function TokensOf(p: Piece): seq<string> {
    match p case Cjk(t) => Pairs(t) case Other(ts) => ts
  }

  function Tokens(ps: seq<Piece>): seq<string> {
    if ps == [] then [] else TokensOf(ps[0]) + Tokens(ps[1..])
  }

  /** Two CJK stretches whose pairs run on from one to the other. */
  predicate Seam(a: Piece, b: Piece) {
    a.Cjk? && b.Cjk? && |a.text| >= 2 && |b.text| >= 2 && a.text[|a.text| - 1] == b.text[0]
  }

  /** Stretches that run on are one stretch to the index. */
  function Glue(ps: seq<Piece>): (gs: seq<Piece>)
    ensures ps != [] ==> gs != []
  {
    if ps == [] then []
    else
      var gs := Glue(ps[1..]);
      if gs != [] && Seam(ps[0], gs[0]) then [Cjk(ps[0].text + gs[0].text[1..])] + gs[1..] else [ps[0]] + gs
  }

  predicate Seamless(ps: seq<Piece>) { forall i :: 0 <= i < |ps| - 1 ==> SeamlessAt(ps, i) }

  predicate SeamlessAt(ps: seq<Piece>, i: int)
    requires 0 <= i < |ps| - 1
  {
    !Seam(ps[i], ps[i + 1])
  }

  lemma GluedPairs(a: string, b: string)
    requires |a| >= 2 && |b| >= 2 && a[|a| - 1] == b[0]
    ensures Pairs(a + b[1..]) == Pairs(a) + Pairs(b)
  {
    var c := a + b[1..];
    forall i | 0 <= i < |c| - 1 ensures Pairs(c)[i] == (Pairs(a) + Pairs(b))[i] {
      if i < |a| - 1 {
        assert c[i..i + 2] == a[i..i + 2];
      } else {
        assert c[i..i + 2] == b[i - (|a| - 1)..i - (|a| - 1) + 2];
      }
    }
  }

  /** Glue joins the first stretch to what is already glued, or leaves it in front. */
  lemma GlueStep(ps: seq<Piece>)
    requires ps != []
    ensures
      var gs := Glue(ps[1..]);
      Glue(ps) == if gs != [] && Seam(ps[0], gs[0]) then [Cjk(ps[0].text + gs[0].text[1..])] + gs[1..] else [ps[0]] + gs
  {
  }

  /** The glued list starts with the same character, and in a stretch of one character exactly if the list does. */
  predicate SameStart(p: Piece, g: Piece) {
    (p.Cjk? <==> g.Cjk?)
      && (p.Cjk? ==> p.text != "" && g.text != "" && g.text[0] == p.text[0] && (|g.text| >= 2 <==> |p.text| >= 2))
  }

  lemma {:induction false} GlueHolds(ps: seq<Piece>)
    requires ValidPieces(ps)
    ensures ValidPieces(Glue(ps)) && Seamless(Glue(ps)) && Tokens(Glue(ps)) == Tokens(ps)
    ensures ps != [] ==> SameStart(ps[0], Glue(ps)[0])
  {
    hide Pairs, Foreign, AllCjk;
    if ps != [] {
      hide Glue;
      var gs := Glue(ps[1..]);
      GlueHolds(ps[1..]);
      GlueStep(ps);
      assert ValidPiece(ps[0]);
      if gs != [] && Seam(ps[0], gs[0]) {
        assert ValidPiece(gs[0]);
        JoinedHolds(ps[0], gs, Glue(ps));
      } else {
        LeftInFront(ps[0], gs, Glue(ps));
      }
    }
  }

  lemma JoinedPiece(a: string, b: string)
    requires |a| >= 2 && |b| >= 2 && AllCjk(a) && AllCjk(b)
    ensures var c := a + b[1..]; AllCjk(c) && |c| >= 2 && c[0] == a[0] && c[|c| - 1] == b[|b| - 1]
  {
  }

  lemma JoinedHolds(a: Piece, gs: seq<Piece>, joined: seq<Piece>)
    requires ValidPiece(a) && ValidPieces(gs) && Seamless(gs) && gs != [] && Seam(a, gs[0]) && ValidPiece(gs[0])
    requires joined == [Cjk(a.text + gs[0].text[1..])] + gs[1..]
    ensures ValidPieces(joined) && Seamless(joined) && Tokens(joined) == TokensOf(a) + Tokens(gs)
    ensures SameStart(a, joined[0])
  {
    var c := a.text + gs[0].text[1..];
    JoinedPiece(a.text, gs[0].text);
    GluedPairs(a.text, gs[0].text);
    hide Pairs, Foreign, AllCjk;
    assert joined[0] == Cjk(c) && joined[1..] == gs[1..];
    JoinedTokens(a, gs, joined, c);
    SameEndIsSeamless(gs, joined);
  }

  lemma JoinedTokens(a: Piece, gs: seq<Piece>, joined: seq<Piece>, c: string)
    requires a.Cjk? && gs != [] && gs[0].Cjk? && Pairs(c) == Pairs(a.text) + Pairs(gs[0].text)
    requires joined == [Cjk(c)] + gs[1..]
    ensures Tokens(joined) == TokensOf(a) + Tokens(gs)
  {
    hide Pairs;
    assert joined[1..] == gs[1..];
    assert Tokens(gs) == TokensOf(gs[0]) + Tokens(gs[1..]);
    assert Tokens(joined) == Pairs(c) + Tokens(gs[1..]);
  }

  /** What follows a stretch only looks at its last character. */
  lemma SameEndIsSeamless(gs: seq<Piece>, joined: seq<Piece>)
    requires gs != [] && joined != [] && gs[1..] == joined[1..] && Seamless(gs)
    requires gs[0].Cjk? && joined[0].Cjk? && |gs[0].text| >= 2 && |joined[0].text| >= 2
    requires gs[0].text[|gs[0].text| - 1] == joined[0].text[|joined[0].text| - 1]
    ensures Seamless(joined)
  {
    forall i | 0 <= i < |joined| - 1 ensures SeamlessAt(joined, i) {
      assert SeamlessAt(gs, i);
      assert joined[i + 1] == joined[1..][i] == gs[1..][i] == gs[i + 1];
      if i > 0 { assert joined[i] == joined[1..][i - 1] == gs[i]; }
    }
  }

  lemma LeftInFront(a: Piece, gs: seq<Piece>, all: seq<Piece>)
    requires ValidPiece(a) && ValidPieces(gs) && Seamless(gs) && (gs == [] || !Seam(a, gs[0])) && all == [a] + gs
    ensures ValidPieces(all) && Seamless(all) && Tokens(all) == TokensOf(a) + Tokens(gs) && SameStart(a, all[0])
  {
    hide Pairs, Foreign;
    assert all[1..] == gs;
    forall i | 0 <= i < |all| - 1 ensures SeamlessAt(all, i) {
      if i > 0 { assert SeamlessAt(gs, i - 1); }
    }
  }

  // ---------------------------------------------------------------- one stretch

  lemma PairAt(s: string, i: nat)
    requires |s| >= 2 && i < |s| - 1
    ensures Pairs(s)[i] == [s[i], s[i + 1]]
  {
    assert s[i..i + 2] == [s[i], s[i + 1]];
  }

  lemma PairsOccur(s: string, q: string, i: nat)
    requires |q| >= 2 && |s| >= 2 && i + |q| <= |s|
    ensures At(s, q, i) <==> PhraseAt(Pairs(s), Pairs(q), i)
  {
    if At(s, q, i) {
      forall k | 0 <= k < |q| - 1 ensures Pairs(s)[i..i + |q| - 1][k] == Pairs(q)[k] {
        PairAt(s, i + k);
        PairAt(q, k);
        assert s[i..i + |q|][k] == q[k] && s[i..i + |q|][k + 1] == q[k + 1];
      }
      assert Pairs(s)[i..i + |q| - 1] == Pairs(q);
    }
    if PhraseAt(Pairs(s), Pairs(q), i) {
      forall k | 0 <= k < |q| ensures s[i..i + |q|][k] == q[k] {
        var m := if k < |q| - 1 then k else k - 1;
        PairAt(s, i + m);
        PairAt(q, m);
        assert Pairs(s)[i..i + |q| - 1][m] == Pairs(q)[m];
      }
    }
  }

  /** In a CJK stretch the phrase of q stands exactly where q does. */
  lemma StretchFinds(s: string, q: string)
    requires |q| >= 2 && s != ""
    ensures HasPhrase(Pairs(s), Pairs(q)) <==> Occurs(s, q)
  {
    if |s| >= 2 {
      if i :| 0 <= i <= |s| && At(s, q, i) {
        PairsOccur(s, q, i);
        assert PhraseAt(Pairs(s), Pairs(q), i);
      }
      if i :| 0 <= i <= |Pairs(s)| && PhraseAt(Pairs(s), Pairs(q), i) {
        PairsOccur(s, q, i);
        assert At(s, q, i);
      }
    } else {
      OneCharacter(s, q);
    }
  }

  lemma PhraseStarts(ts: seq<string>, p: seq<string>, i: nat)
    requires p != []
    ensures PhraseAt(ts, p, i) ==> i < |ts| && ts[i] == p[0]
  {
    if PhraseAt(ts, p, i) {
      assert ts[i..i + |p|][0] == p[0];
    }
  }

  lemma OneCharacter(s: string, q: string)
    requires |q| >= 2 && |s| == 1
    ensures !HasPhrase(Pairs(s), Pairs(q)) && !Occurs(s, q)
  {
    PairAt(q, 0);
    var p := Pairs(q);
    assert |Pairs(s)[0]| == 1 && |p[0]| == 2;
    forall i | 0 <= i <= |Pairs(s)| ensures !PhraseAt(Pairs(s), p, i) {
      PhraseStarts(Pairs(s), p, i);
    }
  }

  lemma ForeignFindsNothing(ts: seq<string>, q: string)
    requires |q| >= 2 && AllCjk(q) && Foreign(ts)
    ensures !HasPhrase(ts, Pairs(q))
  {
    if i :| 0 <= i <= |ts| && PhraseAt(ts, Pairs(q), i) {
      PairAt(q, 0);
      assert ts[i] == ts[i..i + |Pairs(q)|][0] == Pairs(q)[0];
    }
  }

  /** Some stretch contains q. */
  predicate StretchHas(ps: seq<Piece>, q: string) {
    exists i :: 0 <= i < |ps| && ps[i].Cjk? && Occurs(ps[i].text, q)
  }

  lemma PieceFinds(p: Piece, q: string)
    requires ValidPiece(p) && |q| >= 2 && AllCjk(q)
    ensures HasPhrase(TokensOf(p), Pairs(q)) <==> p.Cjk? && Occurs(p.text, q)
  {
    match p
    case Cjk(t) => StretchFinds(t, q);
    case Other(ts) => ForeignFindsNothing(ts, q);
  }

  // ---------------------------------------------------------------- across stretches

  lemma TokensNotEmpty(p: Piece)
    requires ValidPiece(p)
    ensures TokensOf(p) != []
  {
  }

  /** Two neighbouring tokens of a query's phrase share a character. */
  lemma PhraseRunsOn(q: string, k: nat)
    requires |q| >= 2 && AllCjk(q) && k < |q| - 2
    ensures |Pairs(q)[k]| == 2 && |Pairs(q)[k + 1]| == 2 && AllCjk(Pairs(q)[k]) && AllCjk(Pairs(q)[k + 1])
    ensures Pairs(q)[k][1] == Pairs(q)[k + 1][0]
  {
    PairAt(q, k);
    PairAt(q, k + 1);
  }

  /** The last token of a stretch and the first token of the next one share a character only at a seam. */
  lemma OnlySeamsRunOn(a: Piece, b: Piece, s: string, t: string)
    requires ValidPiece(a) && ValidPiece(b) && TokensOf(a) != [] && TokensOf(b) != []
    requires s == TokensOf(a)[|TokensOf(a)| - 1] && t == TokensOf(b)[0]
    requires |s| == 2 && |t| == 2 && AllCjk(s) && AllCjk(t) && s[1] == t[0]
    ensures Seam(a, b)
  {
    if a.Cjk? && b.Cjk? && |a.text| >= 2 && |b.text| >= 2 {
      PairAt(a.text, |a.text| - 2);
      PairAt(b.text, 0);
    }
  }

  lemma PhraseLeft(a: seq<string>, b: seq<string>, p: seq<string>)
    requires HasPhrase(a, p)
    ensures HasPhrase(a + b, p)
  {
    var i :| 0 <= i <= |a| && PhraseAt(a, p, i);
    assert (a + b)[i..i + |p|] == a[i..i + |p|];
    assert PhraseAt(a + b, p, i);
  }

  lemma PhraseRight(a: seq<string>, b: seq<string>, p: seq<string>)
    requires HasPhrase(b, p)
    ensures HasPhrase(a + b, p)
  {
    var i :| 0 <= i <= |b| && PhraseAt(b, p, i);
    assert (a + b)[|a| + i..|a| + i + |p|] == b[i..i + |p|];
    assert PhraseAt(a + b, p, |a| + i);
  }

  /** A phrase in two parts lies in one of them or has neighbours on either side of the joint. */
  lemma PhraseSplits(a: seq<string>, b: seq<string>, p: seq<string>) returns (k: nat)
    requires HasPhrase(a + b, p) && !HasPhrase(a, p) && !HasPhrase(b, p) && p != []
    ensures a != [] && b != [] && k + 1 < |p| && p[k] == a[|a| - 1] && p[k + 1] == b[0]
  {
    var c := a + b;
    var i :| 0 <= i <= |c| && PhraseAt(c, p, i);
    if i + |p| <= |a| {
      assert a[i..i + |p|] == c[i..i + |p|];
      assert PhraseAt(a, p, i);
    }
    if i >= |a| {
      assert b[i - |a|..i - |a| + |p|] == c[i..i + |p|];
      assert PhraseAt(b, p, i - |a|);
    }
    k := |a| - 1 - i;
    assert p[k] == c[i..i + |p|][k] && p[k + 1] == c[i..i + |p|][k + 1];
  }

  /** Without seams a query finds exactly the stretches it occurs in. */
  lemma {:induction false} SeamlessFinds(ps: seq<Piece>, q: string)
    requires ValidPieces(ps) && Seamless(ps) && |q| >= 2 && AllCjk(q)
    ensures HasPhrase(Tokens(ps), Pairs(q)) <==> StretchHas(ps, q)
  {
    if ps == [] {
    } else {
      var a, rest := TokensOf(ps[0]), ps[1..];
      assert ValidPieces(rest) && Seamless(rest) by {
        forall i | 0 <= i < |rest| - 1 ensures SeamlessAt(rest, i) { assert SeamlessAt(ps, i + 1); }
      }
      SeamlessFinds(rest, q);
      PieceFinds(ps[0], q);
      StretchHasStep(ps, q);
      assert rest != [] ==> SeamlessAt(ps, 0);
      if HasPhrase(a, Pairs(q)) { PhraseLeft(a, Tokens(rest), Pairs(q)); }
      if HasPhrase(Tokens(rest), Pairs(q)) { PhraseRight(a, Tokens(rest), Pairs(q)); }
      if HasPhrase(a + Tokens(rest), Pairs(q)) && !HasPhrase(a, Pairs(q)) && !HasPhrase(Tokens(rest), Pairs(q)) {
        var k := PhraseSplits(a, Tokens(rest), Pairs(q));
        PhraseRunsOn(q, k);
        TokensNotEmpty(rest[0]);
        assert Tokens(rest)[0] == TokensOf(rest[0])[0];
        OnlySeamsRunOn(ps[0], rest[0], Pairs(q)[k], Pairs(q)[k + 1]);
      }
    }
  }

  lemma StretchHasStep(ps: seq<Piece>, q: string)
    requires ps != []
    ensures StretchHas(ps, q) <==> (ps[0].Cjk? && Occurs(ps[0].text, q)) || StretchHas(ps[1..], q)
  {
    if i :| 0 <= i < |ps| && ps[i].Cjk? && Occurs(ps[i].text, q) {
      if i > 0 { assert ps[1..][i - 1] == ps[i]; }
    }
    if i :| 0 <= i < |ps[1..]| && ps[1..][i].Cjk? && Occurs(ps[1..][i].text, q) {
      assert ps[i + 1] == ps[1..][i];
    }
  }

  /** A query finds a text exactly when it occurs in one of its glued stretches. */
  lemma PhraseIffInGlued(ps: seq<Piece>, q: string)
    requires ValidPieces(ps) && |q| >= 2 && AllCjk(q)
    ensures HasPhrase(Tokens(ps), Pairs(q)) <==> StretchHas(Glue(ps), q)
  {
    GlueHolds(ps);
    SeamlessFinds(Glue(ps), q);
  }

  // ---------------------------------------------------------------- texts

  /** What the runs of a text put into the index: CJK stretches, and the others that have any words. */
  function PiecesOf(words: Words, runs: seq<Run>): seq<Piece> {
    if runs == [] then []
    else
      var rest := PiecesOf(words, runs[1..]);
      if runs[0].cjk then [Cjk(runs[0].text)] + rest
      else if words(Trim(runs[0].text)) == [] then rest
      else [Other(words(Trim(runs[0].text)))] + rest
  }

  function TextPieces(words: Words, s: string): seq<Piece> { PiecesOf(words, RunsFrom(s, 0)) }

  function TextTokens(words: Words, s: string): seq<string> { Tokens(TextPieces(words, s)) }

  predicate NoCjk(s: string) { forall i :: 0 <= i < |s| ==> !IsCjk(s[i]) }

  /** Text without CJK characters has no word of them. */
  ghost predicate ForeignWords(words: Words) { forall t :: NoCjk(t) ==> Foreign(words(t)) }

  lemma {:induction false} TrimLeftKeeps(s: string)
    ensures NoCjk(s) ==> NoCjk(TrimLeft(s))
    ensures AllCjk(s) ==> TrimLeft(s) == s
  {
    if s != "" && IsSpace(s[0]) { TrimLeftKeeps(s[1..]); }
  }

  lemma {:induction false} TrimRightKeeps(s: string)
    ensures NoCjk(s) ==> NoCjk(TrimRight(s))
    ensures AllCjk(s) ==> TrimRight(s) == s
    decreases |s|
  {
    if s != "" && IsSpace(s[|s| - 1]) { TrimRightKeeps(s[..|s| - 1]); }
  }

  /** Trimming brings in no CJK character and takes none away. */
  lemma TrimKeeps(s: string)
    ensures NoCjk(s) ==> NoCjk(Trim(s))
    ensures AllCjk(s) ==> Trim(s) == s
  {
    TrimLeftKeeps(s);
    TrimRightKeeps(TrimLeft(s));
  }

  lemma RunIsPure(s: string, from: nat)
    requires from < |s|
    ensures var t := s[from..RunEnd(s, from)]; t != "" && if IsCjk(s[from]) then AllCjk(t) else NoCjk(t)
  {
    RunEndStops(s, from);
  }

  lemma {:induction false} RunEndStops(s: string, i: nat)
    requires i < |s|
    ensures forall k :: i <= k < RunEnd(s, i) ==> IsCjk(s[k]) == IsCjk(s[i])
    ensures RunEnd(s, i) < |s| ==> IsCjk(s[RunEnd(s, i)]) != IsCjk(s[i])
    decreases |s| - i
  {
    if i + 1 < |s| && IsCjk(s[i + 1]) == IsCjk(s[i]) {
      RunEndStops(s, i + 1);
    }
  }

  lemma {:induction false} PiecesAreValid(words: Words, s: string, from: nat)
    requires ForeignWords(words) && from <= |s|
    ensures ValidPieces(PiecesOf(words, RunsFrom(s, from)))
    decreases |s| - from
  {
    if from < |s| {
      RunEndStops(s, from);
      PiecesAreValid(words, s, RunEnd(s, from));
      var runs := RunsFrom(s, from);
      assert runs[1..] == RunsFrom(s, RunEnd(s, from));
      RunIsPure(s, from);
      TrimKeeps(runs[0].text);
    }
  }

  lemma SliceOfSlice(s: string, from: nat, to: nat, i: nat, j: nat)
    requires from <= to <= |s| && i <= j <= to - from
    ensures s[from..to][i..j] == s[from + i..from + j]
  {
    var a, b := s[from..to][i..j], s[from + i..from + j];
    forall k | 0 <= k < j - i ensures a[k] == b[k] {}
    assert |a| == |b|;
  }

  lemma CharsOf(s: string, q: string, i: int, k: nat)
    requires k < |q|
    ensures At(s, q, i) ==> s[i + k] == q[k]
  {
    if At(s, q, i) {
      assert s[i..i + |q|][k] == q[k];
    }
  }

  lemma OccursInside(s: string, from: nat, to: nat, q: string)
    requires from <= to <= |s| && Occurs(s[from..to], q)
    ensures Occurs(s, q)
  {
    var i :| 0 <= i <= |s[from..to]| && At(s[from..to], q, i);
    SliceOfSlice(s, from, to, i, i + |q|);
    assert At(s, q, from + i);
  }

  /** A CJK query that occurs from a position on lies in one stretch, and the other way round. */
  lemma {:induction false} StretchOfText(words: Words, s: string, from: nat, q: string)
    requires from <= |s| && q != "" && AllCjk(q)
    ensures StretchHas(PiecesOf(words, RunsFrom(s, from)), q) ==> Occurs(s, q)
    ensures forall i :: from <= i && At(s, q, i) ==> StretchHas(PiecesOf(words, RunsFrom(s, from)), q)
    decreases |s| - from
  {
    if from < |s| {
      var to := RunEnd(s, from);
      var runs := RunsFrom(s, from);
      var rest := PiecesOf(words, runs[1..]);
      assert runs[1..] == RunsFrom(s, to);
      RunEndStops(s, from);
      StretchOfText(words, s, to, q);
      var ps := PiecesOf(words, runs);
      if ps != rest {
        assert ps[1..] == rest;
        StretchHasStep(ps, q);
      }
      if IsCjk(s[from]) && Occurs(s[from..to], q) { OccursInside(s, from, to, q); }
      forall i | from <= i && At(s, q, i) ensures StretchHas(ps, q) {
        if i < to {
          InsideRun(s, from, to, i, q);
        }
      }
    }
  }

  lemma InsideRun(s: string, from: nat, to: nat, i: nat, q: string)
    requires from <= i < to <= |s| && q != "" && AllCjk(q) && At(s, q, i)
    requires forall k :: from <= k < to ==> IsCjk(s[k]) == IsCjk(s[from])
    requires to < |s| ==> IsCjk(s[to]) != IsCjk(s[from])
    ensures IsCjk(s[from]) && Occurs(s[from..to], q)
  {
    CharsOf(s, q, i, 0);
    CharsOf(s, q, i, if to < i + |q| then to - i else 0);
    SliceOfSlice(s, from, to, i - from, i - from + |q|);
    assert At(s[from..to], q, i - from);
  }

  lemma {:induction false} StretchIsFound(ps: seq<Piece>, q: string)
    requires ValidPieces(ps) && |q| >= 2 && AllCjk(q) && StretchHas(ps, q)
    ensures HasPhrase(Tokens(ps), Pairs(q))
  {
    hide Pairs, HasPhrase, AllCjk, Foreign;
    StretchHasStep(ps, q);
    PieceFinds(ps[0], q);
    if HasPhrase(TokensOf(ps[0]), Pairs(q)) {
      PhraseLeft(TokensOf(ps[0]), Tokens(ps[1..]), Pairs(q));
    } else {
      StretchIsFound(ps[1..], q);
      PhraseRight(TokensOf(ps[0]), Tokens(ps[1..]), Pairs(q));
    }
  }

  /** A CJK query of two characters or more finds every text it occurs in. */
  lemma SubstringIsFound(words: Words, s: string, q: string)
    requires ForeignWords(words) && |q| >= 2 && AllCjk(q) && Occurs(s, q)
    ensures HasPhrase(TextTokens(words, s), Pairs(q))
  {
    PiecesAreValid(words, s, 0);
    StretchOfText(words, s, 0, q);
    StretchIsFound(TextPieces(words, s), q);
  }

  /** In a text where no two stretches run on across a gap without words, it finds exactly those. */
  lemma ExactWithoutSeams(words: Words, s: string, q: string)
    requires ForeignWords(words) && |q| >= 2 && AllCjk(q) && Seamless(TextPieces(words, s))
    ensures HasPhrase(TextTokens(words, s), Pairs(q)) <==> Occurs(s, q)
  {
    PiecesAreValid(words, s, 0);
    StretchOfText(words, s, 0, q);
    SeamlessFinds(TextPieces(words, s), q);
  }

  /** In a text of CJK characters only, phrase search is substring search. */
  lemma ExactInCjkText(words: Words, s: string, q: string)
    requires ForeignWords(words) && |q| >= 2 && AllCjk(q) && s != "" && AllCjk(s)
    ensures HasPhrase(TextTokens(words, s), Pairs(q)) <==> Occurs(s, q)
  {
    RunEndStops(s, 0);
    var runs := RunsFrom(s, 0);
    assert RunEnd(s, 0) == |s| && runs == [Run(true, s[0..|s|])] + RunsFrom(s, |s|);
    assert runs[1..] == [] && PiecesOf(words, []) == [];
    assert TextPieces(words, s) == [Cjk(runs[0].text)] + PiecesOf(words, runs[1..]);
    ExactWithoutSeams(words, s, q);
  }

  /** Two stretches that run on across a gap are found by a query that spans the gap. */
  lemma SeamIsFound(a: string, b: string)
    requires |a| >= 2 && |b| >= 2 && AllCjk(a) && AllCjk(b) && a[|a| - 1] == b[0]
    ensures HasPhrase(Tokens([Cjk(a), Cjk(b)]), Pairs(a + b[1..]))
  {
    GluedPairs(a, b);
    var ps := [Cjk(a), Cjk(b)];
    assert ps[1..] == [Cjk(b)] && ps[1..][1..] == [];
    assert Tokens(ps[1..]) == Pairs(b) + Tokens([]);
    assert Tokens(ps) == Pairs(a) + Pairs(b);
    assert PhraseAt(Tokens(ps), Pairs(a + b[1..]), 0);
  }

  /** Search finds this text, in which the query does not occur: the blank between its stretches leaves no token. */
  lemma SpacedTextIsFound(words: Words)
    requires words("") == []
    ensures
      var text, query := "\U{4EBA}\U{5DE5} \U{5DE5}\U{667A}", "\U{4EBA}\U{5DE5}\U{667A}";
      !Occurs(text, query) && HasPhrase(TextTokens(words, text), Pairs(query))
  {
    var a, b := "\U{4EBA}\U{5DE5}", "\U{5DE5}\U{667A}";
    var text, query := a + " " + b, "\U{4EBA}\U{5DE5}\U{667A}";
    assert text == "\U{4EBA}\U{5DE5} \U{5DE5}\U{667A}";
    assert a + b[1..] == query;
    SeamIsFound(a, b);
    RunEndIs(text, 0, 2);
    RunEndIs(text, 2, 3);
    RunEndIs(text, 3, 5);
    assert text[0..2] == a && text[2..3] == " " && text[3..5] == b;
    var r3 := RunsFrom(text, 3);
    assert r3 == [Run(true, b)] + RunsFrom(text, 5);
    var r2 := RunsFrom(text, 2);
    assert r2 == [Run(false, " ")] + r3;
    assert RunsFrom(text, 0) == [Run(true, a)] + r2;
    assert Trim(" ") == "" by { assert " "[1..] == ""; }
    assert PiecesOf(words, r3) == [Cjk(b)] by { assert r3[1..] == []; }
    assert PiecesOf(words, r2) == [Cjk(b)] by { assert r2[1..] == r3; }
    assert TextPieces(words, text) == [Cjk(a)] + [Cjk(b)] by { assert RunsFrom(text, 0)[1..] == r2; }
    assert [Cjk(a)] + [Cjk(b)] == [Cjk(a), Cjk(b)];
    forall i | 0 <= i <= |text| ensures !At(text, query, i) {
      CharsOf(text, query, i, 0);
      CharsOf(text, query, i, 2);
    }
  }
}
