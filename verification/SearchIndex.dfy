/** The tokens the full-text index holds for a text: the tokenizer applied to what the scan writes. */
module SearchIndex {
  import opened Bigram
  import opened BigramSearch
  import opened Store
  import opened Invariants
  import opened Types

  // ---------------------------------------------------------------- the tokenizer

  /** A blank separates, and a text of CJK characters is one token: what FTS5's tokenizer does with the written text. */
  ghost predicate Tokenizer(words: Words) {
    && words("") == []
    && (forall a, b :: words(a + " " + b) == words(a) + words(b))
    && (forall t :: t != "" && AllCjk(t) ==> words(t) == [t])
    && ForeignWords(words)
  }

  /** The words of a text between blanks, after the part of a word that is read already. */
  function SplitFrom(word: string, t: string): seq<string>
    decreases |t|
  {
    if t == "" then (if word == "" then [] else [word])
    else if t[0] == ' ' then (if word == "" then [] else [word]) + SplitFrom("", t[1..])
    else SplitFrom(word + [t[0]], t[1..])
  }

  function SplitBlanks(t: string): seq<string> { SplitFrom("", t) }

  lemma {:induction false} SplitAtBlank(word: string, a: string, b: string)
    ensures SplitFrom(word, a + " " + b) == SplitFrom(word, a) + SplitFrom("", b)
    decreases |a|
  {
    if a == "" {
      assert (a + " " + b)[1..] == b;
    } else {
      assert (a + " " + b)[1..] == a[1..] + " " + b;
      SplitAtBlank(if a[0] == ' ' then "" else word + [a[0]], a[1..], b);
    }
  }

  lemma {:induction false} SplitKeepsWord(word: string, t: string)
    requires AllCjk(t) && word + t != ""
    ensures SplitFrom(word, t) == [word + t]
    decreases |t|
  {
    if t == "" {
      assert word + t == word;
    } else {
      SplitKeepsWord(word + [t[0]], t[1..]);
      assert word + [t[0]] + t[1..] == word + t;
    }
  }

  lemma {:induction false} SplitIsForeign(word: string, t: string)
    requires NoCjk(word) && NoCjk(t)
    ensures Foreign(SplitFrom(word, t))
    decreases |t|
  {
    assert word != "" ==> !IsCjk(word[0]);
    if t != "" { SplitIsForeign(if t[0] == ' ' then "" else word + [t[0]], t[1..]); }
  }

  /** There is such a tokenizer: the one that splits at blanks. */
  lemma SplitBlanksIsTokenizer()
    ensures Tokenizer(SplitBlanks)
  {
    forall a, b ensures SplitBlanks(a + " " + b) == SplitBlanks(a) + SplitBlanks(b) { SplitAtBlank("", a, b); }
    forall t | t != "" && AllCjk(t) ensures SplitBlanks(t) == [t] {
      SplitKeepsWord("", t);
      assert "" + t == t;
    }
    forall t | NoCjk(t) ensures Foreign(SplitBlanks(t)) { SplitIsForeign("", t); }
  }

  /** The tokens of a list of texts. */
  function Cut(words: Words, parts: seq<string>): seq<string> {
    if parts == [] then [] else Cut(words, parts[..|parts| - 1]) + words(parts[|parts| - 1])
  }

  lemma {:induction false} JoinIsCut(words: Words, parts: seq<string>)
    requires Tokenizer(words)
    ensures words(Join(parts)) == Cut(words, parts)
    decreases |parts|
  {
    if parts != [] {
      var init, last := parts[..|parts| - 1], parts[|parts| - 1];
      JoinIsCut(words, init);
      if init == [] { assert Cut(words, parts) == [] + words(last); }
    }
  }

  lemma CutSnoc(words: Words, parts: seq<string>, p: string)
    ensures Cut(words, parts + [p]) == Cut(words, parts) + words(p)
  {
    assert (parts + [p])[..|parts|] == parts;
  }

  /** Tokens of CJK characters are cut into themselves. */
  lemma {:induction false} CutKeepsCjk(words: Words, parts: seq<string>)
    requires Tokenizer(words) && forall i :: 0 <= i < |parts| ==> parts[i] != "" && AllCjk(parts[i])
    ensures Cut(words, parts) == parts
    decreases |parts|
  {
    if parts != [] {
      CutKeepsCjk(words, parts[..|parts| - 1]);
      assert parts == parts[..|parts| - 1] + [parts[|parts| - 1]];
    }
  }

  lemma PairsAreCjk(t: string)
    requires AllCjk(t)
    ensures forall i :: 0 <= i < |Pairs(t)| ==> Pairs(t)[i] != "" && AllCjk(Pairs(t)[i])
  {
  }

  // ---------------------------------------------------------------- runs

  predicate Pure(r: Run) { r.text != "" && if r.cjk then AllCjk(r.text) else NoCjk(r.text) }

  predicate AllPure(runs: seq<Run>) { forall i :: 0 <= i < |runs| ==> Pure(runs[i]) }

  /** The tokens one run puts into the index. */
  function RunTokens(words: Words, r: Run): seq<string> {
    if r.cjk then Pairs(r.text) else words(Trim(r.text))
  }

  lemma {:induction false} RunsArePure(s: string, from: nat)
    requires from <= |s|
    ensures AllPure(RunsFrom(s, from))
    decreases |s| - from
  {
    if from < |s| {
      RunIsPure(s, from);
      RunsArePure(s, RunEnd(s, from));
    }
  }

  lemma RunIsCut(words: Words, r: Run)
    requires Tokenizer(words) && Pure(r)
    ensures RunTokens(words, r) == match RunText(r) case Some(t) => words(t) case None => []
  {
    TrimKeeps(r.text);
    if r.cjk {
      PairsAreCjk(r.text);
      JoinIsCut(words, Pairs(r.text));
      CutKeepsCjk(words, Pairs(r.text));
    }
  }

  lemma {:induction false} PiecesSnoc(words: Words, runs: seq<Run>, r: Run)
    ensures Tokens(PiecesOf(words, runs + [r])) == Tokens(PiecesOf(words, runs)) + RunTokens(words, r)
  {
    hide *;
    var all := runs + [r];
    PiecesCons(words, all);
    if runs == [] {
      NoRunsNoTokens(words);
      assert all[0] == r && all[1..] == runs == [];
    } else {
      assert all[0] == runs[0] && all[1..] == runs[1..] + [r];
      PiecesSnoc(words, runs[1..], r);
      PiecesCons(words, runs);
    }
  }

  lemma PiecesCons(words: Words, runs: seq<Run>)
    requires runs != []
    ensures Tokens(PiecesOf(words, runs)) == RunTokens(words, runs[0]) + Tokens(PiecesOf(words, runs[1..]))
  {
    hide Pairs;
    var ps, rest := PiecesOf(words, runs), PiecesOf(words, runs[1..]);
    if ps != rest { assert ps[1..] == rest; }
  }

  lemma CutMore(words: Words, init: seq<Run>, last: Run)
    ensures Cut(words, Texts(init + [last]))
      == Cut(words, Texts(init)) + match RunText(last) case Some(t) => words(t) case None => []
  {
    hide Cut, Texts, RunText;
    TextsAppend(init, last);
    if RunText(last).Some? {
      CutSnoc(words, Texts(init), RunText(last).value);
    } else {
      assert Texts(init) + [] == Texts(init);
    }
  }

  lemma NoRunsNoTokens(words: Words)
    ensures Tokens(PiecesOf(words, [])) == [] && Cut(words, Texts([])) == []
  {
  }

  lemma PureParts(init: seq<Run>, last: Run)
    requires AllPure(init + [last])
    ensures AllPure(init) && Pure(last)
  {
    assert (init + [last])[|init|] == last;
    assert forall i :: 0 <= i < |init| ==> init[i] == (init + [last])[i];
  }

  lemma {:induction false} RunsAreCut(words: Words, runs: seq<Run>)
    requires Tokenizer(words) && AllPure(runs)
    ensures Tokens(PiecesOf(words, runs)) == Cut(words, Texts(runs))
    decreases |runs|
  {
    hide *;
    if runs == [] {
      NoRunsNoTokens(words);
    } else {
      var init, last := runs[..|runs| - 1], runs[|runs| - 1];
      assert runs == init + [last];
      PureParts(init, last);
      RunsAreCut(words, init);
      PiecesSnoc(words, init, last);
      RunIsCut(words, last);
      CutMore(words, init, last);
    }
  }

  // ---------------------------------------------------------------- what the index finds

  /** The tokenizer cuts the text the scan writes into the tokens the search lemmas speak of. */
  lemma IndexedTokens(words: Words, s: string)
    requires Tokenizer(words)
    ensures words(BigramText(s)) == TextTokens(words, s)
  {
    RunsArePure(s, 0);
    RunsAreCut(words, RunsFrom(s, 0));
    JoinIsCut(words, Texts(RunsFrom(s, 0)));
  }

  /** The phrase a CJK query is turned into. */
  lemma QueryPhrase(words: Words, q: string)
    requires Tokenizer(words) && q != "" && AllCjk(q)
    ensures words(BigramText(q)) == Pairs(q)
  {
    IndexedTokens(words, q);
    RunEndStops(q, 0);
    var runs := RunsFrom(q, 0);
    assert RunEnd(q, 0) == |q| && runs == [Run(true, q[0..|q|])] + RunsFrom(q, |q|);
    assert q[0..|q|] == q && runs[1..] == [];
    PiecesCons(words, runs);
    assert Tokens(PiecesOf(words, [])) == [];
  }

  /**
   * On the index as it is stored: a CJK query of two characters or more finds the body of every indexed node
   * whose text it occurs in, and where no two CJK stretches run on across a gap without words, no other.
   */
  lemma IndexFindsSubstrings(words: Words, schema: Schema, n: Node, q: string)
    requires Tokenizer(words) && |q| >= 2 && forall i :: 0 <= i < |q| ==> '\U{4E00}' <= q[i] <= '\U{9FFF}'
    requires n.typ in schema && schema[n.typ].searchable.Some?
    ensures
      var text := SearchableText(schema[n.typ].searchable.value, n.fields);
      && (Occurs(text, q) ==>
         DocOf(schema, n).Some? && HasPhrase(words(DocOf(schema, n).value.body), words(BigramText(q))))
      && (Seamless(TextPieces(words, text)) && DocOf(schema, n).Some? ==>
            (HasPhrase(words(DocOf(schema, n).value.body), words(BigramText(q))) <==> Occurs(text, q)))
  {
    assert AllCjk(q);
    hide BigramText, TextTokens, Pairs, Seamless, Occurs, HasPhrase, AllCjk, Tokenizer, SearchableText;
    var text := SearchableText(schema[n.typ].searchable.value, n.fields);
    assert q != "";
    QueryPhrase(words, q);
    IndexedTokens(words, text);
    TokenizerIsForeign(words);
    if Occurs(text, q) {
      SubstringIsFound(words, text, q);
      PairsNotEmpty(q);
      PhraseNeedsTokens(words(BigramText(text)), Pairs(q));
    }
    if Seamless(TextPieces(words, text)) { ExactWithoutSeams(words, text, q); }
  }

  /** The same for the display text, which every searchable type has in its index. */
  lemma IndexFindsDisplays(words: Words, schema: Schema, n: Node, q: string)
    requires Tokenizer(words) && |q| >= 2 && forall i :: 0 <= i < |q| ==> '\U{4E00}' <= q[i] <= '\U{9FFF}'
    requires n.typ in schema && schema[n.typ].searchable.Some?
    ensures Occurs(n.display, q) ==>
      DocOf(schema, n).Some? && HasPhrase(words(DocOf(schema, n).value.display), words(BigramText(q)))
    ensures Seamless(TextPieces(words, n.display)) && DocOf(schema, n).Some? ==>
      (HasPhrase(words(DocOf(schema, n).value.display), words(BigramText(q))) <==> Occurs(n.display, q))
  {
    assert AllCjk(q);
    hide BigramText, TextTokens, Pairs, Seamless, Occurs, HasPhrase, AllCjk, Tokenizer, SearchableText;
    assert q != "";
    QueryPhrase(words, q);
    IndexedTokens(words, n.display);
    TokenizerIsForeign(words);
    if Occurs(n.display, q) {
      SubstringIsFound(words, n.display, q);
      PairsNotEmpty(q);
      PhraseNeedsTokens(words(BigramText(n.display)), Pairs(q));
    }
    if Seamless(TextPieces(words, n.display)) { ExactWithoutSeams(words, n.display, q); }
  }

  lemma PairsNotEmpty(q: string)
    requires |q| >= 2
    ensures Pairs(q) != []
  {
  }

  lemma TokenizerIsForeign(words: Words)
    requires Tokenizer(words)
    ensures ForeignWords(words) && words("") == []
  {
  }

  lemma PhraseNeedsTokens(ts: seq<string>, p: seq<string>)
    requires HasPhrase(ts, p) && p != []
    ensures ts != []
  {
    var i :| 0 <= i <= |ts| && PhraseAt(ts, p, i);
  }

  // ---------------------------------------------------------------- what is indexed

  /** Two texts with a blank between them, or the one that is not empty. */
  function Beside(a: string, b: string): string {
    if a == "" then b else if b == "" then a else a + " " + b
  }

  /** One declared field adds the text it holds; a missing value, another sort of value and "" add nothing. */
  lemma SearchableOne(name: string, fields: Fields)
    ensures SearchableText([name], fields) == if name in fields && fields[name].Str? then fields[name].s else ""
  {
    assert [name][1..] == [] && TextValues([], fields) == [];
  }

  /** The searchable text takes the declared fields in order. */
  lemma {:induction false} SearchableAppend(a: seq<string>, b: seq<string>, fields: Fields)
    ensures SearchableText(a + b, fields) == Beside(SearchableText(a, fields), SearchableText(b, fields))
  {
    TextValuesAppend(a, b, fields);
    ValuesNotEmpty(a, fields);
    ValuesNotEmpty(b, fields);
    JoinBeside(TextValues(a, fields), TextValues(b, fields));
  }

  lemma {:induction false} TextValuesAppend(a: seq<string>, b: seq<string>, fields: Fields)
    ensures TextValues(a + b, fields) == TextValues(a, fields) + TextValues(b, fields)
    decreases |a|
  {
    if a == [] {
      assert a + b == b;
    } else {
      assert (a + b)[0] == a[0] && (a + b)[1..] == a[1..] + b;
      TextValuesAppend(a[1..], b, fields);
    }
  }

  lemma {:induction false} ValuesNotEmpty(names: seq<string>, fields: Fields)
    ensures NoneEmpty(TextValues(names, fields))
    decreases |names|
  {
    if names != [] { ValuesNotEmpty(names[1..], fields); }
  }

  lemma {:induction false} JoinBeside(a: seq<string>, b: seq<string>)
    requires NoneEmpty(a) && NoneEmpty(b)
    ensures Join(a + b) == Beside(Join(a), Join(b))
    decreases |b|
  {
    JoinIsEmpty(a);
    JoinIsEmpty(b);
    if b == [] {
      assert a + b == a;
    } else {
      var init, last := b[..|b| - 1], b[|b| - 1];
      assert a + b == (a + init) + [last] && b == init + [last];
      JoinBeside(a, init);
      JoinAppend(a + init, last);
      JoinAppend(init, last);
      JoinIsEmpty(init);
      JoinIsEmpty(a + init);
    }
  }

  /** Nothing is written for a text of white space only. */
  lemma BigramIsEmptyIff(s: string)
    ensures BigramText(s) == "" <==> Blank(s)
  {
    var runs := RunsFrom(s, 0);
    JoinIsEmpty(Texts(runs));
    TextsEmptyIff(runs);
    RunsAreBlankIff(s, 0);
    assert s[0..] == s;
    hide Blank, Texts, RunsFrom, Join;
  }

  predicate AllBlank(runs: seq<Run>) { forall i :: 0 <= i < |runs| ==> Blank(runs[i].text) }

  lemma {:induction false} TextsEmptyIff(runs: seq<Run>)
    ensures Texts(runs) == [] <==> AllBlank(runs)
    decreases |runs|
  {
    hide Trim, Blank, Pairs, Join;
    if runs != [] {
      var init, last := runs[..|runs| - 1], runs[|runs| - 1];
      TextsEmptyIff(init);
      TrimIsEmptyIff(last.text);
      assert forall i :: 0 <= i < |init| ==> init[i] == runs[i];
      if Texts(runs) == [] { assert Texts(init) == []; }
    }
  }

  lemma {:induction false} RunsAreBlankIff(s: string, from: nat)
    requires from <= |s|
    ensures AllBlank(RunsFrom(s, from)) <==> Blank(s[from..])
    decreases |s| - from
  {
    if from < |s| {
      var to := RunEnd(s, from);
      RunsAreBlankIff(s, to);
      var first, rest := Run(IsCjk(s[from]), s[from..to]), RunsFrom(s, to);
      BlankParts(s[from..to], s[to..]);
      assert s[from..] == s[from..to] + s[to..];
      AllBlankCons(first, rest);
    } else {
      assert s[from..] == "";
    }
  }

  lemma AllBlankCons(first: Run, rest: seq<Run>)
    ensures AllBlank([first] + rest) <==> Blank(first.text) && AllBlank(rest)
  {
    hide Blank;
    if AllBlank([first] + rest) {
      assert ([first] + rest)[0] == first;
      forall i | 0 <= i < |rest| ensures Blank(rest[i].text) { assert ([first] + rest)[i + 1] == rest[i]; }
    }
  }

  lemma BlankParts(a: string, b: string)
    ensures Blank(a + b) <==> Blank(a) && Blank(b)
  {
    if Blank(a + b) {
      assert forall i :: 0 <= i < |a| ==> a[i] == (a + b)[i];
      assert forall i :: 0 <= i < |b| ==> b[i] == (a + b)[|a| + i];
    }
  }

  /** Trimming takes the white space off both ends, and nothing else. */
  lemma TrimIs(before: string, s: string, after: string)
    requires Blank(before) && Blank(after) && (s == "" || (!IsSpace(s[0]) && !IsSpace(s[|s| - 1])))
    ensures Trim(before + s + after) == s
  {
    var text := before + s + after;
    if s == "" {
      BlankParts(before, after);
      assert text == before + after;
      TrimIsEmptyIff(text);
    } else {
      assert text == before + (s + after);
      TrimmedLeft(before, s + after);
      TrimmedRight(s, after);
    }
    hide IsSpace, TrimLeft, TrimRight, Blank;
  }

  lemma {:induction false} TrimmedLeft(before: string, t: string)
    requires Blank(before) && t != "" && !IsSpace(t[0])
    ensures TrimLeft(before + t) == t
    decreases |before|
  {
    hide IsSpace;
    if before == "" {
      assert before + t == t;
    } else {
      assert (before + t)[0] == before[0] && (before + t)[1..] == before[1..] + t;
      TrimmedLeft(before[1..], t);
    }
  }

  lemma {:induction false} TrimmedRight(t: string, after: string)
    requires Blank(after) && t != "" && !IsSpace(t[|t| - 1])
    ensures TrimRight(t + after) == t
    decreases |after|
  {
    hide IsSpace;
    if after == "" {
      assert t + after == t;
    } else {
      var n := |t + after| - 1;
      assert (t + after)[n] == after[|after| - 1] && (t + after)[..n] == t + after[..|after| - 1];
      TrimmedRight(t, after[..|after| - 1]);
    }
  }

  lemma TrimIsEmptyIff(s: string)
    ensures Trim(s) == "" <==> Blank(s)
  {
    TrimLeftEmpty(s);
    TrimRightEmpty(TrimLeft(s));
  }

  lemma {:induction false} TrimLeftEmpty(s: string)
    ensures Blank(s) <==> TrimLeft(s) == ""
    ensures Blank(TrimLeft(s)) ==> TrimLeft(s) == ""
    decreases |s|
  {
    if s != "" && IsSpace(s[0]) {
      TrimLeftEmpty(s[1..]);
      BlankParts([s[0]], s[1..]);
      assert s == [s[0]] + s[1..];
    } else if s != "" {
      assert !IsSpace(s[0]);
    }
  }

  lemma {:induction false} TrimRightEmpty(s: string)
    ensures TrimRight(s) == "" <==> Blank(s)
    decreases |s|
  {
    if s != "" && IsSpace(s[|s| - 1]) {
      TrimRightEmpty(s[..|s| - 1]);
      BlankParts(s[..|s| - 1], [s[|s| - 1]]);
      assert s == s[..|s| - 1] + [s[|s| - 1]];
    } else if s != "" {
      assert !IsSpace(s[|s| - 1]);
    }
  }

  lemma {:induction false} SearchableIsBlankIff(names: seq<string>, fields: Fields)
    ensures Blank(SearchableText(names, fields))
      <==> forall k :: k in names && k in fields && fields[k].Str? ==> Blank(fields[k].s)
    decreases |names|
  {
    if names == [] {
      assert SearchableText([], fields) == "";
    } else {
      SearchableIsBlankIff(names[1..], fields);
      assert names == [names[0]] + names[1..];
      SearchableAppend([names[0]], names[1..], fields);
      SearchableOne(names[0], fields);
      hide SearchableText;
      BesideIsBlankIff(SearchableText([names[0]], fields), SearchableText(names[1..], fields));
    }
  }

  lemma BesideIsBlankIff(a: string, b: string)
    ensures Blank(Beside(a, b)) <==> Blank(a) && Blank(b)
  {
    BlankParts(a + " ", b);
    BlankParts(a, " ");
    assert a + " " + b == (a + " ") + b;
  }

  /**
   * A node has an index row exactly when its type is searchable and its display, or some declared field that
   * holds a text, has more than white space.
   */
  lemma IndexedIff(schema: Schema, db: DB, id: int)
    requires Inv(schema, db)
    ensures id in db.index
      <==> && id in db.nodes && schema[db.nodes[id].typ].searchable.Some?
           && var (n, names) := (db.nodes[id], schema[db.nodes[id].typ].searchable.value);
              !Blank(n.display) || exists k :: k in names && k in n.fields && n.fields[k].Str? && !Blank(n.fields[k].s)
  {
    if id in db.nodes {
      var n := db.nodes[id];
      assert ValidNode(schema, n);
      if schema[n.typ].searchable.Some? {
        var names := schema[n.typ].searchable.value;
        BigramIsEmptyIff(n.display);
        BigramIsEmptyIff(SearchableText(names, n.fields));
        SearchableIsBlankIff(names, n.fields);
      }
      hide SearchableText, BigramText, Blank, ValidNode, ValidGraph;
    }
  }
}
