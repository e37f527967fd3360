/**
 * The pre-tokenizer of the full-text index (bigram in core/search.go): runs of CJK
 * characters become overlapping pairs, everything else is kept as it stands.
 */
module Bigram {
  import opened Common
  import opened Types

  predicate IsCjk(c: char) { '\U{4E00}' <= c <= '\U{9FFF}' }

  /** Where the run that starts at i stops: its characters are all CJK, or all not. */
  function RunEnd(s: string, i: nat): (n: nat)
    requires i < |s|
    ensures i < n <= |s|
    decreases |s| - i
  {
    if i + 1 < |s| && IsCjk(s[i + 1]) == IsCjk(s[i]) then RunEnd(s, i + 1) else i + 1
  }

  /** strings.TrimSpace */
  function Trim(s: string): string {
    TrimRight(TrimLeft(s))
  }

  function TrimLeft(s: string): string {
    if s != "" && IsSpace(s[0]) then TrimLeft(s[1..]) else s
  }

  function TrimRight(s: string): string {
    if s != "" && IsSpace(s[|s| - 1]) then TrimRight(s[..|s| - 1]) else s
  }

  /** The overlapping pairs of a run; a run of one character is its own token. */
  function Pairs(run: string): (ts: seq<string>)
    ensures |ts| == if |run| <= 1 then |run| else |run| - 1
  {
    if |run| == 1 then [run]
    else seq(if |run| == 0 then 0 else |run| - 1, i requires 0 <= i < |run| - 1 => run[i..i + 2])
  }

  function Join(parts: seq<string>): string {
    if parts == [] then ""
    else if |parts| == 1 then parts[0]
    else Join(parts[..|parts| - 1]) + " " + parts[|parts| - 1]
  }

  /** A stretch of the text on one side of the CJK boundary. */
  datatype Run = Run(cjk: bool, text: string)

  /** What one run contributes: nothing when it is only white space. */
  function RunText(run: Run): Option<string> {
    var seg := Trim(run.text);
    if seg == "" then None
    else if run.cjk then Some(Join(Pairs(seg)))
    else Some(seg)
  }

  /** s from i on, cut where CJK text starts or stops. */
  function RunsFrom(s: string, i: nat): seq<Run>
    requires i <= |s|
    decreases |s| - i
  {
    if i == |s| then [] else [Run(IsCjk(s[i]), s[i..RunEnd(s, i)])] + RunsFrom(s, RunEnd(s, i))
  }

  /** The texts of the runs that have any. */
  function Texts(runs: seq<Run>): (ts: seq<string>)
    ensures NoneEmpty(ts)
  {
    if runs == [] then []
    else
      var last := runs[|runs| - 1];
      RunTextNotEmpty(last);
      Texts(runs[..|runs| - 1]) + (match RunText(last) case Some(t) => [t] case None => [])
  }

  /** The text written to the index for s. */
  function BigramText(s: string): string {
    Join(Texts(RunsFrom(s, 0)))
  }

  predicate NoneEmpty(parts: seq<string>) {
    forall i :: 0 <= i < |parts| ==> parts[i] != ""
  }

  lemma JoinAppend(parts: seq<string>, p: string)
    ensures Join(parts + [p]) == if parts == [] then p else Join(parts) + " " + p
  {
    assert (parts + [p])[..|parts|] == parts;
  }

  lemma {:induction false} JoinIsEmpty(parts: seq<string>)
    requires NoneEmpty(parts)
    ensures Join(parts) == "" <==> parts == []
  {
  }

  lemma RunTextNotEmpty(run: Run)
    ensures RunText(run).Some? ==> RunText(run).value != ""
  {
    var seg := Trim(run.text);
    if seg != "" && run.cjk {
      var ps := Pairs(seg);
      JoinIsEmpty(ps);
    }
  }

  /** The pairs of a trimmed CJK run, written one by one. */
  method WritePairs(b0: string, seg: string) returns (b: string)
    requires seg != ""
    ensures b == b0 + Join(Pairs(seg))
  {
    b := b0;
    ghost var ps := Pairs(seg);
    var i := 0;
    while i < |seg| - 1
      invariant 0 <= i && (|seg| > 1 ==> i <= |ps|)
      invariant |seg| == 1 ==> i == 0
      invariant b == b0 + if |seg| == 1 then "" else Join(ps[..i])
    {
      if i > 0 {
        b := b + " ";
      }
      b := b + seg[i..i + 2];
      JoinAppend(ps[..i], ps[i]);
      assert ps[..i + 1] == ps[..i] + [ps[i]];
      if i > 0 {
        assert Join(ps[..i + 1]) == Join(ps[..i]) + " " + ps[i];
      }
      i := i + 1;
    }
    if |seg| == 1 {
      b := b + seg;
    } else {
      assert ps[..i] == ps;
    }
  }

  lemma TextsAppend(runs: seq<Run>, run: Run)
    ensures Texts(runs + [run]) == Texts(runs) + (match RunText(run) case Some(t) => [t] case None => [])
  {
    assert (runs + [run])[..|runs|] == runs;
  }

  /** The closure `flush`: append one run to the text built so far. */
  method Flush(b0: string, run: Run, ghost done: seq<Run>) returns (b: string)
    requires b0 == Join(Texts(done))
    ensures b == Join(Texts(done + [run]))
  {
    b := b0;
    var seg := Trim(run.text);
    TextsAppend(done, run);
    assert Texts(done) + [] == Texts(done);
    if seg == "" {
      return;
    }
    JoinAppend(Texts(done), RunText(run).value);
    JoinIsEmpty(Texts(done));
    if b != "" {
      b := b + " ";
    }
    if run.cjk {
      b := WritePairs(b, seg);
    } else {
      b := b + seg;
    }
  }

  lemma {:induction false} RunEndIs(s: string, from: nat, to: nat)
    requires from < to <= |s|
    requires forall k :: from <= k < to ==> IsCjk(s[k]) == IsCjk(s[from])
    requires to < |s| ==> IsCjk(s[to]) != IsCjk(s[from])
    ensures RunEnd(s, from) == to
    decreases |s| - from
  {
    if from + 1 < to {
      RunEndIs(s, from + 1, to);
    }
  }

  /** A flush moves one run from the text still to scan to the runs already written. */
  lemma RunMoves(s: string, done: seq<Run>, from: nat, to: nat)
    requires from < to <= |s| && RunsFrom(s, 0) == done + RunsFrom(s, from)
    requires forall k :: from <= k < to ==> IsCjk(s[k]) == IsCjk(s[from])
    requires to < |s| ==> IsCjk(s[to]) != IsCjk(s[from])
    ensures RunsFrom(s, 0) == (done + [Run(IsCjk(s[from]), s[from..to])]) + RunsFrom(s, to)
    ensures to == |s| ==> RunsFrom(s, 0) == done + [Run(IsCjk(s[from]), s[from..to])]
  {
    var (a, b) := ([Run(IsCjk(s[from]), s[from..to])], RunsFrom(s, to));
    RunComesFirst(s, from, to);
    if to == |s| { assert b == []; }
    hide RunsFrom;
    assert done + (a + b) == (done + a) + b;
  }

  lemma RunComesFirst(s: string, from: nat, to: nat)
    requires from < to <= |s|
    requires forall k :: from <= k < to ==> IsCjk(s[k]) == IsCjk(s[from])
    requires to < |s| ==> IsCjk(s[to]) != IsCjk(s[from])
    ensures RunsFrom(s, from) == [Run(IsCjk(s[from]), s[from..to])] + RunsFrom(s, to)
  {
    RunEndIs(s, from, to);
  }

  /**
   * The scan as the source runs it. The source classifies the first byte, not the first
   * character; no byte is in the CJK range, so the scan starts outside a CJK run.
   */
  method Scan(s: string) returns (b: string)
    ensures b == BigramText(s)
  {
    hide *;
    b := "";
    StartsWithNothing(s);
    if s == "" {
      return;
    }
    var segStart, inCjk := 0, false;
    ghost var done: seq<Run> := [];
    for i := 0 to |s|
      invariant 0 <= segStart <= i && (i > 0 ==> segStart < i)
      invariant RunsFrom(s, 0) == done + RunsFrom(s, segStart)
      invariant forall k :: segStart <= k < i ==> IsCjk(s[k]) == inCjk
      invariant b == Join(Texts(done))
    {
      if IsCjk(s[i]) != inCjk {
        if segStart < i {
          RunMoves(s, done, segStart, i);
          b := Flush(b, Run(inCjk, s[segStart..i]), done);
          done := done + [Run(inCjk, s[segStart..i])];
        }
        segStart, inCjk := i, IsCjk(s[i]);
      }
    }
    assert s[segStart..|s|] == s[segStart..];
    RunMoves(s, done, segStart, |s|);
    b := Flush(b, Run(inCjk, s[segStart..]), done);
    TextOfRuns(s);
  }

  lemma StartsWithNothing(s: string)
    ensures RunsFrom(s, 0) == [] + RunsFrom(s, 0) && Join(Texts([])) == ""
    ensures s == "" ==> BigramText(s) == ""
  {
  }

  lemma TextOfRuns(s: string)
    ensures BigramText(s) == Join(Texts(RunsFrom(s, 0)))
  {
  }
}
