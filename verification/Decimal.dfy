/** Decimal text, comma-delimited paths, and the substring test the traversal queries prune with. */
module Decimal {
  import opened Common

  /** The digits of a natural number. */
  function Dec(n: nat): (s: string)
    ensures if n < 10 then |s| == 1 else |s| >= 2
    ensures forall i :: 0 <= i < |s| ==> '0' <= s[i] <= '9'
  {
    if n < 10 then ['0' + n as char] else Dec(n / 10) + ['0' + (n % 10) as char]
  }

  lemma {:induction false} DecIsInjective(m: nat, n: nat)
    requires Dec(m) == Dec(n)
    ensures m == n
    decreases m
  {
    var s, t := Dec(m), Dec(n);
    assert s[|s| - 1] == '0' + (m % 10) as char && t[|t| - 1] == '0' + (n % 10) as char;
    assert m % 10 == n % 10;
    if m >= 10 && n >= 10 {
      assert s[..|s| - 1] == Dec(m / 10) && t[..|t| - 1] == Dec(n / 10);
      DecIsInjective(m / 10, n / 10);
    }
  }

  /** printf('%d', n) */
  function Num(n: int): (s: string)
    ensures s != "" && forall i :: 0 <= i < |s| ==> s[i] != ','
  {
    if n < 0 then "-" + Dec(-n) else Dec(n)
  }

  lemma NumIsInjective(m: int, n: int)
    requires Num(m) == Num(n)
    ensures m == n
  {
    assert Num(m)[0] == '-' <==> m < 0;
    assert Num(n)[0] == '-' <==> n < 0;
    if m < 0 && n < 0 {
      assert Num(m)[1..] == Dec(-m) && Num(n)[1..] == Dec(-n);
      DecIsInjective(-m, -n);
    } else if m >= 0 && n >= 0 {
      DecIsInjective(m, n);
    }
  }

  predicate At(s: string, sub: string, i: int) {
    0 <= i <= |s| - |sub| && s[i..i + |sub|] == sub
  }

  /** instr(s, sub) > 0 */
  predicate Instr(s: string, sub: string) {
    exists i :: 0 <= i <= |s| && At(s, sub, i)
  }

  predicate CommaFree(t: string) { forall i :: 0 <= i < |t| ==> t[i] != ',' }

  /** Parts joined and enclosed by commas. */
  function Delimited(parts: seq<string>): string {
    if parts == [] then "," else "," + parts[0] + Delimited(parts[1..])
  }

  lemma DelimitedStarts(parts: seq<string>)
    ensures Delimited(parts) != "" && Delimited(parts)[0] == ','
  {
  }

  lemma {:induction false} DelimitedAppend(parts: seq<string>, t: string)
    ensures Delimited(parts + [t]) == Delimited(parts) + t + ","
    decreases |parts|
  {
    if parts == [] {
      assert Delimited([t]) == "," + t + Delimited([t][1..]) && [t][1..] == [];
    } else {
      DelimitedAppend(parts[1..], t);
      assert (parts + [t])[1..] == parts[1..] + [t];
      assert "," + parts[0] + (Delimited(parts[1..]) + t + ",") == ("," + parts[0] + Delimited(parts[1..])) + t + ",";
    }
  }

  /** Two comma-free strings, each followed by a comma, at the same place are the same. */
  lemma SamePart(a: string, b: string, rest: string)
    requires |b + rest| > |a| && a + "," == (b + rest)[..|a| + 1] && rest != "" && rest[0] == ','
    requires CommaFree(a) && CommaFree(b)
    ensures a == b
  {
    var s := b + rest;
    assert s[|b|] == ',';
    assert (a + ",")[|a|] == ',' && s[|a|] == ',';
    assert forall i :: 0 <= i < |a| ==> s[i] == (a + ",")[i] == a[i];
    assert forall i :: 0 <= i < |b| ==> s[i] == b[i];
    assert |a| == |b|;
  }

  lemma {:induction false} MarkIsPart(parts: seq<string>, t: string)
    requires CommaFree(t) && t != "" && forall i :: 0 <= i < |parts| ==> CommaFree(parts[i])
    requires Instr(Delimited(parts), "," + t + ",")
    ensures exists i :: 0 <= i < |parts| && parts[i] == t
    decreases |parts|
  {
    var s, m := Delimited(parts), "," + t + ",";
    var i :| 0 <= i <= |s| && At(s, m, i);
    if parts != [] {
      var d, rest := parts[0], Delimited(parts[1..]);
      DelimitedStarts(parts[1..]);
      MarkSplits(d, rest, t, i);
      hide Delimited, CommaFree;
      if i == 0 {
        assert parts[0] == t;
      } else {
        MarkIsPart(parts[1..], t);
        var k :| 0 <= k < |parts| - 1 && parts[1..][k] == t;
        assert parts[k + 1] == t;
      }
    }
  }

  /** A mark at the front is the first part; anywhere else it is in the rest. */
  lemma MarkSplits(d: string, rest: string, t: string, i: nat)
    requires CommaFree(t) && CommaFree(d) && t != "" && rest != "" && rest[0] == ','
    requires At("," + d + rest, "," + t + ",", i)
    ensures if i == 0 then d == t else Instr(rest, "," + t + ",")
  {
    var s, m := "," + d + rest, "," + t + ",";
    assert s[i] == s[i..i + |m|][0] == m[0] == ',';
    assert forall j :: 1 <= j <= |d| ==> s[j] == d[j - 1];
    if i == 0 {
      assert s == ("," + d) + rest;
      assert (d + rest) == s[1..];
      assert t + "," == m[1..] == s[1..|m|] == (d + rest)[..|t| + 1];
      SamePart(t, d, rest);
    } else {
      var j := i - 1 - |d|;
      assert At(rest, m, j) by { assert rest[j..j + |m|] == s[i..i + |m|]; }
    }
  }

  lemma {:induction false} PartHasMark(parts: seq<string>, k: nat)
    requires k < |parts|
    ensures Instr(Delimited(parts), "," + parts[k] + ",")
    decreases |parts|
  {
    var s, d, rest, m := Delimited(parts), parts[0], Delimited(parts[1..]), "," + parts[k] + ",";
    assert s == "," + d + rest;
    DelimitedStarts(parts[1..]);
    if k == 0 {
      assert At(s, m, 0);
    } else {
      PartHasMark(parts[1..], k - 1);
      var j :| 0 <= j <= |rest| && At(rest, m, j);
      var i := j + 1 + |d|;
      assert At(s, m, i) by { assert s[i..i + |m|] == rest[j..j + |m|]; }
    }
  }

  /** A path as the queries carry it: ",1,5,7,". */
  function PathText(p: seq<int>): string { Delimited(MapSeq(p, n => Num(n))) }

  /** printf(',%d,', n), the text looked for in a path. */
  function Mark(n: int): string { "," + Num(n) + "," }

  lemma PathTextAppend(p: seq<int>, n: int)
    ensures PathText(p + [n]) == PathText(p) + Num(n) + ","
  {
    var f := (x: int) => Num(x);
    assert MapSeq(p + [n], f) == MapSeq(p, f) + [Num(n)];
    DelimitedAppend(MapSeq(p, f), Num(n));
  }

  /** The comma-delimited test is exact membership. */
  lemma MarkIffInPath(p: seq<int>, n: int)
    ensures Instr(PathText(p), Mark(n)) <==> n in p
  {
    var parts := MapSeq(p, x => Num(x));
    if Instr(PathText(p), Mark(n)) {
      MarkIsPart(parts, Num(n));
      var i :| 0 <= i < |parts| && parts[i] == Num(n);
      NumIsInjective(p[i], n);
    }
    if n in p {
      var k :| 0 <= k < |p| && p[k] == n;
      PartHasMark(parts, k);
    }
  }

  lemma {:induction false} DelimitedIsInjective(a: seq<string>, b: seq<string>)
    requires Delimited(a) == Delimited(b)
    requires (forall i :: 0 <= i < |a| ==> CommaFree(a[i])) && forall i :: 0 <= i < |b| ==> CommaFree(b[i])
    ensures a == b
    decreases |a|
  {
    DelimitedIsComma(a);
    DelimitedIsComma(b);
    if a != [] && b != [] {
      var (r, t) := (Delimited(a[1..]), Delimited(b[1..]));
      DelimitedStarts(a[1..]);
      DelimitedStarts(b[1..]);
      FirstPartIsSame(a[0], r, b[0], t);
      DelimitedIsInjective(a[1..], b[1..]);
      assert a == [a[0]] + a[1..] && b == [b[0]] + b[1..];
    }
  }

  lemma DelimitedIsComma(a: seq<string>)
    ensures |Delimited(a)| == 1 <==> a == []
  {
    if a != [] { DelimitedStarts(a[1..]); }
  }

  lemma FirstPartIsSame(d: string, r: string, e: string, t: string)
    requires CommaFree(d) && CommaFree(e) && r != "" && t != "" && r[0] == ',' && t[0] == ','
    requires "," + d + r == "," + e + t
    ensures d == e && r == t
  {
    var s := "," + d + r;
    assert s == ("," + d) + r;
    assert s == ("," + e) + t;
    assert d + r == s[1..] == e + t;
    assert (d + r)[|d|] == ',' && (e + t)[|e|] == ',';
    assert forall i :: 0 <= i < |d| ==> (d + r)[i] == d[i];
    assert forall i :: 0 <= i < |e| ==> (e + t)[i] == e[i];
    assert |d| == |e|;
    assert d == (d + r)[..|d|] && r == (d + r)[|d|..];
  }

  /** Different paths have different texts. */
  lemma PathTextIsInjective(p: seq<int>, q: seq<int>)
    requires PathText(p) == PathText(q)
    ensures p == q
  {
    var (a, b) := (MapSeq(p, n => Num(n)), MapSeq(q, n => Num(n)));
    DelimitedIsInjective(a, b);
    forall i | 0 <= i < |p| ensures p[i] == q[i] {
      assert a[i] == Num(p[i]) && b[i] == Num(q[i]);
      NumIsInjective(p[i], q[i]);
    }
  }
}
