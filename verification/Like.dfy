/** The escaping of LIKE patterns (core/node_query_compile.go), against SQLite's LIKE ... ESCAPE '\'. */
module Like {

  // ---------------------------------------------------------------- escaping

  function ReplaceAll(s: string, c: char, with: string): string {
    if s == "" then "" else (if s[0] == c then with else [s[0]]) + ReplaceAll(s[1..], c, with)
  }

  /** escapeLike: three passes, each over the result of the one before. */
  function EscapeLike(value: string): string {
    ReplaceAll(ReplaceAll(ReplaceAll(value, '\\', "\\\\"), '%', "\\%"), '_', "\\_")
  }

  /** One pass: a backslash before each special character. */
  function Escaped(value: string): string {
    if value == "" then ""
    else (if value[0] in "\\%_" then ['\\', value[0]] else [value[0]]) + Escaped(value[1..])
  }

  lemma {:induction false} ReplaceAppend(a: string, b: string, c: char, with: string)
    ensures ReplaceAll(a + b, c, with) == ReplaceAll(a, c, with) + ReplaceAll(b, c, with)
    decreases |a|
  {
    if a == "" {
      assert a + b == b;
    } else {
      assert (a + b)[1..] == a[1..] + b;
      ReplaceAppend(a[1..], b, c, with);
    }
  }

  lemma ReplaceOne(x: char, c: char, with: string)
    ensures ReplaceAll([x], c, with) == if x == c then with else [x]
  {
    assert ReplaceAll([x][1..], c, with) == "";
  }

  lemma ReplaceTwo(x: char, y: char, c: char, with: string)
    ensures ReplaceAll([x, y], c, with) == (if x == c then with else [x]) + (if y == c then with else [y])
  {
    assert [x, y] == [x] + [y];
    ReplaceAppend([x], [y], c, with);
    ReplaceOne(x, c, with);
    ReplaceOne(y, c, with);
  }

  /** The passes do not disturb each other: a later one never touches the backslashes an earlier one added. */
  lemma {:induction false} EscapeLikeIsOnePass(value: string)
    ensures EscapeLike(value) == Escaped(value)
  {
    if value != "" {
      EscapeLikeIsOnePass(value[1..]);
      var a, rest := [value[0]], value[1..];
      assert value == a + rest;
      ReplaceAppend(a, rest, '\\', "\\\\");
      var a1, r1 := ReplaceAll(a, '\\', "\\\\"), ReplaceAll(rest, '\\', "\\\\");
      ReplaceAppend(a1, r1, '%', "\\%");
      var a2, r2 := ReplaceAll(a1, '%', "\\%"), ReplaceAll(r1, '%', "\\%");
      ReplaceAppend(a2, r2, '_', "\\_");
      EscapeOne(value[0]);
    }
  }

  lemma EscapeOne(c: char)
    ensures EscapeLike([c]) == if c in "\\%_" then ['\\', c] else [c]
  {
    ReplaceOne(c, '\\', "\\\\");
    ReplaceOne(c, '%', "\\%");
    ReplaceOne(c, '_', "\\_");
    ReplaceTwo('\\', '\\', '%', "\\%");
    ReplaceTwo('\\', '\\', '_', "\\_");
    ReplaceTwo('\\', '%', '_', "\\_");
  }

  // ---------------------------------------------------------------- LIKE

  /** SQLite folds the ASCII letters only. */
  function Fold(c: char): char {
    if 'A' <= c <= 'Z' then c - 'A' + 'a' else c
  }

  predicate SameFolded(a: string, b: string) {
    |a| == |b| && forall i :: 0 <= i < |a| ==> Fold(a[i]) == Fold(b[i])
  }

  /** s LIKE p ESCAPE '\' */
  predicate LikeMatch(p: string, s: string)
    decreases |p|, |s|
  {
    if p == "" then s == ""
    else if p[0] == '%' then LikeMatch(p[1..], s) || (s != "" && LikeMatch(p, s[1..]))
    else if p[0] == '\\' then |p| > 1 && s != "" && Fold(p[1]) == Fold(s[0]) && LikeMatch(p[2..], s[1..])
    else s != "" && (p[0] == '_' || Fold(p[0]) == Fold(s[0])) && LikeMatch(p[1..], s[1..])
  }

  predicate StartsWith(s: string, v: string) { |v| <= |s| && SameFolded(s[..|v|], v) }

  /** v occurs in s, up to the case of ASCII letters. */
  predicate Occurs(s: string, v: string) {
    exists i :: 0 <= i <= |s| && StartsWith(s[i..], v)
  }

  /** An escaped text matches exactly itself, whatever it contains. */
  lemma {:induction false} EscapedMatches(v: string, p: string, s: string)
    ensures LikeMatch(Escaped(v) + p, s) <==> StartsWith(s, v) && LikeMatch(p, s[|v|..])
    decreases |v|
  {
    if v == "" {
      assert Escaped(v) + p == p && s[0..] == s;
    } else {
      var q := Escaped(v[1..]) + p;
      if v[0] in "\\%_" {
        assert Escaped(v) + p == ['\\', v[0]] + q;
        assert (['\\', v[0]] + q)[2..] == q;
      } else {
        assert Escaped(v) + p == [v[0]] + q;
        assert ([v[0]] + q)[1..] == q;
      }
      if s != "" {
        EscapedMatches(v[1..], p, s[1..]);
        assert |v| <= |s| ==> s[|v|..] == s[1..][|v[1..]|..];
        StartsWithStep(s, v);
      }
    }
  }

  lemma StartsWithStep(s: string, v: string)
    requires s != "" && v != ""
    ensures StartsWith(s, v) <==> Fold(s[0]) == Fold(v[0]) && StartsWith(s[1..], v[1..])
  {
    if |v| <= |s| {
      var t := s[..|v|];
      assert t[1..] == s[1..][..|v[1..]|];
      assert SameFolded(t, v) <==> Fold(t[0]) == Fold(v[0]) && SameFolded(t[1..], v[1..]) by {
        if Fold(t[0]) == Fold(v[0]) && SameFolded(t[1..], v[1..]) {
          forall i | 0 <= i < |t| ensures Fold(t[i]) == Fold(v[i]) {
            if i > 0 { assert t[i] == t[1..][i - 1] && v[i] == v[1..][i - 1]; }
          }
        }
      }
    }
  }

  lemma {:induction false} PercentMatchesAll(s: string)
    ensures LikeMatch("%", s)
  {
    if s != "" {
      PercentMatchesAll(s[1..]);
    }
  }

  predicate MatchesFrom(p: string, s: string, i: int) { 0 <= i <= |s| && LikeMatch(p, s[i..]) }

  lemma {:induction false} PercentSkips(p: string, s: string)
    ensures LikeMatch("%" + p, s) <==> exists i :: MatchesFrom(p, s, i)
    decreases |s|
  {
    assert ("%" + p)[1..] == p && s[0..] == s;
    assert LikeMatch(p, s) <==> MatchesFrom(p, s, 0);
    if s != "" {
      PercentSkips(p, s[1..]);
      if i :| MatchesFrom(p, s, i) && i > 0 {
        assert s[i..] == s[1..][i - 1..];
        assert MatchesFrom(p, s[1..], i - 1);
      }
      if i :| MatchesFrom(p, s[1..], i) {
        assert s[i + 1..] == s[1..][i..];
        assert MatchesFrom(p, s, i + 1);
      }
    }
  }

  /** prefix: the pattern matches exactly the texts that start with the value. */
  lemma PrefixPatternIsExact(v: string, s: string)
    ensures LikeMatch(EscapeLike(v) + "%", s) <==> StartsWith(s, v)
  {
    EscapeLikeIsOnePass(v);
    EscapedMatches(v, "%", s);
    if |v| <= |s| { PercentMatchesAll(s[|v|..]); }
  }

  /** contains: the pattern matches exactly the texts the value occurs in. */
  lemma ContainsPatternIsExact(v: string, s: string)
    ensures LikeMatch("%" + EscapeLike(v) + "%", s) <==> Occurs(s, v)
  {
    var p := EscapeLike(v) + "%";
    assert "%" + EscapeLike(v) + "%" == "%" + p;
    PercentSkips(p, s);
    forall i | 0 <= i <= |s| ensures MatchesFrom(p, s, i) <==> StartsWith(s[i..], v) {
      PrefixPatternIsExact(v, s[i..]);
    }
  }
}
