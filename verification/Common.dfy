/** Result types and sequence facts shared by every module. */
module Common {

  datatype Option<+T> = None | Some(value: T)

  datatype Result<+T, +E> = Ok(value: T) | Err(error: E)

  /** The members of a sequence, in order, that satisfy p. */
  function Filter<T>(xs: seq<T>, p: T -> bool): seq<T> {
    if xs == [] then []
    else (if p(xs[0]) then [xs[0]] else []) + Filter(xs[1..], p)
  }

  function MapSeq<T, U>(xs: seq<T>, f: T -> U): (ys: seq<U>)
    ensures |ys| == |xs|
    ensures forall i :: 0 <= i < |xs| ==> ys[i] == f(xs[i])
  {
    if xs == [] then [] else [f(xs[0])] + MapSeq(xs[1..], f)
  }

  predicate Distinct<T(==)>(xs: seq<T>) {
    forall i, j :: 0 <= i < j < |xs| ==> xs[i] != xs[j]
  }

  function Elements<T>(xs: seq<T>): set<T> {
    set x | x in xs
  }

  lemma ElementsEmpty<T>(xs: seq<T>)
    ensures Elements(xs) == {} <==> xs == []
  {
    if xs != [] {
      var x := xs[0];
      assert x in Elements(xs);
    }
  }

  lemma {:induction false} ElementsFit<T>(xs: seq<T>)
    requires Distinct(xs)
    ensures |Elements(xs)| == |xs|
    decreases |xs|
  {
    if xs != [] {
      var init, last := xs[..|xs| - 1], xs[|xs| - 1];
      ElementsFit(init);
      assert xs == init + [last] && last !in init;
      assert Elements(xs) == Elements(init) + {last};
    }
  }

  ghost function AnElement<T>(s: set<T>): (x: T)
    requires s != {}
    ensures x in s
  {
    var x :| x in s;
    x
  }

  lemma OnlyMember<T>(s: set<T>, x: T)
    ensures s - {x} == {} ==> |s| <= 1
  {
    if s - {x} == {} {
      if x in s {
        assert s == {x};
      } else {
        assert s == {};
      }
    }
  }

  ghost function AnOther<T>(s: set<T>, x: T): (y: T)
    requires |s| >= 2
    ensures y in s && y != x
  {
    OnlyMember(s, x);
    AnElement(s - {x})
  }

  lemma KeepAll<K, V>(m: map<K, V>)
    ensures (map k | k in m :: m[k]) == m
  {
  }

  lemma SetsEqual<T>(a: set<T>, b: set<T>)
    requires a <= b && b <= a
    ensures a == b
  {
  }

  /** Any one element of a set. */
  method Pick<T(==)>(s: set<T>) returns (x: T)
    requires s != {}
    ensures x in s
  {
    x :| x in s;
  }
}
