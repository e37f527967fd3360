/** Directed graphs as finite sets of pairs: paths, reachability, acyclicity. */
module Graph {
  import opened Common

  type Rel = set<(int, int)>

  predicate IsPath(g: Rel, p: seq<int>) {
    p != [] && forall i :: 0 <= i < |p| - 1 ==> (p[i], p[i + 1]) in g
  }

  ghost predicate Connects(g: Rel, p: seq<int>, a: int, b: int) {
    IsPath(g, p) && p[0] == a && p[|p| - 1] == b
  }

  /** b can be reached from a in zero or more steps. */
  ghost predicate Reach(g: Rel, a: int, b: int) {
    exists p :: Connects(g, p, a, b)
  }

  /** No edge lies on a cycle. */
  ghost predicate Acyclic(g: Rel) {
    forall e :: e in g ==> !Reach(g, e.1, e.0)
  }

  lemma ReachSelf(g: Rel, a: int)
    ensures Reach(g, a, a)
  {
    assert Connects(g, [a], a, a);
  }

  lemma ReachEdge(g: Rel, a: int, b: int)
    requires (a, b) in g
    ensures Reach(g, a, b)
  {
    assert Connects(g, [a, b], a, b);
  }

  lemma JoinPaths(g: Rel, p: seq<int>, q: seq<int>)
    requires IsPath(g, p) && IsPath(g, q) && p[|p| - 1] == q[0]
    ensures Connects(g, p + q[1..], p[0], q[|q| - 1])
  {
    var r := p + q[1..];
    forall i | 0 <= i < |r| - 1
      ensures (r[i], r[i + 1]) in g
    {
      if i >= |p| - 1 {
        var j := i - (|p| - 1);
        assert (q[j], q[j + 1]) in g;
      }
    }
  }

  lemma ReachTrans(g: Rel, a: int, b: int, c: int)
    requires Reach(g, a, b) && Reach(g, b, c)
    ensures Reach(g, a, c)
  {
    var p :| Connects(g, p, a, b);
    var q :| Connects(g, q, b, c);
    JoinPaths(g, p, q);
  }

  lemma ReachMonotone(g: Rel, h: Rel, a: int, b: int)
    requires g <= h && Reach(g, a, b)
    ensures Reach(h, a, b)
  {
    var p :| Connects(g, p, a, b);
    assert Connects(h, p, a, b);
  }

  lemma AcyclicSubset(g: Rel, h: Rel)
    requires g <= h && Acyclic(h)
    ensures Acyclic(g)
  {
    forall e | e in g ensures !Reach(g, e.1, e.0) {
      if Reach(g, e.1, e.0) { ReachMonotone(g, h, e.1, e.0); }
    }
  }

  /** A path that may use one new edge: either it does not, or it splits around that edge. */
  lemma {:induction false} PathThroughNewEdge(g: Rel, f: int, t: int, p: seq<int>)
    requires IsPath(g + {(f, t)}, p)
    ensures Reach(g, p[0], p[|p| - 1]) || (Reach(g, p[0], f) && Reach(g, t, p[|p| - 1]))
    decreases |p|
  {
    if |p| == 1 {
      ReachSelf(g, p[0]);
    } else {
      PathThroughNewEdge(g, f, t, p[1..]);
      ReachSelf(g, p[0]);
      if (p[0], p[1]) in g {
        ReachEdge(g, p[0], p[1]);
        if Reach(g, p[1], p[|p| - 1]) {
          ReachTrans(g, p[0], p[1], p[|p| - 1]);
        } else {
          ReachTrans(g, p[0], p[1], f);
        }
      }
    }
  }

  /** An edge whose target does not already reach its source keeps the graph acyclic. */
  lemma AcyclicInsert(g: Rel, f: int, t: int)
    requires Acyclic(g) && !Reach(g, t, f)
    ensures Acyclic(g + {(f, t)})
  {
    var h := g + {(f, t)};
    forall e | e in h
      ensures !Reach(h, e.1, e.0)
    {
      if Reach(h, e.1, e.0) {
        var p :| Connects(h, p, e.1, e.0);
        PathThroughNewEdge(g, f, t, p);
        if e in g {
          if !Reach(g, e.1, e.0) {
            ReachEdge(g, e.0, e.1);
            ReachTrans(g, t, e.0, e.1);
            ReachTrans(g, t, e.1, f);
          }
        }
        assert false;
      }
    }
  }

  lemma {:induction false} IncreasingPath(g: Rel, p: seq<int>)
    requires IsPath(g, p) && forall e :: e in g ==> e.0 < e.1
    ensures p[0] <= p[|p| - 1]
    decreases |p|
  {
    if |p| > 1 {
      IncreasingPath(g, p[1..]);
      assert (p[0], p[1]) in g;
    }
  }

  /** Canonical endpoints alone rule out cycles. */
  lemma AcyclicWhenIncreasing(g: Rel)
    requires forall e :: e in g ==> e.0 < e.1
    ensures Acyclic(g)
  {
    forall e | e in g ensures !Reach(g, e.1, e.0) {
      if Reach(g, e.1, e.0) {
        var p :| Connects(g, p, e.1, e.0);
        IncreasingPath(g, p);
      }
    }
  }

  lemma SubPath(g: Rel, p: seq<int>, i: int, j: int)
    requires IsPath(g, p) && 0 <= i <= j < |p|
    ensures Connects(g, p[i..j + 1], p[i], p[j])
  {
  }

  /** In an acyclic graph no path visits a node twice. */
  lemma AcyclicPathsAreSimple(g: Rel, p: seq<int>)
    requires Acyclic(g) && IsPath(g, p)
    ensures Distinct(p)
  {
    forall i, j | 0 <= i < j < |p|
      ensures p[i] != p[j]
    {
      SubPath(g, p, i + 1, j);
      assert (p[i], p[i + 1]) in g;
    }
  }

  function Nodes(g: Rel): set<int> {
    (set e | e in g :: e.0) + (set e | e in g :: e.1)
  }

  /** Everything reachable from a seed set, given a closed set that contains it. */
  lemma {:induction false} ClosedSetHoldsPath(g: Rel, s: set<int>, p: seq<int>)
    requires IsPath(g, p) && p[0] in s
    requires forall e :: e in g && e.0 in s ==> e.1 in s
    ensures p[|p| - 1] in s
    decreases |p|
  {
    if |p| > 1 {
      assert (p[0], p[1]) in g;
      ClosedSetHoldsPath(g, s, p[1..]);
    }
  }

  lemma SinkReachesOnlyItself(g: Rel, a: int, b: int)
    requires forall e :: e in g ==> e.0 != a
    ensures Reach(g, a, b) ==> a == b
  {
    if Reach(g, a, b) {
      var p :| Connects(g, p, a, b);
      ClosedSetHoldsPath(g, {a}, p);
    }
  }

  lemma {:induction false} DistinctFits(p: seq<int>, s: set<int>)
    requires Distinct(p) && forall i :: 0 <= i < |p| ==> p[i] in s
    ensures |p| <= |s|
  {
    if p != [] {
      assert s * {p[0]} == {p[0]};
      DistinctFits(p[1..], s - {p[0]});
    }
  }

  lemma {:induction false} PathToItsEnd(g: Rel, h: Rel, p: seq<int>)
    requires IsPath(g, p) && forall e :: e in g && e !in h ==> e.0 == p[|p| - 1]
    ensures Reach(h, p[0], p[|p| - 1])
    decreases |p|
  {
    var b := p[|p| - 1];
    ReachSelf(h, b);
    if p[0] != b {
      PathToItsEnd(g, h, p[1..]);
      assert (p[0], p[1]) in h;
      ReachEdge(h, p[0], p[1]);
      ReachTrans(h, p[0], p[1], b);
    }
  }

  /** Edges out of a node make no difference to what reaches it. */
  lemma OwnEdgesDoNotMatter(g: Rel, h: Rel, a: int, b: int)
    requires h <= g && forall e :: e in g && e !in h ==> e.0 == b
    ensures Reach(g, a, b) <==> Reach(h, a, b)
  {
    if Reach(h, a, b) { ReachMonotone(h, g, a, b); }
    if Reach(g, a, b) {
      var p :| Connects(g, p, a, b);
      PathToItsEnd(g, h, p);
    }
  }

  lemma ReachedByAnEdge(g: Rel, a: int, b: int)
    requires Reach(g, a, b)
    ensures a == b || exists e :: e in g && e.1 == b
  {
    var p :| Connects(g, p, a, b);
    if |p| > 1 { assert (p[|p| - 2], p[|p| - 1]) in g; }
  }
}
