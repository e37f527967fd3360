/**
 * A set of loaded nodes with at most one parent each, free of cycles: chains to the root, subtrees in
 * depth-first order, and how the two determine each other.
 */
module Forests {
  import opened Common
  import opened Graph

  /** The loaded ids in sibling order, and the parent of each that has one among them. */
  datatype Forest = Forest(ids: seq<int>, parent: map<int, int>)

  function ParentRel(parent: map<int, int>): Rel {
    set k | k in parent :: (k, parent[k])
  }

  ghost predicate ValidForest(f: Forest) {
    && Distinct(f.ids)
    && (forall k :: k in f.parent ==> k in f.ids && f.parent[k] in f.ids)
    && Acyclic(ParentRel(f.parent))
  }

  function Under(ids: seq<int>, parent: map<int, int>, p: Option<int>): seq<int> {
    if ids == [] then []
    else
      var k, rest := ids[0], Under(ids[1..], parent, p);
      if (if k in parent then Some(parent[k]) else None) == p then [k] + rest else rest
  }

  /** The children of a node, and the nodes without a parent, in sibling order. */
  function ChildrenOf(f: Forest, id: int): seq<int> { Under(f.ids, f.parent, Some(id)) }

  function RootsOf(f: Forest): seq<int> { Under(f.ids, f.parent, None) }

  lemma {:induction false} UnderHolds(ids: seq<int>, parent: map<int, int>, p: Option<int>)
    ensures forall x :: x in Under(ids, parent, p) <==> x in ids && (if x in parent then Some(parent[x]) else None) == p
    ensures Distinct(ids) ==> Distinct(Under(ids, parent, p))
  {
    if ids != [] {
      UnderHolds(ids[1..], parent, p);
      assert ids == [ids[0]] + ids[1..];
      if Distinct(ids) {
        forall i | 1 <= i < |ids| ensures ids[i] != ids[0] {}
        assert Distinct(ids[1..]);
        var rest := Under(ids[1..], parent, p);
        forall i | 0 <= i < |rest| ensures rest[i] != ids[0] {
          var x := rest[i];
          assert x in rest && x in ids[1..];
        }
      }
    }
  }

  // ---------------------------------------------------------------- chains

  /** id, its parent, and so on, at most fuel steps. */
  function Climb(parent: map<int, int>, id: int, fuel: nat): (p: seq<int>)
    ensures p != [] && p[0] == id && |p| <= fuel + 1
    decreases fuel
  {
    if id in parent && fuel > 0 then [id] + Climb(parent, parent[id], fuel - 1) else [id]
  }

  /** The way from a node up to its root, the node first. */
  function Chain(f: Forest, id: int): (p: seq<int>)
    ensures p != [] && p[0] == id
  {
    Climb(f.parent, id, |f.ids|)
  }

  predicate StepsUp(parent: map<int, int>, p: seq<int>, i: int)
    requires 0 <= i < |p| - 1
  {
    p[i] in parent && p[i + 1] == parent[p[i]]
  }

  lemma OneStepLower(parent: map<int, int>, id: int, q: seq<int>)
    requires id in parent && q != [] && q[0] == parent[id] && IsPath(ParentRel(parent), q)
    requires forall i :: 0 <= i < |q| - 1 ==> StepsUp(parent, q, i)
    ensures var p := [id] + q; IsPath(ParentRel(parent), p) && forall i :: 0 <= i < |p| - 1 ==> StepsUp(parent, p, i)
  {
    var p := [id] + q;
    forall i | 0 <= i < |p| - 1 ensures StepsUp(parent, p, i) && (p[i], p[i + 1]) in ParentRel(parent) {
      if i > 0 {
        assert StepsUp(parent, q, i - 1);
        assert p[i] == q[i - 1] && p[i + 1] == q[i];
      }
    }
  }

  lemma {:induction false} ClimbIsPath(parent: map<int, int>, id: int, fuel: nat)
    ensures IsPath(ParentRel(parent), Climb(parent, id, fuel))
    ensures var p := Climb(parent, id, fuel); |p| <= fuel ==> p[|p| - 1] !in parent
    ensures var p := Climb(parent, id, fuel); forall i :: 0 <= i < |p| - 1 ==> StepsUp(parent, p, i)
    decreases fuel
  {
    if id in parent && fuel > 0 {
      var q := Climb(parent, parent[id], fuel - 1);
      assert Climb(parent, id, fuel) == [id] + q;
      ClimbIsPath(parent, parent[id], fuel - 1);
      hide Climb;
      OneStepLower(parent, id, q);
    }
  }

  /** A climb never runs out of fuel: it ends at a root. */
  lemma ChainEnds(f: Forest, id: int, fuel: nat)
    requires ValidForest(f) && id in f.ids && fuel >= |f.ids|
    ensures
      var p := Climb(f.parent, id, fuel);
      |p| <= |f.ids| && p[|p| - 1] !in f.parent && forall i :: 0 <= i < |p| ==> p[i] in f.ids
  {
    var p := Climb(f.parent, id, fuel);
    ClimbIsPath(f.parent, id, fuel);
    AcyclicPathsAreSimple(ParentRel(f.parent), p);
    forall i | 0 <= i < |p| ensures p[i] in f.ids {
      if i > 0 {
        assert StepsUp(f.parent, p, i - 1);
      }
    }
    DistinctFits(p, Elements(f.ids));
    ElementsFit(f.ids);
  }

  lemma {:induction false} MoreFuel(parent: map<int, int>, id: int, a: nat, b: nat)
    requires a <= b && var p := Climb(parent, id, a); p[|p| - 1] !in parent
    ensures Climb(parent, id, b) == Climb(parent, id, a)
    decreases a
  {
    if id in parent && a > 0 {
      var q := Climb(parent, parent[id], a - 1);
      assert Climb(parent, id, a)[|q|] == q[|q| - 1];
      MoreFuel(parent, parent[id], a - 1, b - 1);
    }
  }

  lemma ChainStep(f: Forest, id: int)
    requires ValidForest(f) && id in f.ids
    ensures |Chain(f, id)| <= |f.ids|
    ensures id in f.parent ==> f.parent[id] in f.ids && Chain(f, id) == [id] + Chain(f, f.parent[id])
    ensures id !in f.parent ==> Chain(f, id) == [id]
  {
    ChainEnds(f, id, |f.ids|);
    if id in f.parent {
      ChainEnds(f, f.parent[id], |f.ids|);
      ChainEnds(f, id, |f.ids| + 1);
      MoreFuel(f.parent, id, |f.ids|, |f.ids| + 1);
    }
  }

  /** Every node on a chain has the rest of it as its own chain. */
  lemma {:induction false} ChainSuffix(f: Forest, x: int, i: nat)
    requires ValidForest(f) && x in f.ids && i < |Chain(f, x)|
    ensures Chain(f, x)[i] in f.ids && Chain(f, Chain(f, x)[i]) == Chain(f, x)[i..]
    decreases i
  {
    hide Chain;
    ChainStep(f, x);
    if i == 0 {
      assert Chain(f, x)[0] == x;
    } else {
      assert x in f.parent;
      ChainSuffix(f, f.parent[x], i - 1);
      assert Chain(f, x)[i..] == Chain(f, f.parent[x])[i - 1..];
    }
  }

  /** A chain holds one node at most of each level. */
  lemma OneOfALevel(f: Forest, x: int, a: int, b: int)
    requires ValidForest(f) && x in f.ids && a in Chain(f, x) && b in Chain(f, x) && |Chain(f, a)| == |Chain(f, b)|
    ensures a == b
  {
    hide Chain;
    var i :| 0 <= i < |Chain(f, x)| && Chain(f, x)[i] == a;
    var j :| 0 <= j < |Chain(f, x)| && Chain(f, x)[j] == b;
    ChainSuffix(f, x, i);
    ChainSuffix(f, x, j);
  }

  // ---------------------------------------------------------------- subtrees

  ghost predicate AtLevel(f: Forest, ids: seq<int>, level: int) {
    forall i :: 0 <= i < |ids| ==> ids[i] in f.ids && |Chain(f, ids[i])| == level
  }

  lemma ChildrenAtLevel(f: Forest, id: int)
    requires ValidForest(f) && id in f.ids
    ensures AtLevel(f, ChildrenOf(f, id), |Chain(f, id)| + 1) && Distinct(ChildrenOf(f, id))
  {
    hide Chain;
    UnderHolds(f.ids, f.parent, Some(id));
    var cs := ChildrenOf(f, id);
    forall i | 0 <= i < |cs| ensures cs[i] in f.ids && |Chain(f, cs[i])| == |Chain(f, id)| + 1 {
      assert cs[i] in cs;
      ChainStep(f, cs[i]);
    }
  }

  lemma RootsAtLevel(f: Forest)
    requires ValidForest(f)
    ensures AtLevel(f, RootsOf(f), 1) && Distinct(RootsOf(f))
  {
    hide Chain;
    UnderHolds(f.ids, f.parent, None);
    var rs := RootsOf(f);
    forall i | 0 <= i < |rs| ensures rs[i] in f.ids && |Chain(f, rs[i])| == 1 {
      assert rs[i] in rs;
      ChainStep(f, rs[i]);
    }
  }

  /** A tree node with its subtree, children in sibling order. */
  datatype TreeNode = TreeNode(id: int, children: seq<TreeNode>)

  ghost function TreeAt(f: Forest, id: int): TreeNode
    requires ValidForest(f) && id in f.ids
    decreases |f.ids| - |Chain(f, id)|, 0, 0
  {
    ChainStep(f, id);
    ChildrenAtLevel(f, id);
    TreeNode(id, TreesAt(f, ChildrenOf(f, id), |Chain(f, id)| + 1))
  }

  ghost function TreesAt(f: Forest, ids: seq<int>, level: int): (ts: seq<TreeNode>)
    requires ValidForest(f) && AtLevel(f, ids, level)
    ensures |ts| == |ids|
    decreases |f.ids| - level, 1, |ids|
  {
    if ids == [] then []
    else
      assert AtLevel(f, ids[1..], level);
      [TreeAt(f, ids[0])] + TreesAt(f, ids[1..], level)
  }

  function Flatten(t: TreeNode): seq<int> { [t.id] + FlattenAll(t.children) }

  function FlattenAll(ts: seq<TreeNode>): seq<int> {
    if ts == [] then [] else Flatten(ts[0]) + FlattenAll(ts[1..])
  }

  /** A node is in the subtree of r exactly when r is on its chain, and it is there once. */
  ghost predicate IsSubtree(f: Forest, r: int, xs: seq<int>) {
    Distinct(xs) && forall x :: x in xs <==> x in f.ids && r in Chain(f, x)
  }

  ghost predicate AreSubtrees(f: Forest, rs: seq<int>, xs: seq<int>) {
    Distinct(xs) && forall x :: x in xs <==> x in f.ids && exists i :: 0 <= i < |rs| && rs[i] in Chain(f, x)
  }

  lemma DistinctAppend(a: seq<int>, b: seq<int>)
    requires Distinct(a) && Distinct(b) && forall x :: x in a ==> x !in b
    ensures Distinct(a + b)
  {
    var c := a + b;
    forall i, j | 0 <= i < j < |c| ensures c[i] != c[j] {
      if i < |a| <= j { assert a[i] in a && b[j - |a|] in b; }
    }
  }

  lemma {:induction false} TreeIsSubtree(f: Forest, id: int)
    requires ValidForest(f) && id in f.ids
    ensures IsSubtree(f, id, Flatten(TreeAt(f, id)))
    decreases |f.ids| - |Chain(f, id)|, 0, 0
  {
    hide Chain, Climb, ValidForest, Under;
    ChainStep(f, id);
    ChildrenAtLevel(f, id);
    var cs, level := ChildrenOf(f, id), |Chain(f, id)| + 1;
    TreesAreSubtrees(f, cs, level);
    RootOfSubtrees(f, id, FlattenAll(TreesAt(f, cs, level)));
  }

  /** A node followed by its children's subtrees is its subtree. */
  lemma RootOfSubtrees(f: Forest, id: int, xs: seq<int>)
    requires ValidForest(f) && id in f.ids && AreSubtrees(f, ChildrenOf(f, id), xs)
    ensures IsSubtree(f, id, [id] + xs)
  {
    hide Chain, ValidForest;
    UnderHolds(f.ids, f.parent, Some(id));
    var cs := ChildrenOf(f, id);
    forall x | x in f.ids
      ensures id in Chain(f, x) <==> x == id || exists i :: 0 <= i < |cs| && cs[i] in Chain(f, x)
    {
      OnChainIff(f, id, x);
    }
    forall x | x in f.ids && x == id ensures x !in xs {
      ChildNotAbove(f, id);
    }
    DistinctAppend([id], xs);
  }

  lemma ChildNotAbove(f: Forest, id: int)
    requires ValidForest(f) && id in f.ids
    ensures var cs := ChildrenOf(f, id); forall i :: 0 <= i < |cs| ==> cs[i] !in Chain(f, id)
  {
    hide Chain;
    ChildrenAtLevel(f, id);
    var cs := ChildrenOf(f, id);
    forall i | 0 <= i < |cs| ensures cs[i] !in Chain(f, id) {
      if cs[i] in Chain(f, id) {
        var j :| 0 <= j < |Chain(f, id)| && Chain(f, id)[j] == cs[i];
        ChainSuffix(f, id, j);
      }
    }
  }

  lemma OnChainIff(f: Forest, id: int, x: int)
    requires ValidForest(f) && id in f.ids && x in f.ids
    ensures
      var cs := ChildrenOf(f, id);
      id in Chain(f, x) <==> x == id || exists i :: 0 <= i < |cs| && cs[i] in Chain(f, x)
  {
    hide Chain, ValidForest;
    UnderHolds(f.ids, f.parent, Some(id));
    var cs, p := ChildrenOf(f, id), Chain(f, x);
    ChainStep(f, x);
    if id in p && x != id {
      var i :| 0 <= i < |p| && p[i] == id;
      ChainSuffix(f, x, i - 1);
      ChainStep(f, p[i - 1]);
      assert p[i - 1..][1] == id;
      assert p[i - 1] in cs;
    }
    if j :| 0 <= j < |cs| && cs[j] in p {
      var i :| 0 <= i < |p| && p[i] == cs[j];
      assert cs[j] in cs;
      ChainSuffix(f, x, i);
      ChainStep(f, cs[j]);
      ChainStep(f, id);
      assert p[i..][1] == id;
    }
  }

  lemma {:induction false} TreesAreSubtrees(f: Forest, ids: seq<int>, level: int)
    requires ValidForest(f) && AtLevel(f, ids, level) && Distinct(ids)
    ensures AreSubtrees(f, ids, FlattenAll(TreesAt(f, ids, level)))
    decreases |f.ids| - level, 1, |ids|
  {
    hide Chain, Climb, ValidForest, Flatten;
    if ids != [] {
      assert AtLevel(f, ids[1..], level);
      TreeIsSubtree(f, ids[0]);
      TreesAreSubtrees(f, ids[1..], level);
      var a, b := Flatten(TreeAt(f, ids[0])), FlattenAll(TreesAt(f, ids[1..], level));
      assert FlattenAll(TreesAt(f, ids, level)) == a + b;
      OneMoreSubtree(f, ids, level, a, b);
    }
  }

  /** Subtrees of different nodes of one level have nothing in common. */
  lemma OneMoreSubtree(f: Forest, ids: seq<int>, level: int, a: seq<int>, b: seq<int>)
    requires ValidForest(f) && AtLevel(f, ids, level) && Distinct(ids) && ids != []
    requires IsSubtree(f, ids[0], a) && AreSubtrees(f, ids[1..], b)
    ensures AreSubtrees(f, ids, a + b)
  {
    hide Chain, ValidForest;
    var rest := ids[1..];
    forall x | x in a ensures x !in b {
      if x in b {
        var i :| 0 <= i < |rest| && rest[i] in Chain(f, x);
        assert rest[i] == ids[i + 1];
        OneOfALevel(f, x, ids[0], ids[i + 1]);
      }
    }
    DistinctAppend(a, b);
    forall x | x in f.ids
      ensures (exists i :: 0 <= i < |ids| && ids[i] in Chain(f, x))
        <==> ids[0] in Chain(f, x) || exists i :: 0 <= i < |rest| && rest[i] in Chain(f, x)
    {
      if i :| 0 <= i < |ids| && ids[i] in Chain(f, x) {
        if i > 0 { assert rest[i - 1] == ids[i]; }
      }
      if i :| 0 <= i < |rest| && rest[i] in Chain(f, x) { assert ids[i + 1] == rest[i]; }
    }
  }

  /** All trees together hold every loaded node exactly once. */
  lemma ForestHoldsEachOnce(f: Forest)
    requires ValidForest(f)
    ensures AtLevel(f, RootsOf(f), 1)
    ensures
      var xs := FlattenAll(TreesAt(f, RootsOf(f), 1));
      Distinct(xs) && forall x :: x in xs <==> x in f.ids
  {
    hide Chain, ValidForest, RootsOf;
    RootsAtLevel(f);
    TreesAreSubtrees(f, RootsOf(f), 1);
    forall x | x in f.ids ensures exists i :: 0 <= i < |RootsOf(f)| && RootsOf(f)[i] in Chain(f, x) {
      RootOnChain(f, x);
    }
  }

  lemma RootOnChain(f: Forest, x: int)
    requires ValidForest(f) && x in f.ids
    ensures exists i :: 0 <= i < |RootsOf(f)| && RootsOf(f)[i] in Chain(f, x)
  {
    ChainEnds(f, x, |f.ids|);
    UnderHolds(f.ids, f.parent, None);
    var p := Chain(f, x);
    var root := p[|p| - 1];
    assert root in RootsOf(f);
    var i :| 0 <= i < |RootsOf(f)| && RootsOf(f)[i] == root;
  }
}
