/** The in-memory tree of a type (core/tree.go): loading it, and the walks over it. */
module Trees {
  import opened Common
  import opened Graph
  import opened Types
  import opened Store
  import opened Invariants
  import opened Forests

  /** The loaded parent of each loaded node that has one. */
  predicate ParentsFrom(links: seq<(int, int)>, ids: seq<int>, parent: map<int, int>) {
    && (forall i :: 0 <= i < |links| && links[i].0 in ids && links[i].1 in ids ==>
          links[i].0 in parent && parent[links[i].0] == links[i].1)
    && (forall k :: k in parent ==> k in ids && parent[k] in ids && (k, parent[k]) in links)
  }

  /** No node has two parents. */
  predicate Functional(links: seq<(int, int)>) {
    forall i, j :: 0 <= i < |links| && 0 <= j < |links| && links[i].0 == links[j].0 ==> links[i].1 == links[j].1
  }

  function ListAt(lists: map<int, seq<int>>, p: int): seq<int> { if p in lists then lists[p] else [] }

  predicate IsReverse(a: seq<int>, b: seq<int>) {
    |a| == |b| && forall i :: 0 <= i < |a| ==> a[i] == b[|b| - 1 - i]
  }

  class Tree {
    var nodes: map<int, Node>
    var parent: map<int, int>
    var children: map<int, seq<int>>
    var roots: seq<int>
    ghost var ids: seq<int>

    ghost function Shape(): Forest
      reads this
    {
      Forest(ids, parent)
    }

    /** The maps are those of a forest over the loaded rows, in the order they were loaded. */
    ghost predicate Valid()
      reads this
    {
      && ValidForest(Shape())
      && (forall k :: k in nodes <==> k in ids)
      && (forall p :: p in nodes ==> ChildList(p) == ChildrenOf(Shape(), p))
      && roots == RootsOf(Shape())
    }

    function ChildList(id: int): seq<int>
      reads this
    {
      ListAt(children, id)
    }

    /**
     * LoadTree: rows are the result of the scoped list query in sibling order, links the parent edges of the type.
     * Whatever the scope left out, the parents of the rest form a forest.
     */
    constructor Load(rows: seq<int>, table: map<int, Node>, links: seq<(int, int)>)
      requires Distinct(rows) && forall i :: 0 <= i < |rows| ==> rows[i] in table
      requires Functional(links) && Acyclic(Elements(links))
      ensures Valid() && ids == rows && ParentsFrom(links, rows, parent)
      ensures forall k :: k in nodes ==> nodes[k] == table[k]
    {
      var loaded := IndexRows(rows, table);
      var up := LinkParents(rows, loaded, links);
      var below, top := GroupRows(rows, up);
      LoadedIsForest(links, rows, up);
      nodes, parent, children, roots, ids := loaded, up, below, top, rows;
    }

    static method IndexRows(rows: seq<int>, table: map<int, Node>) returns (loaded: map<int, Node>)
      requires forall i :: 0 <= i < |rows| ==> rows[i] in table
      ensures forall k :: k in loaded <==> k in rows
      ensures forall k :: k in loaded ==> k in table && loaded[k] == table[k]
    {
      loaded := map[];
      for i := 0 to |rows|
        invariant forall k :: k in loaded <==> k in rows[..i]
        invariant forall k :: k in loaded ==> k in table && loaded[k] == table[k]
      {
        loaded := loaded[rows[i] := table[rows[i]]];
      }
      assert rows[..|rows|] == rows;
    }

    /** The parent map: edges whose ends are both loaded. */
    static method LinkParents(
      rows: seq<int>, loaded: map<int, Node>, links: seq<(int, int)>) returns (up: map<int, int>)
      requires Functional(links) && forall k :: k in loaded <==> k in rows
      ensures ParentsFrom(links, rows, up)
    {
      up := map[];
      for i := 0 to |links|
        invariant ParentsFrom(links[..i], rows, up)
      {
        var from, to := links[i].0, links[i].1;
        MoreParents(links, rows, i, from, to, up);
        if from in loaded && to in loaded {
          up := up[from := to];
        }
      }
      assert links[..|links|] == links;
    }

    /** The child lists and the roots, each in the order of the rows. */
    static method GroupRows(rows: seq<int>, up: map<int, int>) returns (below: map<int, seq<int>>, top: seq<int>)
      ensures top == Under(rows, up, None)
      ensures forall p :: ListAt(below, p) == Under(rows, up, Some(p))
    {
      below, top := map[], [];
      for i := 0 to |rows|
        invariant top == Under(rows[..i], up, None)
        invariant forall p :: ListAt(below, p) == Under(rows[..i], up, Some(p))
      {
        var n := rows[i];
        UnderSnoc(rows, i, up);
        if n in up {
          var p := up[n];
          below := below[p := (if p in below then below[p] else []) + [n]];
        } else {
          top := top + [n];
        }
      }
      assert rows[..|rows|] == rows;
    }

    /** Ancestors: collected upwards, then reversed in place. */
    method Ancestors(id: int) returns (chain: seq<int>)
      requires Valid()
      ensures id !in nodes ==> chain == []
      ensures id in nodes ==> IsReverse(chain, Chain(Shape(), id))
    {
      if id !in nodes {
        return [];
      }
      chain := ClimbUp(id);
      ghost var whole := chain;
      var i, j := 0, |chain| - 1;
      while i < j
        invariant 0 <= i <= j + 1 && j == |chain| - 1 - i && |chain| == |whole|
        invariant forall k :: 0 <= k < i ==> chain[k] == whole[|whole| - 1 - k] && chain[|whole| - 1 - k] == whole[k]
        invariant forall k :: i <= k <= j ==> chain[k] == whole[k]
      {
        chain := chain[i := chain[j]][j := chain[i]];
        i, j := i + 1, j - 1;
      }
    }

    /** The loop up to the root; its cycle guard is never taken. */
    method ClimbUp(id: int) returns (chain: seq<int>)
      requires Valid() && id in nodes
      ensures chain == Chain(Shape(), id)
    {
      hide Chain, ValidForest, ChildrenOf, RootsOf;
      chain := [];
      var cur := id;
      ghost var f := Shape();
      ghost var whole := Chain(f, id);
      CountNodes();
      ChainStep(f, id);
      while true
        invariant cur in nodes && whole == chain + Chain(f, cur)
        decreases |whole| - |chain|
      {
        ChainStep(f, cur);
        chain := chain + [cur];
        if cur !in parent {
          break;
        }
        cur := parent[cur];
        if |chain| > |nodes| {
          assert false;
          break;
        }
      }
    }

    lemma CountNodes()
      requires Valid()
      ensures |nodes| == |ids|
    {
      ElementsFit(ids);
      forall k ensures k in nodes.Keys <==> k in Elements(ids) {}
      SameCount(nodes.Keys, Elements(ids));
      KeysCount(nodes);
    }

    /** SubtreeIDs: depth first, a node before its children. */
    method SubtreeIds(id: int) returns (xs: seq<int>)
      requires Valid()
      ensures id !in nodes ==> xs == []
      ensures id in nodes ==> xs == Flatten(TreeAt(Shape(), id))
    {
      if id !in nodes {
        return [];
      }
      xs := WalkIds(id, []);
    }

    /** The closure that appends a node and then walks its children. */
    method WalkIds(id: int, before: seq<int>) returns (xs: seq<int>)
      requires Valid() && id in nodes
      ensures xs == before + Flatten(TreeAt(Shape(), id))
      decreases |ids| - |Chain(Shape(), id)|
    {
      hide Chain, ValidForest, ChildrenOf, RootsOf;
      xs := before + [id];
      var cs := ChildList(id);
      ghost var f, level := Shape(), |Chain(Shape(), id)| + 1;
      ChainStep(f, id);
      ChildrenAtLevel(f, id);
      assert cs[..0] == [];
      for i := 0 to |cs|
        invariant AtLevel(f, cs[..i], level)
        invariant xs == before + [id] + FlattenAll(TreesAt(f, cs[..i], level))
      {
        ChainStep(f, cs[i]);
        xs := WalkIds(cs[i], xs);
        assert AtLevel(f, cs[..i + 1], level);
        TreesSnoc(f, cs, i, level);
      }
      assert cs[..|cs|] == cs;
    }

    /** JsonNodes: every root with its subtree. */
    method JsonNodes() returns (ts: seq<TreeNode>)
      requires Valid()
      ensures AtLevel(Shape(), RootsOf(Shape()), 1) && ts == TreesAt(Shape(), RootsOf(Shape()), 1)
    {
      RootsAtLevel(Shape());
      ts := Walk(roots, 1);
    }

    method Walk(list: seq<int>, ghost level: int) returns (ts: seq<TreeNode>)
      requires Valid() && AtLevel(Shape(), list, level)
      ensures ts == TreesAt(Shape(), list, level)
      decreases |ids| - level
    {
      hide Chain, ValidForest, ChildrenOf, RootsOf;
      ts := [];
      ghost var f := Shape();
      assert list[..0] == [];
      for i := 0 to |list|
        invariant AtLevel(f, list[..i], level) && ts == TreesAt(f, list[..i], level)
      {
        ChainStep(f, list[i]);
        ChildrenAtLevel(f, list[i]);
        var below := Walk(ChildList(list[i]), level + 1);
        ts := ts + [TreeNode(list[i], below)];
        assert AtLevel(f, list[..i + 1], level);
        TreesSnoc(f, list, i, level);
      }
      assert list[..|list|] == list;
    }
  }

  lemma SameCount<T>(a: set<T>, b: set<T>)
    requires forall x :: x in a <==> x in b
    ensures |a| == |b|
  {
    assert a == b;
  }

  lemma KeysCount<K, V>(m: map<K, V>)
    ensures |m| == |m.Keys|
  {
  }

  lemma {:induction false} UnderAppend(a: seq<int>, b: seq<int>, parent: map<int, int>, p: Option<int>)
    ensures Under(a + b, parent, p) == Under(a, parent, p) + Under(b, parent, p)
    decreases |a|
  {
    if a == [] {
      assert a + b == b;
    } else {
      assert (a + b)[1..] == a[1..] + b;
      UnderAppend(a[1..], b, parent, p);
    }
  }

  lemma UnderSnoc(rows: seq<int>, i: nat, up: map<int, int>)
    requires i < |rows|
    ensures
      forall p :: Under(rows[..i + 1], up, p) ==
        Under(rows[..i], up, p) + if (if rows[i] in up then Some(up[rows[i]]) else None) == p then [rows[i]] else []
  {
    forall p ensures Under(rows[..i + 1], up, p) ==
      Under(rows[..i], up, p) + if (if rows[i] in up then Some(up[rows[i]]) else None) == p then [rows[i]] else []
    {
      assert rows[..i + 1] == rows[..i] + [rows[i]] && [rows[i]][1..] == [];
      UnderAppend(rows[..i], [rows[i]], up, p);
      assert Under([rows[i]], up, p)
        == if (if rows[i] in up then Some(up[rows[i]]) else None) == p then [rows[i]] else [];
    }
  }

  lemma TreesSnoc(f: Forest, ids: seq<int>, i: nat, level: int)
    requires ValidForest(f) && i < |ids| && AtLevel(f, ids[..i + 1], level) && AtLevel(f, ids[..i], level)
    requires ids[i] in f.ids
    ensures TreesAt(f, ids[..i + 1], level) == TreesAt(f, ids[..i], level) + [TreeAt(f, ids[i])]
    ensures FlattenAll(TreesAt(f, ids[..i + 1], level))
      == FlattenAll(TreesAt(f, ids[..i], level)) + Flatten(TreeAt(f, ids[i]))
  {
    TreesOneMore(f, ids, i, level);
    hide TreesAt, TreeAt;
    FlattenSnoc(TreesAt(f, ids[..i], level), TreeAt(f, ids[i]));
  }

  lemma {:induction false} FlattenSnoc(ts: seq<TreeNode>, t: TreeNode)
    ensures FlattenAll(ts + [t]) == FlattenAll(ts) + Flatten(t)
  {
    hide Flatten;
    if ts == [] {
      assert [] + [t] == [t] && [t][1..] == [];
      assert FlattenAll([t]) == Flatten(t) + FlattenAll([]);
    } else {
      assert (ts + [t])[1..] == ts[1..] + [t];
      FlattenSnoc(ts[1..], t);
    }
  }

  lemma {:induction false} TreesOneMore(f: Forest, ids: seq<int>, i: nat, level: int)
    requires ValidForest(f) && i < |ids| && AtLevel(f, ids[..i + 1], level) && AtLevel(f, ids[..i], level)
    requires ids[i] in f.ids
    ensures TreesAt(f, ids[..i + 1], level) == TreesAt(f, ids[..i], level) + [TreeAt(f, ids[i])]
    decreases i
  {
    hide TreeAt, Chain, ValidForest;
    if i == 0 {
      assert ids[..1] == [ids[0]] && ids[..0] == [] && [ids[0]][1..] == [];
      assert AtLevel(f, [], level);
    } else {
      var rest := ids[1..];
      assert ids[..i + 1][1..] == rest[..i] && ids[..i][1..] == rest[..i - 1] && rest[i - 1] == ids[i];
      assert AtLevel(f, rest[..i], level) && AtLevel(f, rest[..i - 1], level);
      TreesOneMore(f, rest, i - 1, level);
    }
  }

  lemma MoreParents(links: seq<(int, int)>, ids: seq<int>, i: nat, from: int, to: int, before: map<int, int>)
    requires i < |links| && links[i] == (from, to) && Functional(links) && ParentsFrom(links[..i], ids, before)
    ensures ParentsFrom(links[..i + 1], ids, if from in ids && to in ids then before[from := to] else before)
  {
    var parent := if from in ids && to in ids then before[from := to] else before;
    var more := links[..i + 1];
    forall j | 0 <= j < |more| && more[j].0 in ids && more[j].1 in ids
      ensures more[j].0 in parent && parent[more[j].0] == more[j].1
    {
      if j < i { assert links[..i][j] == more[j]; }
    }
    forall k | k in parent ensures k in ids && parent[k] in ids && (k, parent[k]) in more {
      if k == from && from in ids && to in ids {
        assert more[i] == links[i];
      } else {
        var j :| 0 <= j < |links[..i]| && links[..i][j] == (k, parent[k]);
        assert more[j] == links[..i][j];
      }
    }
  }

  lemma LoadedIsForest(links: seq<(int, int)>, ids: seq<int>, parent: map<int, int>)
    requires Distinct(ids) && ParentsFrom(links, ids, parent) && Acyclic(Elements(links))
    ensures ValidForest(Forest(ids, parent))
  {
    forall e | e in ParentRel(parent) ensures e in Elements(links) {
      var k :| k in parent && e == (k, parent[k]);
    }
    AcyclicSubset(ParentRel(parent), Elements(links));
  }

  // ---------------------------------------------------------------- loading from a valid store

  /** The parent edges of a type meet what loading requires, whichever rows the scope admits. */
  lemma ParentEdgesAreLoadable(schema: Schema, db: DB, typ: string, links: seq<(int, int)>)
    requires ValidSchema(schema) && ValidGraph(schema, db.nodes, db.edges)
    requires typ in schema && schema[typ].treeParent.Some?
    requires Elements(links) == FieldGraph(db.nodes, db.edges, typ, schema[typ].treeParent.value)
    ensures Functional(links) && Acyclic(Elements(links))
  {
    var name := schema[typ].treeParent.value;
    assert ValidTypeDef(schema, typ, schema[typ]);
    var f := FieldByName(schema[typ].fields, name).value;
    assert Hierarchical(schema[typ], f);
    forall i, j | 0 <= i < |links| && 0 <= j < |links| && links[i].0 == links[j].0 ensures links[i].1 == links[j].1 {
      var a := ParentEdge(db, typ, name, links, i);
      var b := ParentEdge(db, typ, name, links, j);
      assert ValidEdge(schema, db.nodes, db.edges[a]) && ValidEdge(schema, db.nodes, db.edges[b]);
      assert a != b ==> !Conflicts(db.edges[a], db.edges[b]);
    }
  }

  lemma ParentEdge(db: DB, typ: string, name: string, links: seq<(int, int)>, i: nat) returns (k: int)
    requires i < |links| && Elements(links) == FieldGraph(db.nodes, db.edges, typ, name)
    ensures k in db.edges && db.edges[k].field == name && db.edges[k].from in db.nodes
    ensures db.nodes[db.edges[k].from].typ == typ
    ensures links[i] == (db.edges[k].from, db.edges[k].to)
  {
    assert links[i] in Elements(links);
    k :| k in db.edges && db.edges[k].field == name && db.edges[k].from in db.nodes
      && db.nodes[db.edges[k].from].typ == typ
         && links[i] == (db.edges[k].from, db.edges[k].to);
  }

  // ---------------------------------------------------------------- what the walks return

  /** x is among the subtree ids of r exactly when r is among the ancestors of x, and it is there once. */
  lemma SubtreeIffAncestor(f: Forest, r: int, x: int)
    requires ValidForest(f) && r in f.ids && x in f.ids
    ensures x in Flatten(TreeAt(f, r)) <==> r in Chain(f, x)
    ensures Distinct(Flatten(TreeAt(f, r)))
  {
    TreeIsSubtree(f, r);
  }

  /** The serialized trees hold every loaded node exactly once. */
  lemma JsonHoldsEachOnce(f: Forest, ts: seq<TreeNode>)
    requires ValidForest(f) && AtLevel(f, RootsOf(f), 1) && ts == TreesAt(f, RootsOf(f), 1)
    ensures Distinct(FlattenAll(ts)) && forall x :: x in FlattenAll(ts) <==> x in f.ids
  {
    ForestHoldsEachOnce(f);
  }
}
