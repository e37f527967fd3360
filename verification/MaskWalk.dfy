/**
 * The copy-on-write walk of web/mask.go over an explicit heap. Nodes are cells; expanded entries point to
 * cells and may share them. A walk only ever adds cells.
 */
module MaskWalk {
  import opened Common
  import opened Types
  import opened Mask

  datatype Entry = NodeAt(p: int) | NodesAt(ps: seq<int>) | Data(v: Value)

  datatype Cell = Cell(id: int, typ: string, fields: Fields, expand: map<string, Entry>)

  type Cells = map<int, Cell>

  // ---------------------------------------------------------------- what the cells stand for

  /** The cell and all below it exist, at most h deep. */
  ghost predicate Rooted(cells: Cells, p: int, h: nat)
    decreases h, 1
  {
    p in cells && h > 0 && forall k :: k in cells[p].expand ==> RootedEntry(cells, cells[p].expand[k], h - 1)
  }

  ghost predicate RootedEntry(cells: Cells, e: Entry, h: nat)
    decreases h, 2
  {
    match e
    case NodeAt(p) => Rooted(cells, p, h)
    case NodesAt(ps) => forall i :: 0 <= i < |ps| ==> Rooted(cells, ps[i], h)
    case Data(_) => true
  }

  ghost function View(cells: Cells, p: int, h: nat): NodeTree
    requires Rooted(cells, p, h)
    decreases h, 1
  {
    var c := cells[p];
    NodeTree(c.id, c.typ, c.fields, map k | k in c.expand :: ViewEntry(cells, c.expand[k], h - 1))
  }

  ghost function ViewEntry(cells: Cells, e: Entry, h: nat): Branch
    requires RootedEntry(cells, e, h)
    decreases h, 2
  {
    match e
    case NodeAt(p) => OneNode(View(cells, p, h))
    case NodesAt(ps) => ManyNodes(seq(|ps|, i requires 0 <= i < |ps| => View(cells, ps[i], h)))
    case Data(v) => Plain(v)
  }

  predicate Extends(a: Cells, b: Cells) { forall p :: p in a ==> p in b && b[p] == a[p] }

  /** Adding cells changes nothing that was there. */
  lemma {:induction false} ViewExtends(a: Cells, b: Cells, p: int, h: nat)
    requires Extends(a, b) && Rooted(a, p, h)
    ensures Rooted(b, p, h) && View(b, p, h) == View(a, p, h)
    decreases h, 1
  {
    var c := a[p];
    forall k | k in c.expand
      ensures RootedEntry(b, c.expand[k], h - 1) && ViewEntry(b, c.expand[k], h - 1) == ViewEntry(a, c.expand[k], h - 1)
    {
      EntryExtends(a, b, c.expand[k], h - 1);
    }
    assert View(b, p, h).expand == View(a, p, h).expand;
  }

  lemma {:induction false} EntryExtends(a: Cells, b: Cells, e: Entry, h: nat)
    requires Extends(a, b) && RootedEntry(a, e, h)
    ensures RootedEntry(b, e, h) && ViewEntry(b, e, h) == ViewEntry(a, e, h)
    decreases h, 2
  {
    match e
    case NodeAt(p) => ViewExtends(a, b, p, h);
    case NodesAt(ps) =>
      forall i | 0 <= i < |ps| ensures Rooted(b, ps[i], h) && View(b, ps[i], h) == View(a, ps[i], h) {
        ViewExtends(a, b, ps[i], h);
      }
    case Data(_) =>
  }

  /** The type at the top of a view. */
  lemma ViewTyp(cells: Cells, p: int, h: nat)
    requires Rooted(cells, p, h)
    ensures View(cells, p, h).typ == cells[p].typ
  {
  }

  // ---------------------------------------------------------------- the walk

  /** q shows what masking p must show, in a heap that only grew. */
  ghost predicate MaskedAt(rules: Rules, before: Cells, p: int, after: Cells, q: int, h: nat) {
    && Rooted(before, p, h) && rules(before[p].typ).Some?
    && Rooted(after, q, h) && View(after, q, h) == Masked(rules, View(before, p, h))
  }

  /** The entry shows what masking e must show; None where it must not be shown. */
  ghost predicate MaskedEntry(rules: Rules, before: Cells, e: Entry, after: Cells, r: Option<Entry>, h: nat) {
    RootedEntry(before, e, h)
    && match r
       case None => !Readable(rules, ViewEntry(before, e, h))
       case Some(q) =>
         Readable(rules, ViewEntry(before, e, h)) && RootedEntry(after, q, h)
         && ViewEntry(after, q, h) == MaskedBranch(rules, ViewEntry(before, e, h))
  }

  lemma MaskedAtExtends(rules: Rules, before: Cells, p: int, mid: Cells, q: int, after: Cells, h: nat)
    requires MaskedAt(rules, before, p, mid, q, h) && Extends(mid, after)
    ensures MaskedAt(rules, before, p, after, q, h)
  {
    ViewExtends(mid, after, q, h);
  }

  lemma MaskedAtFrom(rules: Rules, before: Cells, mid: Cells, p: int, after: Cells, q: int, h: nat)
    requires Extends(before, mid) && Rooted(before, p, h) && MaskedAt(rules, mid, p, after, q, h)
    ensures MaskedAt(rules, before, p, after, q, h)
  {
    ViewExtends(before, mid, p, h);
  }

  class Memory {
    var cells: Cells
    var next: int

    constructor ()
      ensures Valid() && cells == map[]
    {
      cells, next := map[], 1;
    }

    predicate Valid()
      reads this
    {
      forall p :: p in cells ==> p < next
    }

    method New(c: Cell) returns (p: int)
      requires Valid()
      modifies this
      ensures Valid() && p !in old(cells) && cells == old(cells)[p := c]
    {
      p := next;
      cells, next := cells[p := c], next + 1;
    }

    /** MaskNode: the same cell when nothing is hidden here or below, a fresh copy otherwise. */
    method MaskNode(rules: Rules, p: int, ghost h: nat) returns (r: Option<int>)
      requires Valid() && Rooted(cells, p, h)
      modifies this
      ensures Valid() && Extends(old(cells), cells)
      ensures r.None? <==> rules(old(cells)[p].typ).None?
      ensures r.Some? ==> MaskedAt(rules, old(cells), p, cells, r.value, h)
      decreases h, 1
    {
      var node := cells[p];
      var rule := rules(node.typ);
      if rule.None? {
        return None;
      }
      var hidden := rule.value;
      var expand, changed := MaskExpand(rules, node.expand, h - 1);
      ghost var before := old(cells);
      ghost var mid := cells;
      if |hidden| == 0 && !changed {
        assert expand == node.expand;
        CopyShows(rules, before, p, mid, node.fields, expand, mid, p, h);
        return Some(p);
      }
      var out := node;
      if |hidden| > 0 {
        out := out.(fields := Without(node.fields, hidden));
      }
      if changed {
        out := out.(expand := expand);
      }
      var q := New(out);
      assert Extends(mid, cells);
      CopyShows(rules, before, p, mid, out.fields, expand, cells, q, h);
      r := Some(q);
    }

    /** maskExpand: the map itself unless some entry changes or goes. */
    method MaskExpand(
      rules: Rules, given: map<string, Entry>, ghost h: nat) returns (out: map<string, Entry>, changed: bool)
      requires Valid() && forall k :: k in given ==> RootedEntry(cells, given[k], h)
      modifies this
      ensures Valid() && Extends(old(cells), cells)
      ensures !changed ==> out == given
      ensures EntriesMasked(rules, old(cells), given, {}, cells, out, h)
      decreases h, 4
    {
      out, changed := given, false;
      ghost var before := cells;
      var rest := given.Keys;
      while rest != {}
        invariant Valid() && Extends(before, cells) && rest <= given.Keys
        invariant !changed ==> out == given
        invariant EntriesMasked(rules, before, given, rest, cells, out, h)
        decreases |rest|
      {
        var k := Pick(rest);
        ghost var mid, was := cells, out;
        EntryExtends(before, cells, given[k], h);
        var entry, copied := MaskEntry(rules, given[k], h);
        rest := rest - {k};
        if entry.None? {
          out, changed := out - {k}, true;
        } else if copied {
          out, changed := out[k := entry.value], true;
        }
        OneMoreEntry(rules, before, given, rest, k, mid, was, cells, entry, out, h);
      }
    }

    /** One expanded entry; dropped whole when a node directly in it has no read rule. */
    method MaskEntry(rules: Rules, e: Entry, ghost h: nat) returns (r: Option<Entry>, copied: bool)
      requires Valid() && RootedEntry(cells, e, h)
      modifies this
      ensures Valid() && Extends(old(cells), cells)
      ensures MaskedEntry(rules, old(cells), e, cells, r, h)
      ensures r.Some? && !copied ==> r.value == e
      decreases h, 3
    {
      match e
      case NodeAt(p) =>
        ViewTyp(cells, p, h);
        var masked := MaskNode(rules, p, h);
        if masked.None? {
          return None, true;
        }
        r, copied := Some(NodeAt(masked.value)), masked.value != p;
      case NodesAt(ps) =>
        var list: Option<seq<int>>;
        list, copied := MaskList(rules, ps, h);
        if list.None? {
          ListHides(rules, old(cells), ps, h);
          return None, true;
        }
        ListShows(rules, old(cells), ps, cells, list.value, h);
        r := Some(NodesAt(list.value));
      case Data(_) =>
        r, copied := Some(e), false;
    }

    /** The list is copied at the first element that changes. */
    method MaskList(rules: Rules, ps: seq<int>, ghost h: nat) returns (r: Option<seq<int>>, copied: bool)
      requires Valid() && forall i :: 0 <= i < |ps| ==> Rooted(cells, ps[i], h)
      modifies this
      ensures Valid() && Extends(old(cells), cells)
      ensures r.None? ==> exists i :: 0 <= i < |ps| && ps[i] in old(cells) && rules(old(cells)[ps[i]].typ).None?
      ensures r.Some? ==> |r.value| == |ps| && forall i :: 0 <= i < |ps| ==>
        MaskedAt(rules, old(cells), ps[i], cells, r.value[i], h)
      ensures r.Some? && !copied ==> r.value == ps
      decreases h, 2
    {
      var list := ps;
      copied := false;
      ghost var before := cells;
      for i := 0 to |ps|
        invariant Valid() && Extends(before, cells) && |list| == |ps|
        invariant forall j :: 0 <= j < i ==> MaskedAt(rules, before, ps[j], cells, list[j], h)
        invariant forall j :: i <= j < |ps| ==> list[j] == ps[j]
        invariant !copied ==> list == ps
      {
        ghost var mid := cells;
        ViewExtends(before, mid, ps[i], h);
        var masked := MaskNode(rules, ps[i], h);
        if masked.None? {
          return None, true;
        }
        MaskedAtFrom(rules, before, mid, ps[i], cells, masked.value, h);
        forall j | 0 <= j < i ensures MaskedAt(rules, before, ps[j], cells, list[j], h) {
          MaskedAtExtends(rules, before, ps[j], mid, list[j], cells, h);
        }
        if masked.value != ps[i] {
          list, copied := list[i := masked.value], true;
        }
      }
      r := Some(list);
    }

    /**
     * maskTreeNodes: an item is rebuilt when its node or anything below it changes; one unreadable node fails
     * the whole.
     */
    method MaskTrees(rules: Rules, items: seq<TreeItem>, ghost h: nat) returns (r: Option<seq<TreeItem>>, changed: bool)
      requires Valid() && RootedTrees(cells, items, h)
      modifies this
      ensures Valid() && Extends(old(cells), cells)
      ensures r.None? <==> !ReadableTrees(rules, ViewTrees(old(cells), items, h))
      ensures r.Some? ==> RootedTrees(cells, r.value, h)
      ensures r.Some? ==> ViewTrees(cells, r.value, h) == MaskedTrees(rules, ViewTrees(old(cells), items, h))
      ensures r.Some? && !changed ==> r.value == items
      decreases items
    {
      ghost var before := cells;
      if items == [] {
        return Some(items), false;
      }
      var item := items[0];
      TreesUnfold(rules, before, items, h);
      hide RootedTrees, ViewTrees, ReadableTrees, MaskedTrees, MaskedAt, Rooted;
      var node := MaskNode(rules, item.node, h);
      if node.None? {
        return None, false;
      }
      ghost var mid := cells;
      TreesExtend(before, mid, item.children, h);
      var children, childChanged := MaskTrees(rules, item.children, h);
      if children.None? {
        return None, false;
      }
      ghost var late := cells;
      TreesExtend(before, late, items[1..], h);
      var others, otherChanged := MaskTrees(rules, items[1..], h);
      if others.None? {
        return None, false;
      }
      changed := node.value != item.node || childChanged || otherChanged;
      var out := if node.value != item.node || childChanged then TreeItem(node.value, children.value) else item;
      MaskedAtExtends(rules, before, item.node, mid, node.value, cells, h);
      TreesExtend(late, cells, children.value, h);
      TreesMasked(rules, before, items, cells, TreeItem(node.value, children.value), others.value, h);
      r := Some([out] + others.value);
    }

    /**
     * MaskNodes: each element is overwritten by what masking it at its own address gives, up to the first
     * unreadable one.
     */
    method MaskNodes(rules: Rules, nodes: array<Cell>, ghost h: nat) returns (ok: bool)
      requires Valid() && forall i :: 0 <= i < nodes.Length ==> RootedCell(cells, nodes[i], h)
      modifies this, nodes
      ensures Valid() && Extends(old(cells), cells)
      ensures ok <==> forall i :: 0 <= i < nodes.Length ==> rules(old(nodes[i]).typ).Some?
      ensures ok ==> forall i :: 0 <= i < nodes.Length ==>
        CellMasked(rules, old(cells), old(nodes[i]), cells, nodes[i], h)
      ensures !ok ==> exists k ::
        0 <= k < nodes.Length && MaskedUpTo(rules, old(cells), old(nodes[..]), cells, nodes[..], k, h)
    {
      ghost var before, was := cells, nodes[..];
      for i := 0 to nodes.Length
        invariant Valid() && Extends(before, cells)
        invariant forall j :: 0 <= j < i ==> CellMasked(rules, before, was[j], cells, nodes[j], h)
        invariant forall j :: i <= j < nodes.Length ==> nodes[j] == was[j]
      {
        hide RootedCell, ViewCell, Masked;
        ghost var mid := cells;
        var p := New(nodes[i]);
        ghost var held := cells;
        assert Extends(before, held) && RootedCell(before, was[i], h);
        CellExtends(before, held, was[i], h);
        CellAt(held, p, h);
        var masked := MaskNode(rules, p, h);
        ghost var after := cells;
        forall j | 0 <= j < i ensures CellMasked(rules, before, was[j], after, nodes[j], h) {
          CellMaskedMoves(rules, before, was[j], mid, nodes[j], after, h);
        }
        if masked.None? {
          assert MaskedUpTo(rules, before, was, cells, nodes[..], i, h);
          return false;
        }
        CellIsMasked(rules, before, was[i], held, p, after, masked.value, h);
        nodes[i] := cells[masked.value];
      }
      forall j | 0 <= j < nodes.Length ensures rules(was[j].typ).Some? {
        assert CellMasked(rules, before, was[j], cells, nodes[j], h);
      }
      ok := true;
    }
  }

  // ---------------------------------------------------------------- why the parts add up

  /** Every entry of the map outside todo is masked, the others are still the given ones. */
  ghost predicate EntriesMasked(
    rules: Rules, before: Cells, given: map<string, Entry>, todo: set<string>, after: Cells, out: map<string, Entry>,
    h: nat)
  {
    && (forall k :: k in out ==> k in given)
    && (forall k :: k in given && k in todo ==> k in out && out[k] == given[k])
    && forall k :: k in given && k !in todo ==> MaskedEntry(rules, before, given[k], after, At(out, k), h)
  }

  function At(out: map<string, Entry>, k: string): Option<Entry> { if k in out then Some(out[k]) else None }

  lemma MaskedEntryMoves(
    rules: Rules, before: Cells, e: Entry, mid: Cells, r: Option<Entry>, after: Cells, h: nat)
    requires MaskedEntry(rules, before, e, mid, r, h) && Extends(mid, after)
    ensures MaskedEntry(rules, before, e, after, r, h)
  {
    if r.Some? { EntryExtends(mid, after, r.value, h); }
  }

  lemma OneMoreEntry(
    rules: Rules, before: Cells, given: map<string, Entry>, todo: set<string>, key: string, mid: Cells,
    was: map<string, Entry>, after: Cells, entry: Option<Entry>, out: map<string, Entry>, h: nat)
    requires Extends(before, mid) && Extends(mid, after) && key in given && key !in todo
    requires RootedEntry(before, given[key], h)
    requires EntriesMasked(rules, before, given, todo + {key}, mid, was, h)
    requires MaskedEntry(rules, mid, given[key], after, entry, h)
    requires out == match entry case None => was - {key} case Some(e) => was[key := e]
    ensures EntriesMasked(rules, before, given, todo, after, out, h)
  {
    EntryExtends(before, mid, given[key], h);
    hide MaskedEntry, Extends, RootedEntry;
    forall k | k in given && k !in todo ensures MaskedEntry(rules, before, given[k], after, At(out, k), h) {
      if k == key {
        SameStart(rules, before, mid, given[key], after, entry, h);
      } else {
        MaskedEntryMoves(rules, before, given[k], mid, At(was, k), after, h);
      }
    }
  }

  lemma SameStart(rules: Rules, before: Cells, mid: Cells, e: Entry, after: Cells, r: Option<Entry>, h: nat)
    requires RootedEntry(before, e, h) && Extends(before, mid) && MaskedEntry(rules, mid, e, after, r, h)
    ensures MaskedEntry(rules, before, e, after, r, h)
  {
    EntryExtends(before, mid, e, h);
  }

  lemma ListShows(rules: Rules, before: Cells, ps: seq<int>, after: Cells, qs: seq<int>, h: nat)
    requires |qs| == |ps| && forall i :: 0 <= i < |ps| ==> MaskedAt(rules, before, ps[i], after, qs[i], h)
    ensures MaskedEntry(rules, before, NodesAt(ps), after, Some(NodesAt(qs)), h)
  {
    forall i | 0 <= i < |ps| ensures View(before, ps[i], h).typ == before[ps[i]].typ { ViewTyp(before, ps[i], h); }
    var v := ViewEntry(before, NodesAt(ps), h);
    assert Readable(rules, v);
    assert ViewEntry(after, NodesAt(qs), h).ns == MaskedAll(rules, v.ns);
  }

  lemma ListHides(rules: Rules, before: Cells, ps: seq<int>, h: nat)
    requires RootedEntry(before, NodesAt(ps), h)
    requires exists i :: 0 <= i < |ps| && ps[i] in before && rules(before[ps[i]].typ).None?
    ensures !Readable(rules, ViewEntry(before, NodesAt(ps), h))
  {
    var i :| 0 <= i < |ps| && ps[i] in before && rules(before[ps[i]].typ).None?;
    ViewTyp(before, ps[i], h);
    assert ViewEntry(before, NodesAt(ps), h).ns[i] == View(before, ps[i], h);
  }

  /** A cell with the visible fields and the masked entries shows the masked node. */
  lemma CopyShows(
    rules: Rules, before: Cells, p: int, mid: Cells, fields: Fields, expand: map<string, Entry>, after: Cells, q: int,
    h: nat)
    requires Rooted(before, p, h) && rules(before[p].typ).Some? && Extends(mid, after)
    requires EntriesMasked(rules, before, before[p].expand, {}, mid, expand, h - 1)
    requires q in after && after[q] == Cell(before[p].id, before[p].typ, fields, expand)
    requires fields == Without(before[p].fields, rules(before[p].typ).value)
             || (fields == before[p].fields && rules(before[p].typ).value == [])
    ensures MaskedAt(rules, before, p, after, q, h)
  {
    KeepAll(before[p].fields);
    assert fields == Without(before[p].fields, rules(before[p].typ).value);
    var given := before[p].expand;
    forall k | k in given ensures MaskedEntry(rules, before, given[k], after, At(expand, k), h - 1) {
      MaskedEntryMoves(rules, before, given[k], mid, At(expand, k), after, h - 1);
    }
    assert Rooted(after, q, h);
    var t, u := View(before, p, h), View(after, q, h);
    forall k | k in given ensures k in u.expand <==> Readable(rules, t.expand[k]) {
      assert MaskedEntry(rules, before, given[k], after, At(expand, k), h - 1);
    }
    forall k | k in expand ensures u.expand[k] == MaskedBranch(rules, t.expand[k]) {
      assert MaskedEntry(rules, before, given[k], after, At(expand, k), h - 1);
    }
    assert u.expand == Masked(rules, t).expand;
  }

  // ---------------------------------------------------------------- trees

  /** A tree node: the node inlined in it, and its children. */
  datatype TreeItem = TreeItem(node: int, children: seq<TreeItem>)

  datatype ShownTree = ShownTree(node: NodeTree, children: seq<ShownTree>)

  ghost predicate RootedTrees(cells: Cells, items: seq<TreeItem>, h: nat) {
    items != [] ==>
      Rooted(cells, items[0].node, h) && RootedTrees(cells, items[0].children, h) && RootedTrees(cells, items[1..], h)
  }

  ghost function ViewTrees(cells: Cells, items: seq<TreeItem>, h: nat): seq<ShownTree>
    requires RootedTrees(cells, items, h)
  {
    if items == [] then []
    else
      [ShownTree(View(cells, items[0].node, h), ViewTrees(cells, items[0].children, h))]
        + ViewTrees(cells, items[1..], h)
  }

  predicate ReadableTrees(rules: Rules, ts: seq<ShownTree>) {
    ts != [] ==> rules(ts[0].node.typ).Some? && ReadableTrees(rules, ts[0].children) && ReadableTrees(rules, ts[1..])
  }

  /** Every node of the trees masked, none left out. */
  function MaskedTrees(rules: Rules, ts: seq<ShownTree>): seq<ShownTree>
    requires ReadableTrees(rules, ts)
  {
    if ts == [] then []
    else [ShownTree(Masked(rules, ts[0].node), MaskedTrees(rules, ts[0].children))] + MaskedTrees(rules, ts[1..])
  }

  lemma {:induction false} TreesExtend(a: Cells, b: Cells, items: seq<TreeItem>, h: nat)
    requires Extends(a, b) && RootedTrees(a, items, h)
    ensures RootedTrees(b, items, h) && ViewTrees(b, items, h) == ViewTrees(a, items, h)
  {
    if items != [] {
      ViewExtends(a, b, items[0].node, h);
      TreesExtend(a, b, items[0].children, h);
      TreesExtend(a, b, items[1..], h);
    }
  }

  lemma TreesUnfold(rules: Rules, cells: Cells, items: seq<TreeItem>, h: nat)
    requires items != [] && RootedTrees(cells, items, h)
    ensures Rooted(cells, items[0].node, h) && items[0].node in cells
    ensures RootedTrees(cells, items[0].children, h) && RootedTrees(cells, items[1..], h)
    ensures ReadableTrees(rules, ViewTrees(cells, items, h)) <==>
      && rules(cells[items[0].node].typ).Some?
      && ReadableTrees(rules, ViewTrees(cells, items[0].children, h))
         && ReadableTrees(rules, ViewTrees(cells, items[1..], h))
  {
    ViewTyp(cells, items[0].node, h);
    hide Rooted, View;
  }

  /** A masked item in front of masked items. */
  lemma TreesMasked(
    rules: Rules, before: Cells, items: seq<TreeItem>, after: Cells, out: TreeItem, others: seq<TreeItem>, h: nat)
    requires items != [] && RootedTrees(before, items, h) && ReadableTrees(rules, ViewTrees(before, items, h))
    requires MaskedAt(rules, before, items[0].node, after, out.node, h)
    requires RootedTrees(after, out.children, h) && RootedTrees(after, others, h)
    requires ViewTrees(after, out.children, h) == MaskedTrees(rules, ViewTrees(before, items[0].children, h))
    requires ViewTrees(after, others, h) == MaskedTrees(rules, ViewTrees(before, items[1..], h))
    ensures RootedTrees(after, [out] + others, h)
    ensures ViewTrees(after, [out] + others, h) == MaskedTrees(rules, ViewTrees(before, items, h))
  {
    hide Rooted, View, Masked;
    assert ([out] + others)[1..] == others;
    assert ViewTrees(before, items, h)[1..] == ViewTrees(before, items[1..], h);
  }

  predicate CleanTrees(rules: Rules, ts: seq<ShownTree>) {
    ts != [] ==> Clean(rules, ts[0].node) && CleanTrees(rules, ts[0].children) && CleanTrees(rules, ts[1..])
  }

  /** The trees are clean at every depth of children and of expanded entries, and masking again changes nothing. */
  lemma {:induction false} MaskedTreesAreClean(rules: Rules, ts: seq<ShownTree>)
    requires ReadableTrees(rules, ts)
    ensures CleanTrees(rules, MaskedTrees(rules, ts)) && ReadableTrees(rules, MaskedTrees(rules, ts))
    ensures MaskedTrees(rules, MaskedTrees(rules, ts)) == MaskedTrees(rules, ts)
  {
    if ts != [] {
      MaskedIsClean(rules, ts[0].node);
      MaskedTwice(rules, ts[0].node);
      MaskedTreesAreClean(rules, ts[0].children);
      MaskedTreesAreClean(rules, ts[1..]);
      var ms := MaskedTrees(rules, ts);
      assert ms[1..] == MaskedTrees(rules, ts[1..]);
    }
  }

  // ---------------------------------------------------------------- slices

  /** A node held by value, its expanded entries in the heap. */
  ghost predicate RootedCell(cells: Cells, c: Cell, h: nat) {
    h > 0 && forall k :: k in c.expand ==> RootedEntry(cells, c.expand[k], h - 1)
  }

  ghost function ViewCell(cells: Cells, c: Cell, h: nat): NodeTree
    requires RootedCell(cells, c, h)
  {
    NodeTree(c.id, c.typ, c.fields, map k | k in c.expand :: ViewEntry(cells, c.expand[k], h - 1))
  }

  /** The value d shows what masking the value c must show. */
  ghost predicate CellMasked(rules: Rules, before: Cells, c: Cell, after: Cells, d: Cell, h: nat) {
    && RootedCell(before, c, h) && rules(c.typ).Some?
    && RootedCell(after, d, h) && ViewCell(after, d, h) == Masked(rules, ViewCell(before, c, h))
  }

  /** Elements masked up to position k, whose type is unreadable, and untouched from there on. */
  ghost predicate MaskedUpTo(
    rules: Rules, before: Cells, was: seq<Cell>, after: Cells, now: seq<Cell>, k: nat, h: nat) {
    && k < |was| == |now| && rules(was[k].typ).None?
    && (forall i :: 0 <= i < k ==> CellMasked(rules, before, was[i], after, now[i], h))
    && forall i :: k <= i < |was| ==> now[i] == was[i]
  }

  lemma CellExtends(a: Cells, b: Cells, c: Cell, h: nat)
    requires Extends(a, b) && RootedCell(a, c, h)
    ensures RootedCell(b, c, h) && ViewCell(b, c, h) == ViewCell(a, c, h)
  {
    forall k | k in c.expand
      ensures RootedEntry(b, c.expand[k], h - 1) && ViewEntry(b, c.expand[k], h - 1) == ViewEntry(a, c.expand[k], h - 1)
    {
      EntryExtends(a, b, c.expand[k], h - 1);
    }
    assert ViewCell(b, c, h).expand == ViewCell(a, c, h).expand;
  }

  lemma CellAt(cells: Cells, p: int, h: nat)
    requires p in cells
    ensures Rooted(cells, p, h) <==> RootedCell(cells, cells[p], h)
    ensures Rooted(cells, p, h) ==> View(cells, p, h) == ViewCell(cells, cells[p], h)
  {
  }

  lemma CellMaskedMoves(rules: Rules, before: Cells, c: Cell, mid: Cells, d: Cell, after: Cells, h: nat)
    requires CellMasked(rules, before, c, mid, d, h) && Extends(mid, after)
    ensures CellMasked(rules, before, c, after, d, h)
  {
    CellExtends(mid, after, d, h);
  }

  /** Masking the cell at which a value is put masks the value. */
  lemma CellIsMasked(rules: Rules, before: Cells, c: Cell, held: Cells, p: int, after: Cells, q: int, h: nat)
    requires RootedCell(before, c, h) && Extends(before, held) && p in held && held[p] == c
    requires MaskedAt(rules, held, p, after, q, h)
    ensures q in after && CellMasked(rules, before, c, after, after[q], h)
  {
    CellExtends(before, held, c, h);
    CellAt(held, p, h);
    CellAt(after, q, h);
  }
}
