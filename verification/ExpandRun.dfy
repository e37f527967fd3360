/** expandTyped as it runs: one batch of edges and targets per level, written into the nodes' containers. */
module ExpandRun {
  import opened Common
  import opened Types
  import opened Store
  import opened Reads
  import opened Query
  import opened Compile
  import opened Expand

  // ---------------------------------------------------------------- rows in order

  /** The rows of a list that are in a set, in order. */
  function Choose(ks: seq<int>, s: set<int>): seq<int> {
    if ks == [] then []
    else Choose(ks[..|ks| - 1], s) + if ks[|ks| - 1] in s then [ks[|ks| - 1]] else []
  }

  lemma {:induction false} ChooseKeepsOrder(edges: map<int, Edge>, ks: seq<int>, s: set<int>)
    requires InOrder(edges, ks)
    ensures InOrder(edges, Choose(ks, s)) && forall x :: x in Choose(ks, s) <==> x in ks && x in s
    decreases |ks|
  {
    if ks != [] {
      var init, last := ks[..|ks| - 1], ks[|ks| - 1];
      ChooseKeepsOrder(edges, init, s);
      var r := Choose(init, s);
      assert ks == init + [last];
      forall i | 0 <= i < |r| ensures Before(edges, r[i], last) {
        var k := r[i];
        assert k in r && k in init;
        var j :| 0 <= j < |init| && init[j] == k;
      }
    }
  }

  lemma ChosenAreSorted(edges: map<int, Edge>, ks: seq<int>, s: set<int>)
    requires InOrder(edges, ks) && s <= Elements(ks) && s <= edges.Keys
    ensures Choose(ks, s) == Sorted(edges, s)
  {
    ChooseKeepsOrder(edges, ks, s);
    forall x | x in s ensures x in Elements(Choose(ks, s)) { assert x in Elements(ks); }
    SetsEqual(Elements(Choose(ks, s)), s);
    OrderIsUnique(edges, Choose(ks, s), Sorted(edges, s));
  }

  lemma ChooseSnoc(ks: seq<int>, n: nat, s: set<int>)
    requires n < |ks|
    ensures Choose(ks[..n + 1], s) == Choose(ks[..n], s) + if ks[n] in s then [ks[n]] else []
  {
    assert ks[..n + 1][..n] == ks[..n];
  }

  /** SELECT ... ORDER BY sort, id */
  method QueryRows(edges: map<int, Edge>, keys: set<int>) returns (rows: seq<int>)
    requires keys <= edges.Keys
    ensures InOrder(edges, rows) && Elements(rows) == keys && |rows| == |keys|
  {
    rows := [];
    var rest := keys;
    while rest != {}
      invariant rest <= keys && InOrder(edges, rows) && |rows| + |rest| == |keys|
      invariant forall x :: x in rows <==> x in keys && x !in rest
      invariant forall x, y :: x in rows && y in rest ==> x in edges && y in edges && Before(edges, x, y)
      decreases |rest|
    {
      ghost var least := First(edges, rest);
      var k :| k in rest && forall j :: j in rest && j != k ==> k in edges && j in edges && Before(edges, k, j);
      forall i | 0 <= i < |rows| ensures Before(edges, rows[i], k) { assert rows[i] in rows; }
      rest := rest - {k};
      rows := rows + [k];
    }
    forall x | x in keys ensures x in Elements(rows) { assert x !in rest; }
    forall x | x in Elements(rows) ensures x in keys { assert x in rows; }
    SetsEqual(Elements(rows), keys);
  }

  type Groups = map<int, seq<int>>

  function GroupAt(g: Groups, id: int): seq<int> { if id in g then g[id] else [] }

  /** Each node has been given its rows among the first n, in order. */
  ghost predicate Grouped(edges: map<int, Edge>, r: Resolved, ids: seq<int>, rows: seq<int>, n: nat, g: Groups)
    requires IsLink(r) && n <= |rows|
  {
    forall id :: id in ids ==> GroupAt(g, id) == Choose(rows[..n], NearRows(edges, r, id))
  }

  /** typedEdges */
  method TypedEdges(edges: map<int, Edge>, r: Resolved, ids: seq<int>) returns (res: Result<Groups, ExpandError>)
    requires IsLink(r) && Distinct(ids)
    ensures res.Err? <==> |RowsFor(edges, r, Elements(ids))| > 1000
    ensures res.Err? ==> res.error == TooManyEdges
    ensures res.Ok? ==> forall id :: id in ids ==> GroupAt(res.value, id) == Sorted(edges, NearRows(edges, r, id))
  {
    var all := Elements(ids);
    var rows := QueryRows(edges, RowsFor(edges, r, all));
    if |rows| > EXPAND_REF_LIMIT {
      return Err(TooManyEdges);
    }
    var out: Groups := map[];
    for n := 0 to |rows|
      invariant Grouped(edges, r, ids, rows, n, out)
    {
      var k := rows[n];
      assert k in Elements(rows) && k in RowsFor(edges, r, all);
      ghost var before := out;
      out := GroupRow(edges[k], k, r, ids, out);
      RowGrouped(edges, r, ids, rows, n, before, out);
    }
    assert rows[..|rows|] == rows;
    forall id | id in ids ensures GroupAt(out, id) == Sorted(edges, NearRows(edges, r, id)) {
      NearAreSelected(edges, r, id, all);
      ChosenAreSorted(edges, rows, NearRows(edges, r, id));
    }
    res := Ok(out);
  }

  /** One edge is filed under its near end, or under each of the nodes it touches. */
  method GroupRow(e: Edge, k: int, r: Resolved, ids: seq<int>, given: Groups) returns (out: Groups)
    requires IsLink(r) && Distinct(ids) && e.field == r.f.name && (Undirected(r.f) ==> e.symmetric)
    ensures forall j :: 0 <= j < |ids| ==>
      GroupAt(out, ids[j]) == GroupAt(given, ids[j]) + if NearOf(e, r, ids[j]) then [k] else []
  {
    out := given;
    if Undirected(r.f) {
      for i := 0 to |ids|
        invariant forall j :: 0 <= j < |ids| ==>
          GroupAt(out, ids[j]) == GroupAt(given, ids[j]) + if j < i && NearOf(e, r, ids[j]) then [k] else []
      {
        var id := ids[i];
        if e.from == id || e.to == id {
          out := out[id := GroupAt(out, id) + [k]];
        }
      }
    } else {
      var key := if r.InRef? then e.to else e.from;
      out := out[key := GroupAt(out, key) + [k]];
    }
  }

  lemma NearAreSelected(edges: map<int, Edge>, r: Resolved, id: int, ids: set<int>)
    requires IsLink(r) && id in ids
    ensures NearRows(edges, r, id) <= RowsFor(edges, r, ids)
  {
  }

  lemma RowGrouped(
    edges: map<int, Edge>, r: Resolved, ids: seq<int>, rows: seq<int>, n: nat, before: Groups, after: Groups)
    requires IsLink(r) && n < |rows| && rows[n] in edges && Grouped(edges, r, ids, rows, n, before)
    requires forall j :: 0 <= j < |ids| ==>
      GroupAt(after, ids[j]) == GroupAt(before, ids[j]) + if NearOf(edges[rows[n]], r, ids[j]) then [rows[n]] else []
    ensures Grouped(edges, r, ids, rows, n + 1, after)
  {
    forall id | id in ids ensures GroupAt(after, id) == Choose(rows[..n + 1], NearRows(edges, r, id)) {
      var j :| 0 <= j < |ids| && ids[j] == id;
      ChooseSnoc(rows, n, NearRows(edges, r, id));
    }
  }

  /** What a container holds after its level: nothing under a single reference without a target. */
  function Container(rel: Resolved, key: string, values: seq<int>): map<string, Shown>
    requires IsLink(rel)
  {
    if !IsSingle(rel) then map[key := Many(values)]
    else if |values| == 1 then map[key := One(values[0])]
    else map[]
  }

  /** Append the values not there yet. */
  method AddNew(known: seq<int>, values: seq<int>) returns (all: seq<int>)
    requires Distinct(known)
    ensures Distinct(all) && forall x :: x in all <==> x in known || x in values
  {
    all := known;
    for j := 0 to |values|
      invariant Distinct(all) && forall x :: x in all <==> x in known || x in values[..j]
    {
      if values[j] !in all {
        all := all + [values[j]];
      }
    }
    assert values[..|values|] == values;
  }

  // ---------------------------------------------------------------- the walk

  lemma LevelStep(
    schema: Schema, nodes: map<int, Node>, edges: map<int, Edge>, ids: seq<int>, typ: string, path: seq<Path>, at: nat)
    requires at < |path|
    ensures ids == [] ==> CanExpand(schema, nodes, edges, Elements(ids), typ, path, at)
    ensures forall e :: ids == [] ==> AllShown(schema, edges, e, Elements(ids), typ, path, at)
    ensures ids != [] ==>
      (CanExpand(schema, nodes, edges, Elements(ids), typ, path, at) <==>
       ResolveRelation(schema, typ, path[at]).Some?
       && var r := ResolveRelation(schema, typ, path[at]).value;
          IsLink(r) && LevelFits(nodes, edges, Elements(ids), typ, r)
          && CanExpand(schema, nodes, edges, NextIds(edges, r, Elements(ids)), TargetOf(r), path, at + 1))
  {
    hide NextIds, ListOf, RowsFor, LevelFits;
    ElementsEmpty(ids);
    if ResolveRelation(schema, typ, path[at]).Some? { ResolvedRelation(schema, typ, path[at]); }
  }

  lemma LastStep(
    schema: Schema, nodes: map<int, Node>, edges: map<int, Edge>, ids: set<int>, typ: string, path: seq<Path>, at: nat,
    e: Expanded)
    requires at >= |path|
    ensures CanExpand(schema, nodes, edges, ids, typ, path, at) && AllShown(schema, edges, e, ids, typ, path, at)
  {
  }

  lemma ShownStep(
    schema: Schema, edges: map<int, Edge>, e: Expanded, ids: seq<int>, typ: string, path: seq<Path>, at: nat)
    requires at < |path| && ResolveRelation(schema, typ, path[at]).Some?
    requires IsLink(ResolveRelation(schema, typ, path[at]).value)
    requires
      var r := ResolveRelation(schema, typ, path[at]).value;
      && (forall id :: id in Elements(ids) ==> ShownAt(e, at, id, ExpandKey(path[at])) == ShownFor(edges, r, id))
      && AllShown(schema, edges, e, NextIds(edges, r, Elements(ids)), TargetOf(r), path, at + 1)
    ensures AllShown(schema, edges, e, Elements(ids), typ, path, at)
  {
    hide NextIds, ListOf, ShownFor, ShownAt;
  }

  class Expander {
    const schema: Schema
    const nodes: map<int, Node>
    const edges: map<int, Edge>
    var expanded: Expanded

    constructor (schema: Schema, nodes: map<int, Node>, edges: map<int, Edge>)
      ensures this.schema == schema && this.nodes == nodes && this.edges == edges && expanded == map[]
    {
      this.schema, this.nodes, this.edges, expanded := schema, nodes, edges, map[];
    }

    /** Edges point to nodes that exist. */
    predicate Anchored() {
      forall k :: k in edges ==> edges[k].from in nodes && edges[k].to in nodes
    }

    /** The containers of deeper levels belong to nodes not loaded yet. */
    predicate FreshFrom(at: nat)
      reads this
    {
      forall key :: key in expanded ==> key.0 < at
    }

    method ExpandTyped(ids: seq<int>, typ: string, path: seq<Path>, at: nat) returns (r: Option<ExpandError>)
      requires at < |path| && Distinct(ids) && Anchored() && FreshFrom(at)
      requires forall i :: 0 <= i < |ids| ==> ids[i] in nodes
      modifies this
      ensures r.None? <==> CanExpand(schema, nodes, edges, Elements(ids), typ, path, at)
      ensures r.None? ==> AllShown(schema, edges, expanded, Elements(ids), typ, path, at)
      ensures forall key :: key in old(expanded) ==> key in expanded && expanded[key] == old(expanded)[key]
      decreases |path| - at
    {
      hide CanExpand, AllShown, NextIds, ListOf, RowsFor, Sorted, NearRows, ResolveRelation, ShownFor, ShownAt;
      LevelStep(schema, nodes, edges, ids, typ, path, at);
      if ids == [] {
        return None;
      }
      var relation := ResolveRelation(schema, typ, path[at]);
      if relation.None? {
        return Some(BadPath);
      }
      var rel := relation.value;
      ResolvedRelation(schema, typ, path[at]);
      var typed := AllOfType(ids, typ);
      if !typed {
        return Some(ExpandError.WrongType);
      }
      var groups := TypedEdges(edges, rel, ids);
      if groups.Err? {
        return Some(TooManyEdges);
      }
      var next := Targets(ids, rel, groups.value);
      typed := AllOfType(next, TargetOf(rel));
      if !typed {
        return Some(ExpandError.WrongType);
      }
      var filled := Fill(ids, rel, groups.value, ExpandKey(path[at]), at);
      if !filled {
        return Some(NotSingle);
      }
      if at + 1 >= |path| {
        LastStep(schema, nodes, edges, Elements(next), TargetOf(rel), path, at + 1, expanded);
        ShownStep(schema, edges, expanded, ids, typ, path, at);
        return None;
      }
      ghost var mid := expanded;
      r := ExpandTyped(next, TargetOf(rel), path, at + 1);
      if r.None? {
        StillShown(ids, rel, ExpandKey(path[at]), at, mid, expanded);
        ShownStep(schema, edges, expanded, ids, typ, path, at);
      }
    }

    method AllOfType(ids: seq<int>, typ: string) returns (ok: bool)
      requires forall i :: 0 <= i < |ids| ==> ids[i] in nodes
      ensures ok <==> forall id :: id in Elements(ids) ==> id in nodes && nodes[id].typ == typ
    {
      for i := 0 to |ids|
        invariant forall j :: 0 <= j < i ==> nodes[ids[j]].typ == typ
      {
        if nodes[ids[i]].typ != typ {
          var x := ids[i];
          assert x in Elements(ids) && nodes[x].typ != typ;
          return false;
        }
      }
      forall x | x in Elements(ids) ensures x in nodes && nodes[x].typ == typ {
        var i :| 0 <= i < |ids| && ids[i] == x;
      }
      ok := true;
    }

    /** The targets of a level, each once. */
    method Targets(ids: seq<int>, rel: Resolved, groups: Groups) returns (next: seq<int>)
      requires IsLink(rel) && Anchored() && forall i :: 0 <= i < |ids| ==> ids[i] in nodes
      requires forall id :: id in ids ==> GroupAt(groups, id) == Sorted(edges, NearRows(edges, rel, id))
      ensures Distinct(next) && Elements(next) == NextIds(edges, rel, Elements(ids))
      ensures forall i :: 0 <= i < |next| ==> next[i] in nodes
    {
      hide Sorted, NearRows, FarEnds, ListOf, InOrder, NextIds;
      next := [];
      for i := 0 to |ids|
        invariant Distinct(next) && forall x :: x in next <==> ReachedFrom(ids[..i], rel, x)
      {
        var id := ids[i];
        GroupIsList(rel, groups, id);
        next := AddNew(next, FarEnds(edges, rel, id, GroupAt(groups, id)));
        forall x ensures x in next <==> ReachedFrom(ids[..i + 1], rel, x) { ReachedSnoc(ids, i, rel, x); }
      }
      assert ids[..|ids|] == ids;
      forall x ensures x in next <==> x in NextIds(edges, rel, Elements(ids)) { ReachedIsNext(ids, rel, x); }
      SetsEqual(Elements(next), NextIds(edges, rel, Elements(ids)));
      forall i | 0 <= i < |next| ensures next[i] in nodes {
        var x := next[i];
        assert x in next;
        NextExists(Elements(ids), rel, x);
      }
    }

    lemma NextExists(ids: set<int>, rel: Resolved, x: int)
      requires IsLink(rel) && Anchored() && x in NextIds(edges, rel, ids)
      ensures x in nodes
    {
      var id, k :| id in ids && k in NearRows(edges, rel, id) && x == FarOf(edges[k], rel, id);
    }

    ghost predicate ReachedFrom(ids: seq<int>, rel: Resolved, x: int)
      requires IsLink(rel)
    {
      exists i :: 0 <= i < |ids| && x in ListOf(edges, rel, ids[i])
    }

    lemma ReachedIsNext(ids: seq<int>, rel: Resolved, x: int)
      requires IsLink(rel)
      ensures ReachedFrom(ids, rel, x) <==> x in NextIds(edges, rel, Elements(ids))
    {
      if i :| 0 <= i < |ids| && x in ListOf(edges, rel, ids[i]) {
        ListHolds(edges, rel, ids[i], x);
        var k :| k in edges && NearOf(edges[k], rel, ids[i]) && FarOf(edges[k], rel, ids[i]) == x;
        assert ids[i] in Elements(ids) && k in NearRows(edges, rel, ids[i]);
      }
      if x in NextIds(edges, rel, Elements(ids)) {
        var id, k :| id in Elements(ids) && k in NearRows(edges, rel, id) && x == FarOf(edges[k], rel, id);
        ListHolds(edges, rel, id, x);
        var i :| 0 <= i < |ids| && ids[i] == id;
      }
    }

    lemma ReachedSnoc(ids: seq<int>, i: nat, rel: Resolved, x: int)
      requires IsLink(rel) && i < |ids|
      ensures ReachedFrom(ids[..i + 1], rel, x) <==> ReachedFrom(ids[..i], rel, x) || x in ListOf(edges, rel, ids[i])
    {
      hide ListOf;
      var more, some := ids[..i + 1], ids[..i];
      if j :| 0 <= j < |more| && x in ListOf(edges, rel, more[j]) {
        if j < i { assert some[j] == more[j]; }
      }
      if j :| 0 <= j < |some| && x in ListOf(edges, rel, some[j]) { assert more[j] == some[j]; }
      if x in ListOf(edges, rel, ids[i]) { assert more[i] == ids[i]; }
    }

    /** The last loop of a level: each node's container gets its list, or its only target. */
    method Fill(ids: seq<int>, rel: Resolved, groups: Groups, key: string, at: nat) returns (ok: bool)
      requires IsLink(rel) && Distinct(ids) && FreshFrom(at)
      requires forall id :: id in ids ==> GroupAt(groups, id) == Sorted(edges, NearRows(edges, rel, id))
      modifies this
      ensures forall k :: k in old(expanded) ==> k in expanded && expanded[k] == old(expanded)[k]
      ensures FreshFrom(at + 1)
      ensures ok <==> (IsSingle(rel) ==> forall id :: id in Elements(ids) ==> |ListOf(edges, rel, id)| <= 1)
      ensures ok ==> forall id :: id in Elements(ids) ==>
        (at, id) in expanded && ShownAt(expanded, at, id, key) == ShownFor(edges, rel, id)
    {
      hide Sorted, NearRows, FarEnds, ListOf, InOrder, Filled, Container, FreshFrom;
      ghost var before := expanded;
      NothingFilled(before, ids, rel, key, at);
      for i := 0 to |ids|
        invariant Filled(before, expanded, ids, i, rel, key, at)
      {
        var id := ids[i];
        GroupIsList(rel, groups, id);
        var values := FarEnds(edges, rel, id, GroupAt(groups, id));
        if IsSingle(rel) && |values| > 1 {
          assert id in Elements(ids);
          FilledAll(before, expanded, ids, i, rel, key, at);
          return false;
        }
        FillOne(before, expanded, ids, i, rel, key, at, values);
        expanded := expanded[(at, id) := Container(rel, key, values)];
      }
      FilledAll(before, expanded, ids, |ids|, rel, key, at);
      ok := true;
    }

    /** The first n containers of the level are written, and nothing else has changed. */
    ghost predicate Filled(before: Expanded, now: Expanded, ids: seq<int>, n: nat, rel: Resolved, key: string, at: nat)
      requires IsLink(rel)
    {
      && n <= |ids|
      && (forall k :: k in before ==> k.0 < at)
      && (forall k :: k in before ==> k in now && now[k] == before[k])
      && (forall k :: k in now ==> k in before || (k.0 == at && k.1 in ids[..n]))
      && (IsSingle(rel) ==> forall j :: 0 <= j < n ==> |ListOf(edges, rel, ids[j])| <= 1)
      && (forall j :: 0 <= j < n ==>
            (at, ids[j]) in now && ShownAt(now, at, ids[j], key) == ShownFor(edges, rel, ids[j]))
    }

    lemma NothingFilled(before: Expanded, ids: seq<int>, rel: Resolved, key: string, at: nat)
      requires IsLink(rel) && FreshFrom(at) && before == expanded
      ensures Filled(before, before, ids, 0, rel, key, at)
    {
    }

    lemma FillOne(
      before: Expanded, now: Expanded, ids: seq<int>, i: nat, rel: Resolved, key: string, at: nat, values: seq<int>)
      requires IsLink(rel) && i < |ids| && Distinct(ids) && Filled(before, now, ids, i, rel, key, at)
      requires values == ListOf(edges, rel, ids[i]) && (IsSingle(rel) ==> |values| <= 1)
      ensures Filled(before, now[(at, ids[i]) := Container(rel, key, values)], ids, i + 1, rel, key, at)
    {
      hide ListOf;
      NotYetFilled(ids, i, at, before);
      var next := now[(at, ids[i]) := Container(rel, key, values)];
      assert ShownAt(next, at, ids[i], key) == ShownFor(edges, rel, ids[i]);
      forall j | 0 <= j < i ensures ShownAt(next, at, ids[j], key) == ShownAt(now, at, ids[j], key) {}
      assert forall x :: x in ids[..i + 1] <==> x in ids[..i] || x == ids[i];
    }

    lemma FilledAll(before: Expanded, now: Expanded, ids: seq<int>, n: nat, rel: Resolved, key: string, at: nat)
      requires IsLink(rel) && Filled(before, now, ids, n, rel, key, at) && now == expanded
      ensures forall k :: k in before ==> k in now && now[k] == before[k]
      ensures FreshFrom(at + 1)
      ensures n == |ids| ==> forall id :: id in Elements(ids) ==>
        && (at, id) in now && ShownAt(now, at, id, key) == ShownFor(edges, rel, id)
        && (IsSingle(rel) ==> |ListOf(edges, rel, id)| <= 1)
    {
      hide ListOf, ShownAt, ShownFor;
      forall id | n == |ids| && id in Elements(ids)
        ensures (at, id) in now && ShownAt(now, at, id, key) == ShownFor(edges, rel, id)
        ensures IsSingle(rel) ==> |ListOf(edges, rel, id)| <= 1
      {
        var j :| 0 <= j < |ids| && ids[j] == id;
      }
    }

    lemma GroupIsList(rel: Resolved, groups: Groups, id: int)
      requires IsLink(rel) && GroupAt(groups, id) == Sorted(edges, NearRows(edges, rel, id))
      ensures forall m :: 0 <= m < |GroupAt(groups, id)| ==> GroupAt(groups, id)[m] in edges
      ensures FarEnds(edges, rel, id, GroupAt(groups, id)) == ListOf(edges, rel, id)
    {
    }

    lemma NotYetFilled(ids: seq<int>, i: nat, at: nat, before: Expanded)
      requires Distinct(ids) && i < |ids| && forall k :: k in before ==> k.0 < at
      ensures (at, ids[i]) !in before && ids[i] !in ids[..i]
    {
    }

    lemma StillShown(ids: seq<int>, rel: Resolved, key: string, at: nat, mid: Expanded, after: Expanded)
      requires IsLink(rel)
      requires forall id :: id in Elements(ids) ==> ShownAt(mid, at, id, key) == ShownFor(edges, rel, id)
      requires forall k :: k in mid ==> k in after && after[k] == mid[k]
      requires forall id :: id in Elements(ids) ==> (at, id) in mid
      ensures forall id :: id in Elements(ids) ==> ShownAt(after, at, id, key) == ShownFor(edges, rel, id)
    {
    }
  }
}
