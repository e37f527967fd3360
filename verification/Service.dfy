/**
 * The write side of the service, step by step as the source runs it, each method proved to do what
 * its counterpart in Store says (core/edge.go, core/node_sql.go, core/node_delete.go, core/search.go).
 */
module Service {
  import opened Common
  import opened Types
  import opened Graph
  import opened Bigram
  import S = Store
  import R = Reads
  import opened Invariants

  type Edge = S.Edge
  type Node = S.Node

  /** IncomingReference: who refers to a node that cannot be deleted. */
  datatype Incoming = Incoming(edge: int, source: int, sourceType: string, field: string)

  /**
   * A row belongs to the field of a node, with the other node at its far end, exactly if it leads from one to
   * the other.
   */
  lemma RowLeads(
    schema: Schema, nodes: map<int, Node>, edges: map<int, Edge>, k: int, m: int, f: FieldDef, target: int)
    requires ValidSchema(schema) && ValidEdges(schema, nodes, edges) && k in edges && m != target
    requires m in nodes && nodes[m].typ in schema && f in schema[nodes[m].typ].fields && IsRefKind(f.kind)
    ensures
      var e := edges[k];
      R.RowOf(e, m, f) && R.OtherEnd(e, m) == target
      <==> && e.field == f.name && (e.to == target || (e.symmetric && e.from == target))
           && m == if e.symmetric && e.from == target then e.to else e.from
  {
    var e := edges[k];
    assert ValidEdge(schema, nodes, e);
    var g := FieldOn(schema, nodes[e.from].typ, e.field).value;
    assert ValidTypeDef(schema, nodes[e.from].typ, schema[nodes[e.from].typ]);
    assert ValidTypeDef(schema, nodes[m].typ, schema[nodes[m].typ]);
    FieldByNameFinds(schema[nodes[m].typ].fields, f);
  }

  lemma MaxIs(s: set<int>, m: int)
    requires (m == 0 || m in s) && 0 <= m && forall x :: x in s ==> x <= m
    ensures m == S.MaxOf(s)
  {
  }

  /** The id the database gives the next row. */
  method NextId(keys: set<int>) returns (id: int)
    ensures id == S.NextId(keys)
  {
    var m, rest := 0, keys;
    while rest != {}
      invariant rest <= keys && 0 <= m && (m == 0 || m in keys)
      invariant forall x :: x in keys ==> x in rest || x <= m
      decreases |rest|
    {
      var x := Pick(rest);
      if x > m {
        m := x;
      }
      rest := rest - {x};
    }
    MaxIs(keys, m);
    id := m + 1;
  }

  /** The worklist the recursive query runs: a row leaves the queue once, a new row enters it once. */
  method Closure(g: Rel, start: int) returns (seen: set<int>)
    ensures forall x :: x in seen <==> Reach(g, start, x)
  {
    seen := {start};
    var queue := {start};
    ghost var universe := Nodes(g) + {start};
    ReachSelf(g, start);
    while queue != {}
      invariant queue <= seen <= universe && start in seen
      invariant forall x :: x in seen ==> Reach(g, start, x)
      invariant forall e :: e in g && e.0 in seen && e.0 !in queue ==> e.1 in seen
      decreases universe - seen, |queue|
    {
      var r := Pick(queue);
      var found := set e | e in g && e.0 == r && e.1 !in seen :: e.1;
      forall x | x in found ensures Reach(g, start, x) && x in universe {
        ReachEdge(g, r, x);
        ReachTrans(g, start, r, x);
      }
      queue := queue - {r} + found;
      assert found != {} ==> universe - (seen + found) < universe - seen by {
        if found != {} {
          var x := AnElement(found);
          assert x in universe - seen && x !in universe - (seen + found);
        }
      }
      assert found == {} ==> seen + found == seen;
      seen := seen + found;
    }
    forall x | Reach(g, start, x) ensures x in seen {
      var p :| Connects(g, p, start, x);
      ClosedSetHoldsPath(g, seen, p);
    }
  }

  class Store {
    const schema: Schema
    var nodes: map<int, Node>
    var edges: map<int, Edge>
    var index: map<int, S.Doc>

    ghost function State(): S.DB
      reads this
    {
      S.DB(nodes, edges, index)
    }

    constructor (schema: Schema)
      ensures this.schema == schema && State() == S.EMPTY
    {
      this.schema := schema;
      nodes, edges, index := map[], map[], map[];
    }

    // -------------------------------------------------------------- edges

    /** Would an edge from -> to close a cycle of this field? */
    method WouldCreateCycle(typ: string, field: string, from: int, to: int) returns (cycle: bool)
      ensures cycle <==> Reach(S.FieldGraph(nodes, edges, typ, field), to, from)
    {
      var g := set k | k in edges && edges[k].field == field && edges[k].from in nodes
        && nodes[edges[k].from].typ == typ
                 :: (edges[k].from, edges[k].to);
      var reach := Closure(g, to);
      cycle := from in reach;
    }

    method InsertEdge(td: TypeDef, f: FieldDef, from: int, to: int, sort: int) returns (r: Result<int, S.Error>)
      modifies this`edges
      ensures
        match S.InsertEdge(old(State()), td, f, from, to, sort)
        case Ok(db) => State() == db && r == Ok(S.NextId(old(edges).Keys))
        case Err(e) => State() == old(State()) && r == Err(e)
    {
      if to !in nodes {
        return Err(S.NotFound);
      }
      if nodes[to].typ != f.to {
        return Err(S.WrongType);
      }
      if (Undirected(f) || Hierarchical(td, f)) && from == to {
        return Err(S.SelfReference);
      }
      if Hierarchical(td, f) {
        var cycle := WouldCreateCycle(td.name, f.name, from, to);
        if cycle {
          return Err(S.Cycle);
        }
      }
      var e := S.Stored(f, from, to, sort);
      if exists k :: k in edges && S.Conflicts(edges[k], e) {
        return Err(S.RelationCardinality);
      }
      if from !in nodes {
        return Err(S.ForeignKey);
      }
      var id := NextId(edges.Keys);
      edges := edges[id := e];
      r := Ok(id);
    }

    /** The inner loop of addEdges; `seen` is the set of targets already written. */
    method AddTargets(td: TypeDef, f: FieldDef, from: int, ids: seq<int>) returns (err: Option<S.Error>)
      modifies this`edges
      ensures
        match S.AddTargets(old(State()), td, f, from, ids, 0)
        case Ok(db) => err.None? && State() == db
        case Err(e) => err == Some(e)
    {
      var seen: set<int> := {};
      var pos := 0;
      while pos < |ids|
        invariant 0 <= pos <= |ids| && seen == Elements(ids[..pos])
        invariant S.AddTargets(State(), td, f, from, ids, pos) == S.AddTargets(old(State()), td, f, from, ids, 0)
      {
        assert ids[pos] in seen <==> ids[pos] in ids[..pos];
        if ids[pos] in seen {
          return Some(S.InvalidFields);
        }
        seen := seen + {ids[pos]};
        assert ids[..pos + 1] == ids[..pos] + [ids[pos]];
        var r := InsertEdge(td, f, from, ids[pos], pos);
        if r.Err? {
          return Some(r.error);
        }
        pos := pos + 1;
      }
      err := None;
    }

    /** addEdges: validate and insert every reference of one node, in the order the map is walked. */
    method AddEdges(td: TypeDef, from: int, refs: Fields, order: seq<string>) returns (err: Option<S.Error>)
      requires forall k :: k in order ==> k in refs
      modifies this`edges
      ensures
        match S.AddEdges(old(State()), td, from, refs, order)
        case Ok(db) => err.None? && State() == db
        case Err(e) => err == Some(e)
    {
      var i := 0;
      assert order[0..] == order;
      while i < |order|
        invariant 0 <= i <= |order|
        invariant S.AddEdges(State(), td, from, refs, order[i..]) == S.AddEdges(old(State()), td, from, refs, order)
      {
        var name := order[i];
        assert order[i..][0] == name && order[i..][1..] == order[i + 1..];
        if refs[name] != Null {
          var f := FieldByName(td.fields, name);
          if f.None? {
            return Some(S.UnknownField);
          }
          var ids := S.TargetIds(f.value, refs[name]);
          if ids.None? {
            return Some(S.InvalidFields);
          }
          err := AddTargets(td, f.value, from, ids.value);
          if err.Some? {
            return;
          }
        }
        i := i + 1;
      }
      err := None;
    }

    method AddEdge(from: int, to: int, name: string, sort: int) returns (r: Result<int, S.Error>)
      modifies this`edges
      ensures
        match S.AddEdge(schema, old(State()), from, to, name, sort)
        case Ok(db) => State() == db && r == Ok(S.NextId(old(edges).Keys))
        case Err(e) => State() == old(State()) && r == Err(e)
    {
      if from !in nodes {
        return Err(S.NotFound);
      }
      var f := S.RefFieldOn(schema, nodes[from].typ, name);
      if f.Err? {
        return Err(f.error);
      }
      r := InsertEdge(schema[nodes[from].typ], f.value, from, to, sort);
    }

    /** deleteFieldEdges */
    method DeleteFieldEdges(id: int, f: FieldDef)
      modifies this`edges
      ensures edges == map k | k in old(edges) && !S.ClearedBy(old(edges)[k], id, f) :: old(edges)[k]
    {
      edges := map k | k in edges && !S.ClearedBy(edges[k], id, f) :: edges[k];
    }

    /** The loop of PatchNode that clears every patched reference field. */
    method ClearFields(id: int, td: TypeDef, order: seq<string>)
      requires forall i :: 0 <= i < |order| ==> IsRefName(td, order[i])
      modifies this`edges
      ensures edges == S.ClearFields(old(edges), id, td, Elements(order))
    {
      ClearNothing(edges, id, td);
      ElementsEmpty(order[..0]);
      for i := 0 to |order|
        invariant edges == S.ClearFields(old(edges), id, td, Elements(order[..i]))
      {
        assert order[..i + 1] == order[..i] + [order[i]];
        ClearOneMore(old(edges), id, td, Elements(order[..i]), order[i]);
        DeleteFieldEdges(id, FieldByName(td.fields, order[i]).value);
        assert Elements(order[..i + 1]) == Elements(order[..i]) + {order[i]};
      }
      assert order[..|order|] == order;
    }

    static lemma ClearNothing(edges: map<int, Edge>, id: int, td: TypeDef)
      ensures S.ClearFields(edges, id, td, {}) == edges
    {
      KeepAll(edges);
      var all := map k | k in edges :: edges[k];
      assert forall k :: k in all ==> !S.ClearedByAny(edges[k], id, td, {});
      assert forall k :: k in all ==> k in S.ClearFields(edges, id, td, {});
      assert S.ClearFields(edges, id, td, {}) == all;
    }

    static lemma ClearOneMore(edges: map<int, Edge>, id: int, td: TypeDef, names: set<string>, name: string)
      requires IsRefName(td, name)
      ensures
        var some := S.ClearFields(edges, id, td, names);
        var f := FieldByName(td.fields, name).value;
        S.ClearFields(edges, id, td, names + {name}) == map k | k in some && !S.ClearedBy(some[k], id, f) :: some[k]
    {
      var f := FieldByName(td.fields, name).value;
      forall k | k in edges
        ensures S.ClearedByAny(edges[k], id, td, names + {name})
                <==> S.ClearedByAny(edges[k], id, td, names) || S.ClearedBy(edges[k], id, f)
      {
      }
    }

    /** RemoveEdge counts the remaining references at each endpoint the field binds. */
    method RemoveEdge(id: int) returns (err: Option<S.Error>)
      modifies this`edges
      ensures
        match S.RemoveEdge(schema, old(State()), id)
        case Ok(db) => err.None? && State() == db
        case Err(e) => err == Some(e) && State() == old(State())
    {
      if id !in edges {
        return Some(S.EdgeNotFound);
      }
      var e := edges[id];
      if e.from !in nodes {
        return Some(S.EdgeNotFound);
      }
      var f := S.RefFieldOn(schema, nodes[e.from].typ, e.field);
      if f.Err? {
        return Some(f.error);
      }
      if f.value.required {
        var endpoints := [e.from];
        if Undirected(f.value) {
          endpoints := endpoints + [e.to];
        }
        for i := 0 to |endpoints|
          invariant edges == old(edges)
          invariant forall j :: 0 <= j < i ==> |S.EdgesAt(edges, f.value, endpoints[j])| > 1
        {
          var count := |S.EdgesAt(edges, f.value, endpoints[i])|;
          if count <= 1 {
            assert endpoints[0] == e.from;
            return Some(S.RequiredReference);
          }
        }
        assert endpoints[0] == e.from;
        assert Undirected(f.value) ==> endpoints[1] == e.to;
      }
      edges := edges - {id};
      err := None;
    }

    // -------------------------------------------------------------- the index

    /** Sync: replace the row of a node, or drop it when there is nothing to index. */
    method Sync(id: int, n: Node, names: seq<string>)
      modifies this`index
      ensures
        var display := BigramText(n.display);
        var body := BigramText(S.SearchableText(names, n.fields));
        index == if display == "" && body == "" then old(index) - {id}
                 else old(index)[id := S.Doc(n.typ, display, body)]
    {
      var display := Scan(n.display);
      var body := Scan(S.SearchableText(names, n.fields));
      if display == "" && body == "" {
        index := index - {id};
        return;
      }
      index := index - {id};
      index := index[id := S.Doc(n.typ, display, body)];
    }

    /** searchSync, the hook after create and update. */
    method SearchSync(id: int, n: Node)
      modifies this`index
      ensures index == S.SyncIndex(schema, old(index), id, n)
    {
      if n.typ in schema && schema[n.typ].searchable.Some? {
        Sync(id, n, schema[n.typ].searchable.value);
      } else {
        index := index - {id};
      }
    }

    /** Rebuild: empty the index, then sync every indexable row. */
    method Rebuild()
      modifies this`index
      ensures index == RebuiltIndex(schema, nodes)
    {
      index := map[];
      var todo := nodes.Keys;
      while todo != {}
        invariant todo <= nodes.Keys
        invariant index == RebuiltIndex(schema, nodes - todo)
        decreases |todo|
      {
        var id := Pick(todo);
        if nodes[id].typ in schema && schema[nodes[id].typ].searchable.Some? {
          Sync(id, nodes[id], schema[nodes[id].typ].searchable.value);
        }
        assert nodes - (todo - {id}) == (nodes - todo)[id := nodes[id]];
        assert id !in RebuiltIndex(schema, nodes - todo);
        assert index == S.SyncIndex(schema, RebuiltIndex(schema, nodes - todo), id, nodes[id]);
        SyncIsRebuild(schema, nodes - todo, id, nodes[id]);
        todo := todo - {id};
      }
      assert nodes - {} == nodes;
    }

    // -------------------------------------------------------------- nodes

    method CreateNode(typ: string, display: string, given: Fields, order: seq<string>) returns (r: Result<int, S.Error>)
      modifies this
      ensures
        match S.CreateNode(schema, old(State()), typ, display, given, order)
        case Ok((db, id)) => State() == db && r == Ok(id)
        case Err(e) => State() == old(State()) && r == Err(e)
    {
      if typ !in schema {
        return Err(S.UnknownType);
      }
      var td := schema[typ];
      var fields := ApplyDefaults(td.fields, given);
      if !ValidateFields(td, fields) || display == "" {
        return Err(S.InvalidFields);
      }
      var scalar, refs := ScalarPart(td, fields), RefPart(td, fields);
      if !S.Enumerates(order, refs.Keys) {
        return Err(S.InvalidFields);
      }
      assert forall k :: k in order ==> k in Elements(order);
      var nodes0, edges0 := nodes, edges;
      var id := NextId(nodes.Keys);
      var row := S.Node(typ, display, 1, scalar);
      nodes := nodes[id := row];
      var err := AddEdges(td, id, refs, order);
      if err.Some? {
        nodes, edges := nodes0, edges0;
        return Err(err.value);
      }
      SearchSync(id, row);
      r := Ok(id);
    }

    method PatchNode(id: int, patch: S.Patch, order: seq<string>) returns (err: Option<S.Error>)
      modifies this
      ensures
        match S.PatchNode(schema, old(State()), id, patch, order)
        case Ok(db) => err.None? && State() == db
        case Err(e) => err == Some(e) && State() == old(State())
    {
      if id !in nodes {
        return Some(S.NotFound);
      }
      var existing := nodes[id];
      if patch.display.None? && patch.fields == map[] {
        return None;
      }
      if patch.revision.None? || patch.revision.value <= 0 {
        return Some(S.InvalidFields);
      }
      if existing.typ !in schema {
        return Some(S.UnknownType);
      }
      var td := schema[existing.typ];
      if !ValidatePatchFields(td, patch.fields) || patch.display == Some("") {
        return Some(S.InvalidFields);
      }
      var scalars, refs := ScalarPart(td, patch.fields), RefPart(td, patch.fields);
      if !S.Enumerates(order, refs.Keys) {
        return Some(S.InvalidFields);
      }
      forall i | 0 <= i < |order| ensures order[i] in refs && IsRefName(td, order[i]) {
        var k := order[i];
        assert k in Elements(order);
      }
      if patch.revision.value != existing.revision {
        return Some(S.RevisionConflict);
      }
      var nodes0, edges0 := nodes, edges;
      var row := existing.(revision := existing.revision + 1);
      if patch.display.Some? {
        row := row.(display := patch.display.value);
      }
      if scalars != map[] {
        row := row.(fields := MergeFields(existing.fields, scalars));
      }
      nodes := nodes[id := row];
      ClearFields(id, td, order);
      err := AddEdges(td, id, refs, order);
      if err.Some? {
        nodes, edges := nodes0, edges0;
        return;
      }
      SearchSync(id, row);
    }

    /** incomingReferences, over the rows the query returned in id order. */
    method IncomingReferences(target: int, rows: seq<int>) returns (refs: seq<Incoming>, ok: bool)
      requires forall i :: 0 <= i < |rows| ==> rows[i] in edges
      ensures ok <==> forall i :: 0 <= i < |rows| && S.SourceOf(edges[rows[i]], target) != target ==>
        S.SourceOf(edges[rows[i]], target) in nodes
      ensures ok ==> refs == IncomingOf(rows, target)
    {
      refs := [];
      for i := 0 to |rows|
        invariant forall j :: 0 <= j < i && S.SourceOf(edges[rows[j]], target) != target ==>
          S.SourceOf(edges[rows[j]], target) in nodes
        invariant refs == IncomingOf(rows[..i], target)
      {
        assert rows[..i + 1][..i] == rows[..i];
        var source := S.SourceOf(edges[rows[i]], target);
        if source != target {
          if source !in nodes {
            return [], false;
          }
          refs := refs + [Incoming(rows[i], source, nodes[source].typ, edges[rows[i]].field)];
        }
      }
      assert rows[..|rows|] == rows;
      ok := true;
    }

    /** The references among some rows: every row whose source is another node, in order. */
    function IncomingOf(rows: seq<int>, target: int): seq<Incoming>
      reads this
      requires forall i :: 0 <= i < |rows| ==> rows[i] in edges
    {
      if rows == [] then []
      else
        var last := rows[|rows| - 1];
        var source := S.SourceOf(edges[last], target);
        IncomingOf(rows[..|rows| - 1], target)
        + if source != target && source in nodes
          then [Incoming(last, source, nodes[source].typ, edges[last].field)] else []
    }

    /** Each listed reference names its edge, the node at the other end with its type, and the field. */
    lemma {:induction false} IncomingListed(rows: seq<int>, target: int, x: Incoming)
      requires forall i :: 0 <= i < |rows| ==> rows[i] in edges
      ensures x in IncomingOf(rows, target)
        <==> && x.edge in rows
             && var e := edges[x.edge];
                && x.source == (if e.symmetric && e.from == target then e.to else e.from) && x.source != target
                && x.source in nodes && x.sourceType == nodes[x.source].typ && x.field == e.field
    {
      if rows != [] {
        var init, last := rows[..|rows| - 1], rows[|rows| - 1];
        IncomingListed(init, target, x);
        assert rows == init + [last];
        assert x.edge in rows <==> x.edge in init || x.edge == last;
      }
    }

    /** The references are listed in the order of their edges. */
    lemma {:induction false} IncomingAscends(rows: seq<int>, target: int)
      requires forall i :: 0 <= i < |rows| ==> rows[i] in edges
      requires forall i, j :: 0 <= i < j < |rows| ==> rows[i] < rows[j]
      ensures forall i :: 0 <= i < |IncomingOf(rows, target)| ==> IncomingOf(rows, target)[i].edge in rows
      ensures forall i, j :: 0 <= i < j < |IncomingOf(rows, target)| ==>
        IncomingOf(rows, target)[i].edge < IncomingOf(rows, target)[j].edge
    {
      if rows != [] {
        var init, last := rows[..|rows| - 1], rows[|rows| - 1];
        IncomingAscends(init, target);
        var before, refs := IncomingOf(init, target), IncomingOf(rows, target);
        assert rows == init + [last] && forall k :: k in init ==> k < last;
        assert refs == before || (refs[..|before|] == before && |refs| == |before| + 1 && refs[|before|].edge == last);
        forall i | 0 <= i < |before| ensures refs[i] == before[i] && before[i].edge in init {}
      }
    }

    /** What is listed for a node is what other nodes read: those whose references under the field contain it. */
    lemma IncomingIsRead(rows: seq<int>, target: int, m: int, f: FieldDef)
      requires ValidSchema(schema) && ValidEdges(schema, nodes, edges)
      requires forall i :: 0 <= i < |rows| ==> rows[i] in edges
      requires forall k :: k in edges ==>
        (k in rows <==> edges[k].to == target || (edges[k].symmetric && edges[k].from == target))
      requires m in nodes && m != target && nodes[m].typ in schema && f in schema[nodes[m].typ].fields
      requires IsRefKind(f.kind)
      ensures target in R.RefIds(edges, m, f)
        <==> exists x :: x in IncomingOf(rows, target) && x.source == m && x.field == f.name
    {
      hide ValidSchema, ValidEdges, IncomingOf, R.RefIds, R.RowOf;
      R.RefersIffRead(edges, m, f, target);
      if R.Refers(edges, m, f, target) {
        var k :| k in edges && R.RowOf(edges[k], m, f) && R.OtherEnd(edges[k], m) == target;
        RowLeads(schema, nodes, edges, k, m, f, target);
        var x := Incoming(k, m, nodes[m].typ, f.name);
        IncomingListed(rows, target, x);
        assert x in IncomingOf(rows, target);
      }
      if x :| x in IncomingOf(rows, target) && x.source == m && x.field == f.name {
        IncomingListed(rows, target, x);
        RowLeads(schema, nodes, edges, x.edge, m, f, target);
      }
    }

    lemma IncomingIsRefersTo(rows: seq<int>, target: int)
      requires ValidEdges(schema, nodes, edges)
      requires forall i :: 0 <= i < |rows| ==> rows[i] in edges
      requires forall k :: k in edges && S.RefersTo(edges[k], target) ==> k in rows
      requires forall i :: 0 <= i < |rows| ==>
        edges[rows[i]].to == target || (edges[rows[i]].symmetric && edges[rows[i]].from == target)
      ensures IncomingOf(rows, target) == [] <==> !exists k :: k in edges && S.RefersTo(edges[k], target)
    {
      NoIncoming(rows, target);
      if exists k :: k in edges && S.RefersTo(edges[k], target) {
        var k :| k in edges && S.RefersTo(edges[k], target);
        var i :| 0 <= i < |rows| && rows[i] == k;
        assert ValidEdge(schema, nodes, edges[k]) && S.SourceOf(edges[rows[i]], target) in nodes;
      }
    }

    lemma {:induction false} NoIncoming(rows: seq<int>, target: int)
      requires forall i :: 0 <= i < |rows| ==> rows[i] in edges
      ensures IncomingOf(rows, target) == [] <==>
        forall i :: 0 <= i < |rows| ==>
          S.SourceOf(edges[rows[i]], target) == target || S.SourceOf(edges[rows[i]], target) !in nodes
    {
      if rows != [] {
        NoIncoming(rows[..|rows| - 1], target);
      }
    }

    /** deleteNodeTx; rows is what the incoming query returned. */
    method DeleteNode(id: int, rows: seq<int>) returns (r: Result<(), S.Error>, refs: seq<Incoming>)
      requires ValidEdges(schema, nodes, edges)
      requires forall i :: 0 <= i < |rows| ==> rows[i] in edges
      requires forall k :: k in edges ==>
        (k in rows <==> edges[k].to == id || (edges[k].symmetric && edges[k].from == id))
      modifies this
      ensures
        match S.DeleteNode(schema, old(State()), id)
        case Ok(db) => r == Ok(()) && State() == db
        case Err(e) => r == Err(e) && State() == old(State())
      ensures r == Err(S.DeleteRestricted) ==> refs == old(IncomingOf(rows, id))
    {
      refs := [];
      if id !in nodes {
        return Err(S.NotFound), [];
      }
      var ok;
      refs, ok := IncomingReferences(id, rows);
      forall i | 0 <= i < |rows|
        ensures edges[rows[i]].to == id || (edges[rows[i]].symmetric && edges[rows[i]].from == id) {
        var k := rows[i];
        assert k in rows;
      }
      forall i | 0 <= i < |rows| ensures S.SourceOf(edges[rows[i]], id) in nodes {
        var k := rows[i];
        assert k in edges && ValidEdge(schema, nodes, edges[k]);
      }
      assert ok;
      IncomingIsRefersTo(rows, id);
      if refs != [] {
        return Err(S.DeleteRestricted), refs;
      }
      edges := map k | k in edges && !S.Touches(edges[k], id) :: edges[k];
      nodes := nodes - {id};
      index := index - {id};
      r := Ok(());
    }
  }
}
