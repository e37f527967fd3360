/**
 * When one edge may be added or removed, told by what reads show before, and what reads show afterwards
 * (AddEdge and RemoveEdge in core/edge.go).
 */
module EdgeWrites {
  import opened Common
  import opened Types
  import opened Graph
  import opened Store
  import opened Invariants
  import opened Reads
  import opened RoundTrip
  import opened Required
  import opened StaleEdges
  import opened ReachableStates

  // ---------------------------------------------------------------- counting what is read

  lemma {:induction false} SortedLength(edges: map<int, Edge>, keys: set<int>)
    requires keys <= edges.Keys
    ensures |Sorted(edges, keys)| == |keys|
    decreases |keys|
  {
    if keys != {} {
      var k := First(edges, keys);
      SortedLength(edges, keys - {k});
    }
  }

  lemma ReadLength(edges: map<int, Edge>, id: int, f: FieldDef)
    ensures |RefIds(edges, id, f)| == |RowsOf(edges, id, f)|
  {
    SortedLength(edges, RowsOf(edges, id, f));
  }

  /** Directed edges into a node under the field's name: under an undirected field they belong to another type. */
  function ForeignInto(edges: map<int, Edge>, f: FieldDef, n: int): set<int> {
    set k | k in edges && edges[k].field == f.name && edges[k].to == n && !edges[k].symmetric
  }

  /** What RemoveEdge counts at one end. */
  ghost function CountedAt(edges: map<int, Edge>, f: FieldDef, n: int): nat {
    |RefIds(edges, n, f)| + if Undirected(f) then |ForeignInto(edges, f, n)| else 0
  }

  lemma UnionSize<T>(a: set<T>, b: set<T>)
    requires a !! b
    ensures |a + b| == |a| + |b|
  {
  }

  lemma CountIs(schema: Schema, db: DB, f: FieldDef, n: int)
    requires ValidSchema(schema) && Inv(schema, db) && n in db.nodes && db.nodes[n].typ in schema
    requires f in schema[db.nodes[n].typ].fields && IsRefKind(f.kind)
    ensures |EdgesAt(db.edges, f, n)| == CountedAt(db.edges, f, n)
  {
    ReadLength(db.edges, n, f);
    if Undirected(f) {
      OneName(schema, db.nodes[n].typ, f);
      UndirectedRowsAt(schema, db.nodes, db.edges, f, n);
      hide EdgesAt, RowsOf, ForeignInto, Inv, ValidSchema;
      UnionSize(RowsOf(db.edges, n, f), ForeignInto(db.edges, f, n));
    } else {
      DirectedRowsAt(db.edges, f, n);
    }
  }

  lemma UndirectedRowsAt(schema: Schema, nodes: map<int, Node>, edges: map<int, Edge>, f: FieldDef, n: int)
    requires ValidEdges(schema, nodes, edges) && n in nodes && Undirected(f)
    requires FieldOn(schema, nodes[n].typ, f.name) == Some(f)
    ensures EdgesAt(edges, f, n) == RowsOf(edges, n, f) + ForeignInto(edges, f, n)
    ensures RowsOf(edges, n, f) !! ForeignInto(edges, f, n)
  {
    forall k | k in edges
      ensures k in EdgesAt(edges, f, n) <==> k in RowsOf(edges, n, f) || k in ForeignInto(edges, f, n)
    {
      assert ValidEdge(schema, nodes, edges[k]);
    }
    forall k | k in RowsOf(edges, n, f) ensures k !in ForeignInto(edges, f, n) {}
  }

  lemma DirectedRowsAt(edges: map<int, Edge>, f: FieldDef, n: int)
    requires !Undirected(f)
    ensures EdgesAt(edges, f, n) == RowsOf(edges, n, f)
  {
    forall k | k in edges ensures k in EdgesAt(edges, f, n) <==> k in RowsOf(edges, n, f) {}
  }

  // ---------------------------------------------------------------- removing an edge

  ghost predicate Spared(edges: map<int, Edge>, f: FieldDef, e: Edge) {
    f.required ==> CountedAt(edges, f, e.from) >= 2 && (Undirected(f) ==> CountedAt(edges, f, e.to) >= 2)
  }

  /**
   * An edge can be removed exactly when it exists and its field, if required, counts another one at each end
   * it is read from. What counts is what is read there and, under an undirected field, every directed edge
   * into the end under the same name.
   */
  lemma RemoveSucceedsIff(schema: Schema, db: DB, k: int)
    requires ValidSchema(schema) && Inv(schema, db)
    ensures k !in db.edges ==> RemoveEdge(schema, db, k) == Err(EdgeNotFound)
    ensures k in db.edges ==>
      var e := db.edges[k];
      && e.from in db.nodes && FieldOn(schema, db.nodes[e.from].typ, e.field).Some?
      && var f := FieldOn(schema, db.nodes[e.from].typ, e.field).value;
      RemoveEdge(schema, db, k)
      == if Spared(db.edges, f, e) then Ok(db.(edges := map j | j in db.edges && j != k :: db.edges[j]))
         else Err(RequiredReference)
  {
    hide *;
    RemoveUnfolds(schema, db, k);
    if k in db.edges {
      RowHasRefField(schema, db, k);
      var e := db.edges[k];
      var f := FieldOn(schema, db.nodes[e.from].typ, e.field).value;
      CountIs(schema, db, f, e.from);
      if Undirected(f) {
        UndirectedStaysHome(schema, db.nodes[e.from].typ, f);
        CountIs(schema, db, f, e.to);
      }
      SparedIs(db.edges, f, e);
      assert db.edges - {k} == map j | j in db.edges && j != k :: db.edges[j];
    }
  }

  lemma SparedIs(edges: map<int, Edge>, f: FieldDef, e: Edge)
    ensures Spared(edges, f, e)
      <==> (f.required ==> CountedAt(edges, f, e.from) >= 2 && (Undirected(f) ==> CountedAt(edges, f, e.to) >= 2))
  {
  }

  lemma RemoveUnfolds(schema: Schema, db: DB, k: int)
    ensures k !in db.edges ==> RemoveEdge(schema, db, k) == Err(EdgeNotFound)
    ensures
      && k in db.edges && db.edges[k].from in db.nodes
      && FieldOn(schema, db.nodes[db.edges[k].from].typ, db.edges[k].field).Some?
      && IsRefKind(FieldOn(schema, db.nodes[db.edges[k].from].typ, db.edges[k].field).value.kind) ==>
        var e := db.edges[k];
        var f := FieldOn(schema, db.nodes[e.from].typ, e.field).value;
        var few := |EdgesAt(db.edges, f, e.from)| <= 1 || (Undirected(f) && |EdgesAt(db.edges, f, e.to)| <= 1);
        RemoveEdge(schema, db, k)
        == if f.required && few then Err(RequiredReference) else Ok(db.(edges := db.edges - {k}))
  {
    hide EdgesAt, FieldByName;
  }

  /** Where no two types' fields clash, only what is read counts. */
  lemma CountsReadsOnly(schema: Schema, db: DB, f: FieldDef, n: int)
    requires ValidSchema(schema) && NoNameClash(schema) && Inv(schema, db) && n in db.nodes
    requires db.nodes[n].typ in schema && f in schema[db.nodes[n].typ].fields && IsRefKind(f.kind)
    ensures CountedAt(db.edges, f, n) == |RefIds(db.edges, n, f)|
  {
    if Undirected(f) {
      UndirectedStaysHome(schema, db.nodes[n].typ, f);
      OneName(schema, db.nodes[n].typ, f);
      forall k | k in db.edges ensures k !in ForeignInto(db.edges, f, n) {
        assert ValidEdge(schema, db.nodes, db.edges[k]);
      }
      assert ForeignInto(db.edges, f, n) == {};
    }
  }

  /** In a reachable state an edge can be removed exactly when it is not the last that a required field reads. */
  lemma ReachableRemoveIff(schema: Schema, db: DB, k: int)
    requires ValidSchema(schema) && Reachable(schema, db)
    ensures k in db.edges ==>
      && db.edges[k].from in db.nodes && FieldOn(schema, db.nodes[db.edges[k].from].typ, db.edges[k].field).Some?
    ensures RemoveEdge(schema, db, k).Ok?
      <==> && k in db.edges
           && var (from, name) := (db.edges[k].from, db.edges[k].field);
              var f := FieldOn(schema, db.nodes[from].typ, name).value;
              f.required ==> |RefIds(db.edges, from, f)| >= 2
  {
    ReachableInv(schema, db);
    var ops :| db == Run(schema, EMPTY, ops);
    RunNeedsNoPeer(schema, ops);
    RemoveSucceedsIff(schema, db, k);
    if k in db.edges {
      var e := db.edges[k];
      var f := FieldOn(schema, db.nodes[e.from].typ, e.field).value;
      RowHasRefField(schema, db, k);
      hide *;
      assert !NeedsPeer(schema[db.nodes[e.from].typ], f);
      DirectedIsRead(db.edges, schema[db.nodes[e.from].typ], f, e);
    }
  }

  lemma RowHasRefField(schema: Schema, db: DB, k: int)
    requires Inv(schema, db) && k in db.edges
    ensures
      var e := db.edges[k];
      && e.from in db.nodes && e.to in db.nodes && FieldOn(schema, db.nodes[e.from].typ, e.field).Some?
      && var f := FieldOn(schema, db.nodes[e.from].typ, e.field).value;
      IsRefKind(f.kind) && db.nodes[e.to].typ == f.to && f in schema[db.nodes[e.from].typ].fields
  {
    assert ValidEdge(schema, db.nodes, db.edges[k]);
  }

  lemma DirectedIsRead(edges: map<int, Edge>, td: TypeDef, f: FieldDef, e: Edge)
    requires !NeedsPeer(td, f) && f in td.fields && IsRefKind(f.kind)
    ensures Spared(edges, f, e) <==> (f.required ==> |RefIds(edges, e.from, f)| >= 2)
  {
    hide RefIds;
  }

  /** Pages must be linked to each other; menus may link to pages under the same name. */
  function LinkedPages(): Schema {
    map["page" := TypeDef("page", [RefListTo("links", "page", true, true)], None, None, None),
        "menu" := TypeDef("menu", [RefListTo("links", "page", false, false)], None, None, None)]
  }

  /** Two pages linked to each other, and a menu that links to both. */
  const CROWDED := DB(
    map[1 := Node("page", "a", 1, map[]), 2 := Node("page", "b", 1, map[]), 3 := Node("menu", "m", 1, map[])],
    map[1 := Edge(1, "links", 2, 0, false, true), 2 := Edge(3, "links", 1, 0, false, false),
        3 := Edge(3, "links", 2, 1, false, false)],
    map[])

  /** With a name clash the last required link can be removed: the menu's links to the pages count too. */
  lemma ForeignLinksCount()
    ensures ValidSchema(LinkedPages()) && Inv(LinkedPages(), CROWDED)
    ensures
      var f := RefListTo("links", "page", true, true);
      && FieldOn(LinkedPages(), "page", "links") == Some(f)
      && RefIds(CROWDED.edges, 1, f) == [2] && RefIds(CROWDED.edges, 2, f) == [1]
      && RemoveEdge(LinkedPages(), CROWDED, 1).Ok?
      && RefIds(RemoveEdge(LinkedPages(), CROWDED, 1).value.edges, 1, f) == []
  {
    LinkedPagesIsValid();
    CrowdedIsValid();
    CrowdedRows();
    var schema, f := LinkedPages(), RefListTo("links", "page", true, true);
    hide *;
    OneRowIsRead(CROWDED.edges, 1, f, 1);
    OneRowIsRead(CROWDED.edges, 2, f, 1);
    RemoveSucceedsIff(schema, CROWDED, 1);
    SparedIs(CROWDED.edges, f, CROWDED.edges[1]);
    CountsTwo(CROWDED.edges, f, 1, 2);
    CountsTwo(CROWDED.edges, f, 2, 3);
    NoRowsNoIds(RemoveEdge(schema, CROWDED, 1).value.edges, 1, f);
  }

  lemma OneRowIsRead(edges: map<int, Edge>, n: int, f: FieldDef, k: int)
    requires RowsOf(edges, n, f) == {k}
    ensures k in edges && RefIds(edges, n, f) == [OtherEnd(edges[k], n)]
  {
    assert k in RowsOf(edges, n, f);
    ReadLength(edges, n, f);
    var ks := Sorted(edges, RowsOf(edges, n, f));
    assert ks[0] in Elements(ks);
  }

  lemma CountsTwo(edges: map<int, Edge>, f: FieldDef, n: int, k: int)
    requires |RefIds(edges, n, f)| == 1 && Undirected(f) && ForeignInto(edges, f, n) == {k}
    ensures CountedAt(edges, f, n) == 2
  {
  }

  lemma CrowdedRows()
    ensures
      var (edges, f) := (CROWDED.edges, RefListTo("links", "page", true, true));
      && Undirected(f) && f.required && f.name == "links" && edges.Keys == {1, 2, 3}
      && edges[1] == Edge(1, "links", 2, 0, false, true) && OtherEnd(edges[1], 1) == 2 && OtherEnd(edges[1], 2) == 1
      && RowsOf(edges, 1, f) == {1} && RowsOf(edges, 2, f) == {1}
      && ForeignInto(edges, f, 1) == {2} && ForeignInto(edges, f, 2) == {3}
      && RowsOf(map j | j in edges && j != 1 :: edges[j], 1, f) == {}
  {
  }

  lemma LinkedPagesIsValid()
    ensures ValidSchema(LinkedPages()) && LinkedPages().Keys == {"page", "menu"}
    ensures FieldOn(LinkedPages(), "page", "links") == Some(RefListTo("links", "page", true, true))
    ensures FieldOn(LinkedPages(), "menu", "links") == Some(RefListTo("links", "page", false, false))
    ensures forall t, f :: t in LinkedPages() && f in LinkedPages()[t].fields ==> !Hierarchical(LinkedPages()[t], f)
    ensures forall t :: t in LinkedPages() ==>
      LinkedPages()[t].searchable.None? && forall f :: f in LinkedPages()[t].fields ==> IsRefKind(f.kind)
  {
    var s := LinkedPages();
    var f, g := RefListTo("links", "page", true, true), RefListTo("links", "page", false, false);
    assert "page" != "menu" by { assert "page"[0] != "menu"[0]; }
    assert s["page"].fields == [f] && s["menu"].fields == [g];
    assert ValidTypeDef(s, "page", s["page"]) && ValidTypeDef(s, "menu", s["menu"]);
  }

  lemma CrowdedIsValid()
    ensures Inv(LinkedPages(), CROWDED) && CROWDED.nodes[1].typ == "page"
  {
    LinkedPagesIsValid();
    CrowdedNodes();
    CrowdedEdges();
    CrowdedConflictsNot();
    hide *;
    NothingIndexed(LinkedPages(), CROWDED.nodes);
    NothingHierarchical(LinkedPages(), CROWDED.nodes, CROWDED.edges);
    PartsAreInv(LinkedPages(), CROWDED);
  }

  lemma PartsAreInv(schema: Schema, db: DB)
    requires ValidNodes(schema, db.nodes) && ValidEdges(schema, db.nodes, db.edges) && NoConflicts(db.edges)
    requires NoCycles(schema, db.nodes, db.edges) && db.index == RebuiltIndex(schema, db.nodes)
    ensures Inv(schema, db)
  {
    hide ValidNodes, ValidEdges, NoConflicts, NoCycles, RebuiltIndex;
  }

  lemma NothingIndexed(schema: Schema, nodes: map<int, Node>)
    requires forall t :: t in schema ==> schema[t].searchable.None?
    ensures RebuiltIndex(schema, nodes) == map[]
  {
    forall id | id in nodes ensures DocOf(schema, nodes[id]).None? {}
    assert RebuiltIndex(schema, nodes).Keys == {};
  }

  lemma NothingHierarchical(schema: Schema, nodes: map<int, Node>, edges: map<int, Edge>)
    requires forall t, f :: t in schema && f in schema[t].fields ==> !Hierarchical(schema[t], f)
    ensures NoCycles(schema, nodes, edges)
  {
    hide Hierarchical, FieldGraph;
  }

  lemma CrowdedConflictsNot()
    ensures NoConflicts(CROWDED.edges) && CROWDED.index == map[] && CROWDED.nodes[1].typ == "page"
  {
    assert CROWDED.edges.Keys == {1, 2, 3};
  }

  lemma CrowdedNodes()
    ensures ValidNodes(LinkedPages(), CROWDED.nodes)
  {
    LinkedPagesIsValid();
    assert CROWDED.nodes.Keys == {1, 2, 3};
    hide LinkedPages, IsRefKind, ValidateValue;
    forall id | id in CROWDED.nodes ensures 0 < id && ValidNode(LinkedPages(), CROWDED.nodes[id]) {
      assert CROWDED.nodes[id].fields == map[];
    }
  }

  lemma CrowdedEdges()
    ensures ValidEdges(LinkedPages(), CROWDED.nodes, CROWDED.edges)
  {
    LinkedPagesIsValid();
    assert CROWDED.edges.Keys == {1, 2, 3};
    hide LinkedPages, FieldOn;
  }

  // ---------------------------------------------------------------- adding an edge

  /** No room for another reference: the two are linked already, or a single reference is in use at an end. */
  ghost predicate Taken(edges: map<int, Edge>, f: FieldDef, from: int, to: int) {
    || to in RefIds(edges, from, f)
    || (f.kind == Ref && (RefIds(edges, from, f) != [] || (Undirected(f) && RefIds(edges, to, f) != [])))
  }

  lemma SomeRow(edges: map<int, Edge>, id: int, f: FieldDef) returns (k: int)
    requires RefIds(edges, id, f) != []
    ensures k in edges && RowOf(edges[k], id, f)
  {
    var ks := Sorted(edges, RowsOf(edges, id, f));
    k := ks[0];
    assert k in Elements(ks);
  }

  lemma RowMeansRead(edges: map<int, Edge>, id: int, f: FieldDef, k: int)
    requires k in edges && RowOf(edges[k], id, f)
    ensures OtherEnd(edges[k], id) in RefIds(edges, id, f) && RefIds(edges, id, f) != []
  {
    RefersIffRead(edges, id, f, OtherEnd(edges[k], id));
  }

  lemma TakenConflicts(
    schema: Schema, nodes: map<int, Node>, edges: map<int, Edge>, f: FieldDef, from: int, to: int, sort: int)
    returns (k: int)
    requires ValidSchema(schema) && ValidEdges(schema, nodes, edges) && from in nodes && to in nodes
    requires nodes[from].typ in schema && f in schema[nodes[from].typ].fields && IsRefKind(f.kind)
    requires nodes[to].typ == f.to && Taken(edges, f, from, to)
    ensures k in edges && Conflicts(edges[k], Stored(f, from, to, sort))
  {
    hide RefIds, ValidEdges, ValidSchema, RowOf;
    if to in RefIds(edges, from, f) {
      RefersIffRead(edges, from, f, to);
      k :| k in edges && RowOf(edges[k], from, f) && OtherEnd(edges[k], from) == to;
      RowShape(schema, nodes, edges, from, f, k);
    } else if RefIds(edges, from, f) != [] {
      k := SomeRow(edges, from, f);
      RowShape(schema, nodes, edges, from, f, k);
    } else {
      UndirectedStaysHome(schema, nodes[from].typ, f);
      k := SomeRow(edges, to, f);
      RowShape(schema, nodes, edges, to, f, k);
    }
  }

  lemma ConflictIsTaken(
    schema: Schema, nodes: map<int, Node>, edges: map<int, Edge>, f: FieldDef, from: int, to: int, sort: int, k: int)
    requires ValidSchema(schema) && ValidEdges(schema, nodes, edges) && from in nodes && to in nodes
    requires nodes[from].typ in schema && f in schema[nodes[from].typ].fields && IsRefKind(f.kind)
    requires nodes[to].typ == f.to && k in edges && Conflicts(edges[k], Stored(f, from, to, sort))
    ensures Taken(edges, f, from, to)
  {
    var a, e := edges[k], Stored(f, from, to, sort);
    assert ValidEdge(schema, nodes, a);
    OneName(schema, nodes[from].typ, f);
    if Undirected(f) {
      UndirectedStaysHome(schema, nodes[from].typ, f);
      assert RowOf(a, from, f) || RowOf(a, to, f);
    } else {
      assert RowOf(a, from, f);
    }
    hide RefIds, ValidEdges, ValidSchema, RowOf;
    if RowOf(a, from, f) { RowMeansRead(edges, from, f, k); }
    if RowOf(a, to, f) { RowMeansRead(edges, to, f, k); }
  }

  /** A node a reference from another may lead to: it exists, has the target type, and closes no cycle. */
  ghost predicate Eligible(nodes: map<int, Node>, edges: map<int, Edge>, td: TypeDef, f: FieldDef, from: int, to: int) {
    && to in nodes && nodes[to].typ == f.to
    && (Undirected(f) || Hierarchical(td, f) ==> to != from)
    && (Hierarchical(td, f) ==> !Reach(FieldGraph(nodes, edges, td.name, f.name), to, from))
  }

  /** An insert goes through exactly when the target is eligible and there is room. */
  lemma InsertSucceedsIff(schema: Schema, db: DB, f: FieldDef, from: int, to: int, sort: int)
    requires ValidSchema(schema) && ValidEdges(schema, db.nodes, db.edges) && from in db.nodes
    requires db.nodes[from].typ in schema && f in schema[db.nodes[from].typ].fields && IsRefKind(f.kind)
    ensures InsertEdge(db, schema[db.nodes[from].typ], f, from, to, sort).Ok?
      <==> Eligible(db.nodes, db.edges, schema[db.nodes[from].typ], f, from, to) && !Taken(db.edges, f, from, to)
  {
    hide *;
    var td := schema[db.nodes[from].typ];
    TypeIsNamed(schema, db.nodes[from].typ);
    NoErrorIff(db, td, f, from, to, sort);
    if to in db.nodes && db.nodes[to].typ == f.to { ConflictIff(schema, db.nodes, db.edges, f, from, to, sort); }
  }

  lemma TypeIsNamed(schema: Schema, typ: string)
    requires ValidSchema(schema) && typ in schema
    ensures schema[typ].name == typ
  {
  }

  lemma NoErrorIff(db: DB, td: TypeDef, f: FieldDef, from: int, to: int, sort: int)
    requires from in db.nodes
    ensures InsertEdge(db, td, f, from, to, sort).Ok?
      <==> && Eligible(db.nodes, db.edges, td, f, from, to)
           && !exists k :: k in db.edges && Conflicts(db.edges[k], Stored(f, from, to, sort))
    ensures Eligible(db.nodes, db.edges, td, f, from, to) ==> to in db.nodes && db.nodes[to].typ == f.to
  {
    hide Conflicts, Stored, Reach, FieldGraph, Hierarchical;
  }

  lemma ConflictIff(
    schema: Schema, nodes: map<int, Node>, edges: map<int, Edge>, f: FieldDef, from: int, to: int, sort: int)
    requires ValidSchema(schema) && ValidEdges(schema, nodes, edges) && from in nodes && to in nodes
    requires nodes[from].typ in schema && f in schema[nodes[from].typ].fields && IsRefKind(f.kind)
    requires nodes[to].typ == f.to
    ensures (exists k :: k in edges && Conflicts(edges[k], Stored(f, from, to, sort))) <==> Taken(edges, f, from, to)
  {
    hide *;
    if Taken(edges, f, from, to) {
      var k := TakenConflicts(schema, nodes, edges, f, from, to, sort);
    } else {
      forall k | k in edges ensures !Conflicts(edges[k], Stored(f, from, to, sort)) {
        if Conflicts(edges[k], Stored(f, from, to, sort)) {
          ConflictIsTaken(schema, nodes, edges, f, from, to, sort, k);
        }
      }
    }
  }

  /** AddEdge goes through exactly when the source declares the reference, the target is eligible and there is room. */
  lemma AddSucceedsIff(schema: Schema, db: DB, from: int, to: int, name: string, sort: int)
    requires ValidSchema(schema) && Inv(schema, db)
    ensures AddEdge(schema, db, from, to, name, sort).Ok?
      <==> && from in db.nodes && FieldOn(schema, db.nodes[from].typ, name).Some?
           && var f := FieldOn(schema, db.nodes[from].typ, name).value;
              && IsRefKind(f.kind) && Eligible(db.nodes, db.edges, schema[db.nodes[from].typ], f, from, to)
              && !Taken(db.edges, f, from, to)
  {
    if from in db.nodes && FieldOn(schema, db.nodes[from].typ, name).Some? {
      var f := FieldOn(schema, db.nodes[from].typ, name).value;
      if IsRefKind(f.kind) { InsertSucceedsIff(schema, db, f, from, to, sort); }
    }
    hide Eligible, Taken, InsertEdge, Inv, ValidSchema;
  }

  /** The graph in which cycles are looked for is what reads show; of an undirected field, the upward half of it. */
  lemma GraphIsRead(schema: Schema, db: DB, typ: string, f: FieldDef, a: int, b: int)
    requires ValidSchema(schema) && Inv(schema, db) && typ in schema && f in schema[typ].fields && IsRefKind(f.kind)
    ensures (a, b) in FieldGraph(db.nodes, db.edges, typ, f.name)
      <==> a in db.nodes && db.nodes[a].typ == typ && b in RefIds(db.edges, a, f) && (Undirected(f) ==> a < b)
  {
    OneName(schema, typ, f);
    RefersIffRead(db.edges, a, f, b);
    hide RefIds, ValidSchema, NoConflicts, NoCycles, RebuiltIndex, ValidNodes;
    if (a, b) in FieldGraph(db.nodes, db.edges, typ, f.name) {
      var k :| k in db.edges && db.edges[k].field == f.name && db.edges[k].from in db.nodes
               && db.nodes[db.edges[k].from].typ == typ && (a, b) == (db.edges[k].from, db.edges[k].to);
      assert ValidEdge(schema, db.nodes, db.edges[k]);
      assert RowOf(db.edges[k], a, f) && OtherEnd(db.edges[k], a) == b;
    }
    if a in db.nodes && db.nodes[a].typ == typ && Refers(db.edges, a, f, b) && (Undirected(f) ==> a < b) {
      var k :| k in db.edges && RowOf(db.edges[k], a, f) && OtherEnd(db.edges[k], a) == b;
      assert ValidEdge(schema, db.nodes, db.edges[k]);
      assert db.edges[k].from == a && db.edges[k].to == b;
    }
  }

  // ---------------------------------------------------------------- where an added reference is read

  /** How many of the rows read there come before a new row with this position. */
  ghost function PlaceOf(edges: map<int, Edge>, id: int, f: FieldDef, sort: int): nat {
    |set k | k in RowsOf(edges, id, f) && edges[k].sort <= sort|
  }

  lemma {:induction false} SortedInsert(edges: map<int, Edge>, ks: seq<int>, k: int, e: Edge) returns (i: nat)
    requires InOrder(edges, ks) && k !in edges && forall j :: j in edges ==> j < k
    ensures i <= |ks| && InOrder(edges[k := e], ks[..i] + [k] + ks[i..])
    ensures forall j :: 0 <= j < |ks| ==> (j < i <==> edges[ks[j]].sort <= e.sort)
    decreases |ks|
  {
    if ks == [] || edges[ks[|ks| - 1]].sort <= e.sort {
      i := |ks|;
      forall j | 0 <= j < |ks| ensures edges[ks[j]].sort <= e.sort {
        assert j < |ks| - 1 ==> Before(edges, ks[j], ks[|ks| - 1]);
      }
      assert ks[..i] + [k] + ks[i..] == ks + [k];
    } else {
      var init, last := ks[..|ks| - 1], ks[|ks| - 1];
      i := SortedInsert(edges, init, k, e);
      assert ks[..i] + [k] + ks[i..] == (init[..i] + [k] + init[i..]) + [last];
    }
  }

  lemma InOrderIsDistinct(edges: map<int, Edge>, ks: seq<int>)
    requires InOrder(edges, ks)
    ensures Distinct(ks)
  {
    forall i, j | 0 <= i < j < |ks| ensures ks[i] != ks[j] { assert Before(edges, ks[i], ks[j]); }
  }

  /** The rows before a place are those whose position is no greater. */
  lemma PlaceIs(edges: map<int, Edge>, id: int, f: FieldDef, sort: int, i: nat)
    requires
      var ks := Sorted(edges, RowsOf(edges, id, f));
      i <= |ks| && forall j :: 0 <= j < |ks| ==> (j < i <==> edges[ks[j]].sort <= sort)
    ensures i == PlaceOf(edges, id, f, sort)
  {
    var ks := Sorted(edges, RowsOf(edges, id, f));
    InOrderIsDistinct(edges, ks);
    ElementsFit(ks[..i]);
    hide RowsOf, Sorted;
    var early := set k | k in RowsOf(edges, id, f) && edges[k].sort <= sort;
    forall k | k in early ensures k in ks[..i] {
      assert k in Elements(ks);
      var j :| 0 <= j < |ks| && ks[j] == k;
      assert ks[..i][j] == k;
    }
    forall k | k in ks[..i] ensures k in early {
      var j :| 0 <= j < i && ks[..i][j] == k;
      assert ks[j] in Elements(ks);
    }
    assert early == Elements(ks[..i]);
  }

  lemma RowsInsert(edges: map<int, Edge>, k: int, e: Edge, n: int, f: FieldDef)
    requires k !in edges
    ensures RowsOf(edges[k := e], n, f) == RowsOf(edges, n, f) + if RowOf(e, n, f) then {k} else {}
  {
    hide RowOf;
    var after := edges[k := e];
    forall j | j in edges ensures after[j] == edges[j] {}
  }

  /** A new row is read after the rows with no greater position, and the others keep their order. */
  lemma InsertedIsRead(edges: map<int, Edge>, k: int, e: Edge, n: int, f: FieldDef)
    requires k !in edges && RowOf(e, n, f) && forall j :: j in edges ==> j < k
    ensures
      var (ids, i) := (RefIds(edges, n, f), PlaceOf(edges, n, f, e.sort));
      i <= |ids| && RefIds(edges[k := e], n, f) == ids[..i] + [OtherEnd(e, n)] + ids[i..]
  {
    hide *;
    var rows, after := RowsOf(edges, n, f), edges[k := e];
    RowsExist(edges, n, f);
    RowsExist(after, n, f);
    var ks := Sorted(edges, rows);
    var i := SortedInsert(edges, ks, k, e);
    PlaceIs(edges, n, f, e.sort, i);
    RowsInsert(edges, k, e, n, f);
    PartsTogether(ks, i, k);
    OrderIsUnique(after, ks[..i] + [k] + ks[i..], Sorted(after, RowsOf(after, n, f)));
    ReadIs(edges, n, f);
    ReadIs(after, n, f);
    EndsInsert(edges, k, e, n, ks, i);
  }

  lemma RowsExist(edges: map<int, Edge>, n: int, f: FieldDef)
    ensures RowsOf(edges, n, f) <= edges.Keys
  {
  }

  lemma ReadIs(edges: map<int, Edge>, n: int, f: FieldDef)
    ensures RowsOf(edges, n, f) <= edges.Keys
    ensures RefIds(edges, n, f) == Ends(edges, n, Sorted(edges, RowsOf(edges, n, f)))
  {
  }

  lemma EndsInsert(edges: map<int, Edge>, k: int, e: Edge, n: int, ks: seq<int>, i: nat)
    requires k !in edges && i <= |ks| && InOrder(edges, ks)
    ensures
      var ids := Ends(edges, n, ks);
      Ends(edges[k := e], n, ks[..i] + [k] + ks[i..]) == ids[..i] + [OtherEnd(e, n)] + ids[i..]
  {
  }

  lemma PartsTogether(ks: seq<int>, i: nat, k: int)
    requires i <= |ks|
    ensures Elements(ks[..i] + [k] + ks[i..]) == Elements(ks) + {k}
  {
    assert ks == ks[..i] + ks[i..];
  }

  /**
   * What AddEdge changes: the field reads one more target at either end it is read from, after those with no
   * greater position, and every other list is read as before.
   */
  lemma AddedIsRead(
    schema: Schema, db: DB, from: int, to: int, name: string, sort: int, next: DB, n: int, g: FieldDef)
    requires ValidSchema(schema) && Inv(schema, db) && AddEdge(schema, db, from, to, name, sort) == Ok(next)
    requires n in db.nodes && db.nodes[n].typ in schema && g in schema[db.nodes[n].typ].fields && IsRefKind(g.kind)
    ensures next.nodes == db.nodes && next.index == db.index && FieldOn(schema, db.nodes[from].typ, name).Some?
    ensures
      var f := FieldOn(schema, db.nodes[from].typ, name).value;
      var (ids, i) := (RefIds(db.edges, n, g), PlaceOf(db.edges, n, g, sort));
      && i <= |ids|
      && RefIds(next.edges, n, g)
         == if g == f && n == from then ids[..i] + [to] + ids[i..]
            else if g == f && Undirected(f) && n == to then ids[..i] + [from] + ids[i..]
            else ids
  {
    hide *;
    var f := DeclaredRef(schema, db, from, to, name, sort, next);
    AddedRow(schema, db, from, to, name, sort, next);
    var e, k := Stored(f, from, to, sort), NextId(db.edges.Keys);
    StoredIsRow(schema, db.nodes, f, from, to, sort, n, g);
    StoredSort(f, from, to, sort);
    PlaceFits(db.edges, n, g, sort);
    if RowOf(e, n, g) {
      InsertedIsRead(db.edges, k, e, n, g);
    } else {
      RowsInsert(db.edges, k, e, n, g);
      RowsExist(db.edges, n, g);
      RefIdsFrame(db.edges, next.edges, n, g);
    }
  }

  lemma DeclaredRef(schema: Schema, db: DB, from: int, to: int, name: string, sort: int, next: DB)
    returns (f: FieldDef)
    requires AddEdge(schema, db, from, to, name, sort) == Ok(next)
    ensures from in db.nodes && FieldOn(schema, db.nodes[from].typ, name) == Some(f) && f.name == name
    ensures RefFieldOn(schema, db.nodes[from].typ, name) == Ok(f)
  {
    f := RefFieldOn(schema, db.nodes[from].typ, name).value;
  }

  lemma StoredSort(f: FieldDef, from: int, to: int, sort: int)
    ensures Stored(f, from, to, sort).sort == sort
  {
  }

  lemma PlaceFits(edges: map<int, Edge>, n: int, f: FieldDef, sort: int)
    ensures PlaceOf(edges, n, f, sort) <= |RefIds(edges, n, f)|
  {
    ReadLength(edges, n, f);
    Subset((set k | k in RowsOf(edges, n, f) && edges[k].sort <= sort), RowsOf(edges, n, f));
  }

  lemma Subset<T>(a: set<T>, b: set<T>)
    requires a <= b
    ensures |a| <= |b|
  {
    assert b == a + (b - a);
  }

  /** The stored row belongs to the field at its source and, if undirected, at its target, and nowhere else. */
  lemma StoredIsRow(
    schema: Schema, nodes: map<int, Node>, f: FieldDef, from: int, to: int, sort: int, n: int, g: FieldDef)
    requires ValidSchema(schema) && ValidEdge(schema, nodes, Stored(f, from, to, sort))
    requires from in nodes && FieldOn(schema, nodes[from].typ, f.name) == Some(f)
    requires n in nodes && nodes[n].typ in schema && g in schema[nodes[n].typ].fields && IsRefKind(g.kind)
    ensures RowOf(Stored(f, from, to, sort), n, g) <==> g == f && (n == from || (Undirected(f) && n == to))
    ensures RowOf(Stored(f, from, to, sort), n, g) ==>
      OtherEnd(Stored(f, from, to, sort), n) == if n == from then to else from
  {
    OneName(schema, nodes[n].typ, g);
    if Undirected(f) { UndirectedStaysHome(schema, nodes[from].typ, f); }
  }
}
