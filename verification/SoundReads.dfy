/** What every read of a reachable store shows, field by field (core/edge.go, core/node_read.go). */
module SoundReads {
  import opened Common
  import opened Types
  import opened Graph
  import opened Store
  import opened Invariants
  import opened Reads
  import opened RoundTrip
  import opened StaleEdges
  import opened EdgeWrites

  /**
   * The references read under a field: each once, to nodes of the declared type, at most one under a single
   * reference; and under a symmetric or equivalence field they are mutual and never to the node itself.
   */
  lemma ReadsAreSound(schema: Schema, db: DB, id: int, f: FieldDef)
    requires ValidSchema(schema) && Inv(schema, db) && id in db.nodes && db.nodes[id].typ in schema
    requires f in schema[db.nodes[id].typ].fields && (f.kind == Ref || f.kind == RefList)
    ensures
      var ids := RefIds(db.edges, id, f);
      && (forall i, j :: 0 <= i < j < |ids| ==> ids[i] != ids[j])
      && (forall x :: x in ids ==> x in db.nodes && db.nodes[x].typ == f.to)
      && (f.kind == Ref ==> |ids| <= 1)
      && (f.symmetric || f.equivalence ==> id !in ids && forall x :: x in ids ==> id in RefIds(db.edges, x, f))
  {
    InvParts(schema, db);
    RefIdsRows(schema, db.nodes, db.edges, id, f);
    if f.kind == Ref { SingleHasOneRow(schema, db.nodes, db.edges, id, f); }
    forall x | x in RefIds(db.edges, id, f)
      ensures x in db.nodes && db.nodes[x].typ == f.to
      ensures f.symmetric || f.equivalence ==> x != id && id in RefIds(db.edges, x, f)
    {
      ReadIsSound(schema, db, id, f, x);
    }
    hide *;
  }

  lemma InvParts(schema: Schema, db: DB)
    requires Inv(schema, db)
    ensures ValidEdges(schema, db.nodes, db.edges) && NoConflicts(db.edges)
  {
  }

  lemma ReadIsSound(schema: Schema, db: DB, id: int, f: FieldDef, x: int)
    requires ValidSchema(schema) && Inv(schema, db) && id in db.nodes && db.nodes[id].typ in schema
    requires f in schema[db.nodes[id].typ].fields && (f.kind == Ref || f.kind == RefList)
    requires x in RefIds(db.edges, id, f)
    ensures x in db.nodes && db.nodes[x].typ == f.to
    ensures f.symmetric || f.equivalence ==> x != id && id in RefIds(db.edges, x, f)
  {
    hide *;
    RefersIffRead(db.edges, id, f, x);
    var k := SomeRowTo(db.edges, id, f, x);
    InvParts(schema, db);
    RowIsSound(schema, db.nodes, db.edges, k, id, f, x);
    if f.symmetric || f.equivalence { RowMeansRead(db.edges, x, f, k); }
  }

  lemma SomeRowTo(edges: map<int, Edge>, id: int, f: FieldDef, x: int) returns (k: int)
    requires Refers(edges, id, f, x)
    ensures k in edges && RowOf(edges[k], id, f) && OtherEnd(edges[k], id) == x
  {
    k :| k in edges && RowOf(edges[k], id, f) && OtherEnd(edges[k], id) == x;
  }

  lemma RowIsSound(
    schema: Schema, nodes: map<int, Node>, edges: map<int, Edge>, k: int, id: int, f: FieldDef, x: int)
    requires ValidSchema(schema) && ValidEdges(schema, nodes, edges) && id in nodes && nodes[id].typ in schema
    requires f in schema[nodes[id].typ].fields && (f.kind == Ref || f.kind == RefList)
    requires k in edges && RowOf(edges[k], id, f) && OtherEnd(edges[k], id) == x
    ensures x in nodes && nodes[x].typ == f.to
    ensures f.symmetric || f.equivalence ==> x != id && RowOf(edges[k], x, f) && OtherEnd(edges[k], x) == id
  {
    var e := edges[k];
    assert ValidEdge(schema, nodes, e);
    OneName(schema, nodes[id].typ, f);
    var g := FieldOn(schema, nodes[e.from].typ, e.field).value;
    if Undirected(f) {
      UndirectedStaysHome(schema, nodes[id].typ, f);
      UndirectedStaysHome(schema, nodes[e.from].typ, g);
    }
    hide ValidSchema, ValidEdges;
  }

  /** Each node refers to the next under the field. */
  ghost predicate Chain(db: DB, f: FieldDef, p: seq<int>) {
    forall i :: 0 <= i < |p| - 1 ==> p[i + 1] in RefIds(db.edges, p[i], f)
  }

  /** Following a transitive field, or the tree's parent field, never leads back to where it started. */
  lemma ReadsDoNotCycle(schema: Schema, db: DB, f: FieldDef, p: seq<int>)
    requires ValidSchema(schema) && Inv(schema, db) && |p| > 1 && p[0] in db.nodes && db.nodes[p[0]].typ in schema
    requires f in schema[db.nodes[p[0]].typ].fields && (f.kind == Ref || f.kind == RefList)
    requires f.transitive || schema[db.nodes[p[0]].typ].treeParent == Some(f.name)
    requires !f.symmetric && !f.equivalence && Chain(db, f, p)
    ensures p[0] != p[|p| - 1]
  {
    hide *;
    var typ := db.nodes[p[0]].typ;
    var g := FieldGraph(db.nodes, db.edges, typ, f.name);
    HierarchyIsAcyclic(schema, db, typ, f);
    ChainIsPath(schema, db, typ, f, p, |p| - 1);
    PathIsOpen(g, p);
  }

  lemma PathIsOpen(g: Rel, p: seq<int>)
    requires Acyclic(g) && |p| > 1 && forall i :: 0 <= i < |p| - 1 ==> (p[i], p[i + 1]) in g
    ensures p[0] != p[|p| - 1]
  {
    var q := p[1..];
    assert IsPath(g, p);
    SubPath(g, p, 1, |p| - 1);
    assert p[1..|p| - 1 + 1] == q;
    assert (p[0], p[0 + 1]) in g && Connects(g, q, p[1], p[|p| - 1]);
  }

  lemma HierarchyIsAcyclic(schema: Schema, db: DB, typ: string, f: FieldDef)
    requires ValidSchema(schema) && Inv(schema, db) && typ in schema && f in schema[typ].fields
    requires f.transitive || schema[typ].treeParent == Some(f.name)
    requires !f.symmetric && !f.equivalence
    ensures Acyclic(FieldGraph(db.nodes, db.edges, typ, f.name)) && f.to == typ
  {
    assert ValidTypeDef(schema, typ, schema[typ]);
    OneName(schema, typ, f);
    assert Hierarchical(schema[typ], f);
    hide Acyclic, FieldGraph;
  }

  lemma {:induction false} ChainIsPath(schema: Schema, db: DB, typ: string, f: FieldDef, p: seq<int>, n: nat)
    requires ValidSchema(schema) && Inv(schema, db) && n < |p| && p[0] in db.nodes && db.nodes[p[0]].typ == typ
    requires typ in schema && f in schema[typ].fields && (f.kind == Ref || f.kind == RefList) && f.to == typ
    requires !f.symmetric && !f.equivalence && Chain(db, f, p)
    ensures p[n] in db.nodes && db.nodes[p[n]].typ == typ
    ensures forall i :: 0 <= i < n ==> (p[i], p[i + 1]) in FieldGraph(db.nodes, db.edges, typ, f.name)
    decreases n
  {
    hide *;
    KindIsRef(f);
    if n > 0 {
      ChainIsPath(schema, db, typ, f, p, n - 1);
      assert p[n - 1 + 1] in RefIds(db.edges, p[n - 1], f) by { ChainStep(db, f, p, n - 1); }
      ReadIsSound(schema, db, p[n - 1], f, p[n]);
      GraphIsRead(schema, db, typ, f, p[n - 1], p[n]);
    }
  }

  lemma KindIsRef(f: FieldDef)
    ensures IsRefKind(f.kind) <==> f.kind == Ref || f.kind == RefList
    ensures Undirected(f) <==> f.symmetric || f.equivalence
  {
  }

  lemma ChainStep(db: DB, f: FieldDef, p: seq<int>, i: nat)
    requires Chain(db, f, p) && i < |p| - 1
    ensures p[i + 1] in RefIds(db.edges, p[i], f)
  {
  }

  /**
   * What a read shows under each name: the stored scalars; under a list field always its list; under a single
   * reference its target, and nothing without one; and nothing else.
   */
  lemma ReadShows(schema: Schema, db: DB, id: int, k: string)
    requires ValidSchema(schema) && Inv(schema, db) && id in db.nodes && db.nodes[id].typ in schema
    ensures
      var (td, row) := (schema[db.nodes[id].typ], db.nodes[id].fields);
      var (shown, f) := (FullFields(td, db.edges, id, row), FieldByName(td.fields, k));
      if f.Some? && f.value.kind == RefList then k in shown && shown[k] == Ids(RefIds(db.edges, id, f.value))
      else if f.Some? && f.value.kind == Ref then
        if k in shown then RefIds(db.edges, id, f.value) == [shown[k].i] && shown[k] == Int(shown[k].i)
        else RefIds(db.edges, id, f.value) == []
      else (k in shown <==> k in row) && (k in row ==> shown[k] == row[k])
  {
    var td, row := schema[db.nodes[id].typ], db.nodes[id].fields;
    assert ValidNode(schema, db.nodes[id]);
    var f := FieldByName(td.fields, k);
    if f.Some? && f.value.kind == Ref {
      ReadsAreSound(schema, db, id, f.value);
      var ids := RefIds(db.edges, id, f.value);
      assert ids == [] || ids == [ids[0]];
    }
    hide RefIds, ValidGraph, ValidateValue, IsEmpty;
  }
}
