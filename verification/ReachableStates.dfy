/** What readers of a reachable store may rely on, and a schema for which they may not. */
module ReachableStates {
  import opened Common
  import opened Types
  import opened Store
  import opened Invariants
  import opened Reads
  import opened RoundTrip
  import opened Required

  /** What GetNode returns would be accepted by CreateNode. */
  lemma ReadsAreValid(schema: Schema, db: DB, id: int)
    requires ValidSchema(schema) && NoNameClash(schema) && Reachable(schema, db) && id in db.nodes
    ensures db.nodes[id].typ in schema
    ensures ValidateFields(schema[db.nodes[id].typ],
      FullFields(schema[db.nodes[id].typ], db.edges, id, db.nodes[id].fields))
  {
    ReachableInv(schema, db);
    var n := db.nodes[id];
    assert ValidNode(schema, n);
    var td := schema[n.typ];
    var refs := RefFields(td, db.edges, id);
    var full := FullFields(td, db.edges, id, n.fields);
    forall k | k in full
      ensures FieldByName(td.fields, k).Some? && ValidateValue(FieldByName(td.fields, k).value, full[k])
    {
      if k in refs {
        ReadOfRef(td, db.edges, id, k);
        ReadValueNamesTargets(schema, db.nodes, db.edges, id, FieldByName(td.fields, k).value);
      }
    }
    forall f | f in td.fields && f.required ensures f.name in full && !IsEmpty(f.kind, full[f.name]) {
      FieldByNameFinds(td.fields, f);
      if IsRefKind(f.kind) {
        RequiredIsRead(schema, db, id, f);
      } else {
        assert f.name !in refs;
      }
    }
  }

  lemma ListedIsNotEmpty(f: FieldDef, ids: seq<int>)
    requires IsRefKind(f.kind) && ids != []
    ensures RefValue(f, ids).Some? && !IsEmpty(f.kind, RefValue(f, ids).value)
  {
    if f.kind == RefList {
      assert |AsItems(Ids(ids)).value| == |ids|;
    }
  }

  lemma RequiredIsRead(schema: Schema, db: DB, id: int, f: FieldDef)
    requires ValidSchema(schema) && NoNameClash(schema) && Reachable(schema, db) && id in db.nodes
    requires db.nodes[id].typ in schema
    requires f in schema[db.nodes[id].typ].fields && f.required && IsRefKind(f.kind)
    ensures f.name in RefFields(schema[db.nodes[id].typ], db.edges, id)
    ensures !IsEmpty(f.kind, RefFields(schema[db.nodes[id].typ], db.edges, id)[f.name])
  {
    var td := schema[db.nodes[id].typ];
    ReachableRequiredAll(schema, db, id, f);
    ListedIsNotEmpty(f, RefIds(db.edges, id, f));
    FieldIsRead(td, db.edges, id, f);
  }

  lemma FieldIsRead(td: TypeDef, edges: map<int, Edge>, id: int, f: FieldDef)
    requires DistinctNames(td.fields) && f in td.fields && IsRefKind(f.kind) && RefValue(f, RefIds(edges, id, f)).Some?
    ensures f.name in RefFields(td, edges, id)
    ensures RefFields(td, edges, id)[f.name] == RefValue(f, RefIds(edges, id, f)).value
  {
    FieldByNameFinds(td.fields, f);
    assert f.name in RefNames(td) && ReadOf(td, edges, id, f.name) == RefValue(f, RefIds(edges, id, f));
  }

  predicate NothingImmutable(td: TypeDef, full: Fields) {
    forall k :: k in full && FieldByName(td.fields, k).Some? ==> !FieldByName(td.fields, k).value.immutable
  }

  /** In a reachable state writing back what was read fails only on immutable fields. */
  lemma WriteBackIsAllowedIff(schema: Schema, db: DB, id: int, order: seq<string>)
    requires ValidSchema(schema) && NoNameClash(schema) && Reachable(schema, db) && id in db.nodes
    requires db.nodes[id].typ in schema
    requires Enumerates(order, RefFields(schema[db.nodes[id].typ], db.edges, id).Keys)
    ensures
      var td := schema[db.nodes[id].typ];
      PatchNode(schema, db, id, PatchFromNode(td, db, id), order).Ok?
      <==> NothingImmutable(td, PatchFromNode(td, db, id).fields)
  {
    ReachableInv(schema, db);
    WriteBack(schema, db, id, order);
    ReadsAreValid(schema, db, id);
    ValidIsWritable(schema[db.nodes[id].typ], PatchFromNode(schema[db.nodes[id].typ], db, id).fields);
  }

  lemma ValidIsWritable(td: TypeDef, full: Fields)
    requires DistinctNames(td.fields) && ValidateFields(td, full)
    ensures Writable(td, full) <==> NothingImmutable(td, full)
  {
    assert AsItems(Ids([])).value == [];
    forall k | k in full
      ensures WritableField(FieldByName(td.fields, k).value, full[k]) <==> !FieldByName(td.fields, k).value.immutable
    {
      assert FieldByName(td.fields, k).value in td.fields;
    }
  }

  // ---------------------------------------------------------------- a name clash

  function RefListTo(name: string, to: string, required: bool, symmetric: bool): FieldDef {
    FieldDef(name, RefList, to, [], None, [], required, None, false, symmetric, false, false)
  }

  /** Pages link to each other both ways; a menu must link to at least one page. Both call it links. */
  function ClashingSchema(): Schema {
    map["page" := TypeDef("page", [RefListTo("links", "page", false, true)], None, None, None),
        "menu" := TypeDef("menu", [RefListTo("links", "page", true, false)], None, None, None)]
  }

  function NewPage(): Op { Create("page", "p", map[], []) }
  function NewMenu(): Op { Create("menu", "m", map["links" := Ids([1])], ["links"]) }
  function UnlinkPage(): Op { PatchOp(1, Patch(Some(1), None, map["links" := Ids([])]), ["links"]) }

  lemma ClashingSchemaIsValid()
    ensures ValidSchema(ClashingSchema()) && !NoNameClash(ClashingSchema())
  {
    var s := ClashingSchema();
    var f, g := RefListTo("links", "page", false, true), RefListTo("links", "page", true, false);
    assert s["page"].fields == [f] && s["menu"].fields == [g];
    assert f in s["page"].fields && g in s["menu"].fields;
    assert "page" != "menu" by { assert "page"[0] != "menu"[0]; }
  }

  lemma NextIds()
    ensures NextId({}) == 1 && NextId({1}) == 2
  {
    var m := MaxOf({1});
    assert 1 in {1};
  }

  const ONE_PAGE := DB(map[1 := PAGE], map[], map[])
  const PAGE_AND_MENU := DB(map[1 := PAGE, 2 := MENU], map[1 := Edge(2, "links", 1, 0, false, false)], map[])
  const UNLINKED := DB(map[1 := PAGE.(revision := 2), 2 := MENU], map[], map[])
  const PAGE := Node("page", "p", 1, map[])
  const MENU := Node("menu", "m", 1, map[])

  lemma PageIsCreated()
    ensures Apply(ClashingSchema(), EMPTY, NewPage()) == Ok(ONE_PAGE)
  {
    NextIds();
    var page := ClashingSchema()["page"];
    var f := RefListTo("links", "page", false, true);
    assert page.fields == [f];
    var none: Fields := map[];
    assert ApplyDefaults([f], none) == none;
    assert ScalarPart(page, none) == map[] && RefPart(page, none) == map[];
    assert Enumerates([], RefPart(page, none).Keys);
  }

  lemma MenuLinkIsValid(menu: TypeDef, given: Fields)
    requires menu == ClashingSchema()["menu"] && given == map["links" := Ids([1])]
    ensures ApplyDefaults(menu.fields, given) == given && ValidateFields(menu, given)
    ensures ScalarPart(menu, given) == map[] && RefPart(menu, given) == given
    ensures menu.searchable.None?
  {
    var g := RefListTo("links", "page", true, false);
    assert menu.fields == [g];
    assert ApplyDefaults([g], given) == given;
    IdsNameTargets(g, [1]);
    ListedIsNotEmpty(g, [1]);
  }

  lemma MenuIsCreated()
    ensures Apply(ClashingSchema(), ONE_PAGE, NewMenu()) == Ok(PAGE_AND_MENU)
  {
    hide AddEdges, ApplyDefaults, ValidateFields, ScalarPart, RefPart;
    var menu := ClashingSchema()["menu"];
    var given: Fields := map["links" := Ids([1])];
    NextIds();
    MenuLinkIsValid(menu, given);
    assert Enumerates(["links"], given.Keys);
    assert ONE_PAGE.nodes[2 := MENU] == map[1 := PAGE, 2 := MENU];
    MenuIsLinked(menu);
  }

  lemma MenuIsLinked(menu: TypeDef)
    requires menu == ClashingSchema()["menu"]
    ensures AddEdges(DB(map[1 := PAGE, 2 := MENU], map[], map[]), menu, 2, map["links" := Ids([1])], ["links"])
      == Ok(PAGE_AND_MENU)
  {
    var g := RefListTo("links", "page", true, false);
    assert menu.fields == [g];
    var start, done := DB(map[1 := PAGE, 2 := MENU], map[], map[]), PAGE_AND_MENU;
    IdsNameTargets(g, [1]);
    assert InsertEdge(start, menu, g, 2, 1, 0) == Ok(done);
    assert AddTargets(done, menu, g, 2, [1], 1) == Ok(done);
    assert AddTargets(start, menu, g, 2, [1], 0) == Ok(done);
    assert ["links"][1..] == [];
  }

  lemma UnlinkIsValid(page: TypeDef, f: FieldDef, given: Fields)
    requires f == RefListTo("links", "page", false, true) && page.fields == [f] && given == map["links" := Ids([])]
    ensures ValidatePatchFields(page, given) && ScalarPart(page, given) == map[] && RefPart(page, given) == given
    ensures ClearFields(PAGE_AND_MENU.edges, 1, page, given.Keys) == map[]
  {
    IdsNameTargets(f, []);
  }

  lemma MenuLosesItsPage()
    ensures Apply(ClashingSchema(), PAGE_AND_MENU, UnlinkPage()) == Ok(UNLINKED)
  {
    hide AddEdges, ValidatePatchFields, ScalarPart, RefPart, ClearFields;
    var page := ClashingSchema()["page"];
    var f := RefListTo("links", "page", false, true);
    assert page.fields == [f];
    var given: Fields := map["links" := Ids([])];
    UnlinkIsValid(page, f, given);
    assert Enumerates(["links"], given.Keys);
    var cleared := UNLINKED;
    assert PAGE_AND_MENU.nodes[1 := PAGE.(revision := 2)] == cleared.nodes;
    PageKeepsNothing(cleared, page, f);
    assert "links" in given && "page" in ClashingSchema();
    assert PatchedRow(page, PAGE, UnlinkPage().patch) == PAGE.(revision := 2);
    assert DB(PAGE_AND_MENU.nodes[1 := PAGE.(revision := 2)], ClearFields(PAGE_AND_MENU.edges, 1, page, given.Keys),
      map[]) == cleared;
    assert SyncIndex(ClashingSchema(), map[], 1, PAGE.(revision := 2)) == map[];
  }

  lemma PageKeepsNothing(cleared: DB, page: TypeDef, f: FieldDef)
    requires f == RefListTo("links", "page", false, true) && page.fields == [f]
    ensures AddEdges(cleared, page, 1, map["links" := Ids([])], ["links"]) == Ok(cleared)
  {
    IdsNameTargets(f, []);
    assert AddTargets(cleared, page, f, 1, [], 0) == Ok(cleared);
    assert ["links"][1..] == [];
  }

  /**
   * With a name clash a required reference can be emptied from outside: clearing a page's own links
   * removes the link of the menu that required it.
   */
  lemma RequiredFailsWithNameClash()
    ensures ValidSchema(ClashingSchema()) && !NoNameClash(ClashingSchema())
    ensures Reachable(ClashingSchema(), UNLINKED) && !RequiredHeld(ClashingSchema(), UNLINKED.nodes, UNLINKED.edges)
  {
    hide *;
    ClashingSchemaIsValid();
    MenuRun();
    UnlinkedMenuLacksLink();
  }

  lemma UnlinkedMenuLacksLink()
    ensures !RequiredHeld(ClashingSchema(), UNLINKED.nodes, UNLINKED.edges)
  {
    hide RequiredHeld;
    MenuLacksLink(ClashingSchema(), UNLINKED.nodes, UNLINKED.edges);
  }

  lemma MenuLacksLink(schema: Schema, nodes: map<int, Node>, edges: map<int, Edge>)
    requires 2 in nodes && nodes[2].typ == "menu" && edges == map[]
    requires "menu" in schema && schema["menu"].fields == [RefListTo("links", "page", true, false)]
    ensures !RequiredHeld(schema, nodes, edges)
  {
    var g := RefListTo("links", "page", true, false);
    assert g in schema["menu"].fields && Demands(g);
    assert !HasEdge(edges, 2, g.name);
  }

  lemma MenuRun()
    ensures Reachable(ClashingSchema(), PAGE_AND_MENU) && Reachable(ClashingSchema(), UNLINKED)
  {
    var s := ClashingSchema();
    var (a, b, c) := (NewPage(), NewMenu(), UnlinkPage());
    hide Apply, Step, ClashingSchema, NewPage, NewMenu, UnlinkPage;
    PageIsCreated();
    MenuIsCreated();
    MenuLosesItsPage();
    RunAppend(s, EMPTY, [], a);
    RunAppend(s, EMPTY, [] + [a], b);
    RunAppend(s, EMPTY, [] + [a] + [b], c);
    StepOk(s, EMPTY, a, ONE_PAGE);
    StepOk(s, ONE_PAGE, b, PAGE_AND_MENU);
    StepOk(s, PAGE_AND_MENU, c, UNLINKED);
    assert PAGE_AND_MENU == Run(s, EMPTY, [] + [a] + [b]);
    assert UNLINKED == Run(s, EMPTY, [] + [a] + [b] + [c]);
  }

  lemma StepOk(schema: Schema, db: DB, op: Op, next: DB)
    requires Apply(schema, db, op) == Ok(next)
    ensures Step(schema, db, op) == next
  {
  }
}
