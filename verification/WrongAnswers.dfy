/** Two runs of the service after which an emitted relation text selects a row its filter does not mean. */
module WrongAnswers {
  import opened Common
  import opened Types
  import opened Graph
  import opened Store
  import opened Invariants
  import opened ReachableStates
  import opened Query
  import opened Sql
  import opened Compile
  import opened Meaning
  import opened CompileCorrect
  import opened CompileExact
  import Walk = Traverse

  // ---------------------------------------------------------------- exists

  /** Notes may cite and quote each other. */
  function Notes(): Schema {
    map["note" := TypeDef("note",
      [RefListTo("cites", "note", false, false), RefListTo("quotes", "note", false, false)], None, None, None)]
  }

  function NewNote(): Op { Create("note", "n", map[], []) }
  function Quote(): Op { AddEdgeOp(2, 1, "quotes", 0) }

  const NOTE := Node("note", "n", 1, map[])
  const ONE_NOTE := DB(map[1 := NOTE], map[], map[])
  const TWO_NOTES := DB(map[1 := NOTE, 2 := NOTE], map[], map[])
  const QUOTED := DB(map[1 := NOTE, 2 := NOTE], map[1 := Edge(2, "quotes", 1, 0, false, false)], map[])

  lemma NotesAreValid()
    ensures ValidSchema(Notes()) && "note" in Notes()
    ensures Notes()["note"].fields
      == [RefListTo("cites", "note", false, false), RefListTo("quotes", "note", false, false)]
    ensures FieldOn(Notes(), "note", "cites") == Some(RefListTo("cites", "note", false, false))
    ensures FieldOn(Notes(), "note", "quotes") == Some(RefListTo("quotes", "note", false, false))
  {
    var f, g := RefListTo("cites", "note", false, false), RefListTo("quotes", "note", false, false);
    assert "cites" != "quotes" by { assert "cites"[0] != "quotes"[0]; }
    assert [f, g][0] == f && [f, g][1] == g;
    assert DistinctNames([f, g]);
    FieldByNameFinds([f, g], f);
    FieldByNameFinds([f, g], g);
  }

  lemma NoteIsCreated(before: DB, after: DB, id: int)
    requires id == NextId(before.nodes.Keys) && before.index == map[]
    requires after == before.(nodes := before.nodes[id := NOTE])
    ensures Apply(Notes(), before, NewNote()) == Ok(after)
  {
    NotesAreValid();
    var note := Notes()["note"];
    var none: Fields := map[];
    NoDefaults(none);
    assert ScalarPart(note, none) == map[] && RefPart(note, none) == map[];
    assert Enumerates([], RefPart(note, none).Keys);
  }

  lemma NoDefaults(none: Fields)
    ensures ApplyDefaults(Notes()["note"].fields, none) == none
  {
    var f, g := RefListTo("cites", "note", false, false), RefListTo("quotes", "note", false, false);
    NotesAreValid();
    assert [f, g][1..] == [g] && [g][1..] == [];
    assert ApplyDefaults([g], none) == none;
  }

  lemma NoteIsQuoted()
    ensures Apply(Notes(), TWO_NOTES, Quote()) == Ok(QUOTED)
  {
    NextIds();
    NotesAreValid();
    var g := RefListTo("quotes", "note", false, false);
    assert InsertEdge(TWO_NOTES, Notes()["note"], g, 2, 1, 0) == Ok(QUOTED);
  }

  lemma NotesRun()
    ensures Reachable(Notes(), QUOTED)
  {
    var s := Notes();
    var (a, c) := (NewNote(), Quote());
    NextIds();
    assert EMPTY.nodes.Keys == {} && ONE_NOTE.nodes.Keys == {1};
    NoteIsCreated(EMPTY, ONE_NOTE, 1);
    NoteIsCreated(ONE_NOTE, TWO_NOTES, 2);
    NoteIsQuoted();
    hide Apply, Step, Notes, NewNote, Quote;
    RunAppend(s, EMPTY, [], a);
    RunAppend(s, EMPTY, [] + [a], a);
    RunAppend(s, EMPTY, [] + [a] + [a], c);
    StepOk(s, EMPTY, a, ONE_NOTE);
    StepOk(s, ONE_NOTE, a, TWO_NOTES);
    StepOk(s, TWO_NOTES, c, QUOTED);
    assert QUOTED == Run(s, EMPTY, [] + [a] + [a] + [c]);
  }

  /** A note that quotes another but cites none is selected by a filter for notes that cite. */
  lemma QuotingNoteIsSelected(sets: Sets, outside: Outside)
    ensures Reachable(Notes(), QUOTED)
    ensures
      var citing := Expr.Exists(OutRefPath("cites"), false);
      var compiled := CompileWhere(Notes(), sets, AsWritten, "note", Some(citing));
      && compiled.Ok? && 2 in Selected(QUOTED.nodes, QUOTED.edges, outside.times, "note", compiled.value)
      && 2 !in Matching(Notes(), QUOTED.nodes, QUOTED.edges, outside, "note", Some(citing))
  {
    NotesRun();
    NotesAreValid();
    ReachableInv(Notes(), QUOTED);
    var (path, r) := (OutRefPath("cites"), OutRef(RefListTo("cites", "note", false, false)));
    var (nodes, edges) := (QUOTED.nodes, QUOTED.edges);
    assert ResolvePath(Notes(), path, "note") == Ok(r);
    QuoteIntrudes();
    NothingCited();
    hide *;
    ExistsTextIsRightIff(Notes(), nodes, edges, outside, path, false, "note", 2);
    WrongExistsSelects(Notes(), sets, nodes, edges, outside, path, "note", 2);
  }

  /** Nor is it related to any note it cites, yet a filter for notes related to some note by citing selects it. */
  lemma QuotingNoteIsRelated(sets: Sets, outside: Outside)
    ensures Reachable(Notes(), QUOTED)
    ensures
      var citing := Related(OutRefPath("cites"), Some(Constant(true)));
      var compiled := CompileWhere(Notes(), sets, AsWritten, "note", Some(citing));
      && compiled.Ok? && 2 in Selected(QUOTED.nodes, QUOTED.edges, outside.times, "note", compiled.value)
      && 2 !in Matching(Notes(), QUOTED.nodes, QUOTED.edges, outside, "note", Some(citing))
  {
    hide Apply, Step;
    NotesRun();
    NotesAreValid();
    ReachableInv(Notes(), QUOTED);
    var (path, r, every) := (OutRefPath("cites"), OutRef(RefListTo("cites", "note", false, false)), Constant(true));
    var (nodes, edges) := (QUOTED.nodes, QUOTED.edges);
    assert ResolvePath(Notes(), path, "note") == Ok(r);
    QuoteIntrudes();
    NothingCited();
    RelatedTrueCompiles(Notes(), sets, path, "note");
    assert IntrudesWith(nodes, edges, outside, r, Always, 2, 1, 1);
    RelatedTruth(Notes(), nodes, edges, outside, path, every, "note", 2);
    assert !exists m :: LedToMatch(Notes(), nodes, edges, outside, r, every, 2, m);
    hide *;
    RelatedTextIsRightIffLed(Notes(), nodes, edges, outside, sets, path, every, "note", 2);
    var p := CompileWhere(Notes(), sets, AsWritten, "note", Some(Related(path, Some(every)))).value;
    TrueIsSelected(nodes, edges, outside, "note", p, 2);
    NotMeant(Notes(), nodes, edges, outside, "note", Related(path, Some(every)), 2);
  }

  lemma RelatedTrueCompiles(schema: Schema, sets: Sets, path: Path, typ: string)
    requires typ in schema && ResolvePath(schema, path, typ).Ok? && IsLink(ResolvePath(schema, path, typ).value)
    ensures CompileWhere(schema, sets, AsWritten, typ, Some(Related(path, Some(Constant(true))))).Ok?
    ensures ChildText(schema, sets, ResolvePath(schema, path, typ).value, Constant(true)) == Ok((Always, Counts(2, 1)))
  {
    hide ResolvePath, LinkExists;
    var r := ResolvePath(schema, path, typ).value;
    assert CompileExpr(schema, sets, AsWritten, Constant(true), TargetOf(r), Alias(1), 1, Counts(1, 1))
      == Ok((Always, Counts(2, 1)));
  }

  lemma NotMeant(
    schema: Schema, nodes: map<int, Node>, edges: map<int, Edge>, outside: Outside, typ: string, e: Expr, id: int)
    requires id in nodes && TruthOf(schema, nodes, edges, outside, e, typ, id) != True
    ensures id !in Matching(schema, nodes, edges, outside, typ, Some(e))
  {
  }

  lemma QuoteIntrudes()
    ensures Intrudes(QUOTED.nodes, QUOTED.edges, OutRef(RefListTo("cites", "note", false, false)), 2, 1, 1)
  {
    assert "cites" != "quotes" by { assert "cites"[0] != "quotes"[0]; }
  }

  lemma NothingCited()
    ensures !exists other ::
      Linked(QUOTED.nodes, QUOTED.edges, OutRef(RefListTo("cites", "note", false, false)), 2, other)
  {
    assert "cites" != "quotes" by { assert "cites"[0] != "quotes"[0]; }
    assert QUOTED.edges.Keys == {1};
  }

  // ---------------------------------------------------------------- in

  /** The answers of a store in which no address is taken. */
  function NoSets(address: string, typ: string): Result<seq<Value>, QueryError> { Err(InvalidValue) }

  /** A page a menu links to is selected by a filter for pages linked with that menu's id, though no page is. */
  lemma LinkedPageIsSelected(times: Times)
    ensures Reachable(ClashingSchema(), PAGE_AND_MENU)
    ensures
      var linked := In(OutRefPath("links"), [Int(2)], None);
      var compiled := CompileWhere(ClashingSchema(), NoSets, AsWritten, "page", Some(linked));
      && compiled.Ok? && 1 in Selected(PAGE_AND_MENU.nodes, PAGE_AND_MENU.edges, times, "page", compiled.value)
      && 1 !in Matching(ClashingSchema(), PAGE_AND_MENU.nodes, PAGE_AND_MENU.edges, Outside(map[], times), "page",
         Some(linked))
  {
    var outside := Outside(map[], times);
    var (path, r) := (OutRefPath("links"), OutRef(RefListTo("links", "page", false, true)));
    var (s, nodes, edges) := (ClashingSchema(), PAGE_AND_MENU.nodes, PAGE_AND_MENU.edges);
    assert nodes[1].typ == "page" && SetValues(NoSets, r, [Int(2)], None) == Ok([Int(2)]);
    hide *;
    MenuRun();
    NoSetsAreSound(outside);
    LinksResolve();
    MenuIntrudes();
    NoPageLinked(outside);
    InTextIsRightIff(s, nodes, edges, outside, NoSets, path, [Int(2)], None, "page", 1);
    WrongInSelects(s, nodes, edges, outside, NoSets, path, [Int(2)], None, "page", 1);
  }

  lemma NoSetsAreSound(outside: Outside)
    requires outside.roots == map[]
    ensures Sound(ClashingSchema(), PAGE_AND_MENU.nodes, PAGE_AND_MENU.edges, outside, NoSets)
  {
    hide ClashingSchema, ValidSchema;
    MenuRun();
    ClashingSchemaIsValid();
    hide ValidGraph;
    ReachableInv(ClashingSchema(), PAGE_AND_MENU);
  }

  lemma LinksResolve()
    ensures "page" in ClashingSchema()
    ensures
      var r := OutRef(RefListTo("links", "page", false, true));
      ResolvePath(ClashingSchema(), OutRefPath("links"), "page") == Ok(r) && IsLink(r)
    ensures CompileIn(ClashingSchema(), NoSets, AsWritten, OutRefPath("links"), [Int(2)], None, "page", "nodes").Ok?
  {
    hide LinkIn;
    assert ClashingSchema()["page"].fields == [RefListTo("links", "page", false, true)];
  }

  lemma MenuIntrudes()
    ensures ListsIntruder(PAGE_AND_MENU.nodes, PAGE_AND_MENU.edges, OutRef(RefListTo("links", "page", false, true)),
      [Int(2)], 1, 1, 2)
  {
    assert ToID([Int(2)][0]) == Some(2);
  }

  lemma NoPageLinked(outside: Outside)
    ensures !exists other ::
      Linked(PAGE_AND_MENU.nodes, PAGE_AND_MENU.edges, OutRef(RefListTo("links", "page", false, true)), 1, other)
      && Member(ClashingSchema(), PAGE_AND_MENU.nodes, PAGE_AND_MENU.edges, outside, [Int(2)], None, other)
  {
    assert PAGE_AND_MENU.edges.Keys == {1};
  }

  // ---------------------------------------------------------------- subtrees

  function ParentPage(): FieldDef {
    FieldDef("parent", Ref, "page", [], None, [], false, None, false, false, false, false)
  }

  /** Pages form a tree; a comment names the page it is about under the same field name. */
  function Comments(): Schema {
    map["page" := TypeDef("page", [ParentPage()], None, None, Some("parent")),
        "comment" := TypeDef("comment", [ParentPage()], None, None, None)]
  }

  function NewRootPage(): Op { Create("page", "p", map[], []) }
  function NewComment(): Op { Create("comment", "c", map[], []) }
  function AboutPage(): Op { AddEdgeOp(2, 1, "parent", 0) }

  const ROOT_PAGE := Node("page", "p", 1, map[])
  const COMMENT := Node("comment", "c", 1, map[])
  const ONE_ROOT := DB(map[1 := ROOT_PAGE], map[], map[])
  const UNTIED := DB(map[1 := ROOT_PAGE, 2 := COMMENT], map[], map[])
  const TIED := DB(map[1 := ROOT_PAGE, 2 := COMMENT], map[1 := Edge(2, "parent", 1, 0, true, false)], map[])

  lemma CommentsAreValid()
    ensures ValidSchema(Comments()) && "page" in Comments() && "comment" in Comments()
    ensures Comments()["page"].fields == [ParentPage()] && Comments()["page"].treeParent == Some("parent")
    ensures Comments()["comment"].fields == [ParentPage()]
    ensures Comments()["page"].searchable.None? && Comments()["comment"].searchable.None?
  {
    assert "page" != "comment" by { assert "page"[0] != "comment"[0]; }
    var f := ParentPage();
    assert FieldByName([f], "parent") == Some(f);
    assert forall g :: g in [f] ==> g == f;
  }

  lemma PlainNodeIsCreated(before: DB, after: DB, id: int, typ: string, display: string)
    requires typ in Comments() && display != "" && Comments()[typ].fields == [ParentPage()]
    requires Comments()[typ].searchable.None?
    requires id == NextId(before.nodes.Keys) && before.index == map[]
    requires after == before.(nodes := before.nodes[id := Node(typ, display, 1, map[])])
    ensures Apply(Comments(), before, Create(typ, display, map[], [])) == Ok(after)
  {
    var (td, f) := (Comments()[typ], ParentPage());
    var none: Fields := map[];
    assert [f][1..] == [] && ApplyDefaults([f], none) == none;
    assert ScalarPart(td, none) == map[] && RefPart(td, none) == map[];
    assert Enumerates([], RefPart(td, none).Keys);
  }

  lemma CommentIsTied()
    ensures Apply(Comments(), UNTIED, AboutPage()) == Ok(TIED)
  {
    NextIds();
    CommentsAreValid();
    assert InsertEdge(UNTIED, Comments()["comment"], ParentPage(), 2, 1, 0) == Ok(TIED);
  }

  lemma CommentsRun()
    ensures Reachable(Comments(), TIED)
  {
    var s := Comments();
    var (a, b, c) := (NewRootPage(), NewComment(), AboutPage());
    NextIds();
    CommentsAreValid();
    assert EMPTY.nodes.Keys == {} && ONE_ROOT.nodes.Keys == {1};
    PlainNodeIsCreated(EMPTY, ONE_ROOT, 1, "page", "p");
    PlainNodeIsCreated(ONE_ROOT, UNTIED, 2, "comment", "c");
    CommentIsTied();
    hide Apply, Step, Comments, NewRootPage, NewComment, AboutPage;
    RunAppend(s, EMPTY, [], a);
    RunAppend(s, EMPTY, [] + [a], b);
    RunAppend(s, EMPTY, [] + [a] + [b], c);
    StepOk(s, EMPTY, a, ONE_ROOT);
    StepOk(s, ONE_ROOT, b, UNTIED);
    StepOk(s, UNTIED, c, TIED);
    assert TIED == Run(s, EMPTY, [] + [a] + [b] + [c]);
  }

  /** The comment is returned as a page below the page it is about, and listed by the page's subtree set. */
  lemma CommentIsInSubtree(outside: Outside)
    requires outside.roots == map["home" := 1]
    ensures Reachable(Comments(), TIED) && TIED.nodes[2].typ == "comment"
    ensures Walk.ValidateTraversal(Comments(), TIED.nodes, "page", 1, "parent", SUBTREE_HOPS, false).None?
    ensures 2 in Walk.Subtree(TIED.edges, 1, "parent", SUBTREE_HOPS)
    ensures
      var resolved := ResolveSet(Comments(), TIED.nodes, TIED.edges, outside, "home", "page");
      resolved.Ok? && ListsId(resolved.value, 2)
  {
    CommentsRun();
    CommentsAreValid();
    CommentLeads();
    assert outside.roots["home"] == 1 && "home" in outside.roots;
    assert TreeAt(Comments(), TIED.nodes, outside, "home", "page");
    hide *;
    ReachableInv(Comments(), TIED);
    InvHasGraph(Comments(), TIED);
    PageIsTraversable();
    Walk.SubtreeIsBoundedReach(Comments(), TIED, "page", 1, "parent", SUBTREE_HOPS, 2);
    TreeResolves(Comments(), TIED.nodes, TIED.edges, outside, "home", "page");
    ResolvedSetSays(Comments(), TIED.nodes, TIED.edges, outside, "home", "page", 2);
  }

  lemma InvHasGraph(schema: Schema, db: DB)
    requires Inv(schema, db)
    ensures ValidGraph(schema, db.nodes, db.edges)
  {
  }

  lemma PageIsTraversable()
    ensures Walk.ValidateTraversal(Comments(), TIED.nodes, "page", 1, "parent", SUBTREE_HOPS, false).None?
  {
    CommentsAreValid();
    TreeIsTraversable(Comments(), TIED.nodes, 1);
  }

  lemma TreeResolves(
    schema: Schema, nodes: map<int, Node>, edges: map<int, Edge>, outside: Outside, address: string, expected: string)
    requires ValidSchema(schema) && TreeAt(schema, nodes, outside, address, expected)
    ensures ResolveSet(schema, nodes, edges, outside, address, expected).Ok?
  {
    hide Ascending, Walk.Subtree, Walk.ValidateTraversal;
    TreeIsTraversable(schema, nodes, outside.roots[address]);
  }

  lemma CommentLeads()
    ensures Walk.Within(Walk.FieldPairs(TIED.edges, "parent"), 2, 1, 1, SUBTREE_HOPS)
  {
    var (g, p) := (Walk.FieldPairs(TIED.edges, "parent"), [2, 1]);
    assert 1 in TIED.edges && TIED.edges[1].field == "parent";
    assert (2, 1) in g;
    assert Connects(g, p, 2, 1);
  }
}
