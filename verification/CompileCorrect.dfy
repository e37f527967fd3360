/** The compiled predicate of a filter has the filter's meaning, and exactly where the emitted text does not. */
module CompileCorrect {
  import opened Common
  import opened Types
  import opened Decimal
  import opened Store
  import opened Invariants
  import opened Reads
  import opened Query
  import opened Sql
  import opened Compile
  import opened Meaning
  import Walk = Traverse
  import Like

  // ---------------------------------------------------------------- conjunctions

  predicate AllHold(nodes: map<int, Node>, edges: map<int, Edge>, env: Env, ps: seq<Pred>) {
    forall i :: 0 <= i < |ps| ==> Eval(nodes, edges, env, ps[i]) == True
  }

  lemma AllIsConjunction(nodes: map<int, Node>, edges: map<int, Edge>, env: Env, ps: seq<Pred>)
    ensures Eval(nodes, edges, env, All(ps)) == True <==> AllHold(nodes, edges, env, ps)
  {
  }

  lemma AllHoldAppend(nodes: map<int, Node>, edges: map<int, Edge>, env: Env, ps: seq<Pred>, qs: seq<Pred>)
    ensures AllHold(nodes, edges, env, ps + qs) <==> AllHold(nodes, edges, env, ps) && AllHold(nodes, edges, env, qs)
  {
    var all := ps + qs;
    if AllHold(nodes, edges, env, all) {
      forall i | 0 <= i < |ps| ensures Eval(nodes, edges, env, ps[i]) == True { assert ps[i] == all[i]; }
      forall i | 0 <= i < |qs| ensures Eval(nodes, edges, env, qs[i]) == True { assert qs[i] == all[|ps| + i]; }
    }
  }

  lemma AllHoldOne(nodes: map<int, Node>, edges: map<int, Edge>, env: Env, p: Pred)
    ensures AllHold(nodes, edges, env, [p]) <==> Eval(nodes, edges, env, p) == True
  {
    assert [p][0] == p;
  }

  lemma AllHoldTwo(nodes: map<int, Node>, edges: map<int, Edge>, env: Env, p: Pred, q: Pred)
    ensures AllHold(nodes, edges, env, [p, q])
      <==> Eval(nodes, edges, env, p) == True && Eval(nodes, edges, env, q) == True
  {
    assert [p, q][0] == p && [p, q][1] == q;
  }

  lemma AllHoldThree(nodes: map<int, Node>, edges: map<int, Edge>, env: Env, p: Pred, q: Pred, s: Pred)
    ensures AllHold(nodes, edges, env, [p, q, s])
      <==>
      Eval(nodes, edges, env, p) == True && Eval(nodes, edges, env, q) == True && Eval(nodes, edges, env, s) == True
  {
    assert [p, q, s][0] == p && [p, q, s][1] == q && [p, q, s][2] == s;
  }

  lemma AnyOfTwo(nodes: map<int, Node>, edges: map<int, Edge>, env: Env, p: Pred, q: Pred)
    ensures Eval(nodes, edges, env, Any([p, q])) == True
      <==> Eval(nodes, edges, env, p) == True || Eval(nodes, edges, env, q) == True
    ensures Eval(nodes, edges, env, p) != Unknown && Eval(nodes, edges, env, q) != Unknown
      ==> Eval(nodes, edges, env, Any([p, q])) != Unknown
  {
    hide Compare3, In3, Like3, ValueIn, Joined, RowId;
    assert [p, q][0] == p && [p, q][1] == q;
  }

  // ---------------------------------------------------------------- single tests

  /** The alias row is in scope and stands for the node id. */
  predicate Stands(nodes: map<int, Node>, env: Env, row: string, id: int) {
    id in nodes && row in env.rows && env.rows[row] == id
  }

  predicate OnEdge(edges: map<int, Edge>, env: Env, k: int) { k in edges && env.edge == Some(k) }

  lemma FieldTest(nodes: map<int, Node>, edges: map<int, Edge>, env: Env, k: int, name: string)
    requires OnEdge(edges, env, k)
    ensures Eval(nodes, edges, env, FieldIs(name)) == True <==> edges[k].field == name
  {
  }

  lemma SymmetricTest(nodes: map<int, Node>, edges: map<int, Edge>, env: Env, k: int)
    requires OnEdge(edges, env, k)
    ensures Eval(nodes, edges, env, IsSymmetric()) == True <==> edges[k].symmetric
  {
  }

  lemma TypeTest(nodes: map<int, Node>, edges: map<int, Edge>, env: Env, row: string, id: int, typ: string)
    requires Stands(nodes, env, row, id)
    ensures Eval(nodes, edges, env, TypeIs(row, typ)) == True <==> nodes[id].typ == typ
  {
  }

  function EndOf(e: Edge, t: Term): int { if t == EdgeFrom then e.from else e.to }

  lemma EndTest(nodes: map<int, Node>, edges: map<int, Edge>, env: Env, k: int, t: Term, row: string, id: int)
    requires OnEdge(edges, env, k) && Stands(nodes, env, row, id) && (t == EdgeFrom || t == EdgeTo)
    ensures Eval(nodes, edges, env, Cmp(EQ, t, IdOf(row))) == True <==> EndOf(edges[k], t) == id
  {
  }

  // ---------------------------------------------------------------- links

  /** r is what a path resolves to at a type. */
  predicate ResolvesOn(schema: Schema, typ: string, r: Resolved) {
    IsLink(r)
    && IsRefKind(r.f.kind)
    && (if r.OutRef? then FieldOn(schema, typ, r.f.name) == Some(r.f)
        else FieldOn(schema, r.source, r.f.name) == Some(r.f) && r.f.to == typ)
  }

  lemma ResolvedIsLink(schema: Schema, path: Path, typ: string)
    requires ResolvePath(schema, path, typ).Ok? && IsLink(ResolvePath(schema, path, typ).value)
    ensures ResolvesOn(schema, typ, ResolvePath(schema, path, typ).value)
  {
  }

  /** The edge leads from id to m along the relation r. */
  predicate Leads(nodes: map<int, Node>, e: Edge, r: Resolved, id: int, m: int)
    requires IsLink(r)
  {
    && m in nodes
    && if r.OutRef? then RowOf(e, id, r.f) && OtherEnd(e, id) == m
       else nodes[m].typ == r.source && RowOf(e, m, r.f) && OtherEnd(e, m) == id
  }

  lemma LinkedByEdge(nodes: map<int, Node>, edges: map<int, Edge>, r: Resolved, id: int, m: int)
    requires IsLink(r)
    ensures Linked(nodes, edges, r, id, m) <==> exists k :: k in edges && Leads(nodes, edges[k], r, id, m)
  {
    if Linked(nodes, edges, r, id, m) {
      if r.OutRef? {
        var k :| k in edges && RowOf(edges[k], id, r.f) && OtherEnd(edges[k], id) == m;
        assert Leads(nodes, edges[k], r, id, m);
      } else {
        var k :| k in edges && RowOf(edges[k], m, r.f) && OtherEnd(edges[k], m) == id;
        assert Leads(nodes, edges[k], r, id, m);
      }
    }
  }

  /** What the emitted link tests say of an edge, in terms of its columns. */
  predicate Tested(nodes: map<int, Node>, e: Edge, style: Style, r: Resolved, id: int, m: int)
    requires IsLink(r) && m in nodes
  {
    if Undirected(r.f) then e.field == r.f.name && e.symmetric && Touches(e, id) && OtherEnd(e, id) == m
    else if r.OutRef? then e.from == id && e.to == m && (style.FieldTested? ==> e.field == r.f.name)
    else e.to == id && e.from == m && (style.FieldTested? ==> e.field == r.f.name && nodes[m].typ == r.source)
  }

  lemma LinkTestsSay(
    nodes: map<int, Node>, edges: map<int, Edge>, env: Env, style: Style, r: Resolved, row: string, far: string,
    id: int, k: int, m: int)
    requires IsLink(r) && OnEdge(edges, env, k) && Stands(nodes, env, row, id) && Stands(nodes, env, far, m)
    ensures
      ValueIn(nodes, edges, env, FarEnd(r, row)) == Int(m) && AllHold(nodes, edges, env, LinkTests(style, r, row, far))
      <==> Tested(nodes, edges[k], style, r, id, m)
  {
    hide Eval;
    FieldTest(nodes, edges, env, k, r.f.name);
    if Undirected(r.f) {
      SymmetricTest(nodes, edges, env, k);
      EndTest(nodes, edges, env, k, EdgeFrom, row, id);
      EndTest(nodes, edges, env, k, EdgeTo, row, id);
      var ends := [Cmp(EQ, EdgeFrom, IdOf(row)), Cmp(EQ, EdgeTo, IdOf(row))];
      AnyOfTwo(nodes, edges, env, ends[0], ends[1]);
      AllHoldThree(nodes, edges, env, FieldIs(r.f.name), IsSymmetric(), Any(ends));
    } else {
      var near := Cmp(EQ, if r.OutRef? then EdgeFrom else EdgeTo, IdOf(row));
      EndTest(nodes, edges, env, k, if r.OutRef? then EdgeFrom else EdgeTo, row, id);
      AllHoldOne(nodes, edges, env, near);
      var more :=
        if style.AsWritten? then []
        else if r.OutRef? then [FieldIs(r.f.name)]
        else [FieldIs(r.f.name), TypeIs(far, r.source)];
      assert LinkTests(style, r, row, far) == [near] + more;
      AllHoldAppend(nodes, edges, env, [near], more);
      AllHoldOne(nodes, edges, env, FieldIs(r.f.name));
      if r.InRef? {
        TypeTest(nodes, edges, env, far, m, r.source);
        AllHoldTwo(nodes, edges, env, FieldIs(r.f.name), TypeIs(far, r.source));
      }
    }
  }

  /** In a valid store the tests single out the edges of the relation, if the text is exact here. */
  lemma TestedIsLeads(
    schema: Schema, nodes: map<int, Node>, edges: map<int, Edge>, style: Style, typ: string, r: Resolved, id: int,
    k: int, m: int)
    requires ValidSchema(schema) && ValidEdges(schema, nodes, edges) && ResolvesOn(schema, typ, r)
    requires style.FieldTested? || ExactLink(schema, typ, r)
    requires id in nodes && nodes[id].typ == typ && k in edges && m in nodes
    ensures Tested(nodes, edges[k], style, r, id, m) <==> Leads(nodes, edges[k], r, id, m)
  {
    var e := edges[k];
    assert ValidEdge(schema, nodes, e);
    var g := FieldOn(schema, nodes[e.from].typ, e.field).value;
    if Undirected(r.f) {
      UndirectedStaysInType(schema, nodes, e);
      UndirectedFieldIsOwn(schema, typ, r);
    }
  }

  lemma UndirectedStaysInType(schema: Schema, nodes: map<int, Node>, e: Edge)
    requires ValidSchema(schema) && ValidEdge(schema, nodes, e)
    ensures e.symmetric ==> nodes[e.to].typ == nodes[e.from].typ && e.from < e.to
  {
    var t := nodes[e.from].typ;
    assert ValidTypeDef(schema, t, schema[t]);
    assert ValidRefField(schema, t, FieldOn(schema, t, e.field).value);
  }

  lemma UndirectedFieldIsOwn(schema: Schema, typ: string, r: Resolved)
    requires ValidSchema(schema) && ResolvesOn(schema, typ, r) && Undirected(r.f)
    ensures r.f.to == typ && (r.InRef? ==> r.source == typ)
  {
    var t := if r.OutRef? then typ else r.source;
    assert ValidTypeDef(schema, t, schema[t]);
    assert ValidRefField(schema, t, r.f);
  }

  // ---------------------------------------------------------------- exists and related

  /** The scope of a row: its alias, and no later one, is in use. */
  predicate Fresh(row: string, far: string) { row != far }

  lemma InnerStands(
    nodes: map<int, Node>, edges: map<int, Edge>, env: Env, row: string, far: string, id: int, k: int, m: int)
    requires Stands(nodes, env, row, id) && Fresh(row, far) && k in edges && m in nodes
    ensures Stands(nodes, Inner(env, far, k, m), row, id) && Stands(nodes, Inner(env, far, k, m), far, m)
    ensures OnEdge(edges, Inner(env, far, k, m), k)
  {
  }

  /** A joined pair passes exactly when the edge leads to the node and the rest holds there. */
  lemma JoinedIsLed(
    schema: Schema, nodes: map<int, Node>, edges: map<int, Edge>, env: Env, style: Style, typ: string, r: Resolved,
    row: string, far: string, rest: seq<Pred>, id: int, k: int, m: int)
    requires ValidSchema(schema) && ValidEdges(schema, nodes, edges) && ResolvesOn(schema, typ, r)
    requires style.FieldTested? || ExactLink(schema, typ, r)
    requires Stands(nodes, env, row, id) && nodes[id].typ == typ && Fresh(row, far) && k in edges && m in nodes
    ensures Joined(nodes, edges, Inner(env, far, k, m), m, FarEnd(r, row), All(LinkTests(style, r, row, far) + rest))
      <==> Leads(nodes, edges[k], r, id, m) && AllHold(nodes, edges, Inner(env, far, k, m), rest)
  {
    hide Eval, LinkTests, FarEnd, Leads, Tested, AllHold, ValidEdges, ValidSchema, ExactLink;
    var inner := Inner(env, far, k, m);
    InnerStands(nodes, edges, env, row, far, id, k, m);
    AllIsConjunction(nodes, edges, inner, LinkTests(style, r, row, far) + rest);
    AllHoldAppend(nodes, edges, inner, LinkTests(style, r, row, far), rest);
    LinkTestsSay(nodes, edges, inner, style, r, row, far, id, k, m);
    TestedIsLeads(schema, nodes, edges, style, typ, r, id, k, m);
  }

  predicate Led(
    nodes: map<int, Node>, edges: map<int, Edge>, env: Env, r: Resolved, far: string, rest: seq<Pred>, id: int, k: int,
    m: int)
    requires IsLink(r)
  {
    k in edges && m in nodes && Leads(nodes, edges[k], r, id, m) && AllHold(nodes, edges, Inner(env, far, k, m), rest)
  }

  lemma LinkExistsSays(
    schema: Schema, nodes: map<int, Node>, edges: map<int, Edge>, env: Env, style: Style, typ: string, r: Resolved,
    row: string, far: string, rest: seq<Pred>, id: int)
    requires ValidSchema(schema) && ValidEdges(schema, nodes, edges) && ResolvesOn(schema, typ, r)
    requires style.FieldTested? || ExactLink(schema, typ, r)
    requires Stands(nodes, env, row, id) && nodes[id].typ == typ && Fresh(row, far)
    ensures Eval(nodes, edges, env, LinkExists(style, r, row, far, rest))
      == Decided(exists k, m :: Led(nodes, edges, env, r, far, rest, id, k, m))
  {
    forall k, m | k in edges && m in nodes
      ensures Joined(nodes, edges, Inner(env, far, k, m), m, FarEnd(r, row), All(LinkTests(style, r, row, far) + rest))
        <==> Led(nodes, edges, env, r, far, rest, id, k, m)
    {
      JoinedIsLed(schema, nodes, edges, env, style, typ, r, row, far, rest, id, k, m);
    }
    hide Led, LinkTests, FarEnd, ValidEdges, ValidSchema, ExactLink, Joined;
    var on, where := FarEnd(r, row), All(LinkTests(style, r, row, far) + rest);
    ExistsJoinSays(nodes, edges, env, far, on, where);
    if k, m :| Led(nodes, edges, env, r, far, rest, id, k, m) {
      LedInRange(nodes, edges, env, r, far, rest, id, k, m);
      assert Joined(nodes, edges, Inner(env, far, k, m), m, on, where);
    }
  }

  lemma LedInRange(
    nodes: map<int, Node>, edges: map<int, Edge>, env: Env, r: Resolved, far: string, rest: seq<Pred>, id: int, k: int,
    m: int)
    requires IsLink(r) && Led(nodes, edges, env, r, far, rest, id, k, m)
    ensures k in edges && m in nodes
  {
  }

  lemma ExistsJoinSays(nodes: map<int, Node>, edges: map<int, Edge>, env: Env, far: string, on: Term, where: Pred)
    ensures Eval(nodes, edges, env, ExistsJoin(far, on, where))
      == Decided(exists k, m :: k in edges && m in nodes && Joined(nodes, edges, Inner(env, far, k, m), m, on, where))
  {
  }

  /** EXISTS with nothing more to test: some node is linked. */
  lemma ExistsSays(
    schema: Schema, nodes: map<int, Node>, edges: map<int, Edge>, env: Env, style: Style, typ: string, r: Resolved,
    row: string, far: string, id: int)
    requires ValidSchema(schema) && ValidEdges(schema, nodes, edges) && ResolvesOn(schema, typ, r)
    requires style.FieldTested? || ExactLink(schema, typ, r)
    requires Stands(nodes, env, row, id) && nodes[id].typ == typ && Fresh(row, far)
    ensures Eval(nodes, edges, env, LinkExists(style, r, row, far, []))
      == Decided(exists other :: Linked(nodes, edges, r, id, other))
  {
    hide Eval, Leads, Linked, LinkExists, ValidEdges, ValidSchema, ExactLink;
    LinkExistsSays(schema, nodes, edges, env, style, typ, r, row, far, [], id);
    if k, m :| Led(nodes, edges, env, r, far, [], id, k, m) {
      LinkedByEdge(nodes, edges, r, id, m);
      assert Linked(nodes, edges, r, id, m);
    }
    if m :| Linked(nodes, edges, r, id, m) {
      LinkedByEdge(nodes, edges, r, id, m);
      var k :| k in edges && Leads(nodes, edges[k], r, id, m);
      LeadsInRange(nodes, edges[k], r, id, m);
      assert Led(nodes, edges, env, r, far, [], id, k, m);
    }
  }

  lemma LeadsInRange(nodes: map<int, Node>, e: Edge, r: Resolved, id: int, m: int)
    requires IsLink(r) && Leads(nodes, e, r, id, m)
    ensures m in nodes
  {
  }

  /** EXISTS with the compiled child: some linked node satisfies what the child means. */
  lemma RelatedSays(
    schema: Schema, nodes: map<int, Node>, edges: map<int, Edge>, env: Env, style: Style, typ: string, r: Resolved,
    row: string, far: string, child: Pred, id: int, holds: set<int>)
    requires ValidSchema(schema) && ValidEdges(schema, nodes, edges) && ResolvesOn(schema, typ, r)
    requires style.FieldTested? || ExactLink(schema, typ, r)
    requires Stands(nodes, env, row, id) && nodes[id].typ == typ && Fresh(row, far)
    requires forall k, m :: k in edges && Linked(nodes, edges, r, id, m) ==>
      (Eval(nodes, edges, Inner(env, far, k, m), child) == True <==> m in holds)
    ensures Eval(nodes, edges, env, LinkExists(style, r, row, far, [child]))
      == Decided(exists other :: Linked(nodes, edges, r, id, other) && other in holds)
  {
    hide Eval, Leads, Linked, LinkExists, AllHold, ValidEdges, ValidSchema, ExactLink;
    LinkExistsSays(schema, nodes, edges, env, style, typ, r, row, far, [child], id);
    if k, m :| Led(nodes, edges, env, r, far, [child], id, k, m) {
      LinkedByEdge(nodes, edges, r, id, m);
      assert Linked(nodes, edges, r, id, m);
      AllHoldOne(nodes, edges, Inner(env, far, k, m), child);
      assert m in holds;
    }
    if m :| Linked(nodes, edges, r, id, m) && m in holds {
      LinkedByEdge(nodes, edges, r, id, m);
      var k :| k in edges && Leads(nodes, edges[k], r, id, m);
      LeadsInRange(nodes, edges[k], r, id, m);
      AllHoldOne(nodes, edges, Inner(env, far, k, m), child);
      assert Led(nodes, edges, env, r, far, [child], id, k, m);
    }
  }

  // ---------------------------------------------------------------- in

  lemma NumbersEqual(v: Value, id: int)
    requires ToID(v).Some?
    ensures Compare3(EQ, Int(id), v) == Decided(ToID(v) == Some(id))
  {
    if v.Float? {
      assert v.r == v.r.Floor as real;
    }
  }

  lemma InListSays(values: seq<Value>, id: int)
    requires ValidIds(values)
    ensures In3(Int(id), values) == Decided(ListsId(values, id))
  {
    hide Compare3, ToID;
    forall i | 0 <= i < |values| ensures Compare3(EQ, Int(id), values[i]) == Decided(ToID(values[i]) == Some(id)) {
      NumbersEqual(values[i], id);
    }
    if ListsId(values, id) {
      var i :| 0 <= i < |values| && ToID(values[i]) == Some(id);
      assert Compare3(EQ, Int(id), values[i]) == True;
    }
  }

  predicate IsEnd(t: Term) { t == EdgeFrom || t == EdgeTo }

  /** An edge with id at its near end, a listed node at its far end, meeting the tests. */
  predicate NearEnd(
    nodes: map<int, Node>, edges: map<int, Edge>, env: Env, near: Term, join: string, far: Term, tests: seq<Pred>,
    values: seq<Value>, id: int, k: int, m: int)
  {
    && k in edges && m in nodes && EndOf(edges[k], near) == id && EndOf(edges[k], far) == m && ListsId(values, m)
    && AllHold(nodes, edges, Inner(env, join, k, m), tests)
  }

  lemma NearJoined(
    nodes: map<int, Node>, edges: map<int, Edge>, env: Env, join: string, far: Term, tests: seq<Pred>,
    values: seq<Value>, k: int, m: int)
    requires ValidIds(values) && IsEnd(far) && k in edges && m in nodes
    ensures Joined(nodes, edges, Inner(env, join, k, m), m, far, All(tests + [InList(far, values)]))
      <==> EndOf(edges[k], far) == m && ListsId(values, m) && AllHold(nodes, edges, Inner(env, join, k, m), tests)
  {
    var inner := Inner(env, join, k, m);
    var list := InList(far, values);
    assert ValueIn(nodes, edges, inner, far) == Int(EndOf(edges[k], far));
    InListSays(values, EndOf(edges[k], far));
    assert Eval(nodes, edges, inner, list) == In3(Int(EndOf(edges[k], far)), values);
    hide AllHold, In3, ValidIds, ListsId, Eval;
    AllIsConjunction(nodes, edges, inner, tests + [list]);
    AllHoldAppend(nodes, edges, inner, tests, [list]);
    AllHoldOne(nodes, edges, inner, list);
  }

  lemma InSelectSays(
    nodes: map<int, Node>, edges: map<int, Edge>, env: Env, row: string, near: Term, join: string, far: Term,
    where: Pred, id: int)
    requires IsEnd(near) && Stands(nodes, env, row, id)
    ensures Eval(nodes, edges, env, InSelect(IdOf(row), near, join, far, where))
      == Decided(exists k, m :: k in edges && m in nodes && Joined(nodes, edges, Inner(env, join, k, m), m, far, where)
                                && EndOf(edges[k], near) == id)
  {
    hide Joined;
    assert ValueIn(nodes, edges, env, IdOf(row)) == Int(id);
    forall k, m | k in edges && m in nodes
      ensures Compare3(EQ, Int(id), ValueIn(nodes, edges, Inner(env, join, k, m), near))
        == Decided(EndOf(edges[k], near) == id)
    {
      assert ValueIn(nodes, edges, Inner(env, join, k, m), near) == Int(EndOf(edges[k], near));
    }
  }

  lemma NearEndSays(
    nodes: map<int, Node>, edges: map<int, Edge>, env: Env, row: string, near: Term, join: string, far: Term,
    tests: seq<Pred>, values: seq<Value>, id: int)
    requires ValidIds(values) && IsEnd(near) && IsEnd(far) && Stands(nodes, env, row, id)
    ensures Eval(nodes, edges, env, NearEndOf(row, near, join, far, tests, values))
      == Decided(exists k, m :: NearEnd(nodes, edges, env, near, join, far, tests, values, id, k, m))
  {
    hide Eval, AllHold, Joined, ListsId, ValidIds;
    var where := All(tests + [InList(far, values)]);
    InSelectSays(nodes, edges, env, row, near, join, far, where, id);
    forall k, m | k in edges && m in nodes
      ensures Joined(nodes, edges, Inner(env, join, k, m), m, far, where) && EndOf(edges[k], near) == id
        <==> NearEnd(nodes, edges, env, near, join, far, tests, values, id, k, m)
    {
      NearJoined(nodes, edges, env, join, far, tests, values, k, m);
    }
    if k, m :| NearEnd(nodes, edges, env, near, join, far, tests, values, id, k, m) {
      assert Joined(nodes, edges, Inner(env, join, k, m), m, far, where) && EndOf(edges[k], near) == id;
    }
  }

  /** What the emitted membership tests say of an edge, in terms of its columns. */
  predicate Listed(nodes: map<int, Node>, e: Edge, style: Style, r: Resolved, id: int, m: int)
    requires IsLink(r) && m in nodes
  {
    && e.field == r.f.name
    && if Undirected(r.f) then
         && ((e.from == id && e.to == m) || (e.to == id && e.from == m))
         && (r.InRef? ==> e.symmetric && nodes[m].typ == r.source)
         && (style.FieldTested? ==> e.symmetric)
       else if r.OutRef? then e.from == id && e.to == m
       else e.to == id && e.from == m && (style.FieldTested? ==> nodes[m].typ == r.source)
  }

  lemma ListedIsLeads(
    schema: Schema, nodes: map<int, Node>, edges: map<int, Edge>, style: Style, typ: string, r: Resolved, id: int,
    k: int, m: int)
    requires ValidSchema(schema) && ValidEdges(schema, nodes, edges) && ResolvesOn(schema, typ, r)
    requires style.FieldTested? || ExactMembership(schema, typ, r)
    requires id in nodes && nodes[id].typ == typ && k in edges && m in nodes
    ensures Listed(nodes, edges[k], style, r, id, m) <==> Leads(nodes, edges[k], r, id, m)
  {
    var e := edges[k];
    assert ValidEdge(schema, nodes, e);
    var t := nodes[e.from].typ;
    var g := FieldOn(schema, t, e.field).value;
    assert g in schema[t].fields && IsRefKind(g.kind) && g.to == nodes[e.to].typ;
    if Undirected(r.f) {
      UndirectedStaysInType(schema, nodes, e);
      UndirectedFieldIsOwn(schema, typ, r);
    }
  }

  /** Some edge passes the membership tests. */
  ghost predicate SomeListed(
    nodes: map<int, Node>, edges: map<int, Edge>, style: Style, r: Resolved, values: seq<Value>, id: int)
    requires IsLink(r)
  {
    exists k, m :: k in edges && m in nodes && Listed(nodes, edges[k], style, r, id, m) && ListsId(values, m)
  }

  /** The name, the flag and the source type, as far as this form of the text tests them. */
  function MemberTests(style: Style, r: Resolved): seq<Pred>
    requires IsLink(r)
  {
    if r.OutRef? then
      [FieldIs(r.f.name)] + if Undirected(r.f) && style.FieldTested? then [IsSymmetric()] else []
    else if Undirected(r.f) then [FieldIs(r.f.name)] + [IsSymmetric(), TypeIs("source", r.source)]
    else [FieldIs(r.f.name)] + if style.FieldTested? then [TypeIs("src", r.source)] else []
  }

  function MemberJoin(r: Resolved): string
    requires IsLink(r)
  {
    if r.OutRef? then "target" else if Undirected(r.f) then "source" else "src"
  }

  lemma MemberTestsSay(
    nodes: map<int, Node>, edges: map<int, Edge>, env: Env, style: Style, r: Resolved, k: int, m: int)
    requires IsLink(r) && k in edges && m in nodes
    ensures AllHold(nodes, edges, Inner(env, MemberJoin(r), k, m), MemberTests(style, r))
      <==> && edges[k].field == r.f.name
           && (Undirected(r.f) && (r.InRef? || style.FieldTested?) ==> edges[k].symmetric)
           && (r.InRef? && (Undirected(r.f) || style.FieldTested?) ==> nodes[m].typ == r.source)
  {
    var inner := Inner(env, MemberJoin(r), k, m);
    hide Eval;
    FieldTest(nodes, edges, inner, k, r.f.name);
    SymmetricTest(nodes, edges, inner, k);
    AllHoldOne(nodes, edges, inner, FieldIs(r.f.name));
    AllHoldOne(nodes, edges, inner, IsSymmetric());
    var more := MemberTests(style, r)[1..];
    assert MemberTests(style, r) == [FieldIs(r.f.name)] + more;
    AllHoldAppend(nodes, edges, inner, [FieldIs(r.f.name)], more);
    if r.InRef? {
      var typed := TypeIs(MemberJoin(r), r.source);
      TypeTest(nodes, edges, inner, MemberJoin(r), m, r.source);
      AllHoldOne(nodes, edges, inner, typed);
      AllHoldTwo(nodes, edges, inner, IsSymmetric(), typed);
    }
  }

  /** One directed half of the membership test. */
  ghost predicate Half(
    nodes: map<int, Node>, edges: map<int, Edge>, style: Style, r: Resolved, near: Term, far: Term, values: seq<Value>,
    id: int)
    requires IsLink(r)
  {
    exists k, m :: k in edges && m in nodes && EndOf(edges[k], near) == id && EndOf(edges[k], far) == m
                   && Listed(nodes, edges[k], style, r, id, m) && ListsId(values, m)
  }

  lemma HalfSays(
    nodes: map<int, Node>, edges: map<int, Edge>, env: Env, style: Style, r: Resolved, row: string, near: Term,
    far: Term, values: seq<Value>, id: int)
    requires IsLink(r) && ValidIds(values) && IsEnd(near) && IsEnd(far) && near != far && Stands(nodes, env, row, id)
    requires !Undirected(r.f) ==> (near == EdgeFrom <==> r.OutRef?)
    ensures Eval(nodes, edges, env, NearEndOf(row, near, MemberJoin(r), far, MemberTests(style, r), values))
      == Decided(Half(nodes, edges, style, r, near, far, values, id))
  {
    var join, tests := MemberJoin(r), MemberTests(style, r);
    NearEndSays(nodes, edges, env, row, near, join, far, tests, values, id);
    forall k, m | k in edges && m in nodes
      ensures NearEnd(nodes, edges, env, near, join, far, tests, values, id, k, m)
        <==>
        && EndOf(edges[k], near) == id && EndOf(edges[k], far) == m
        && Listed(nodes, edges[k], style, r, id, m) && ListsId(values, m)
    {
      hide AllHold, MemberTests, MemberJoin, ListsId;
      MemberTestsSay(nodes, edges, env, style, r, k, m);
    }
    hide AllHold, MemberTests, MemberJoin, ListsId, Listed, Eval, NearEndOf;
    if Half(nodes, edges, style, r, near, far, values, id) {
      var k, m :| k in edges && m in nodes && EndOf(edges[k], near) == id && EndOf(edges[k], far) == m
                  && Listed(nodes, edges[k], style, r, id, m) && ListsId(values, m);
      assert NearEnd(nodes, edges, env, near, join, far, tests, values, id, k, m);
    }
  }

  lemma HalvesAreAll(
    nodes: map<int, Node>, edges: map<int, Edge>, style: Style, r: Resolved, values: seq<Value>, id: int)
    requires IsLink(r)
    ensures Undirected(r.f) ==>
      (SomeListed(nodes, edges, style, r, values, id)
       <==> || Half(nodes, edges, style, r, EdgeFrom, EdgeTo, values, id)
            || Half(nodes, edges, style, r, EdgeTo, EdgeFrom, values, id))
    ensures !Undirected(r.f) ==>
      (SomeListed(nodes, edges, style, r, values, id)
       <==> Half(nodes, edges, style, r,
              if r.OutRef? then EdgeFrom else EdgeTo, if r.OutRef? then EdgeTo else EdgeFrom, values, id))
  {
    hide ListsId;
    if SomeListed(nodes, edges, style, r, values, id) {
      var k, m :| k in edges && m in nodes && Listed(nodes, edges[k], style, r, id, m) && ListsId(values, m);
      assert EndOf(edges[k], EdgeFrom) == edges[k].from && EndOf(edges[k], EdgeTo) == edges[k].to;
    }
  }

  lemma LinkInSays(
    nodes: map<int, Node>, edges: map<int, Edge>, env: Env, style: Style, r: Resolved, row: string, values: seq<Value>,
    id: int)
    requires IsLink(r) && ValidIds(values) && Stands(nodes, env, row, id)
    ensures Eval(nodes, edges, env, LinkIn(style, r, row, values))
      == Decided(SomeListed(nodes, edges, style, r, values, id))
  {
    hide Eval, SomeListed, Half, ValidIds, NearEndOf;
    HalvesAreAll(nodes, edges, style, r, values, id);
    var tests, join := MemberTests(style, r), MemberJoin(r);
    if Undirected(r.f) {
      var near, far := if r.OutRef? then EdgeFrom else EdgeTo, if r.OutRef? then EdgeTo else EdgeFrom;
      HalfSays(nodes, edges, env, style, r, row, near, far, values, id);
      HalfSays(nodes, edges, env, style, r, row, far, near, values, id);
      AnyOfTwo(nodes, edges, env, NearEndOf(row, near, join, far, tests, values),
        NearEndOf(row, far, join, near, tests, values));
      AnyOfTwoFalse(nodes, edges, env, NearEndOf(row, near, join, far, tests, values),
        NearEndOf(row, far, join, near, tests, values));
    } else {
      HalfSays(nodes, edges, env, style, r, row,
        if r.OutRef? then EdgeFrom else EdgeTo, if r.OutRef? then EdgeTo else EdgeFrom, values, id);
      assert r.OutRef? ==> [FieldIs(r.f.name)] + [] == [FieldIs(r.f.name)];
    }
  }

  lemma AnyOfTwoFalse(nodes: map<int, Node>, edges: map<int, Edge>, env: Env, p: Pred, q: Pred)
    ensures Eval(nodes, edges, env, Any([p, q])) == False
      <==> Eval(nodes, edges, env, p) == False && Eval(nodes, edges, env, q) == False
  {
    hide Compare3, In3, Like3, ValueIn, Joined;
    assert [p, q][0] == p && [p, q][1] == q;
  }

  /** Membership: some linked node is among the values. */
  lemma MembershipSays(
    schema: Schema, nodes: map<int, Node>, edges: map<int, Edge>, env: Env, style: Style, typ: string, r: Resolved,
    row: string, values: seq<Value>, id: int)
    requires ValidSchema(schema) && ValidEdges(schema, nodes, edges) && ResolvesOn(schema, typ, r)
    requires style.FieldTested? || ExactMembership(schema, typ, r)
    requires Stands(nodes, env, row, id) && nodes[id].typ == typ && ValidIds(values)
    ensures Eval(nodes, edges, env, LinkIn(style, r, row, values))
      == Decided(exists other :: Linked(nodes, edges, r, id, other) && ListsId(values, other))
  {
    hide Eval, LinkIn, Listed, Leads, Linked, ListsId, ValidIds, ValidEdges, ValidSchema, ExactMembership;
    LinkInSays(nodes, edges, env, style, r, row, values, id);
    forall k, m | k in edges && m in nodes
      ensures Listed(nodes, edges[k], style, r, id, m) <==> Leads(nodes, edges[k], r, id, m) {
      ListedIsLeads(schema, nodes, edges, style, typ, r, id, k, m);
    }
    if SomeListed(nodes, edges, style, r, values, id) {
      var k, m :| k in edges && m in nodes && Listed(nodes, edges[k], style, r, id, m) && ListsId(values, m);
      LinkedByEdge(nodes, edges, r, id, m);
      assert Linked(nodes, edges, r, id, m);
    }
    if m :| Linked(nodes, edges, r, id, m) && ListsId(values, m) {
      LinkedByEdge(nodes, edges, r, id, m);
      var k :| k in edges && Leads(nodes, edges[k], r, id, m);
      LeadsInRange(nodes, edges[k], r, id, m);
      assert Listed(nodes, edges[k], style, r, id, m);
    }
  }

  // ---------------------------------------------------------------- set expressions

  const SUBTREE_HOPS := MAX_RELATION_DEPTH * 5

  /** ORDER BY id */
  ghost function Ascending(s: set<int>): seq<int> {
    if s == {} then [] else Ascending(s - {MaxIn(s)}) + [MaxIn(s)]
  }

  lemma {:induction false} AscendingHolds(s: set<int>)
    ensures forall x :: x in Ascending(s) <==> x in s
    ensures forall i, j :: 0 <= i < j < |Ascending(s)| ==> Ascending(s)[i] < Ascending(s)[j]
  {
    if s != {} {
      var m := MaxIn(s);
      var rest := Ascending(s - {m});
      AscendingHolds(s - {m});
      forall x ensures x in rest + [m] <==> x in s {
        assert x in rest + [m] <==> x in rest || x == m;
      }
      forall i, j | 0 <= i < j < |rest + [m]| ensures (rest + [m])[i] < (rest + [m])[j] {
        if j == |rest| { assert rest[i] in rest; }
      }
    }
  }

  ghost function MaxIn(s: set<int>): (m: int)
    requires s != {}
    ensures m in s && forall x :: x in s ==> x <= m
  {
    var x := AnElement(s);
    if s - {x} == {} then
      OnlyMember(s, x);
      assert forall y :: y in s ==> y == x by { forall y | y in s ensures y == x { assert y == x || y in s - {x}; } }
      x
    else
      var m := MaxIn(s - {x});
      assert forall y :: y in s ==> y == x || y in s - {x};
      if x > m then x else m
  }

  /** resolveSet: the addressed node and its subtree, in id order. */
  ghost function ResolveSet(
    schema: Schema, nodes: map<int, Node>, edges: map<int, Edge>, outside: Outside, address: string, expected: string)
    : Result<seq<Value>, QueryError>
  {
    if address !in outside.roots || outside.roots[address] !in nodes then Err(InvalidValue)
    else
      var root := outside.roots[address];
      var typ := nodes[root].typ;
      if expected != "" && typ != expected then Err(InvalidValue)
      else if typ !in schema || schema[typ].treeParent.None? then Err(InvalidValue)
      else
        var parent := schema[typ].treeParent.value;
        if Walk.ValidateTraversal(schema, nodes, typ, root, parent, SUBTREE_HOPS, false).Some? then Err(InvalidQuery)
        else Ok([Int(root)] + MapSeq(Ascending(Walk.Subtree(edges, root, parent, SUBTREE_HOPS)), i => Int(i)))
  }

  ghost predicate Answers(schema: Schema, nodes: map<int, Node>, edges: map<int, Edge>, outside: Outside, sets: Sets) {
    forall a, t :: sets(a, t) == ResolveSet(schema, nodes, edges, outside, a, t)
  }

  lemma ListsRootAnd(root: int, ids: seq<int>, x: int)
    ensures ListsId([Int(root)] + MapSeq(ids, i => Int(i)), x) <==> x == root || x in ids
  {
    var vs := [Int(root)] + MapSeq(ids, i => Int(i));
    assert ToID(vs[0]) == Some(root);
    forall i | 0 <= i < |ids| ensures ToID(vs[i + 1]) == Some(ids[i]) {}
    if i :| 0 <= i < |vs| && ToID(vs[i]) == Some(x) {
      if i > 0 { assert vs[(i - 1) + 1] == vs[i]; }
    }
  }

  lemma TreeIsTraversable(schema: Schema, nodes: map<int, Node>, root: int)
    requires ValidSchema(schema) && root in nodes && nodes[root].typ in schema
    requires schema[nodes[root].typ].treeParent.Some?
    ensures Walk.ValidateTraversal(schema, nodes, nodes[root].typ, root, schema[nodes[root].typ].treeParent.value,
      SUBTREE_HOPS, false).None?
  {
    assert ValidTypeDef(schema, nodes[root].typ, schema[nodes[root].typ]);
  }

  /**
   * A set that resolves lists the addressed node and every node from which at most 20 rows of the
   * parent field's name lead to it; of the nodes of its type, exactly those of its subtree.
   */
  lemma ResolvedSetSays(
    schema: Schema, nodes: map<int, Node>, edges: map<int, Edge>, outside: Outside, address: string, expected: string,
    x: int)
    requires ValidSchema(schema) && ValidGraph(schema, nodes, edges)
    requires ResolveSet(schema, nodes, edges, outside, address, expected).Ok?
    ensures TreeAt(schema, nodes, outside, address, expected)
    ensures
      var root := outside.roots[address];
      var typ := nodes[root].typ;
      var listed := ListsId(ResolveSet(schema, nodes, edges, outside, address, expected).value, x);
      && (listed <==>
            x == root || Walk.Within(Walk.FieldPairs(edges, schema[typ].treeParent.value), x, root, 1, 20))
      && (x in nodes && nodes[x].typ == typ ==> (listed <==> InSubtree(schema, nodes, edges, root, x)))
  {
    hide Ascending, MapSeq, ListsId, ValidGraph, ValidSchema, FieldGraph;
    hide Walk.Within, Walk.ValidateTraversal, Walk.Subtree, Walk.FieldPairs;
    var root := outside.roots[address];
    var parent := schema[nodes[root].typ].treeParent.value;
    var ids := Walk.Subtree(edges, root, parent, SUBTREE_HOPS);
    ListsRootAnd(root, Ascending(ids), x);
    AscendingHolds(ids);
    TreeIsTraversable(schema, nodes, root);
    Walk.SubtreeIsBoundedReach(schema, DB(nodes, edges, map[]), nodes[root].typ, root, parent, SUBTREE_HOPS, x);
  }

  /** The address names a node of the expected type, which has a tree. */
  predicate TreeAt(schema: Schema, nodes: map<int, Node>, outside: Outside, address: string, expected: string) {
    && address in outside.roots && outside.roots[address] in nodes
    && var typ := nodes[outside.roots[address]].typ;
       typ in schema && schema[typ].treeParent.Some? && (expected != "" ==> typ == expected)
  }

  /**
   * The set stays inside the type of its root if and only if no row of another type leads into the tree above
   * its last level.
   */
  lemma ResolvedSetStaysIff(
    schema: Schema, nodes: map<int, Node>, edges: map<int, Edge>, outside: Outside, address: string, expected: string)
    requires ValidSchema(schema) && ValidGraph(schema, nodes, edges)
    requires ResolveSet(schema, nodes, edges, outside, address, expected).Ok?
    ensures TreeAt(schema, nodes, outside, address, expected)
    ensures
      var root := outside.roots[address];
      var typ := nodes[root].typ;
      (forall x :: ListsId(ResolveSet(schema, nodes, edges, outside, address, expected).value, x) ==>
        x in nodes && nodes[x].typ == typ)
      <==> !exists k :: Walk.ForeignRow(nodes, edges, typ, schema[typ].treeParent.value, root, SUBTREE_HOPS, k)
  {
    hide Ascending, MapSeq, ListsId, ValidGraph, ValidSchema, FieldGraph;
    hide Walk.Within, Walk.ValidateTraversal, Walk.Subtree, Walk.FieldPairs, Walk.ForeignRow;
    var root := outside.roots[address];
    var typ := nodes[root].typ;
    var parent := schema[typ].treeParent.value;
    var (ids, db) := (Walk.Subtree(edges, root, parent, SUBTREE_HOPS), DB(nodes, edges, map[]));
    forall x ensures ListsId(ResolveSet(schema, nodes, edges, outside, address, expected).value, x)
      <==> x == root || x in ids {
      ListsRootAnd(root, Ascending(ids), x);
      AscendingHolds(ids);
    }
    TreeIsTraversable(schema, nodes, root);
    Walk.SubtreeStaysIff(schema, db, typ, root, parent, SUBTREE_HOPS);
    assert Walk.SubtreeInType(db, typ, root, parent, SUBTREE_HOPS)
      <==> forall x :: x in ids ==> x in nodes && nodes[x].typ == typ;
  }

  lemma {:induction false} AscendingLength(s: set<int>)
    ensures |Ascending(s)| == |s|
  {
    if s != {} { AscendingLength(s - {MaxIn(s)}); }
  }

  /** Nodes of every type count towards the limit on listed values. */
  lemma SetIsTooLargeIff(
    schema: Schema, nodes: map<int, Node>, edges: map<int, Edge>, outside: Outside, sets: Sets, style: Style,
    path: Path, given: seq<Value>, from: Set, typ: string, row: string)
    requires Answers(schema, nodes, edges, outside, sets)
    requires ResolvePath(schema, path, typ).Ok? && IsLink(ResolvePath(schema, path, typ).value)
    requires sets(from.address, TargetOf(ResolvePath(schema, path, typ).value)).Ok?
    ensures TreeAt(schema, nodes, outside, from.address, TargetOf(ResolvePath(schema, path, typ).value))
    ensures
      var root := outside.roots[from.address];
      CompileIn(schema, sets, style, path, given, Some(from), typ, row) == Err(SetTooLarge)
      <==> 1 + |Walk.Subtree(edges, root, schema[nodes[root].typ].treeParent.value, SUBTREE_HOPS)| > 100
  {
    hide ResolvePath, LinkIn, Walk.Subtree, Walk.ValidateTraversal, Ascending;
    var r := ResolvePath(schema, path, typ).value;
    assert sets(from.address, TargetOf(r)) == ResolveSet(schema, nodes, edges, outside, from.address, TargetOf(r));
    var root := outside.roots[from.address];
    AscendingLength(Walk.Subtree(edges, root, schema[nodes[root].typ].treeParent.value, SUBTREE_HOPS));
  }

  // ---------------------------------------------------------------- names in scope

  /** row is the outermost table, as a listing or as the search names it, or an alias handed out before. */
  ghost predicate RowName(row: string, alias: int) {
    row == "nodes" || row == "n" || exists j :: 1 <= j <= alias && row == Alias(j)
  }

  lemma AliasIsInjective(i: int, j: int)
    requires Alias(i) == Alias(j)
    ensures i == j
  {
    assert Alias(i)[8..] == Num(i) && Alias(j)[8..] == Num(j);
    NumIsInjective(i, j);
  }

  lemma NextAliasIsFresh(row: string, alias: int)
    requires RowName(row, alias)
    ensures Fresh(row, Alias(alias + 1)) && Fresh(row, "target") && Fresh(row, "src")
  {
    assert Alias(alias + 1)[0] == 'r' && "nodes"[0] == "n"[0] == 'n' && "target"[0] == 't' && "src"[0] == 's';
    if row != "nodes" && row != "n" {
      var j :| 1 <= j <= alias && row == Alias(j);
      if row == Alias(alias + 1) { AliasIsInjective(j, alias + 1); }
      assert row[0] == 'r';
    }
  }

  lemma MoreRowNames(row: string, a: int, b: int)
    requires RowName(row, a) && a <= b
    ensures RowName(row, b)
  {
  }

  lemma {:induction false} AliasesGrow(
    schema: Schema, sets: Sets, style: Style, e: Expr, typ: string, row: string, depth: nat, c: Counts)
    requires CompileExpr(schema, sets, style, e, typ, row, depth, c).Ok?
    ensures CompileExpr(schema, sets, style, e, typ, row, depth, c).value.1.alias >= c.alias
    decreases e
  {
    hide ResolvePath, CompileIn, CompileCompare, CompileExists, LinkExists, Alias;
    var c1 := c.(nodes := c.nodes + 1);
    match e
    case Logic(Not, args) => AliasesGrow(schema, sets, style, args[0], typ, row, depth + 1, c1);
    case Logic(_, args) => AliasesGrowInArgs(schema, sets, style, args, typ, row, depth + 1, c1);
    case Related(path, Some(w)) =>
      var r := ResolvePath(schema, path, typ).value;
      AliasesGrow(schema, sets, style, w, TargetOf(r), Alias(c.alias + 1), depth + 1, c1.(alias := c.alias + 1));
    case _ =>
  }

  lemma {:induction false} AliasesGrowInArgs(
    schema: Schema, sets: Sets, style: Style, args: seq<Expr>, typ: string, row: string, depth: nat, c: Counts)
    requires CompileArgs(schema, sets, style, args, typ, row, depth, c).Ok?
    ensures CompileArgs(schema, sets, style, args, typ, row, depth, c).value.1.alias >= c.alias
    decreases args
  {
    if args != [] {
      AliasesGrow(schema, sets, style, args[0], typ, row, depth, c);
      AliasesGrowInArgs(schema, sets, style, args[1..], typ, row, depth,
        CompileExpr(schema, sets, style, args[0], typ, row, depth, c).value.1);
    }
  }

  // ---------------------------------------------------------------- leaves

  lemma TermSays(nodes: map<int, Node>, edges: map<int, Edge>, env: Env, r: Resolved, row: string, id: int)
    requires !IsLink(r) && Stands(nodes, env, row, id)
    ensures ValueIn(nodes, edges, env, TermFor(r, row)) == ValueOf(id, nodes[id], env.times, r)
  {
  }

  lemma CompareSays(
    schema: Schema, nodes: map<int, Node>, edges: map<int, Edge>, env: Env, op: CompareOp, path: Path, v: Value,
    typ: string, row: string, id: int)
    requires Stands(nodes, env, row, id)
    requires CompileCompare(schema, op, path, v, typ, row).Ok?
    ensures ResolvePath(schema, path, typ).Ok? && !IsLink(ResolvePath(schema, path, typ).value)
    ensures Eval(nodes, edges, env, CompileCompare(schema, op, path, v, typ, row).value)
      == Compares(op, ValueOf(id, nodes[id], env.times, ResolvePath(schema, path, typ).value), v)
  {
    hide ResolvePath, ValueOf, Compare3, ValidateValue, KindOps, ColumnOps, ColumnAccepts;
    var r := ResolvePath(schema, path, typ).value;
    TermSays(nodes, edges, env, r, row, id);
    if v.Str? && ValueOf(id, nodes[id], env.times, r).Str? {
      Like.ContainsPatternIsExact(v.s, ValueOf(id, nodes[id], env.times, r).s);
      Like.PrefixPatternIsExact(v.s, ValueOf(id, nodes[id], env.times, r).s);
    }
    if v != Null && (op == Contains || op == Prefix) {
      ResolvedColumn(schema, path, typ);
      TextOpsTakeStrings(r, op, v);
    }
  }

  lemma ResolvedColumn(schema: Schema, path: Path, typ: string)
    requires ResolvePath(schema, path, typ).Ok?
    ensures var r := ResolvePath(schema, path, typ).value; r.ColumnOn? ==> ColumnOps(r.name) == Some(r.ops)
  {
  }

  /** The database and the answers to set expressions a compilation relies on. */
  ghost predicate Sound(schema: Schema, nodes: map<int, Node>, edges: map<int, Edge>, outside: Outside, sets: Sets) {
    ValidSchema(schema) && ValidGraph(schema, nodes, edges) && Answers(schema, nodes, edges, outside, sets)
  }

  lemma TargetIsNamed(schema: Schema, path: Path, typ: string)
    requires ValidSchema(schema) && ResolvePath(schema, path, typ).Ok? && IsLink(ResolvePath(schema, path, typ).value)
    ensures TargetOf(ResolvePath(schema, path, typ).value) != ""
  {
    var r := ResolvePath(schema, path, typ).value;
    if r.OutRef? {
      assert ValidTypeDef(schema, typ, schema[typ]);
      assert ValidRefField(schema, typ, r.f);
    }
  }

  lemma LinkedHasTargetType(
    schema: Schema, nodes: map<int, Node>, edges: map<int, Edge>, typ: string, r: Resolved, id: int, m: int)
    requires ValidSchema(schema) && ValidEdges(schema, nodes, edges) && ResolvesOn(schema, typ, r)
    requires id in nodes && nodes[id].typ == typ && Linked(nodes, edges, r, id, m)
    ensures m in nodes && nodes[m].typ == TargetOf(r)
  {
    LinkedByEdge(nodes, edges, r, id, m);
    var k :| k in edges && Leads(nodes, edges[k], r, id, m);
    assert ValidEdge(schema, nodes, edges[k]);
    if Undirected(r.f) {
      UndirectedStaysInType(schema, nodes, edges[k]);
      UndirectedFieldIsOwn(schema, typ, r);
    }
  }

  /** Membership as compiled and as meant list the same linked nodes. */
  lemma MembersAgree(
    schema: Schema, nodes: map<int, Node>, edges: map<int, Edge>, outside: Outside, sets: Sets, typ: string,
    r: Resolved, given: seq<Value>, from: Option<Set>, id: int, other: int)
    requires Sound(schema, nodes, edges, outside, sets) && ResolvesOn(schema, typ, r) && TargetOf(r) != ""
    requires id in nodes && nodes[id].typ == typ && Linked(nodes, edges, r, id, other)
    requires SetValues(sets, r, given, from).Ok?
    ensures ListsId(SetValues(sets, r, given, from).value, other)
      <==> Member(schema, nodes, edges, outside, given, from, other)
  {
    hide Linked, ListsId, InSubtree, ResolveSet, ResolvesOn;
    if from.Some? {
      LinkedHasTargetType(schema, nodes, edges, typ, r, id, other);
      ResolvedSetSays(schema, nodes, edges, outside, from.value.address, TargetOf(r), other);
    }
  }

  /** in, as compiled: the listed values are tested on the column, the field or the relation. */
  lemma InTexts(
    schema: Schema, nodes: map<int, Node>, edges: map<int, Edge>, sets: Sets, style: Style, path: Path,
    given: seq<Value>, from: Option<Set>, typ: string, row: string, env: Env)
    requires CompileIn(schema, sets, style, path, given, from, typ, row).Ok?
    ensures ResolvePath(schema, path, typ).Ok? && SetValues(sets, ResolvePath(schema, path, typ).value, given, from).Ok?
    ensures
      var r := ResolvePath(schema, path, typ).value;
      var values := SetValues(sets, r, given, from).value;
      var t := Eval(nodes, edges, env, CompileIn(schema, sets, style, path, given, from, typ, row).value);
      && (IsLink(r) ==> values == [] || ValidIds(values))
      && t == if values == [] then False
              else if IsLink(r) then Eval(nodes, edges, env, LinkIn(style, r, row, values))
              else In3(ValueIn(nodes, edges, env, TermFor(r, row)), values)
  {
    hide ResolvePath, LinkIn, ValueIn, Compare3, ToID, ValidOperands, KindOps, Joined, Like3;
  }

  lemma InTruth(
    schema: Schema, nodes: map<int, Node>, edges: map<int, Edge>, outside: Outside, path: Path, given: seq<Value>,
    from: Option<Set>, typ: string, id: int)
    requires id in nodes && ResolvePath(schema, path, typ).Ok?
    ensures
      var r := ResolvePath(schema, path, typ).value;
      TruthOf(schema, nodes, edges, outside, In(path, given, from), typ, id)
      == if IsLink(r) then
           Decided(exists other ::
             Linked(nodes, edges, r, id, other) && Member(schema, nodes, edges, outside, given, from, other))
         else In3(ValueOf(id, nodes[id], outside.times, r), given)
  {
    hide ResolvePath, Linked, Member, In3, ValueOf;
  }

  lemma StandsIn(nodes: map<int, Node>, env: Env, row: string, id: int)
    requires Stands(nodes, env, row, id)
    ensures id in nodes
  {
  }

  lemma InNothing(v: Value)
    ensures In3(v, []) == False
  {
  }

  lemma InSays(
    schema: Schema, nodes: map<int, Node>, edges: map<int, Edge>, outside: Outside, sets: Sets, style: Style,
    path: Path, given: seq<Value>, from: Option<Set>, typ: string, row: string, env: Env, id: int)
    requires Sound(schema, nodes, edges, outside, sets)
    requires style.FieldTested? || ExactFilter(schema, In(path, given, from), typ)
    requires env.times == outside.times && Stands(nodes, env, row, id) && nodes[id].typ == typ
    requires CompileIn(schema, sets, style, path, given, from, typ, row).Ok?
    ensures Eval(nodes, edges, env, CompileIn(schema, sets, style, path, given, from, typ, row).value)
      == TruthOf(schema, nodes, edges, outside, In(path, given, from), typ, id)
  {
    hide ResolvePath, Linked, ListsId, Member, Eval, TruthOf, CompileIn, In3, ValueOf, ValueIn, TermFor;
    hide ExactMembership, Sound;
    hide ValidIds, Stands;
    InTexts(schema, nodes, edges, sets, style, path, given, from, typ, row, env);
    StandsIn(nodes, env, row, id);
    var r := ResolvePath(schema, path, typ).value;
    var values := SetValues(sets, r, given, from).value;
    InTruth(schema, nodes, edges, outside, path, given, from, typ, id);
    if IsLink(r) {
      LinkedInSays(schema, nodes, edges, outside, sets, style, r, path, given, from, typ, row, env, id);
    } else {
      InNothing(ValueIn(nodes, edges, env, TermFor(r, row)));
      TermSays(nodes, edges, env, r, row, id);
    }
  }

  lemma LinkedInSays(
    schema: Schema, nodes: map<int, Node>, edges: map<int, Edge>, outside: Outside, sets: Sets, style: Style,
    r: Resolved, path: Path, given: seq<Value>, from: Option<Set>, typ: string, row: string, env: Env, id: int)
    requires Sound(schema, nodes, edges, outside, sets) && ResolvePath(schema, path, typ) == Ok(r) && IsLink(r)
    requires style.FieldTested? || ExactMembership(schema, typ, r)
    requires Stands(nodes, env, row, id) && nodes[id].typ == typ && SetValues(sets, r, given, from).Ok?
    requires var values := SetValues(sets, r, given, from).value; values == [] || ValidIds(values)
    ensures
      var values := SetValues(sets, r, given, from).value;
      (if values == [] then False else Eval(nodes, edges, env, LinkIn(style, r, row, values)))
      == Decided(exists other ::
        Linked(nodes, edges, r, id, other) && Member(schema, nodes, edges, outside, given, from, other))
  {
    hide ResolvePath, Linked, ListsId, Member, LinkIn, Eval, ExactMembership, SetValues, ValidIds, Sound;
    var values := SetValues(sets, r, given, from).value;
    ResolvedIsLink(schema, path, typ);
    SoundParts(schema, nodes, edges, outside, sets);
    TargetIsNamed(schema, path, typ);
    MembersAreListed(schema, nodes, edges, outside, sets, typ, r, given, from, id);
    if values == [] {
      forall other ensures !ListsId(values, other) { NothingListed(other); }
    } else {
      MembershipSays(schema, nodes, edges, env, style, typ, r, row, values, id);
    }
  }

  lemma MembersAreListed(
    schema: Schema, nodes: map<int, Node>, edges: map<int, Edge>, outside: Outside, sets: Sets, typ: string,
    r: Resolved, given: seq<Value>, from: Option<Set>, id: int)
    requires Sound(schema, nodes, edges, outside, sets) && ResolvesOn(schema, typ, r) && TargetOf(r) != ""
    requires id in nodes && nodes[id].typ == typ && SetValues(sets, r, given, from).Ok?
    ensures (exists other ::
      Linked(nodes, edges, r, id, other) && Member(schema, nodes, edges, outside, given, from, other))
      <==> exists other :: Linked(nodes, edges, r, id, other) && ListsId(SetValues(sets, r, given, from).value, other)
  {
    hide Sound, Linked, ListsId, Member, SetValues;
    forall other | Linked(nodes, edges, r, id, other)
      ensures ListsId(SetValues(sets, r, given, from).value, other)
        <==> Member(schema, nodes, edges, outside, given, from, other)
    {
      MembersAgree(schema, nodes, edges, outside, sets, typ, r, given, from, id, other);
    }
  }

  lemma NothingListed(id: int)
    ensures !ListsId([], id)
  {
  }

  /** The test exists compiles to. */
  function ExistsText(style: Style, r: Resolved, row: string): Pred {
    if r.ColumnOn? then NotNull(TermFor(r, row))
    else if r.ScalarField? then HasField(row, r.f.name)
    else LinkExists(style, r, row, JoinName(r), [])
  }

  lemma ExistsTexts(
    schema: Schema, nodes: map<int, Node>, edges: map<int, Edge>, style: Style, path: Path, missing: bool, typ: string,
    row: string, env: Env)
    requires ResolvePath(schema, path, typ).Ok?
    ensures CompileExists(schema, style, path, missing, typ, row).Ok?
    ensures
      var t := Eval(nodes, edges, env, ExistsText(style, ResolvePath(schema, path, typ).value, row));
      Eval(nodes, edges, env, CompileExists(schema, style, path, missing, typ, row).value)
      == if missing then Not3(t) else t
  {
    hide ResolvePath, LinkExists, Joined, ValueIn, RowId;
  }

  lemma ExistsTruth(
    schema: Schema, nodes: map<int, Node>, edges: map<int, Edge>, outside: Outside, path: Path, missing: bool,
    typ: string, id: int)
    requires id in nodes && ResolvePath(schema, path, typ).Ok?
    ensures TruthOf(schema, nodes, edges, outside, Expr.Exists(path, missing), typ, id)
      == Decided(HasValue(nodes, edges, outside.times, ResolvePath(schema, path, typ).value, id) != missing)
  {
    hide ResolvePath, HasValue;
  }

  /** On a column or a field the test is decided by the row. */
  lemma HasValueSays(
    nodes: map<int, Node>, edges: map<int, Edge>, style: Style, r: Resolved, row: string, env: Env, id: int)
    requires !IsLink(r) && Stands(nodes, env, row, id)
    ensures Eval(nodes, edges, env, ExistsText(style, r, row)) == Decided(HasValue(nodes, edges, env.times, r, id))
  {
    hide Compare3, Joined;
    TermSays(nodes, edges, env, r, row, id);
  }

  lemma ExistsMeans(
    schema: Schema, nodes: map<int, Node>, edges: map<int, Edge>, outside: Outside, style: Style,
    path: Path, missing: bool, typ: string, row: string, alias: int, env: Env, id: int)
    requires ValidSchema(schema) && ValidEdges(schema, nodes, edges)
    requires style.FieldTested? || ExactFilter(schema, Expr.Exists(path, missing), typ)
    requires env.times == outside.times && Stands(nodes, env, row, id) && nodes[id].typ == typ && RowName(row, alias)
    requires CompileExists(schema, style, path, missing, typ, row).Ok?
    ensures Eval(nodes, edges, env, CompileExists(schema, style, path, missing, typ, row).value)
      == TruthOf(schema, nodes, edges, outside, Expr.Exists(path, missing), typ, id)
  {
    assert ResolvePath(schema, path, typ).Ok?;
    hide ResolvePath, Linked, LinkExists, ValidEdges, ValidSchema, ExactLink, Fresh, RowName, Eval, TruthOf;
    hide CompileExists, ColumnOf;
    var r := ResolvePath(schema, path, typ).value;
    ExistsTexts(schema, nodes, edges, style, path, missing, typ, row, env);
    ExistsTruth(schema, nodes, edges, outside, path, missing, typ, id);
    if IsLink(r) {
      ResolvedIsLink(schema, path, typ);
      NextAliasIsFresh(row, alias);
      ExistsSays(schema, nodes, edges, env, style, typ, r, row, JoinName(r), id);
    } else {
      HasValueSays(nodes, edges, style, r, row, env, id);
    }
  }

  // ---------------------------------------------------------------- the theorem

  /** Compilation preserves meaning, for the field-tested text always and for the emitted text where it is exact. */
  lemma {:induction false} CompiledIsMeant(
    schema: Schema, nodes: map<int, Node>, edges: map<int, Edge>, outside: Outside, sets: Sets, style: Style,
    e: Expr, typ: string, row: string, depth: nat, c: Counts, env: Env, id: int)
    requires Sound(schema, nodes, edges, outside, sets)
    requires style.FieldTested? || ExactFilter(schema, e, typ)
    requires env.times == outside.times && Stands(nodes, env, row, id) && nodes[id].typ == typ && RowName(row, c.alias)
    requires c.alias >= 0
    requires CompileExpr(schema, sets, style, e, typ, row, depth, c).Ok?
    ensures Eval(nodes, edges, env, CompileExpr(schema, sets, style, e, typ, row, depth, c).value.0)
      == TruthOf(schema, nodes, edges, outside, e, typ, id)
    decreases e, 0
  {
    hide *;
    match e
    case Logic(op, args) =>
      LogicIsMeant(schema, nodes, edges, outside, sets, style, op, args, typ, row, depth, c, env, id);
    case Related(path, where) =>
      RelatedIsMeant(schema, nodes, edges, outside, sets, style, path, where, typ, row, depth, c, env, id);
    case _ =>
      LeafIsMeant(schema, nodes, edges, outside, sets, style, e, typ, row, depth, c, env, id);
  }

  lemma LeafIsMeant(
    schema: Schema, nodes: map<int, Node>, edges: map<int, Edge>, outside: Outside, sets: Sets, style: Style,
    e: Expr, typ: string, row: string, depth: nat, c: Counts, env: Env, id: int)
    requires !e.Logic? && !e.Related?
    requires Sound(schema, nodes, edges, outside, sets)
    requires style.FieldTested? || ExactFilter(schema, e, typ)
    requires env.times == outside.times && Stands(nodes, env, row, id) && nodes[id].typ == typ && RowName(row, c.alias)
    requires c.alias >= 0
    requires CompileExpr(schema, sets, style, e, typ, row, depth, c).Ok?
    ensures Eval(nodes, edges, env, CompileExpr(schema, sets, style, e, typ, row, depth, c).value.0)
      == TruthOf(schema, nodes, edges, outside, e, typ, id)
  {
    hide Sound, RowName, CompileCompare, CompileIn, CompileExists, ResolvePath, Compares, HasValue, ExactFilter;
    match e
    case Constant(b) =>
    case Compare(op, path, v) =>
      CompareSays(schema, nodes, edges, env, op, path, v, typ, row, id);
    case In(path, values, from) =>
      InSays(schema, nodes, edges, outside, sets, style, path, values, from, typ, row, env, id);
    case Exists(path, missing) =>
      SoundParts(schema, nodes, edges, outside, sets);
      ExistsMeans(schema, nodes, edges, outside, style, path, missing, typ, row, c.alias, env, id);
  }

  lemma {:induction false} LogicIsMeant(
    schema: Schema, nodes: map<int, Node>, edges: map<int, Edge>, outside: Outside, sets: Sets, style: Style,
    op: LogicOp, args: seq<Expr>, typ: string, row: string, depth: nat, c: Counts, env: Env, id: int)
    requires Sound(schema, nodes, edges, outside, sets)
    requires style.FieldTested? || ExactFilter(schema, Logic(op, args), typ)
    requires env.times == outside.times && Stands(nodes, env, row, id) && nodes[id].typ == typ && RowName(row, c.alias)
    requires c.alias >= 0
    requires CompileExpr(schema, sets, style, Logic(op, args), typ, row, depth, c).Ok?
    ensures Eval(nodes, edges, env, CompileExpr(schema, sets, style, Logic(op, args), typ, row, depth, c).value.0)
      == TruthOf(schema, nodes, edges, outside, Logic(op, args), typ, id)
    decreases args, 1
  {
    hide Sound, RowName, Eval, TruthOf, ExactFilter, CompileIn, CompileCompare, CompileExists, LinkExists, ResolvePath;
    var c1 := c.(nodes := c.nodes + 1);
    LogicFilters(schema, style, op, args, typ);
    if op == Not {
      CompiledIsMeant(schema, nodes, edges, outside, sets, style, args[0], typ, row, depth + 1, c1, env, id);
      var p := CompileExpr(schema, sets, style, args[0], typ, row, depth + 1, c1).value.0;
      NegationMeans(schema, nodes, edges, outside, args, p, typ, env, id);
    } else {
      ArgsAreMeant(schema, nodes, edges, outside, sets, style, args, typ, row, depth + 1, c1, env, id);
      var ps := CompileArgs(schema, sets, style, args, typ, row, depth + 1, c1).value.0;
      if op == And {
        AllMeans(schema, nodes, edges, outside, args, ps, typ, env, id);
      } else {
        AnyMeans(schema, nodes, edges, outside, args, ps, typ, env, id);
      }
    }
  }

  lemma LogicFilters(schema: Schema, style: Style, op: LogicOp, args: seq<Expr>, typ: string)
    requires style.FieldTested? || ExactFilter(schema, Logic(op, args), typ)
    ensures style.FieldTested? || forall i :: 0 <= i < |args| ==> ExactFilter(schema, args[i], typ)
  {
  }

  lemma NegationMeans(
    schema: Schema, nodes: map<int, Node>, edges: map<int, Edge>, outside: Outside, args: seq<Expr>, p: Pred,
    typ: string, env: Env, id: int)
    requires id in nodes && |args| == 1
    requires Eval(nodes, edges, env, p) == TruthOf(schema, nodes, edges, outside, args[0], typ, id)
    ensures Eval(nodes, edges, env, Negation(p)) == TruthOf(schema, nodes, edges, outside, Logic(Not, args), typ, id)
  {
  }

  lemma AllMeans(
    schema: Schema, nodes: map<int, Node>, edges: map<int, Edge>, outside: Outside, args: seq<Expr>, ps: seq<Pred>,
    typ: string, env: Env, id: int)
    requires id in nodes && |ps| == |args|
    requires forall i :: 0 <= i < |args| ==>
      Eval(nodes, edges, env, ps[i]) == TruthOf(schema, nodes, edges, outside, args[i], typ, id)
    ensures Eval(nodes, edges, env, All(ps)) == TruthOf(schema, nodes, edges, outside, Logic(And, args), typ, id)
  {
    hide ValueIn, Compare3, Joined, In3, Like3, Linked, ResolvePath, Compares, HasValue, Member;
  }

  lemma AnyMeans(
    schema: Schema, nodes: map<int, Node>, edges: map<int, Edge>, outside: Outside, args: seq<Expr>, ps: seq<Pred>,
    typ: string, env: Env, id: int)
    requires id in nodes && |ps| == |args|
    requires forall i :: 0 <= i < |args| ==>
      Eval(nodes, edges, env, ps[i]) == TruthOf(schema, nodes, edges, outside, args[i], typ, id)
    ensures Eval(nodes, edges, env, Any(ps)) == TruthOf(schema, nodes, edges, outside, Logic(Or, args), typ, id)
  {
    hide ValueIn, Compare3, Joined, In3, Like3, Linked, ResolvePath, Compares, HasValue, Member;
  }

  lemma SoundParts(schema: Schema, nodes: map<int, Node>, edges: map<int, Edge>, outside: Outside, sets: Sets)
    requires Sound(schema, nodes, edges, outside, sets)
    ensures ValidSchema(schema) && ValidEdges(schema, nodes, edges)
  {
  }

  lemma {:induction false} ArgsAreMeant(
    schema: Schema, nodes: map<int, Node>, edges: map<int, Edge>, outside: Outside, sets: Sets, style: Style,
    args: seq<Expr>, typ: string, row: string, depth: nat, c: Counts, env: Env, id: int)
    requires Sound(schema, nodes, edges, outside, sets)
    requires style.FieldTested? || forall i :: 0 <= i < |args| ==> ExactFilter(schema, args[i], typ)
    requires env.times == outside.times && Stands(nodes, env, row, id) && nodes[id].typ == typ && RowName(row, c.alias)
    requires c.alias >= 0
    requires CompileArgs(schema, sets, style, args, typ, row, depth, c).Ok?
    ensures
      var ps := CompileArgs(schema, sets, style, args, typ, row, depth, c).value.0;
      |ps| == |args| && forall i :: 0 <= i < |args| ==>
        Eval(nodes, edges, env, ps[i]) == TruthOf(schema, nodes, edges, outside, args[i], typ, id)
    decreases args, 0
  {
    hide Sound, RowName, Eval, TruthOf, ExactFilter, CompileExpr;
    if args != [] {
      var (p, c1) := CompileExpr(schema, sets, style, args[0], typ, row, depth, c).value;
      CompiledIsMeant(schema, nodes, edges, outside, sets, style, args[0], typ, row, depth, c, env, id);
      AliasesGrow(schema, sets, style, args[0], typ, row, depth, c);
      MoreRowNames(row, c.alias, c1.alias);
      ArgsAreMeant(schema, nodes, edges, outside, sets, style, args[1..], typ, row, depth, c1, env, id);
      var ps := CompileArgs(schema, sets, style, args[1..], typ, row, depth, c1).value.0;
      assert forall i :: 1 <= i < |args| ==> args[i] == args[1..][i - 1] && ([p] + ps)[i] == ps[i - 1];
    }
  }

  lemma {:induction false} RelatedIsMeant(
    schema: Schema, nodes: map<int, Node>, edges: map<int, Edge>, outside: Outside, sets: Sets, style: Style,
    path: Path, where: Option<Expr>, typ: string, row: string, depth: nat, c: Counts, env: Env, id: int)
    requires Sound(schema, nodes, edges, outside, sets)
    requires style.FieldTested? || ExactFilter(schema, Related(path, where), typ)
    requires env.times == outside.times && Stands(nodes, env, row, id) && nodes[id].typ == typ && RowName(row, c.alias)
    requires c.alias >= 0
    requires CompileExpr(schema, sets, style, Related(path, where), typ, row, depth, c).Ok?
    ensures Eval(nodes, edges, env, CompileExpr(schema, sets, style, Related(path, where), typ, row, depth, c).value.0)
      == TruthOf(schema, nodes, edges, outside, Related(path, where), typ, id)
    decreases where, 1
  {
    hide *;
    StandsIn(nodes, env, row, id);
    RelatedParts(schema, nodes, edges, outside, sets, style, path, where, typ, row, depth, c, id);
    var r := ResolvePath(schema, path, typ).value;
    var w, far := where.value, Alias(c.alias + 1);
    var inner := Counts(c.nodes + 1, c.alias + 1);
    var child := CompileExpr(schema, sets, style, w, TargetOf(r), far, depth + 1, inner).value.0;
    var holds := set m | m in nodes && TruthOf(schema, nodes, edges, outside, w, TargetOf(r), m) == True;
    NextAliasIsFresh(row, c.alias);
    forall k, m | k in edges && Linked(nodes, edges, r, id, m)
      ensures Eval(nodes, edges, Inner(env, far, k, m), child) == True <==> m in holds
    {
      LinkedHasTargetType(schema, nodes, edges, typ, r, id, m);
      InnerStands(nodes, edges, env, row, far, id, k, m);
      InnerTimes(env, far, k, m);
      AliasNames(c.alias + 1);
      CompiledIsMeant(schema, nodes, edges, outside, sets, style, w, TargetOf(r), far, depth + 1, inner,
        Inner(env, far, k, m), m);
    }
    RelatedSays(schema, nodes, edges, env, style, typ, r, row, far, child, id, holds);
    forall m | Linked(nodes, edges, r, id, m) ensures m in nodes {
      LinkedHasTargetType(schema, nodes, edges, typ, r, id, m);
    }
  }

  lemma InnerTimes(env: Env, far: string, k: int, m: int)
    ensures Inner(env, far, k, m).times == env.times
  {
  }

  lemma AliasNames(k: int)
    requires k >= 1
    ensures RowName(Alias(k), k)
  {
  }

  /** What a related that compiles consists of, and when it is true. */
  lemma RelatedParts(
    schema: Schema, nodes: map<int, Node>, edges: map<int, Edge>, outside: Outside, sets: Sets, style: Style,
    path: Path, where: Option<Expr>, typ: string, row: string, depth: nat, c: Counts, id: int)
    requires Sound(schema, nodes, edges, outside, sets) && id in nodes
    requires style.FieldTested? || ExactFilter(schema, Related(path, where), typ)
    requires CompileExpr(schema, sets, style, Related(path, where), typ, row, depth, c).Ok?
    ensures ResolvePath(schema, path, typ).Ok? && IsLink(ResolvePath(schema, path, typ).value) && where.Some?
    ensures ResolvesOn(schema, typ, ResolvePath(schema, path, typ).value)
    ensures ValidSchema(schema) && ValidEdges(schema, nodes, edges)
    ensures
      var r := ResolvePath(schema, path, typ).value;
      var far := Alias(c.alias + 1);
      var child := CompileExpr(schema, sets, style, where.value, TargetOf(r), far, depth + 1,
        Counts(c.nodes + 1, c.alias + 1));
      && (style.FieldTested? || (ExactLink(schema, typ, r) && ExactFilter(schema, where.value, TargetOf(r))))
      && child.Ok?
      && CompileExpr(schema, sets, style, Related(path, where), typ, row, depth, c).value.0
         == LinkExists(style, r, row, far, [child.value.0])
      && TruthOf(schema, nodes, edges, outside, Related(path, where), typ, id)
         == Decided(exists other :: Linked(nodes, edges, r, id, other)
                                    && TruthOf(schema, nodes, edges, outside, where.value, TargetOf(r), other) == True)
  {
    hide ResolvePath, LinkExists, Refers, ValidEdges, NoConflicts, NoCycles, ValidSchema, ExactLink;
    ResolvedIsLink(schema, path, typ);
  }
}
