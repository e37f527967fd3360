/**
 * The node and edge tables with the full-text index, and what each write does to them
 * (core/edge.go, core/node_sql.go, core/node_delete.go, core/search.go).
 *
 * A write is one transaction: it either yields the next state or an error and no change.
 * UNIQUE constraints, partial indexes, triggers and foreign keys are guards on insert.
 * Where Go iterates over a map, the order it happens to take is a parameter.
 */
module Store {
  import opened Common
  import opened Types
  import opened Graph
  import opened Bigram

  // ---------------------------------------------------------------- state

  datatype Node = Node(typ: string, display: string, revision: int, fields: Fields)

  datatype Edge = Edge(from: int, field: string, to: int, sort: int, single: bool, symmetric: bool)

  /** One row of the full-text index. */
  datatype Doc = Doc(typ: string, display: string, body: string)

  datatype DB = DB(nodes: map<int, Node>, edges: map<int, Edge>, index: map<int, Doc>)

  const EMPTY := DB(map[], map[], map[])

  datatype Error =
    | NotFound | EdgeNotFound | UnknownType | UnknownField | NotARef | InvalidFields | WrongType
    | SelfReference | Cycle | RelationCardinality | ForeignKey
    | RevisionConflict | RequiredReference | DeleteRestricted

  datatype Patch = Patch(revision: Option<int>, display: Option<string>, fields: Fields)

  // ---------------------------------------------------------------- row ids

  ghost function MaxOf(s: set<int>): (m: int)
    ensures (m == 0 || m in s) && 0 <= m && forall x :: x in s ==> x <= m
  {
    if s == {} then 0
    else
      var x := AnElement(s);
      var m := MaxOf(s - {x});
      assert forall y :: y in s ==> y == x || y in s - {x};
      if x > m then x else m
  }

  /** INTEGER PRIMARY KEY without AUTOINCREMENT: one more than the largest id in use. */
  ghost function NextId(s: set<int>): (id: int)
    ensures id !in s && 0 < id && forall x :: x in s ==> x < id
  {
    MaxOf(s) + 1
  }

  // ---------------------------------------------------------------- edges

  predicate Touches(e: Edge, n: int) { e.from == n || e.to == n }

  /** The directed graph of one field of one type. */
  ghost function FieldGraph(nodes: map<int, Node>, edges: map<int, Edge>, typ: string, field: string): Rel {
    set id | id in edges && edges[id].field == field && edges[id].from in nodes && nodes[edges[id].from].typ == typ
      :: (edges[id].from, edges[id].to)
  }

  /** The row written for a reference; undirected ones are stored with the smaller id first. */
  function Stored(f: FieldDef, from: int, to: int, sort: int): Edge {
    var swap := Undirected(f) && from > to;
    Edge(if swap then to else from, f.name, if swap then from else to, sort, f.kind == Ref, Undirected(f))
  }

  /** UNIQUE (from_node, field, to_node). */
  predicate SamePair(a: Edge, b: Edge) { a.from == b.from && a.field == b.field && a.to == b.to }

  /** The partial unique index on (from_node, field). */
  predicate SameSingle(a: Edge, b: Edge) { a.single && b.single && a.from == b.from && a.field == b.field }

  /** The trigger on symmetric single references; it subsumes the index on (to_node, field). */
  predicate SharesPartner(a: Edge, b: Edge) {
    && a.single && a.symmetric && b.single && b.symmetric && a.field == b.field
    && (Touches(a, b.from) || Touches(a, b.to))
  }

  predicate Conflicts(a: Edge, b: Edge) { SamePair(a, b) || SameSingle(a, b) || SharesPartner(a, b) }

  /** The first check of insertEdge that fails. */
  ghost function InsertError(db: DB, td: TypeDef, f: FieldDef, from: int, to: int, sort: int): Option<Error> {
    if to !in db.nodes then Some(NotFound)
    else if db.nodes[to].typ != f.to then Some(WrongType)
    else if (Undirected(f) || Hierarchical(td, f)) && from == to then Some(SelfReference)
    else if Hierarchical(td, f) && Reach(FieldGraph(db.nodes, db.edges, td.name, f.name), to, from) then Some(Cycle)
    else if exists id :: id in db.edges && Conflicts(db.edges[id], Stored(f, from, to, sort))
    then Some(RelationCardinality)
    else if from !in db.nodes then Some(ForeignKey)
    else None
  }

  ghost function InsertEdge(db: DB, td: TypeDef, f: FieldDef, from: int, to: int, sort: int): Result<DB, Error> {
    match InsertError(db, td, f, from, to, sort)
    case Some(e) => Err(e)
    case None => Ok(db.(edges := db.edges[NextId(db.edges.Keys) := Stored(f, from, to, sort)]))
  }

  /** refIDs: the target ids of a reference value. */
  function TargetIds(f: FieldDef, v: Value): Option<seq<int>> {
    if f.kind == Ref then (match ToID(v) case Some(id) => Some([id]) case None => None)
    else if f.kind == RefList && AsItems(v).Some? then
      var items := AsItems(v).value;
      if forall i :: 0 <= i < |items| ==> ToID(items[i]).Some?
      then Some(seq(|items|, i requires 0 <= i < |items| && ToID(items[i]).Some? => ToID(items[i]).value))
      else None
    else None
  }

  /** The inner loop of addEdges: the targets of one field from position pos on. */
  ghost function AddTargets(db: DB, td: TypeDef, f: FieldDef, from: int, ids: seq<int>, pos: nat): Result<DB, Error>
    requires pos <= |ids|
    decreases |ids| - pos
  {
    if pos == |ids| then Ok(db)
    else if ids[pos] in ids[..pos] then Err(InvalidFields)
    else
      match InsertEdge(db, td, f, from, ids[pos], pos)
      case Err(e) => Err(e)
      case Ok(db1) => AddTargets(db1, td, f, from, ids, pos + 1)
  }

  /** addEdges: every reference value, in the order the map is walked. */
  ghost function AddEdges(db: DB, td: TypeDef, from: int, refs: Fields, order: seq<string>): Result<DB, Error>
    requires forall k :: k in order ==> k in refs
    decreases |order|
  {
    if order == [] then Ok(db)
    else if refs[order[0]] == Null then AddEdges(db, td, from, refs, order[1..])
    else
      match FieldByName(td.fields, order[0])
      case None => Err(UnknownField)
      case Some(f) =>
        match TargetIds(f, refs[order[0]])
        case None => Err(InvalidFields)
        case Some(ids) =>
          match AddTargets(db, td, f, from, ids, 0)
          case Err(e) => Err(e)
          case Ok(db1) => AddEdges(db1, td, from, refs, order[1..])
  }

  /** The rows deleteFieldEdges removes. */
  predicate ClearedBy(e: Edge, id: int, f: FieldDef) {
    e.field == f.name && (e.from == id || (Undirected(f) && e.to == id))
  }

  predicate ClearedByAny(e: Edge, id: int, td: TypeDef, names: set<string>) {
    e.field in names && FieldByName(td.fields, e.field).Some? && ClearedBy(e, id, FieldByName(td.fields, e.field).value)
  }

  function ClearFields(edges: map<int, Edge>, id: int, td: TypeDef, names: set<string>): map<int, Edge> {
    map k | k in edges && !ClearedByAny(edges[k], id, td, names) :: edges[k]
  }

  // ---------------------------------------------------------------- full-text index

  /** searchableText: the declared text fields that hold a non-empty string, joined. */
  function SearchableText(names: seq<string>, fields: Fields): string {
    Join(TextValues(names, fields))
  }

  function TextValues(names: seq<string>, fields: Fields): seq<string> {
    if names == [] then []
    else (if names[0] in fields && fields[names[0]].Str? && fields[names[0]].s != "" then [fields[names[0]].s] else [])
         + TextValues(names[1..], fields)
  }

  /** The index row of a node, if it has one. */
  function DocOf(schema: Schema, n: Node): Option<Doc> {
    if n.typ in schema && schema[n.typ].searchable.Some? then
      var display := BigramText(n.display);
      var body := BigramText(SearchableText(schema[n.typ].searchable.value, n.fields));
      if display == "" && body == "" then None else Some(Doc(n.typ, display, body))
    else None
  }

  /** searchSync: Sync for indexable nodes, Delete for the others. */
  function SyncIndex(schema: Schema, index: map<int, Doc>, id: int, n: Node): map<int, Doc> {
    match DocOf(schema, n)
    case Some(d) => index[id := d]
    case None => index - {id}
  }

  // ---------------------------------------------------------------- the five writes

  predicate Enumerates(order: seq<string>, keys: set<string>) {
    Distinct(order) && Elements(order) == keys
  }

  ghost function CreateNode(schema: Schema, db: DB, typ: string, display: string, given: Fields, order: seq<string>)
    : Result<(DB, int), Error>
  {
    if typ !in schema then Err(UnknownType)
    else
      var td := schema[typ];
      var fields := ApplyDefaults(td.fields, given);
      if !ValidateFields(td, fields) || display == "" then Err(InvalidFields)
      else if !Enumerates(order, RefPart(td, fields).Keys) then Err(InvalidFields)
      else
        var id := NextId(db.nodes.Keys);
        var row := Node(typ, display, 1, ScalarPart(td, fields));
        match AddEdges(db.(nodes := db.nodes[id := row]), td, id, RefPart(td, fields), order)
        case Err(e) => Err(e)
        case Ok(db1) => Ok((db1.(index := SyncIndex(schema, db1.index, id, row)), id))
  }

  /** The row PatchNode writes. */
  function PatchedRow(td: TypeDef, n: Node, patch: Patch): Node {
    var scalars := ScalarPart(td, patch.fields);
    Node(n.typ,
         if patch.display.Some? then patch.display.value else n.display,
         n.revision + 1,
         if scalars == map[] then n.fields else MergeFields(n.fields, scalars))
  }

  ghost function PatchNode(schema: Schema, db: DB, id: int, patch: Patch, order: seq<string>): Result<DB, Error> {
    if id !in db.nodes then Err(NotFound)
    else if patch.display.None? && patch.fields == map[] then Ok(db)
    else if patch.revision.None? || patch.revision.value <= 0 then Err(InvalidFields)
    else if db.nodes[id].typ !in schema then Err(UnknownType)
    else
      var td := schema[db.nodes[id].typ];
      var refs := RefPart(td, patch.fields);
      if !ValidatePatchFields(td, patch.fields) || patch.display == Some("") then Err(InvalidFields)
      else if !Enumerates(order, refs.Keys) then Err(InvalidFields)
      else if patch.revision.value != db.nodes[id].revision then Err(RevisionConflict)
      else
        var row := PatchedRow(td, db.nodes[id], patch);
        var cleared := DB(db.nodes[id := row], ClearFields(db.edges, id, td, refs.Keys), db.index);
        match AddEdges(cleared, td, id, refs, order)
        case Err(e) => Err(e)
        case Ok(db1) => Ok(db1.(index := SyncIndex(schema, db1.index, id, row)))
  }

  /** fieldOnType: the reference field a type declares under a name, or why there is none. */
  function RefFieldOn(schema: Schema, typ: string, name: string): Result<FieldDef, Error> {
    if typ !in schema then Err(UnknownType)
    else
      match FieldByName(schema[typ].fields, name)
      case None => Err(UnknownField)
      case Some(f) => if IsRefKind(f.kind) then Ok(f) else Err(NotARef)
  }

  ghost function AddEdge(schema: Schema, db: DB, from: int, to: int, name: string, sort: int): Result<DB, Error> {
    if from !in db.nodes then Err(NotFound)
    else
      match RefFieldOn(schema, db.nodes[from].typ, name)
      case Err(e) => Err(e)
      case Ok(f) => InsertEdge(db, schema[db.nodes[from].typ], f, from, to, sort)
  }

  /** The edges that count towards a required field at one endpoint. */
  function EdgesAt(edges: map<int, Edge>, f: FieldDef, n: int): set<int> {
    set k | k in edges && ClearedBy(edges[k], n, f)
  }

  function RemoveEdge(schema: Schema, db: DB, id: int): Result<DB, Error> {
    if id !in db.edges then Err(EdgeNotFound)
    else
      var e := db.edges[id];
      if e.from !in db.nodes then Err(EdgeNotFound)
      else
        match RefFieldOn(schema, db.nodes[e.from].typ, e.field)
        case Err(err) => Err(err)
        case Ok(f) =>
          if f.required && (|EdgesAt(db.edges, f, e.from)| <= 1 || (Undirected(f) && |EdgesAt(db.edges, f, e.to)| <= 1))
          then Err(RequiredReference)
          else Ok(db.(edges := db.edges - {id}))
  }

  /** The node at the other end of a reference to n. */
  function SourceOf(e: Edge, n: int): int { if e.symmetric && e.from == n then e.to else e.from }

  /** An edge through which another node refers to n. */
  predicate RefersTo(e: Edge, n: int) {
    (e.to == n || (e.symmetric && e.from == n)) && SourceOf(e, n) != n
  }

  function DeleteNode(schema: Schema, db: DB, id: int): Result<DB, Error> {
    if id !in db.nodes then Err(NotFound)
    else if exists k :: k in db.edges && RefersTo(db.edges[k], id) then Err(DeleteRestricted)
    else Ok(DB(db.nodes - {id}, map k | k in db.edges && !Touches(db.edges[k], id) :: db.edges[k], db.index - {id}))
  }

  // ---------------------------------------------------------------- runs

  datatype Op =
    | Create(typ: string, display: string, fields: Fields, order: seq<string>)
    | PatchOp(id: int, patch: Patch, order: seq<string>)
    | AddEdgeOp(from: int, to: int, field: string, sort: int)
    | RemoveEdgeOp(edge: int)
    | DeleteOp(node: int)

  ghost function Apply(schema: Schema, db: DB, op: Op): Result<DB, Error> {
    match op
    case Create(t, d, f, order) =>
      (match CreateNode(schema, db, t, d, f, order) case Ok(r) => Ok(r.0) case Err(e) => Err(e))
    case PatchOp(id, p, order) => PatchNode(schema, db, id, p, order)
    case AddEdgeOp(from, to, f, s) => AddEdge(schema, db, from, to, f, s)
    case RemoveEdgeOp(e) => RemoveEdge(schema, db, e)
    case DeleteOp(n) => DeleteNode(schema, db, n)
  }

  /** A failed write leaves the state as it was. */
  ghost function Step(schema: Schema, db: DB, op: Op): DB {
    match Apply(schema, db, op) case Ok(next) => next case Err(_) => db
  }

  ghost function Run(schema: Schema, db: DB, ops: seq<Op>): DB
    decreases |ops|
  {
    if ops == [] then db else Step(schema, Run(schema, db, ops[..|ops| - 1]), ops[|ops| - 1])
  }

  lemma RunAppend(schema: Schema, db: DB, ops: seq<Op>, op: Op)
    ensures Run(schema, db, ops + [op]) == Step(schema, Run(schema, db, ops), op)
  {
    assert (ops + [op])[..|ops|] == ops;
  }

  /** Every state some sequence of writes leads to from the empty store. */
  ghost predicate Reachable(schema: Schema, db: DB) {
    exists ops :: db == Run(schema, EMPTY, ops)
  }
}
