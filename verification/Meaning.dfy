/**
 * What a filter means for one node, told in terms of what reads return: its stored fields, the
 * references a read shows, and the nodes at their other ends. Unknown is the outcome of comparing
 * a missing value; everything else is decided.
 */
module Meaning {
  import opened Common
  import opened Types
  import opened Store
  import opened Reads
  import opened Traverse
  import opened Query
  import opened Sql
  import opened Compile
  import Like

  // ---------------------------------------------------------------- relations

  /**
   * The relation a path names leads from id to other: forwards along a reference, or back along one of the
   * source type.
   */
  ghost predicate Linked(nodes: map<int, Node>, edges: map<int, Edge>, r: Resolved, id: int, other: int)
    requires IsLink(r)
  {
    && other in nodes
    && if r.OutRef? then Refers(edges, id, r.f, other)
       else nodes[other].typ == r.source && Refers(edges, other, r.f, id)
  }

  /** What filters see beside the two tables: which node each address names, and the times of the nodes. */
  datatype Outside = Outside(roots: map<string, int>, times: Times)

  // ---------------------------------------------------------------- sets

  /** x is the addressed node or at most 20 parents below it. */
  ghost predicate InSubtree(schema: Schema, nodes: map<int, Node>, edges: map<int, Edge>, root: int, x: int) {
    && root in nodes && x in nodes && nodes[root].typ in schema && schema[nodes[root].typ].treeParent.Some?
    && (x == root
        || Within(FieldGraph(nodes, edges, nodes[root].typ, schema[nodes[root].typ].treeParent.value), x, root, 1, 20))
  }

  predicate ListsId(values: seq<Value>, id: int) {
    exists i :: 0 <= i < |values| && ToID(values[i]) == Some(id)
  }

  /** Membership in the listed ids, or in the addressed subtree. */
  ghost predicate Member(
    schema: Schema, nodes: map<int, Node>, edges: map<int, Edge>, outside: Outside,
    values: seq<Value>, from: Option<Set>, id: int)
  {
    match from
    case None => ListsId(values, id)
    case Some(s) => s.address in outside.roots && InSubtree(schema, nodes, edges, outside.roots[s.address], id)
  }

  // ---------------------------------------------------------------- meaning

  function ValueOf(id: int, n: Node, times: Times, r: Resolved): Value
    requires !IsLink(r)
  {
    if r.ColumnOn? then ColumnOf(id, n, times, r.name) else StoredValue(n, r.f.name)
  }

  /** contains and prefix look for the text itself, up to the case of ASCII letters. */
  function Compares(op: CompareOp, a: Value, v: Value): Truth {
    if v == Null then Decided((a == Null) == (op == EQ))
    else if op == Contains || op == Prefix then
      if a.Str? && v.Str? then Decided(if op == Contains then Like.Occurs(a.s, v.s) else Like.StartsWith(a.s, v.s))
      else Unknown
    else Compare3(op, a, v)
  }

  ghost predicate HasValue(nodes: map<int, Node>, edges: map<int, Edge>, times: Times, r: Resolved, id: int)
    requires id in nodes
  {
    if r.ColumnOn? then ColumnOf(id, nodes[id], times, r.name) != Null
    else if r.ScalarField? then r.f.name in nodes[id].fields
    else exists other :: Linked(nodes, edges, r, id, other)
  }

  ghost function TruthOf(
    schema: Schema, nodes: map<int, Node>, edges: map<int, Edge>, outside: Outside, e: Expr, typ: string,
    id: int): Truth
    requires id in nodes
    decreases e
  {
    match e
    case Constant(b) => Decided(b)
    case Compare(op, path, v) =>
      (match ResolvePath(schema, path, typ)
       case Ok(r) => if IsLink(r) then Unknown else Compares(op, ValueOf(id, nodes[id], outside.times, r), v)
       case Err(_) => Unknown)
    case In(path, values, from) =>
      (match ResolvePath(schema, path, typ)
       case Ok(r) =>
         if IsLink(r) then
           Decided(exists other :: Linked(nodes, edges, r, id, other)
                                   && Member(schema, nodes, edges, outside, values, from, other))
         else In3(ValueOf(id, nodes[id], outside.times, r), values)
       case Err(_) => Unknown)
    case Exists(path, missing) =>
      (match ResolvePath(schema, path, typ)
       case Ok(r) => Decided(HasValue(nodes, edges, outside.times, r, id) != missing)
       case Err(_) => Unknown)
    case Logic(Not, args) =>
      if |args| == 1 then Not3(TruthOf(schema, nodes, edges, outside, args[0], typ, id)) else Unknown
    case Logic(And, args) =>
      if exists i :: 0 <= i < |args| && TruthOf(schema, nodes, edges, outside, args[i], typ, id) == False then False
      else if forall i :: 0 <= i < |args| ==> TruthOf(schema, nodes, edges, outside, args[i], typ, id) == True then True
      else Unknown
    case Logic(Or, args) =>
      if exists i :: 0 <= i < |args| && TruthOf(schema, nodes, edges, outside, args[i], typ, id) == True then True
      else if forall i :: 0 <= i < |args| ==>
        TruthOf(schema, nodes, edges, outside, args[i], typ, id) == False then False
      else Unknown
    case Related(path, where) =>
      (match ResolvePath(schema, path, typ)
       case Ok(r) =>
         if IsLink(r) && where.Some? then
           Decided(exists other :: Linked(nodes, edges, r, id, other)
                                   && TruthOf(schema, nodes, edges, outside, where.value, TargetOf(r), other) == True)
         else Unknown
       case Err(_) => Unknown)
  }

  // ---------------------------------------------------------------- where the text says what is meant

  /** Every other reference field that could put a row of its own under the test the path compiles to. */
  predicate OnlyRefOn(schema: Schema, typ: string, f: FieldDef) {
    typ in schema && forall g :: g in schema[typ].fields && IsRefKind(g.kind) ==> g.name == f.name
  }

  predicate OnlyRefInto(schema: Schema, typ: string, source: string, f: FieldDef) {
    forall t, g :: t in schema && g in schema[t].fields && IsRefKind(g.kind) && g.to == typ ==>
      t == source && g.name == f.name
  }

  predicate NoNamesake(schema: Schema, typ: string, source: string, f: FieldDef) {
    forall t, g :: t in schema && g in schema[t].fields && IsRefKind(g.kind) && g.to == typ && g.name == f.name ==>
      t == source
  }

  /** exists and related: the directed texts do not test the field name. */
  predicate ExactLink(schema: Schema, typ: string, r: Resolved)
    requires IsLink(r)
  {
    Undirected(r.f) || if r.OutRef? then OnlyRefOn(schema, typ, r.f) else OnlyRefInto(schema, typ, r.source, r.f)
  }

  /**
   * in: the incoming directed text does not test the source type, the outgoing undirected one not the
   * symmetric flag.
   */
  predicate ExactMembership(schema: Schema, typ: string, r: Resolved)
    requires IsLink(r)
  {
    if r.OutRef? then Undirected(r.f) ==> NoNamesake(schema, typ, typ, r.f)
    else Undirected(r.f) || NoNamesake(schema, typ, r.source, r.f)
  }

  /** Every path of the filter is one whose text is exact in this schema. */
  predicate ExactFilter(schema: Schema, e: Expr, typ: string)
    decreases e
  {
    match e
    case Logic(_, args) => forall i :: 0 <= i < |args| ==> ExactFilter(schema, args[i], typ)
    case In(path, _, _) =>
      var r := ResolvePath(schema, path, typ);
      r.Ok? && IsLink(r.value) ==> ExactMembership(schema, typ, r.value)
    case Exists(path, _) =>
      var r := ResolvePath(schema, path, typ);
      r.Ok? && IsLink(r.value) ==> ExactLink(schema, typ, r.value)
    case Related(path, where) =>
      var r := ResolvePath(schema, path, typ);
      r.Ok? && IsLink(r.value) ==>
        ExactLink(schema, typ, r.value) && (where.Some? ==> ExactFilter(schema, where.value, TargetOf(r.value)))
    case _ => true
  }
}
