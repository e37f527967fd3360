/**
 * The part of SQL that filters compile to: terms over named rows, three-valued predicates,
 * EXISTS and IN over a join of one edge with one node. An inner name hides an outer one.
 */
module Sql {
  import opened Common
  import opened Types
  import opened Store
  import opened Query
  import Like

  datatype Truth = True | False | Unknown

  function Not3(t: Truth): Truth {
    match t case True => False case False => True case Unknown => Unknown
  }

  function Decided(b: bool): Truth { if b then True else False }

  // ---------------------------------------------------------------- values

  /** What SQLite compares: booleans are the numbers 0 and 1. */
  datatype Scalar = AsNumber(n: real) | AsText(t: string) | Incomparable

  function ScalarOf(v: Value): Scalar {
    match v
    case Bool(b) => AsNumber(if b then 1.0 else 0.0)
    case Int(i) => AsNumber(i as real)
    case Float(r) => AsNumber(r)
    case Str(s) => AsText(s)
    case _ => Incomparable
  }

  predicate TextLess(a: string, b: string) {
    b != "" && (a == "" || a[0] < b[0] || (a[0] == b[0] && TextLess(a[1..], b[1..])))
  }

  /** Numbers come before texts. */
  predicate ScalarLess(a: Scalar, b: Scalar) {
    if a.AsNumber? && b.AsNumber? then a.n < b.n
    else if a.AsText? && b.AsText? then TextLess(a.t, b.t)
    else a.AsNumber? && b.AsText?
  }

  /** A comparison with NULL is unknown. */
  function Compare3(op: CompareOp, a: Value, b: Value): Truth {
    var (x, y) := (ScalarOf(a), ScalarOf(b));
    if x.Incomparable? || y.Incomparable? then Unknown
    else
      match op
      case EQ => Decided(x == y)
      case NE => Decided(x != y)
      case LT => Decided(ScalarLess(x, y))
      case LTE => Decided(!ScalarLess(y, x))
      case GT => Decided(ScalarLess(y, x))
      case GTE => Decided(!ScalarLess(x, y))
      case Contains => Unknown
      case Prefix => Unknown
  }

  /** a IN (values) */
  function In3(a: Value, values: seq<Value>): Truth {
    if exists i :: 0 <= i < |values| && Compare3(EQ, a, values[i]) == True then True
    else if forall i :: 0 <= i < |values| ==> Compare3(EQ, a, values[i]) == False then False
    else Unknown
  }

  function Like3(a: Value, pattern: string): Truth {
    if a.Str? then Decided(Like.LikeMatch(pattern, a.s)) else Unknown
  }

  // ---------------------------------------------------------------- syntax

  datatype Term =
    | Param(v: Value)
    | Column(row: string, name: string)
    | JsonField(row: string, name: string)
    | EdgeFrom
    | EdgeTo
    | EdgeField
    | EdgeSymmetric
    | OppositeOf(row: string)

  datatype Pred =
    | Always
    | Never
    | Cmp(op: CompareOp, left: Term, right: Term)
    | LikePattern(term: Term, pattern: string)
    | IsNull(term: Term)
    | NotNull(term: Term)
    | HasField(row: string, name: string)
    | Negation(p: Pred)
    | All(ps: seq<Pred>)
    | Any(ps: seq<Pred>)
    | InList(term: Term, values: seq<Value>)
    | InSelect(term: Term, column: Term, join: string, on: Term, where: Pred)
    | ExistsJoin(join: string, on: Term, where: Pred)

  // ---------------------------------------------------------------- evaluation

  /** When a node was written, in the one text form times are stored in. */
  datatype Stamp = Stamp(created: string, updated: string)

  /** The two time columns of the nodes, which the writes of this model do not track. */
  type Times = map<int, Stamp>

  /** What the names in scope stand for: the innermost edge row e, and node rows by alias. */
  datatype Env = Env(edge: Option<int>, rows: map<string, int>, times: Times)

  function ColumnOf(id: int, n: Node, times: Times, name: string): Value {
    if name == "id" then Int(id)
    else if name == "type" then Str(n.typ)
    else if name == "display" then Str(n.display)
    else if name == "revision" then Int(n.revision)
    else if name == "fields" then Obj(n.fields)
    else if name == "created_at" && id in times then Str(times[id].created)
    else if name == "updated_at" && id in times then Str(times[id].updated)
    else Null
  }

  function StoredValue(n: Node, name: string): Value { if name in n.fields then n.fields[name] else Null }

  function RowId(nodes: map<int, Node>, env: Env, row: string): Option<int> {
    if row in env.rows && env.rows[row] in nodes then Some(env.rows[row]) else None
  }

  function ValueIn(nodes: map<int, Node>, edges: map<int, Edge>, env: Env, t: Term): Value {
    match t
    case Param(v) => v
    case Column(row, name) =>
      (match RowId(nodes, env, row) case Some(id) => ColumnOf(id, nodes[id], env.times, name) case None => Null)
    case JsonField(row, name) =>
      (match RowId(nodes, env, row) case Some(id) => StoredValue(nodes[id], name) case None => Null)
    case EdgeFrom => if env.edge.Some? && env.edge.value in edges then Int(edges[env.edge.value].from) else Null
    case EdgeTo => if env.edge.Some? && env.edge.value in edges then Int(edges[env.edge.value].to) else Null
    case EdgeField => if env.edge.Some? && env.edge.value in edges then Str(edges[env.edge.value].field) else Null
    case EdgeSymmetric =>
      if env.edge.Some? && env.edge.value in edges then Int(if edges[env.edge.value].symmetric then 1 else 0) else Null
    case OppositeOf(row) =>
      if env.edge.Some? && env.edge.value in edges then
        var e := edges[env.edge.value];
        Int(if RowId(nodes, env, row) == Some(e.from) then e.to else e.from)
      else Null
  }

  /** The scope inside a subselect. */
  function Inner(env: Env, join: string, k: int, m: int): Env { Env(Some(k), env.rows[join := m], env.times) }

  function Eval(nodes: map<int, Node>, edges: map<int, Edge>, env: Env, p: Pred): Truth
    decreases p, 0
  {
    match p
    case Always => True
    case Never => False
    case Cmp(op, l, r) => Compare3(op, ValueIn(nodes, edges, env, l), ValueIn(nodes, edges, env, r))
    case LikePattern(t, pattern) => Like3(ValueIn(nodes, edges, env, t), pattern)
    case IsNull(t) => Decided(ValueIn(nodes, edges, env, t) == Null)
    case NotNull(t) => Decided(ValueIn(nodes, edges, env, t) != Null)
    case HasField(row, name) =>
      (match RowId(nodes, env, row) case Some(id) => Decided(name in nodes[id].fields) case None => False)
    case Negation(q) => Not3(Eval(nodes, edges, env, q))
    case All(ps) =>
      if exists i :: 0 <= i < |ps| && Eval(nodes, edges, env, ps[i]) == False then False
      else if forall i :: 0 <= i < |ps| ==> Eval(nodes, edges, env, ps[i]) == True then True
      else Unknown
    case Any(ps) =>
      if exists i :: 0 <= i < |ps| && Eval(nodes, edges, env, ps[i]) == True then True
      else if forall i :: 0 <= i < |ps| ==> Eval(nodes, edges, env, ps[i]) == False then False
      else Unknown
    case InList(t, values) => In3(ValueIn(nodes, edges, env, t), values)
    case InSelect(t, column, join, on, where) =>
      var v := ValueIn(nodes, edges, env, t);
      if exists k, m :: k in edges && m in nodes && Joined(nodes, edges, Inner(env, join, k, m), m, on, where)
                        && Compare3(EQ, v, ValueIn(nodes, edges, Inner(env, join, k, m), column)) == True
      then True
      else if exists k, m :: k in edges && m in nodes && Joined(nodes, edges, Inner(env, join, k, m), m, on, where)
                             && Compare3(EQ, v, ValueIn(nodes, edges, Inner(env, join, k, m), column)) == Unknown
      then Unknown
      else False
    case ExistsJoin(join, on, where) =>
      Decided(exists k, m :: k in edges && m in nodes && Joined(nodes, edges, Inner(env, join, k, m), m, on, where))
  }

  /** The joined row passes: the node's id equals the ON term and the WHERE part is true. */
  predicate Joined(nodes: map<int, Node>, edges: map<int, Edge>, env: Env, m: int, on: Term, where: Pred)
    decreases where, 1
  {
    ValueIn(nodes, edges, env, on) == Int(m) && Eval(nodes, edges, env, where) == True
  }
}
