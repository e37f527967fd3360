/** The database-independent filter language (query/ast.go, query/builder.go). */
module Query {
  import opened Common
  import opened Types

  const MAX_FILTER_DEPTH := 12
  const MAX_FILTER_NODES := 256
  const MAX_SET_VALUES := 100

  /** Where a value is stored, or which way a relation is followed. */
  datatype Path =
    | SystemPath(field: string)
    | FieldPath(field: string)
    | OutRefPath(field: string)
    | InRefPath(source: string, field: string)

  datatype CompareOp = EQ | NE | GT | GTE | LT | LTE | Contains | Prefix

  datatype LogicOp = And | Or | Not

  /** A set-producing expression: an addressed tree node with its subtree. */
  datatype Set = Subtree(address: string)

  datatype Expr =
    | Constant(value: bool)
    | Compare(cmp: CompareOp, path: Path, operand: Value)
    | Logic(op: LogicOp, args: seq<Expr>)
    | In(path: Path, values: seq<Value>, from: Option<Set>)
    | Exists(path: Path, missing: bool)
    | Related(path: Path, where: Option<Expr>)

  /** The nodes the compiler counts. */
  function Size(e: Expr): (n: nat)
    ensures n >= 1
  {
    match e
    case Logic(_, args) => 1 + Sizes(args)
    case Related(_, Some(where)) => 1 + Size(where)
    case _ => 1
  }

  function Sizes(args: seq<Expr>): (n: nat)
    ensures n >= |args|
  {
    if args == [] then 0 else Size(args[0]) + Sizes(args[1..])
  }

  /** The deepest level an expression reaches below its own. */
  function Depth(e: Expr): nat {
    match e
    case Logic(_, args) => Depths(args)
    case Related(_, Some(where)) => 1 + Depth(where)
    case _ => 0
  }

  /** One more than the deepest argument; 0 when there is none. */
  function Depths(args: seq<Expr>): nat {
    if args == [] then 0
    else
      var d, rest := 1 + Depth(args[0]), Depths(args[1..]);
      if d > rest then d else rest
  }

  /** The deepest level at which an expression holds a related, its own being 1; 0 when it holds none. */
  function RelationDepth(e: Expr): nat {
    match e
    case Logic(_, args) => RelationDepths(args)
    case Related(_, Some(where)) => if RelationDepth(where) > 0 then 1 + RelationDepth(where) else 1
    case Related(_, None) => 1
    case _ => 0
  }

  function RelationDepths(args: seq<Expr>): nat {
    if args == [] then 0
    else
      var d := if RelationDepth(args[0]) > 0 then 1 + RelationDepth(args[0]) else 0;
      var rest := RelationDepths(args[1..]);
      if d > rest then d else rest
  }

  // ---------------------------------------------------------------- query capabilities

  datatype Ops = Ops(equal: bool, ordered: bool, text: bool, sortable: bool)

  const NO_OPS := Ops(false, false, false, false)

  /** FieldQueryOps: what a field of each kind may be compared with. */
  function KindOps(k: Kind): Ops {
    match k
    case Text => Ops(true, false, true, true)
    case Textarea => Ops(true, false, true, false)
    case Richtext => Ops(false, false, true, false)
    case Number => Ops(true, true, false, true)
    case Boolean => Ops(true, false, false, true)
    case Select => Ops(true, false, false, true)
    case Timestamp => Ops(true, true, false, true)
    case Image => Ops(true, false, false, false)
    case File => Ops(true, false, false, false)
    case Slug => Ops(true, false, true, true)
    case Gallery => NO_OPS
    case Ref => NO_OPS
    case RefList => NO_OPS
    case Array => NO_OPS
    case Object => NO_OPS
  }

  const TIME_OPS := Ops(true, true, false, true)

  /** The node columns (types/system.go). */
  function ColumnOps(name: string): Option<Ops> {
    if name == "id" || name == "revision" then Some(Ops(true, true, false, true))
    else if name == "type" || name == "display" then Some(Ops(true, false, true, true))
    else if name == "created_at" || name == "updated_at" then Some(TIME_OPS)
    else if name == "fields" then Some(NO_OPS)
    else None
  }

  /** The value a column may be compared with. */
  predicate ColumnAccepts(name: string, v: Value) {
    if name == "id" || name == "revision" then ToID(v).Some? else v.Str?
  }
}
