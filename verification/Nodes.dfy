/** The nodes that the syntax analysis links together (eNODE and eNODE_l), with their serial numbers. */
module Nodes {
  import opened Expression

  datatype Node =
    | Null
    | Constant(NodeId: nat, value: Token)
    | Var(NodeId: nat, local: bool, Serial: nat)
    | Operation(NodeId: nat, OpCode: nat, Argument: List)
    | Function(NodeId: nat, name: string, Argument: List)
    | ArrayAccess(NodeId: nat, assoc: bool, Argument: List)
    | Command(NodeId: nat, OpCode: nat, parameters: Chain)

  /** What a command stores for one of its lexemes. */
  datatype Value =
    | Label(node: nat)
    | Exp(pNode: Node)
    | ExpList(pNodeList: List)
    | Text(szStringValue: string)
    | Long(lLongValue: int)
    | Double(dDoubleValue: real)

  /** The parameters of a command: the first is in the node of the command, the others in nodes of their own. */
  datatype Chain = End | Link(NodeId: nat, Argument: Value, next: Chain)

  datatype List = Nil | Cell(NodeId: nat, actualm: Node, rest: List)

  /** The bytes of a long. */
  const SIZEOF_LONG := 8

  /** How the symbol tables resolve a variable. */
  type Symbols = string -> (bool, nat)

  // ---------------------------------------------------------------- serial numbers

  function Ids(n: Node): set<nat>
    decreases n
  {
    match n
    case Null => {}
    case Constant(id, _) => {id}
    case Var(id, _, _) => {id}
    case Operation(id, _, args) => {id} + ListIds(args)
    case Function(id, _, args) => {id} + ListIds(args)
    case ArrayAccess(id, _, args) => {id} + ListIds(args)
    case Command(id, _, c) => {id} + ChainIds(c)
  }

  function ValueIds(v: Value): set<nat>
    decreases v
  {
    match v
    case Exp(n) => Ids(n)
    case ExpList(l) => ListIds(l)
    case _ => {}
  }

  function ChainIds(c: Chain): set<nat>
    decreases c
  {
    if c == End then {} else {c.NodeId} + ValueIds(c.Argument) + ChainIds(c.next)
  }

  function ListIds(l: List): set<nat>
    decreases l
  {
    if l == Nil then {} else {l.NodeId} + Ids(l.actualm) + ListIds(l.rest)
  }

  /** No two nodes have the same number. */
  predicate Distinct(n: Node)
    decreases n
  {
    match n
    case Null => true
    case Constant(_, _) => true
    case Var(_, _, _) => true
    case Operation(id, _, args) => id !in ListIds(args) && DistinctList(args)
    case Function(id, _, args) => id !in ListIds(args) && DistinctList(args)
    case ArrayAccess(id, _, args) => id !in ListIds(args) && DistinctList(args)
    case Command(id, _, c) => DistinctChain(c) && (c.Link? ==> c.NodeId == id)
  }

  predicate DistinctValue(v: Value)
    decreases v
  {
    match v
    case Exp(n) => Distinct(n)
    case ExpList(l) => DistinctList(l)
    case _ => true
  }

  predicate DistinctChain(c: Chain)
    decreases c
  {
    c.Link? ==>
      && c.NodeId !in ValueIds(c.Argument) && c.NodeId !in ChainIds(c.next) && ValueIds(c.Argument) !! ChainIds(c.next)
      && DistinctValue(c.Argument) && DistinctChain(c.next)
  }

  predicate DistinctList(l: List)
    decreases l
  {
    l.Cell? ==>
      && l.NodeId !in Ids(l.actualm) && l.NodeId !in ListIds(l.rest) && Ids(l.actualm) !! ListIds(l.rest)
      && Distinct(l.actualm) && DistinctList(l.rest)
  }

  /** The numbers are different, and among those given out while the counter went from `lo` to `hi`. */
  predicate Numbered(n: Node, lo: nat, hi: nat) {
    Distinct(n) && forall id :: id in Ids(n) ==> lo < id <= hi
  }

  predicate NumberedList(l: List, lo: nat, hi: nat) {
    DistinctList(l) && forall id :: id in ListIds(l) ==> lo < id <= hi
  }

  // ---------------------------------------------------------------- the tree that the nodes stand for

  predicate Mirrors(n: Node, e: Expr, symbols: Symbols)
    decreases n
  {
    match n
    case Null => e == Absent
    case Constant(_, value) => e == Const(value)
    case Var(_, local, serial) => e.Variable? && symbols(e.name) == (local, serial)
    case Operation(_, code, args) => e.Op? && e.OpCode == code && MirrorsList(args, e.args, symbols)
    case Function(_, name, args) => e.UserFunction? && e.name == name && MirrorsList(args, e.args, symbols)
    case ArrayAccess(_, assoc, args) => e.Array? && e.assoc == assoc && MirrorsList(args, e.args, symbols)
    case Command(_, _, _) => false
  }

  predicate MirrorsList(l: List, args: Args, symbols: Symbols)
    decreases l
  {
    match l
    case Nil => args == NoArgs
    case Cell(_, n, rest) => args.Arg? && Mirrors(n, args.actualm, symbols) && MirrorsList(rest, args.rest, symbols)
  }

  // ---------------------------------------------------------------- string sizes

  /** What the string constants need in the string table: length, characters and terminating zero. */
  function StringBytes(n: Node): nat
    decreases n
  {
    match n
    case Constant(_, StringConst(s)) => |s| + 1 + SIZEOF_LONG
    case Operation(_, _, args) => ListStringBytes(args)
    case Function(_, _, args) => ListStringBytes(args)
    case ArrayAccess(_, _, args) => ListStringBytes(args)
    case Command(_, _, c) => ChainStringBytes(c)
    case _ => 0
  }

  function ValueStringBytes(v: Value): nat
    decreases v
  {
    match v
    case Exp(n) => StringBytes(n)
    case ExpList(l) => ListStringBytes(l)
    case Text(s) => |s| + 1 + SIZEOF_LONG
    case _ => 0
  }

  function ChainStringBytes(c: Chain): nat
    decreases c
  {
    if c == End then 0 else ValueStringBytes(c.Argument) + ChainStringBytes(c.next)
  }

  function ListStringBytes(l: List): nat
    decreases l
  {
    if l == Nil then 0 else StringBytes(l.actualm) + ListStringBytes(l.rest)
  }
}
