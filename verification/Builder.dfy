/** The code builder (builder.c): the linked nodes become an array that is indexed by their numbers, and the
    string constants become offsets into the string table. */
module Builder {
  import opened Expression
  import opened Nodes
  import opened Strings

  const NTYPE_ARR := 1
  const NTYPE_SAR := 2
  const NTYPE_FUN := 3
  const NTYPE_LVR := 4
  const NTYPE_GVR := 5
  const NTYPE_DBL := 6
  const NTYPE_LNG := 7
  const NTYPE_STR := 8
  const NTYPE_LST := 9
  const NTYPE_CRG := 10

  /** The union in a command argument. */
  datatype ArgumentUnion = NoArgument | PNode(pNode: nat) | LongValue(n: int) | DoubleValue(d: real) | StringValue(sz: nat)

  /** The union of the parameters. */
  datatype Parameters =
    | Unset
    | Arguments(Argument: nat)
    | DoubleConstant(dValue: real)
    | LongConstant(lValue: int)
    | StringConstant(sValue: nat)
    | VariableSerial(Serial: nat)
    | FunctionCall(entry: nat, Argument: nat)
    | NodeList(actualm: nat, rest: nat)
    | CommandArgument(next: nat, value: ArgumentUnion)

  datatype CNode = CNode(OpCode: nat, Parameter: Parameters)

  /** What a lex of a command's syntax generates. */
  datatype Kind = KNothing | KLabel | KExp | KExpList | KText | KLong | KDouble

  /** What the builder knows of the program: the node where a user function starts, or 0, and the syntax of
      the commands. */
  datatype Program = Program(entry: string -> nat, lexes: nat -> seq<Kind>)

  // ---------------------------------------------------------------- nodes that can be built

  function KindOf(v: Value): Kind {
    match v
    case Label(_) => KLabel
    case Exp(_) => KExp
    case ExpList(_) => KExpList
    case Text(_) => KText
    case Long(_) => KLong
    case Double(_) => KDouble
  }

  function Kinds(c: Chain): seq<Kind> {
    if c == End then [] else [KindOf(c.Argument)] + Kinds(c.next)
  }

  function Generating(lexes: seq<Kind>): seq<Kind> {
    if lexes == [] then [] else (if lexes[0] == KNothing then [] else [lexes[0]]) + Generating(lexes[1..])
  }

  /** The codes of operators, functions and commands are above those of the other nodes; a command has the
      parameters that its syntax generates; lists of expressions and operands are not missing. */
  predicate Buildable(n: Node, pr: Program)
    decreases n
  {
    match n
    case Null => true
    case Constant(_, t) => IsConstant(t) && (t.StringConst? ==> IsShort(t.s))
    case Var(_, _, _) => true
    case Operation(_, code, args) => code > NTYPE_CRG && pr.lexes(code) == [] && BuildableList(args, pr)
    case Function(_, _, args) => BuildableList(args, pr)
    case ArrayAccess(_, _, args) => args.Cell? && BuildableList(args, pr)
    case Command(id, code, c) =>
      && code > NTYPE_CRG && pr.lexes(code) != [] && BuildableChain(c, pr) && Generating(pr.lexes(code)) == Kinds(c)
      && (c.Link? ==> c.NodeId == id)
  }

  predicate BuildableList(l: List, pr: Program)
    decreases l
  {
    l.Cell? ==> Buildable(l.actualm, pr) && BuildableList(l.rest, pr)
  }

  predicate BuildableValue(v: Value, pr: Program)
    decreases v
  {
    match v
    case Exp(n) => n != Null && Buildable(n, pr)
    case ExpList(l) => l != Nil && BuildableList(l, pr)
    case Text(s) => IsShort(s)
    case _ => true
  }

  predicate BuildableChain(c: Chain, pr: Program)
    decreases c
  {
    c.Link? ==> BuildableValue(c.Argument, pr) && BuildableChain(c.next, pr)
  }

  // ---------------------------------------------------------------- functions that are not defined

  /** The number of calls of user functions that start nowhere. */
  function Undefined(n: Node, pr: Program): nat
    decreases n
  {
    match n
    case Operation(_, _, args) => UndefinedInList(args, pr)
    case Function(_, name, args) => (if pr.entry(name) == 0 then 1 else 0) + UndefinedInList(args, pr)
    case ArrayAccess(_, _, args) => UndefinedInList(args, pr)
    case Command(_, _, c) => UndefinedInChain(c, pr)
    case _ => 0
  }

  function UndefinedInList(l: List, pr: Program): nat
    decreases l
  {
    if l == Nil then 0 else Undefined(l.actualm, pr) + UndefinedInList(l.rest, pr)
  }

  function UndefinedInValue(v: Value, pr: Program): nat
    decreases v
  {
    match v
    case Exp(n) => Undefined(n, pr)
    case ExpList(l) => UndefinedInList(l, pr)
    case _ => 0
  }

  function UndefinedInChain(c: Chain, pr: Program): nat
    decreases c
  {
    if c == End then 0 else UndefinedInValue(c.Argument, pr) + UndefinedInChain(c.next, pr)
  }

  // ---------------------------------------------------------------- what the array holds

  function IdOf(n: Node): nat {
    if n == Null then 0 else n.NodeId
  }

  function HeadId(l: List): nat {
    if l == Nil then 0 else l.NodeId
  }

  function ChainId(c: Chain): nat {
    if c == End then 0 else c.NodeId
  }

  /** The offset of a string that is in the table. */
  predicate Denotes(items: seq<string>, at: nat, s: string) {
    s in items && at == Offset(items, s)
  }

  /** What is stored for the value `v`. */
  predicate Holds(items: seq<string>, u: ArgumentUnion, v: Value) {
    match v
    case Label(node) => u == PNode(node)
    case Exp(n) => u == PNode(IdOf(n))
    case ExpList(l) => u == PNode(HeadId(l))
    case Text(s) => u.StringValue? && Denotes(items, u.sz, s)
    case Long(k) => u == LongValue(k)
    case Double(d) => u == DoubleValue(d)
  }

  /** What is stored in the place of the node `n`. */
  predicate Fits(items: seq<string>, pr: Program, c: CNode, n: Node) {
    match n
    case Null => false
    case Constant(_, LongConst(k)) => c == CNode(NTYPE_LNG, LongConstant(k))
    case Constant(_, DoubleConst(d)) => c == CNode(NTYPE_DBL, DoubleConstant(d))
    case Constant(_, StringConst(s)) => c.OpCode == NTYPE_STR && c.Parameter.StringConstant? && Denotes(items, c.Parameter.sValue, s)
    case Constant(_, _) => false
    case Var(_, local, serial) => c == CNode(if local then NTYPE_LVR else NTYPE_GVR, VariableSerial(serial))
    case Operation(_, code, args) => c == CNode(code, Arguments(HeadId(args)))
    case Function(_, name, args) => c == CNode(NTYPE_FUN, FunctionCall(pr.entry(name), HeadId(args)))
    case ArrayAccess(_, assoc, args) => c == CNode(if assoc then NTYPE_SAR else NTYPE_ARR, Arguments(HeadId(args)))
    case Command(_, code, _) => c.OpCode == code
  }

  predicate FitsArgument(items: seq<string>, c: CNode, v: Value, next: Chain) {
    c.Parameter.CommandArgument? && c.Parameter.next == ChainId(next) && Holds(items, c.Parameter.value, v)
  }

  predicate FitsCell(c: CNode, l: List)
    requires l.Cell?
  {
    c == CNode(NTYPE_LST, NodeList(IdOf(l.actualm), HeadId(l.rest)))
  }

  /** The array holds the tree `n` in the places of its numbers. */
  predicate Encodes(a: seq<CNode>, items: seq<string>, pr: Program, n: Node)
    decreases n
  {
    n != Null ==>
      && 1 <= n.NodeId <= |a| && Fits(items, pr, a[n.NodeId - 1], n)
      && match n
         case Operation(_, _, args) => EncodesList(a, items, pr, args)
         case Function(_, _, args) => EncodesList(a, items, pr, args)
         case ArrayAccess(_, _, args) => EncodesList(a, items, pr, args)
         case Command(_, _, c) => EncodesChain(a, items, pr, c)
         case _ => true
  }

  predicate EncodesList(a: seq<CNode>, items: seq<string>, pr: Program, l: List)
    decreases l
  {
    l.Cell? ==>
      && 1 <= l.NodeId <= |a| && FitsCell(a[l.NodeId - 1], l)
      && Encodes(a, items, pr, l.actualm) && EncodesList(a, items, pr, l.rest)
  }

  predicate EncodesValue(a: seq<CNode>, items: seq<string>, pr: Program, v: Value)
    decreases v
  {
    match v
    case Exp(n) => Encodes(a, items, pr, n)
    case ExpList(l) => EncodesList(a, items, pr, l)
    case _ => true
  }

  /** The parameter is stored in its node, and the next parameter's node is marked as one. */
  predicate FitsLink(a: seq<CNode>, items: seq<string>, c: Chain)
    requires c.Link?
  {
    && 1 <= c.NodeId <= |a| && FitsArgument(items, a[c.NodeId - 1], c.Argument, c.next)
    && (c.next.Link? ==> 1 <= c.next.NodeId <= |a| && a[c.next.NodeId - 1].OpCode == NTYPE_CRG)
  }

  predicate EncodesChain(a: seq<CNode>, items: seq<string>, pr: Program, c: Chain)
    decreases c
  {
    c.Link? ==> FitsLink(a, items, c) && EncodesValue(a, items, pr, c.Argument) && EncodesChain(a, items, pr, c.next)
  }

  // ---------------------------------------------------------------- what does not change

  /** The array changes only in the places of `ids`, and strings are only added. */
  ghost predicate Grows(a: seq<CNode>, items: seq<string>, a': seq<CNode>, items': seq<string>, ids: set<nat>) {
    && |a'| == |a| && (forall k :: 0 <= k < |a| && k + 1 !in ids ==> a'[k] == a[k])
    && |items| <= |items'| && items == items'[..|items|]
  }

  lemma DenotesStays(items: seq<string>, items': seq<string>, at: nat, s: string)
    requires Denotes(items, at, s) && |items| <= |items'| && items == items'[..|items|]
    ensures Denotes(items', at, s)
  {
    assert items' == items + items'[|items|..];
    OffsetStays(items, items'[|items|..], s);
  }

  lemma FitsStays(items: seq<string>, items': seq<string>, pr: Program, c: CNode, n: Node)
    requires Fits(items, pr, c, n) && |items| <= |items'| && items == items'[..|items|]
    ensures Fits(items', pr, c, n)
  {
    match n
    case Constant(_, StringConst(s)) => DenotesStays(items, items', c.Parameter.sValue, s);
    case _ =>
  }

  lemma {:induction false} EncodesStays(a: seq<CNode>, items: seq<string>, a': seq<CNode>, items': seq<string>, ids: set<nat>, pr: Program, n: Node)
    requires Encodes(a, items, pr, n) && Grows(a, items, a', items', ids) && Ids(n) !! ids
    ensures Encodes(a', items', pr, n)
    decreases n
  {
    if n != Null {
      assert n.NodeId in Ids(n);
      FitsStays(items, items', pr, a[n.NodeId - 1], n);
      match n {
        case Operation(_, _, args) => ListStays(a, items, a', items', ids, pr, args);
        case Function(_, _, args) => ListStays(a, items, a', items', ids, pr, args);
        case ArrayAccess(_, _, args) => ListStays(a, items, a', items', ids, pr, args);
        case Command(_, _, c) => ChainStays(a, items, a', items', ids, pr, c);
        case _ =>
      }
    }
  }

  lemma {:induction false} ListStays(a: seq<CNode>, items: seq<string>, a': seq<CNode>, items': seq<string>, ids: set<nat>, pr: Program, l: List)
    requires EncodesList(a, items, pr, l) && Grows(a, items, a', items', ids) && ListIds(l) !! ids
    ensures EncodesList(a', items', pr, l)
    decreases l
  {
    if l.Cell? {
      EncodesStays(a, items, a', items', ids, pr, l.actualm);
      ListStays(a, items, a', items', ids, pr, l.rest);
    }
  }

  lemma {:induction false} ValueStays(a: seq<CNode>, items: seq<string>, a': seq<CNode>, items': seq<string>, ids: set<nat>, pr: Program, v: Value)
    requires EncodesValue(a, items, pr, v) && Grows(a, items, a', items', ids) && ValueIds(v) !! ids
    ensures EncodesValue(a', items', pr, v)
    decreases v
  {
    match v
    case Exp(n) => EncodesStays(a, items, a', items', ids, pr, n);
    case ExpList(l) => ListStays(a, items, a', items', ids, pr, l);
    case _ =>
  }

  lemma {:induction false} ChainStays(a: seq<CNode>, items: seq<string>, a': seq<CNode>, items': seq<string>, ids: set<nat>, pr: Program, c: Chain)
    requires EncodesChain(a, items, pr, c) && Grows(a, items, a', items', ids) && ChainIds(c) !! ids
    ensures EncodesChain(a', items', pr, c)
    decreases c
  {
    if c.Link? {
      if c.Argument.Text? {
        DenotesStays(items, items', a[c.NodeId - 1].Parameter.value.sz, c.Argument.szStringValue);
      }
      ValueStays(a, items, a', items', ids, pr, c.Argument);
      ChainStays(a, items, a', items', ids, pr, c.next);
    }
  }

  // ---------------------------------------------------------------- the array determines the tree

  /** The same tree, but for the names of user functions that start at the same node. */
  predicate Alike(n: Node, n': Node, pr: Program)
    decreases n
  {
    match n
    case Operation(id, code, args) => n'.Operation? && n'.NodeId == id && n'.OpCode == code && AlikeList(args, n'.Argument, pr)
    case Function(id, name, args) => n'.Function? && n'.NodeId == id && pr.entry(n'.name) == pr.entry(name) && AlikeList(args, n'.Argument, pr)
    case ArrayAccess(id, assoc, args) => n'.ArrayAccess? && n'.NodeId == id && n'.assoc == assoc && AlikeList(args, n'.Argument, pr)
    case Command(id, code, c) => n'.Command? && n'.NodeId == id && n'.OpCode == code && AlikeChain(c, n'.parameters, pr)
    case _ => n' == n
  }

  predicate AlikeList(l: List, l': List, pr: Program)
    decreases l
  {
    if l == Nil then l' == Nil else l'.Cell? && l'.NodeId == l.NodeId && Alike(l.actualm, l'.actualm, pr) && AlikeList(l.rest, l'.rest, pr)
  }

  predicate AlikeValue(v: Value, v': Value, pr: Program)
    decreases v
  {
    match v
    case Exp(n) => v'.Exp? && Alike(n, v'.pNode, pr)
    case ExpList(l) => v'.ExpList? && AlikeList(l, v'.pNodeList, pr)
    case _ => v' == v
  }

  predicate AlikeChain(c: Chain, c': Chain, pr: Program)
    decreases c
  {
    if c == End then c' == End
    else c'.Link? && c'.NodeId == c.NodeId && AlikeValue(c.Argument, c'.Argument, pr) && AlikeChain(c.next, c'.next, pr)
  }

  predicate AllShort(items: seq<string>) {
    forall s :: s in items ==> IsShort(s)
  }

  /** Two trees that the array holds in the place of the same number are alike: the array can be decoded. */
  lemma {:induction false} EncodesIsUnique(a: seq<CNode>, items: seq<string>, pr: Program, n: Node, n': Node)
    requires Encodes(a, items, pr, n) && Encodes(a, items, pr, n') && IdOf(n) == IdOf(n')
    requires Buildable(n, pr) && Buildable(n', pr) && AllShort(items)
    ensures Alike(n, n', pr)
    decreases n
  {
    match n
    case Constant(_, StringConst(s)) => OffsetsDiffer(items, s, n'.value.s);
    case Operation(_, _, args) => ListIsUnique(a, items, pr, args, n'.Argument);
    case Function(_, _, args) => ListIsUnique(a, items, pr, args, n'.Argument);
    case ArrayAccess(_, _, args) => ListIsUnique(a, items, pr, args, n'.Argument);
    case Command(_, _, c) =>
      assert n'.Command? && n'.OpCode == n.OpCode;
      ChainIsUnique(a, items, pr, c, n'.parameters);
    case _ =>
  }

  lemma {:induction false} ListIsUnique(a: seq<CNode>, items: seq<string>, pr: Program, l: List, l': List)
    requires EncodesList(a, items, pr, l) && EncodesList(a, items, pr, l') && HeadId(l) == HeadId(l')
    requires BuildableList(l, pr) && BuildableList(l', pr) && AllShort(items)
    ensures AlikeList(l, l', pr)
    decreases l
  {
    if l.Cell? {
      EncodesIsUnique(a, items, pr, l.actualm, l'.actualm);
      ListIsUnique(a, items, pr, l.rest, l'.rest);
    }
  }

  lemma {:induction false} ValueIsUnique(a: seq<CNode>, items: seq<string>, pr: Program, c: CNode, v: Value, next: Chain, v': Value, next': Chain)
    requires FitsArgument(items, c, v, next) && FitsArgument(items, c, v', next') && KindOf(v) == KindOf(v')
    requires EncodesValue(a, items, pr, v) && EncodesValue(a, items, pr, v')
    requires BuildableValue(v, pr) && BuildableValue(v', pr) && AllShort(items)
    ensures AlikeValue(v, v', pr)
    decreases v
  {
    match v
    case Exp(n) => EncodesIsUnique(a, items, pr, n, v'.pNode);
    case ExpList(l) => ListIsUnique(a, items, pr, l, v'.pNodeList);
    case Text(s) => OffsetsDiffer(items, s, v'.szStringValue);
    case _ =>
  }

  lemma {:induction false} ChainIsUnique(a: seq<CNode>, items: seq<string>, pr: Program, c: Chain, c': Chain)
    requires EncodesChain(a, items, pr, c) && EncodesChain(a, items, pr, c') && (c.Link? && c'.Link? ==> c.NodeId == c'.NodeId)
    requires BuildableChain(c, pr) && BuildableChain(c', pr) && AllShort(items) && Kinds(c) == Kinds(c')
    ensures AlikeChain(c, c', pr)
    decreases c
  {
    if c.Link? {
      assert Kinds(c)[0] == KindOf(c.Argument) && Kinds(c')[0] == KindOf(c'.Argument);
      assert Kinds(c)[1..] == Kinds(c.next) && Kinds(c')[1..] == Kinds(c'.next);
      ValueIsUnique(a, items, pr, a[c.NodeId - 1], c.Argument, c.next, c'.Argument, c'.next);
      ChainIsUnique(a, items, pr, c.next, c'.next);
    }
  }

  // ---------------------------------------------------------------- building

  /** The first cells of `l0`, up to its tail `l`, are in the array. */
  predicate EncodesUpTo(a: seq<CNode>, items: seq<string>, pr: Program, l0: List, l: List)
    decreases l0
  {
    l0 == l ||
      (l0.Cell? && 1 <= l0.NodeId <= |a| && FitsCell(a[l0.NodeId - 1], l0)
       && Encodes(a, items, pr, l0.actualm) && EncodesUpTo(a, items, pr, l0.rest, l))
  }

  /** `l` is a tail of `l0`. */
  predicate IsTail(l0: List, l: List)
    decreases l0
  {
    l0 == l || (l0.Cell? && IsTail(l0.rest, l))
  }

  lemma {:induction false} TailFacts(l0: List, l: List, pr: Program)
    requires IsTail(l0, l) && DistinctList(l0) && BuildableList(l0, pr)
    ensures DistinctList(l) && BuildableList(l, pr) && ListIds(l) <= ListIds(l0) && ListStringBytes(l) <= ListStringBytes(l0)
    decreases l0
  {
    if l0 != l {
      TailFacts(l0.rest, l, pr);
    }
  }

  lemma {:induction false} TailOfTail(l0: List, l: List)
    requires IsTail(l0, l) && l.Cell?
    ensures IsTail(l0, l.rest)
    decreases l0
  {
    if l0 != l {
      TailOfTail(l0.rest, l);
    } else {
      assert IsTail(l.rest, l.rest);
    }
  }

  /** Storing the cell `l` and what it refers to extends what is in the array. */
  lemma {:induction false} UpToStep(a: seq<CNode>, items: seq<string>, a': seq<CNode>, items': seq<string>, pr: Program, l0: List, l: List)
    requires EncodesUpTo(a, items, pr, l0, l) && IsTail(l0, l) && l.Cell? && DistinctList(l0) && BuildableList(l0, pr)
    requires Grows(a, items, a', items', {l.NodeId} + Ids(l.actualm))
    requires 1 <= l.NodeId <= |a'| && FitsCell(a'[l.NodeId - 1], l) && Encodes(a', items', pr, l.actualm)
    ensures EncodesUpTo(a', items', pr, l0, l.rest)
    decreases l0
  {
    if l0 == l {
      assert EncodesUpTo(a', items', pr, l.rest, l.rest);
    } else {
      TailFacts(l0.rest, l, pr);
      EncodesStays(a, items, a', items', {l.NodeId} + Ids(l.actualm), pr, l0.actualm);
      UpToStep(a, items, a', items', pr, l0.rest, l);
    }
  }

  lemma {:induction false} UpToEnd(a: seq<CNode>, items: seq<string>, pr: Program, l0: List)
    requires EncodesUpTo(a, items, pr, l0, Nil)
    ensures EncodesList(a, items, pr, l0)
    decreases l0
  {
    if l0.Cell? {
      UpToEnd(a, items, pr, l0.rest);
    }
  }

  lemma GrowsTwice(a: seq<CNode>, items: seq<string>, a1: seq<CNode>, items1: seq<string>, a2: seq<CNode>, items2: seq<string>,
                   ids1: set<nat>, ids2: set<nat>, ids: set<nat>)
    requires Grows(a, items, a1, items1, ids1) && Grows(a1, items1, a2, items2, ids2) && ids1 <= ids && ids2 <= ids
    ensures Grows(a, items, a2, items2, ids)
  {
    assert items2[..|items|] == items2[..|items1|][..|items|];
  }

  /** The parameters of `c0` up to its tail `c` are in the array. */
  predicate EncodesChainUpTo(a: seq<CNode>, items: seq<string>, pr: Program, c0: Chain, c: Chain)
    decreases c0
  {
    c0 == c ||
      (c0.Link? && FitsLink(a, items, c0) && EncodesValue(a, items, pr, c0.Argument) && EncodesChainUpTo(a, items, pr, c0.next, c))
  }

  predicate IsChainTail(c0: Chain, c: Chain)
    decreases c0
  {
    c0 == c || (c0.Link? && IsChainTail(c0.next, c))
  }

  /** The nodes that are written for the parameter `c`. */
  function LinkIds(c: Chain): set<nat>
    requires c.Link?
  {
    {c.NodeId} + ValueIds(c.Argument) + (if c.next.Link? then {c.next.NodeId} else {})
  }

  lemma {:induction false} ChainTailFacts(c0: Chain, c: Chain, pr: Program)
    requires IsChainTail(c0, c) && DistinctChain(c0) && BuildableChain(c0, pr)
    ensures DistinctChain(c) && BuildableChain(c, pr) && ChainIds(c) <= ChainIds(c0)
    ensures c.Link? ==> LinkIds(c) <= ChainIds(c)
    decreases c0
  {
    if c0 != c {
      ChainTailFacts(c0.next, c, pr);
    }
  }

  lemma {:induction false} ChainTailOfTail(c0: Chain, c: Chain)
    requires IsChainTail(c0, c) && c.Link?
    ensures IsChainTail(c0, c.next)
    decreases c0
  {
    if c0 != c {
      ChainTailOfTail(c0.next, c);
    } else {
      assert IsChainTail(c.next, c.next);
    }
  }

  lemma LinkStays(a: seq<CNode>, items: seq<string>, a': seq<CNode>, items': seq<string>, c: Chain)
    requires c.Link? && FitsLink(a, items, c) && |a'| == |a| && |items| <= |items'| && items == items'[..|items|]
    requires a'[c.NodeId - 1] == a[c.NodeId - 1] && (c.next.Link? ==> a'[c.next.NodeId - 1].OpCode == a[c.next.NodeId - 1].OpCode)
    ensures FitsLink(a', items', c)
  {
    if c.Argument.Text? {
      DenotesStays(items, items', a[c.NodeId - 1].Parameter.value.sz, c.Argument.szStringValue);
    }
  }

  lemma {:induction false} ChainUpToStep(a: seq<CNode>, items: seq<string>, a': seq<CNode>, items': seq<string>, pr: Program, c0: Chain, c: Chain)
    requires EncodesChainUpTo(a, items, pr, c0, c) && IsChainTail(c0, c) && c.Link? && DistinctChain(c0) && BuildableChain(c0, pr)
    requires Grows(a, items, a', items', LinkIds(c)) && 1 <= c.NodeId <= |a| && a'[c.NodeId - 1].OpCode == a[c.NodeId - 1].OpCode
    requires FitsLink(a', items', c) && EncodesValue(a', items', pr, c.Argument)
    ensures EncodesChainUpTo(a', items', pr, c0, c.next)
    decreases c0
  {
    if c0 == c {
      assert EncodesChainUpTo(a', items', pr, c.next, c.next);
    } else {
      ChainTailFacts(c0.next, c, pr);
      assert c0.NodeId !in LinkIds(c) && ValueIds(c0.Argument) !! LinkIds(c);
      LinkStays(a, items, a', items', c0) by {
        NextStays(c0, c);
      }
      ValueStays(a, items, a', items', LinkIds(c), pr, c0.Argument);
      ChainUpToStep(a, items, a', items', pr, c0.next, c);
    }
  }

  /** The node behind `c0` is the node of `c`, or none that is written for `c`. */
  lemma NextStays(c0: Chain, c: Chain)
    requires c0.Link? && IsChainTail(c0.next, c) && c.Link? && DistinctChain(c0)
    ensures c0.next.Link? && (c0.next == c || c0.next.NodeId !in LinkIds(c))
  {
    if c0.next != c {
      LinkIdsOfTail(c0.next.next, c);
    }
  }

  lemma {:induction false} LinkIdsOfTail(c0: Chain, c: Chain)
    requires IsChainTail(c0, c) && c.Link?
    ensures LinkIds(c) <= ChainIds(c0)
    decreases c0
  {
    if c0 != c {
      LinkIdsOfTail(c0.next, c);
    }
  }

  lemma {:induction false} ChainTailIsSmaller(c0: Chain, c: Chain)
    requires IsChainTail(c0, c) && c.Link?
    ensures c == c0 || c < c0
    decreases c0
  {
    if c0 != c {
      ChainTailIsSmaller(c0.next, c);
    }
  }

  lemma {:induction false} ChainUpToEnd(a: seq<CNode>, items: seq<string>, pr: Program, c0: Chain)
    requires EncodesChainUpTo(a, items, pr, c0, End)
    ensures EncodesChain(a, items, pr, c0)
    decreases c0
  {
    if c0.Link? {
      ChainUpToEnd(a, items, pr, c0.next);
    }
  }

  class BuildObject {
    const pr: Program
    const CommandArray: array<CNode>
    const StringTable: array<char>
    var cbCollectedStrings: nat
    var iErrorCounter: nat
    /** The strings in the table, in order. */
    ghost var items: seq<string>

    ghost predicate Valid()
      reads `cbCollectedStrings, `items, StringTable
    {
      && cbCollectedStrings <= StringTable.Length && StringTable[..cbCollectedStrings] == Pack(items)
      && AllShort(items) && forall i, j :: 0 <= i < j < |items| ==> items[i] != items[j]
    }

    /** build_Build allocates the array and the string table of the sizes that the syntax analysis counted. */
    constructor (pr: Program, NodeCounter: nat, cbStringTable: nat)
      ensures Valid() && items == [] && cbCollectedStrings == 0 && iErrorCounter == 0 && this.pr == pr
      ensures CommandArray.Length == NodeCounter && StringTable.Length == (if cbStringTable == 0 then 1 else cbStringTable)
      ensures fresh(CommandArray) && fresh(StringTable)
    {
      this.pr := pr;
      CommandArray := new CNode[NodeCounter](_ => CNode(0, Unset));
      StringTable := new char[if cbStringTable == 0 then 1 else cbStringTable];
      cbCollectedStrings, iErrorCounter, items := 0, 0, [];
    }

    /** memcpy into the string table. */
    method CopyIn(at: nat, s: string)
      requires at + |s| <= StringTable.Length
      modifies StringTable
      ensures StringTable[at..at + |s|] == s && StringTable[..at] == old(StringTable[..at])
    {
      for i := 0 to |s|
        invariant StringTable[at..at + i] == s[..i] && StringTable[..at] == old(StringTable[..at])
      {
        StringTable[at + i] := s[i];
      }
    }

    /** The loop of build_StringIndex: the offset of the string if it is in the table already. */
    method FindString(s: string) returns (found: bool, ulIndex: nat)
      requires Valid() && IsShort(s)
      ensures found <==> s in items
      ensures found ==> ulIndex == Offset(items, s)
    {
      ulIndex := 0;
      ghost var k := 0;
      while ulIndex < cbCollectedStrings
        invariant 0 <= k <= |items| && ulIndex == |Pack(items[..k])| && (forall j :: 0 <= j < k ==> items[j] != s)
        invariant ulIndex <= cbCollectedStrings && (ulIndex == cbCollectedStrings <==> k == |items|)
        decreases cbCollectedStrings - ulIndex
      {
        ItemInTable(k);
        var lLen := Number(StringTable[ulIndex..ulIndex + SIZEOF_LONG]);
        ulIndex := ulIndex + SIZEOF_LONG;
        if |s| == lLen && StringTable[ulIndex..ulIndex + lLen] == s {
          OffsetAt(items, k);
          return true, ulIndex;
        }
        ulIndex := ulIndex + lLen + 1;
        k := k + 1;
      }
      found := false;
    }

    lemma ItemInTable(k: nat)
      requires Valid() && k < |items|
      ensures var at, n := |Pack(items[..k])|, |items[k]|;
        && at + SIZEOF_LONG + n + 1 <= cbCollectedStrings
        && Number(StringTable[at..at + SIZEOF_LONG]) == n && StringTable[at + SIZEOF_LONG..at + SIZEOF_LONG + n] == items[k]
        && |Pack(items[..k + 1])| == at + SIZEOF_LONG + n + 1
        && (at + SIZEOF_LONG + n + 1 == cbCollectedStrings <==> k + 1 == |items|)
    {
      var table, s, before, behind := StringTable[..cbCollectedStrings], items[k], Pack(items[..k]), Pack(items[k + 1..]);
      PackAt(items, k);
      PackNext(items, k);
      ItemSlices(s, before, behind);
      var at := |before|;
      assert table[at..at + SIZEOF_LONG] == StringTable[at..at + SIZEOF_LONG];
      assert table[at + SIZEOF_LONG..at + SIZEOF_LONG + |s|] == StringTable[at + SIZEOF_LONG..at + SIZEOF_LONG + |s|];
    }

    /** build_StringIndex; the program ends when the guard finds no room, which is shown by `ok`. The guard
        leaves the length out, so a caller must see to it that there is room for that too. */
    method StringIndex(s: string) returns (ok: bool, ulIndex: nat)
      requires Valid() && IsShort(s)
      requires s in items || |s| + 1 + cbCollectedStrings > StringTable.Length
               || cbCollectedStrings + |Item(s)| <= StringTable.Length
      modifies StringTable, `cbCollectedStrings, `items
      ensures Valid() && (ok <==> s in old(items) || |s| + 1 + old(cbCollectedStrings) <= StringTable.Length)
      ensures ok ==> Denotes(items, ulIndex, s)
      ensures items == if s in old(items) || !ok then old(items) else old(items) + [s]
      ensures cbCollectedStrings == old(cbCollectedStrings) + if s in old(items) || !ok then 0 else |Item(s)|
      ensures StringTable[..old(cbCollectedStrings)] == old(StringTable[..cbCollectedStrings])
    {
      var found;
      found, ulIndex := FindString(s);
      if found {
        return true, ulIndex;
      }
      if |s| + 1 + cbCollectedStrings > StringTable.Length {
        return false, 0;
      }
      var was := cbCollectedStrings;
      CopyIn(cbCollectedStrings, LongBytes(|s|) + (s + [ZCHAR]));
      ulIndex := cbCollectedStrings + SIZEOF_LONG;
      cbCollectedStrings := cbCollectedStrings + |s| + SIZEOF_LONG + 1;
      PackSnoc(items, s);
      assert StringTable[..cbCollectedStrings] == StringTable[..was] + StringTable[was..cbCollectedStrings];
      items := items + [s];
      OffsetAt(items, |items| - 1);
      assert items[..|items| - 1] == old(items);
      ok := true;
    }

    /** Storing the parameter of a node. */
    method Put(id: nat, c: CNode)
      requires 1 <= id <= CommandArray.Length
      modifies CommandArray
      ensures Grows(old(CommandArray[..]), items, CommandArray[..], items, {id}) && CommandArray[id - 1] == c
    {
      CommandArray[id - 1] := c;
    }

    ghost predicate Room(ids: set<nat>, bytes: nat)
      reads `cbCollectedStrings
    {
      (forall id :: id in ids ==> 1 <= id <= CommandArray.Length) && cbCollectedStrings + bytes <= StringTable.Length
    }

    /** A string constant is put in the table. */
    method BuildString(s: string) returns (sValue: nat)
      requires Valid() && IsShort(s) && Room({}, |Item(s)|)
      modifies StringTable, `cbCollectedStrings, `items
      ensures Valid() && Denotes(items, sValue, s) && cbCollectedStrings <= old(cbCollectedStrings) + |Item(s)|
      ensures |old(items)| <= |items| && old(items) == items[..|old(items)|]
    {
      var ok;
      ok, sValue := StringIndex(s);
      assert ok;
    }

    /** build_Build_r; each call of a function that is not defined is an error. */
    method BuildNode(n: Node)
      requires Valid() && Distinct(n) && Buildable(n, pr) && Room(Ids(n), StringBytes(n))
      modifies CommandArray, StringTable, `cbCollectedStrings, `items, `iErrorCounter
      ensures Valid() && Encodes(CommandArray[..], items, pr, n)
      ensures Grows(old(CommandArray[..]), old(items), CommandArray[..], items, Ids(n))
      ensures cbCollectedStrings <= old(cbCollectedStrings) + StringBytes(n)
      ensures iErrorCounter == old(iErrorCounter) + Undefined(n, pr)
      decreases n, 1
    {
      match n {
        case Null =>
        case Constant(id, LongConst(k)) => Put(id, CNode(NTYPE_LNG, LongConstant(k)));
        case Constant(id, DoubleConst(d)) => Put(id, CNode(NTYPE_DBL, DoubleConstant(d)));
        case Constant(id, StringConst(s)) =>
          var sValue := BuildString(s);
          Put(id, CNode(NTYPE_STR, Parameters.StringConstant(sValue)));
        case Var(id, local, serial) => Put(id, CNode(if local then NTYPE_LVR else NTYPE_GVR, VariableSerial(serial)));
        case Operation(id, code, args) => BuildWithArguments(n, CNode(code, Arguments(HeadId(args))), args);
        case Function(id, name, args) =>
          if pr.entry(name) == 0 {
            iErrorCounter := iErrorCounter + 1;
          }
          BuildWithArguments(n, CNode(NTYPE_FUN, FunctionCall(pr.entry(name), HeadId(args))), args);
        case ArrayAccess(id, assoc, args) =>
          BuildWithArguments(n, CNode(if assoc then NTYPE_SAR else NTYPE_ARR, Arguments(HeadId(args))), args);
        case Command(_, _, _) => BuildCommand(n);
      }
    }

    method BuildWithArguments(n: Node, c: CNode, args: List)
      requires Valid() && Distinct(n) && Buildable(n, pr) && Room(Ids(n), StringBytes(n))
      requires (n.Operation? || n.Function? || n.ArrayAccess?) && args == n.Argument && Fits(items, pr, c, n)
      modifies CommandArray, StringTable, `cbCollectedStrings, `items, `iErrorCounter
      ensures Valid() && Encodes(CommandArray[..], items, pr, n)
      ensures Grows(old(CommandArray[..]), old(items), CommandArray[..], items, Ids(n))
      ensures cbCollectedStrings <= old(cbCollectedStrings) + StringBytes(n)
      ensures iErrorCounter == old(iErrorCounter) + UndefinedInList(args, pr)
      decreases n, 0
    {
      assert Ids(n) == {n.NodeId} + ListIds(args);
      ghost var a0, items0 := CommandArray[..], items;
      Put(n.NodeId, c);
      ghost var a1 := CommandArray[..];
      BuildList(args);
      FitsStays(items0, items, pr, c, n);
      GrowsTwice(a0, items0, a1, items0, CommandArray[..], items, {n.NodeId}, ListIds(args), Ids(n));
    }

    /** build_Build_l */
    method BuildList(l0: List)
      requires Valid() && DistinctList(l0) && BuildableList(l0, pr) && Room(ListIds(l0), ListStringBytes(l0))
      modifies CommandArray, StringTable, `cbCollectedStrings, `items, `iErrorCounter
      ensures Valid() && EncodesList(CommandArray[..], items, pr, l0)
      ensures Grows(old(CommandArray[..]), old(items), CommandArray[..], items, ListIds(l0))
      ensures cbCollectedStrings <= old(cbCollectedStrings) + ListStringBytes(l0)
      ensures iErrorCounter == old(iErrorCounter) + UndefinedInList(l0, pr)
      decreases l0, 3
    {
      var Result := l0;
      while Result != Nil
        invariant Valid() && IsTail(l0, Result)
        invariant EncodesUpTo(CommandArray[..], items, pr, l0, Result)
        invariant Grows(old(CommandArray[..]), old(items), CommandArray[..], items, ListIds(l0))
        invariant cbCollectedStrings + ListStringBytes(Result) <= old(cbCollectedStrings) + ListStringBytes(l0)
        invariant iErrorCounter + UndefinedInList(Result, pr) == old(iErrorCounter) + UndefinedInList(l0, pr)
        decreases Result
      {
        ghost var a, was := CommandArray[..], items;
        TailFacts(l0, Result, pr);
        TailIsSmaller(l0, Result);
        BuildCell(Result);
        UpToStep(a, was, CommandArray[..], items, pr, l0, Result);
        GrowsTwice(old(CommandArray[..]), old(items), a, was, CommandArray[..], items, ListIds(l0), {Result.NodeId} + Ids(Result.actualm), ListIds(l0));
        TailOfTail(l0, Result);
        Result := Result.rest;
      }
      UpToEnd(CommandArray[..], items, pr, l0);
    }

    lemma {:induction false} TailIsSmaller(l0: List, l: List)
      requires IsTail(l0, l) && l.Cell?
      ensures l == l0 || l < l0
      decreases l0
    {
      if l0 != l {
        TailIsSmaller(l0.rest, l);
      }
    }

    method BuildCell(l: List)
      requires l.Cell? && Valid() && DistinctList(l) && BuildableList(l, pr) && Room(ListIds(l), ListStringBytes(l))
      modifies CommandArray, StringTable, `cbCollectedStrings, `items, `iErrorCounter
      ensures Valid() && l.NodeId <= CommandArray.Length && FitsCell(CommandArray[l.NodeId - 1], l) && Encodes(CommandArray[..], items, pr, l.actualm)
      ensures Grows(old(CommandArray[..]), old(items), CommandArray[..], items, {l.NodeId} + Ids(l.actualm))
      ensures cbCollectedStrings <= old(cbCollectedStrings) + StringBytes(l.actualm)
      ensures iErrorCounter == old(iErrorCounter) + Undefined(l.actualm, pr)
      decreases l, 2
    {
      ghost var a0, items0 := CommandArray[..], items;
      Put(l.NodeId, CNode(NTYPE_LST, NodeList(IdOf(l.actualm), HeadId(l.rest))));
      ghost var a1 := CommandArray[..];
      BuildNode(l.actualm);
      GrowsTwice(a0, items0, a1, items0, CommandArray[..], items, {l.NodeId}, Ids(l.actualm), {l.NodeId} + Ids(l.actualm));
    }

    method BuildValue(v: Value) returns (u: ArgumentUnion)
      requires Valid() && DistinctValue(v) && BuildableValue(v, pr) && Room(ValueIds(v), ValueStringBytes(v))
      modifies CommandArray, StringTable, `cbCollectedStrings, `items, `iErrorCounter
      ensures Valid() && EncodesValue(CommandArray[..], items, pr, v) && Holds(items, u, v)
      ensures Grows(old(CommandArray[..]), old(items), CommandArray[..], items, ValueIds(v))
      ensures cbCollectedStrings <= old(cbCollectedStrings) + ValueStringBytes(v)
      ensures iErrorCounter == old(iErrorCounter) + UndefinedInValue(v, pr)
      decreases v, 4
    {
      match v {
        case Label(node) => u := PNode(node);
        case Exp(n) =>
          u := PNode(n.NodeId);
          BuildNode(n);
        case ExpList(l) =>
          u := PNode(l.NodeId);
          BuildList(l);
        case Text(s) =>
          var sz := BuildString(s);
          u := StringValue(sz);
        case Long(k) => u := LongValue(k);
        case Double(d) => u := DoubleValue(d);
      }
    }

    /** One round of the loop over the lexes, with NEXT_ARGUMENT. */
    method BuildLink(c: Chain)
      requires c.Link? && Valid() && DistinctChain(c) && BuildableChain(c, pr) && Room(ChainIds(c), ChainStringBytes(c))
      modifies CommandArray, StringTable, `cbCollectedStrings, `items, `iErrorCounter
      ensures Valid() && FitsLink(CommandArray[..], items, c) && EncodesValue(CommandArray[..], items, pr, c.Argument)
      ensures Grows(old(CommandArray[..]), old(items), CommandArray[..], items, LinkIds(c))
      ensures CommandArray[c.NodeId - 1].OpCode == old(CommandArray[c.NodeId - 1].OpCode)
      ensures cbCollectedStrings <= old(cbCollectedStrings) + ValueStringBytes(c.Argument)
      ensures iErrorCounter == old(iErrorCounter) + UndefinedInValue(c.Argument, pr)
      decreases c, 0
    {
      ghost var a0, items0 := CommandArray[..], items;
      var u := BuildValue(c.Argument);
      ghost var a1, items1 := CommandArray[..], items;
      assert c.next.Link? ==> c.next.NodeId in ChainIds(c.next);
      Put(c.NodeId, CommandArray[c.NodeId - 1].(Parameter := CommandArgument(ChainId(c.next), u)));
      ghost var a2 := CommandArray[..];
      if c.next.Link? {
        Put(c.next.NodeId, CommandArray[c.next.NodeId - 1].(OpCode := NTYPE_CRG));
      }
      ValueStays(a1, items1, CommandArray[..], items, LinkIds(c) - ValueIds(c.Argument), pr, c.Argument);
      GrowsTwice(a0, items0, a1, items1, CommandArray[..], items, ValueIds(c.Argument), LinkIds(c) - ValueIds(c.Argument), LinkIds(c));
    }

    /** The part of build_Build_r for a command: its lexes tell what the parameters are. */
    method BuildCommand(n: Node)
      requires n.Command?
      requires Valid() && Distinct(n) && Buildable(n, pr) && Room(Ids(n), StringBytes(n))
      modifies CommandArray, StringTable, `cbCollectedStrings, `items, `iErrorCounter
      ensures Valid() && Encodes(CommandArray[..], items, pr, n)
      ensures Grows(old(CommandArray[..]), old(items), CommandArray[..], items, Ids(n))
      ensures cbCollectedStrings <= old(cbCollectedStrings) + StringBytes(n)
      ensures iErrorCounter == old(iErrorCounter) + Undefined(n, pr)
      decreases n, 0
    {
      var lexes, c0 := pr.lexes(n.OpCode), n.parameters;
      ghost var a0, items0 := CommandArray[..], items;
      Put(n.NodeId, CommandArray[n.NodeId - 1].(OpCode := n.OpCode));
      var j, Result := 0, c0;
      while j < |lexes|
        invariant 0 <= j <= |lexes| && Valid() && IsChainTail(c0, Result) && Generating(lexes[j..]) == Kinds(Result)
        invariant EncodesChainUpTo(CommandArray[..], items, pr, c0, Result)
        invariant Grows(a0, items0, CommandArray[..], items, Ids(n)) && CommandArray[n.NodeId - 1].OpCode == n.OpCode
        invariant cbCollectedStrings + ChainStringBytes(Result) <= old(cbCollectedStrings) + ChainStringBytes(c0)
        invariant iErrorCounter + UndefinedInChain(Result, pr) == old(iErrorCounter) + UndefinedInChain(c0, pr)
      {
        assert lexes[j..][1..] == lexes[j + 1..];
        if lexes[j] != KNothing {
          assert Kinds(Result)[1..] == Kinds(Result.next);
          ChainTailIsSmaller(c0, Result);
          Advance(n, c0, Result, a0, items0);
          if Result.next == End {
            ChainUpToEnd(CommandArray[..], items, pr, c0);
            return;
          }
          Result := Result.next;
        }
        j := j + 1;
      }
      assert Result == End;
      ChainUpToEnd(CommandArray[..], items, pr, c0);
    }

    method Advance(n: Node, c0: Chain, c: Chain, ghost a0: seq<CNode>, ghost items0: seq<string>)
      requires n.Command? && Valid() && Distinct(n) && Buildable(n, pr) && Room(Ids(n), 0) && c0 == n.parameters
      requires IsChainTail(c0, c) && c.Link? && EncodesChainUpTo(CommandArray[..], items, pr, c0, c)
      requires Grows(a0, items0, CommandArray[..], items, Ids(n)) && CommandArray[n.NodeId - 1].OpCode == n.OpCode
      requires cbCollectedStrings + ChainStringBytes(c) <= StringTable.Length
      modifies CommandArray, StringTable, `cbCollectedStrings, `items, `iErrorCounter
      ensures Valid() && IsChainTail(c0, c.next) && EncodesChainUpTo(CommandArray[..], items, pr, c0, c.next)
      ensures Grows(a0, items0, CommandArray[..], items, Ids(n)) && CommandArray[n.NodeId - 1].OpCode == n.OpCode
      ensures cbCollectedStrings + ChainStringBytes(c.next) <= old(cbCollectedStrings) + ChainStringBytes(c)
      ensures iErrorCounter + UndefinedInChain(c.next, pr) == old(iErrorCounter) + UndefinedInChain(c, pr)
      decreases c, 1
    {
      ghost var a, was := CommandArray[..], items;
      ChainTailFacts(c0, c, pr);
      if c0 != c {
        LinkIdsOfTail(c0.next, c);
      }
      BuildLink(c);
      ChainUpToStep(a, was, CommandArray[..], items, pr, c0, c);
      GrowsTwice(a0, items0, a, was, CommandArray[..], items, Ids(n), LinkIds(c), Ids(n));
      ChainTailOfTail(c0, c);
    }

    /** build_Build: the command list, with nodes of different numbers up to the counter and a table for all its
        string constants, is in the array afterwards, and the array decodes to nothing else. */
    method Build(pCommandList: List)
      requires Valid() && items == [] && cbCollectedStrings == 0 && DistinctList(pCommandList) && BuildableList(pCommandList, pr)
      requires (forall id :: id in ListIds(pCommandList) ==> 1 <= id <= CommandArray.Length) && ListStringBytes(pCommandList) <= StringTable.Length
      modifies CommandArray, StringTable, `cbCollectedStrings, `items, `iErrorCounter
      ensures Valid() && EncodesList(CommandArray[..], items, pr, pCommandList)
      ensures iErrorCounter == old(iErrorCounter) + UndefinedInList(pCommandList, pr)
      ensures forall l :: EncodesList(CommandArray[..], items, pr, l) && HeadId(l) == HeadId(pCommandList) && BuildableList(l, pr) ==> AlikeList(pCommandList, l, pr)
      ensures forall s :: s in items ==> TextAt(StringTable[..], Offset(items, s)) == s
    {
      BuildList(pCommandList);
      forall l | EncodesList(CommandArray[..], items, pr, l) && HeadId(l) == HeadId(pCommandList) && BuildableList(l, pr)
        ensures AlikeList(pCommandList, l, pr)
      {
        ListIsUnique(CommandArray[..], items, pr, pCommandList, l);
      }
      forall s | s in items ensures TextAt(StringTable[..], Offset(items, s)) == s {
        FoundInTable(s);
      }
    }

    /** Each offset that was given out denotes its string. */
    lemma FoundInTable(s: string)
      requires Valid() && s in items
      ensures TextAt(StringTable[..], Offset(items, s)) == s
    {
      var table, behind := StringTable[..], StringTable[cbCollectedStrings..];
      assert table == StringTable[..cbCollectedStrings] + behind;
      FoundIn(items, s, table, behind);
    }
  }
}
