/** From the lexemes of an expression to code: the parser of expression.c and the builder of builder.c, one after
    the other. What the array holds is said of the expression itself, without the linked nodes in between. */
module Translate {
  import opened Expression
  import opened Nodes
  import opened Strings
  import opened Builder
  import Parser

  // ---------------------------------------------------------------- the code of an expression

  /** The array holds the code of `e` in the place `id`; 0 is the place of nothing. */
  predicate IsCode(a: seq<CNode>, items: seq<string>, pr: Program, symbols: Symbols, id: nat, e: Expr)
    decreases e
  {
    if e == Absent then id == 0
    else 1 <= id <= |a| && IsCodeAt(a, items, pr, symbols, a[id - 1], e)
  }

  predicate IsCodeAt(a: seq<CNode>, items: seq<string>, pr: Program, symbols: Symbols, c: CNode, e: Expr)
    decreases e, 0
  {
    match e
    case Absent => false
    case Const(LongConst(k)) => c == CNode(NTYPE_LNG, LongConstant(k))
    case Const(DoubleConst(d)) => c == CNode(NTYPE_DBL, DoubleConstant(d))
    case Const(StringConst(s)) => c.OpCode == NTYPE_STR && c.Parameter.StringConstant? && Denotes(items, c.Parameter.sValue, s)
    case Const(_) => false
    case Variable(name) => c == CNode(if symbols(name).0 then NTYPE_LVR else NTYPE_GVR, VariableSerial(symbols(name).1))
    case Op(code, args) =>
      c.OpCode == code && c.Parameter.Arguments? && IsListCode(a, items, pr, symbols, c.Parameter.Argument, args)
    case UserFunction(name, args) =>
      && c.OpCode == NTYPE_FUN && c.Parameter.FunctionCall? && c.Parameter.entry == pr.entry(name)
      && IsListCode(a, items, pr, symbols, c.Parameter.Argument, args)
    case Array(assoc, args) =>
      && c.OpCode == (if assoc then NTYPE_SAR else NTYPE_ARR) && c.Parameter.Arguments?
      && IsListCode(a, items, pr, symbols, c.Parameter.Argument, args)
  }

  predicate IsListCode(a: seq<CNode>, items: seq<string>, pr: Program, symbols: Symbols, id: nat, args: Args)
    decreases args
  {
    match args
    case NoArgs => id == 0
    case Arg(e, rest) =>
      && 1 <= id <= |a| && a[id - 1].OpCode == NTYPE_LST && a[id - 1].Parameter.NodeList?
      && IsCode(a, items, pr, symbols, a[id - 1].Parameter.actualm, e)
      && IsListCode(a, items, pr, symbols, a[id - 1].Parameter.rest, rest)
  }

  /** The array holds the nodes that stand for an expression, so it holds the code of the expression. */
  lemma {:induction false} CodeOfNodes(a: seq<CNode>, items: seq<string>, pr: Program, symbols: Symbols, n: Node, e: Expr)
    requires Encodes(a, items, pr, n) && Mirrors(n, e, symbols)
    ensures IsCode(a, items, pr, symbols, IdOf(n), e)
    decreases n
  {
    match n
    case Operation(_, _, args) => CodeOfList(a, items, pr, symbols, args, e.args);
    case Function(_, _, args) => CodeOfList(a, items, pr, symbols, args, e.args);
    case ArrayAccess(_, _, args) => CodeOfList(a, items, pr, symbols, args, e.args);
    case _ =>
  }

  lemma {:induction false} CodeOfList(a: seq<CNode>, items: seq<string>, pr: Program, symbols: Symbols, l: List, args: Args)
    requires EncodesList(a, items, pr, l) && MirrorsList(l, args, symbols)
    ensures IsListCode(a, items, pr, symbols, HeadId(l), args)
    decreases l
  {
    if l.Cell? {
      CodeOfNodes(a, items, pr, symbols, l.actualm, args.actualm);
      CodeOfList(a, items, pr, symbols, l.rest, args.rest);
    }
  }

  // ---------------------------------------------------------------- nodes that can be built

  /** Operators and functions have codes above those of the other nodes, and are no commands. */
  ghost predicate HasCodes(tb: Tables, pr: Program) {
    forall code: nat :: FirstBFun(tb.BuiltInFunctions, code).Some? || code in tb.Unaries || FirstBinary(tb.Binaries, code).Some? ==>
      code > NTYPE_CRG && pr.lexes(code) == []
  }

  /** The length of each string constant fits a long. */
  predicate ShortStrings(e: Expr)
    decreases e
  {
    match e
    case Const(StringConst(s)) => IsShort(s)
    case Op(_, args) => ShortStringsIn(args)
    case UserFunction(_, args) => ShortStringsIn(args)
    case Array(_, args) => ShortStringsIn(args)
    case _ => true
  }

  predicate ShortStringsIn(args: Args)
    decreases args
  {
    args.Arg? ==> ShortStrings(args.actualm) && ShortStringsIn(args.rest)
  }

  lemma {:induction false} ExpressionIsBuildable(tb: Tables, pr: Program, symbols: Symbols, n: Node, e: Expr)
    requires HasCodes(tb, pr) && IsExpression(tb, e) && ShortStrings(e) && Mirrors(n, e, symbols)
    ensures Buildable(n, pr)
    decreases n
  {
    match n
    case Operation(_, _, args) => ArgumentsAreBuildable(tb, pr, symbols, args, e.args);
    case Function(_, _, args) => ArgumentsAreBuildable(tb, pr, symbols, args, e.args);
    case ArrayAccess(_, _, args) => ArgumentsAreBuildable(tb, pr, symbols, args, e.args);
    case _ =>
  }

  lemma {:induction false} ArgumentsAreBuildable(tb: Tables, pr: Program, symbols: Symbols, l: List, args: Args)
    requires HasCodes(tb, pr) && AreExpressions(tb, args) && ShortStringsIn(args) && MirrorsList(l, args, symbols)
    ensures BuildableList(l, pr)
    decreases l
  {
    if l.Cell? {
      ExpressionIsBuildable(tb, pr, symbols, l.actualm, args.actualm);
      ArgumentsAreBuildable(tb, pr, symbols, l.rest, args.rest);
    }
  }

  /** Every user function that the expression calls starts somewhere. */
  predicate AllDefined(e: Expr, pr: Program)
    decreases e
  {
    match e
    case Op(_, args) => AllDefinedIn(args, pr)
    case UserFunction(name, args) => pr.entry(name) != 0 && AllDefinedIn(args, pr)
    case Array(_, args) => AllDefinedIn(args, pr)
    case _ => true
  }

  predicate AllDefinedIn(args: Args, pr: Program)
    decreases args
  {
    args.Arg? ==> AllDefined(args.actualm, pr) && AllDefinedIn(args.rest, pr)
  }

  lemma {:induction false} NoneIsUndefined(pr: Program, symbols: Symbols, n: Node, e: Expr)
    requires Mirrors(n, e, symbols)
    ensures Undefined(n, pr) == 0 <==> AllDefined(e, pr)
    decreases n
  {
    match n
    case Operation(_, _, args) => NoneIsUndefinedIn(pr, symbols, args, e.args);
    case Function(_, _, args) => NoneIsUndefinedIn(pr, symbols, args, e.args);
    case ArrayAccess(_, _, args) => NoneIsUndefinedIn(pr, symbols, args, e.args);
    case _ =>
  }

  lemma {:induction false} NoneIsUndefinedIn(pr: Program, symbols: Symbols, l: List, args: Args)
    requires MirrorsList(l, args, symbols)
    ensures UndefinedInList(l, pr) == 0 <==> AllDefinedIn(args, pr)
    decreases l
  {
    if l.Cell? {
      NoneIsUndefined(pr, symbols, l.actualm, args.actualm);
      NoneIsUndefinedIn(pr, symbols, l.rest, args.rest);
    }
  }

  // ---------------------------------------------------------------- from lexemes to code

  /** The lexemes of an expression, in which declared names may stand for constants, are parsed and built: the parser reports no error, and the builder one if and only
      if some function is not defined; the sizes that the parser has counted are enough, and in the place `root` the
      array holds the code of the expression. */
  method Compile(tb: Tables, symbols: Symbols, pr: Program, lexemes: seq<Token>, ghost e: Expr)
    returns (parser: Parser.Parser, build: BuildObject, root: nat)
    requires Usable(tb) && HasCodes(tb, pr) && IsExpression(tb, e) && ShortStrings(e)
    requires SpellsAll(tb, PrintExpression(tb, e), lexemes)
    ensures fresh(parser) && parser.iErrorCounter == 0 && (build.iErrorCounter == 0 <==> AllDefined(e, pr))
    ensures fresh(build) && build.Valid() && IsCode(build.CommandArray[..], build.items, pr, symbols, root, e)
    ensures forall s :: s in build.items ==> TextAt(build.StringTable[..], Offset(build.items, s)) == s
  {
    parser := new Parser.Parser(tb, symbols, lexemes);
    var n := parser.ParseWhole(e, []);
    ExpressionIsBuildable(tb, pr, symbols, n, e);
    NoneIsUndefined(pr, symbols, n, e);
    build := new BuildObject(pr, parser.NodeCounter, parser.cbStringTable);
    build.BuildNode(n);
    root := IdOf(n);
    CodeOfNodes(build.CommandArray[..], build.items, pr, symbols, n, e);
    forall s | s in build.items ensures TextAt(build.StringTable[..], Offset(build.items, s)) == s {
      build.FoundInTable(s);
    }
  }

  // ---------------------------------------------------------------- code shows its expression

  /** Names of variables and of user functions. */
  datatype Names = Names(variables: set<string>, functions: set<string>)

  /** Different variables are resolved differently, and different functions start at different nodes. */
  predicate ToldApart(pr: Program, symbols: Symbols, names: Names) {
    && (forall x, y :: x in names.variables && y in names.variables && symbols(x) == symbols(y) ==> x == y)
    && (forall f, g :: f in names.functions && g in names.functions && pr.entry(f) == pr.entry(g) ==> f == g)
  }

  /** The expression has no other names. */
  predicate Uses(e: Expr, names: Names)
    decreases e
  {
    match e
    case Variable(name) => name in names.variables
    case Op(_, args) => UsesIn(args, names)
    case UserFunction(name, args) => name in names.functions && UsesIn(args, names)
    case Array(_, args) => UsesIn(args, names)
    case _ => true
  }

  predicate UsesIn(args: Args, names: Names)
    decreases args
  {
    args.Arg? ==> Uses(args.actualm, names) && UsesIn(args.rest, names)
  }

  /** Where names are told apart, two expressions with the same code are the same. */
  lemma {:induction false} CodeShowsExpression(tb: Tables, a: seq<CNode>, items: seq<string>, pr: Program, symbols: Symbols, id: nat,
                                               e: Expr, e': Expr, names: Names)
    requires HasCodes(tb, pr) && ToldApart(pr, symbols, names) && AllShort(items)
    requires IsExpression(tb, e) && IsExpression(tb, e') && Uses(e, names) && Uses(e', names)
    requires IsCode(a, items, pr, symbols, id, e) && IsCode(a, items, pr, symbols, id, e')
    ensures e == e'
    decreases e
  {
    match e
    case Const(StringConst(s)) => OffsetsDiffer(items, s, e'.value.s);
    case Op(_, args) => CodeShowsArguments(tb, a, items, pr, symbols, a[id - 1].Parameter.Argument, args, e'.args, names);
    case UserFunction(_, args) => CodeShowsArguments(tb, a, items, pr, symbols, a[id - 1].Parameter.Argument, args, e'.args, names);
    case Array(_, args) => CodeShowsArguments(tb, a, items, pr, symbols, a[id - 1].Parameter.Argument, args, e'.args, names);
    case _ =>
  }

  lemma {:induction false} CodeShowsArguments(tb: Tables, a: seq<CNode>, items: seq<string>, pr: Program, symbols: Symbols, id: nat,
                                              args: Args, args': Args, names: Names)
    requires HasCodes(tb, pr) && ToldApart(pr, symbols, names) && AllShort(items)
    requires AreExpressions(tb, args) && AreExpressions(tb, args') && UsesIn(args, names) && UsesIn(args', names)
    requires IsListCode(a, items, pr, symbols, id, args) && IsListCode(a, items, pr, symbols, id, args')
    ensures args == args'
    decreases args
  {
    if args.Arg? {
      CodeShowsExpression(tb, a, items, pr, symbols, a[id - 1].Parameter.actualm, args.actualm, args'.actualm, names);
      CodeShowsArguments(tb, a, items, pr, symbols, a[id - 1].Parameter.rest, args.rest, args'.rest, names);
    }
  }
}
