/** The syntax analysis of expressions (expression.c) over a sequence of lexemes: what the parser returns, and
    that it is the inverse of printing with as few parentheses as the precedences allow. */
module Expression {
  import opened Wrappers

  /** A lexeme; the code of a symbol that is made of letters is not in any operator table. */
  datatype Token =
    | NSymbol(code: nat)
    | ASymbol(name: string)
    | LongConst(n: int)
    | DoubleConst(d: real)
    | StringConst(s: string)
    | Character(c: char)

  datatype BFun = BFun(OpCode: nat, MinArgs: nat, MaxArgs: nat)

  datatype BinaryOp = BinaryOp(OpCode: nat, precedence: nat)

  /** The tables of the syntax analyser, and the constants that the program declares. */
  datatype Tables = Tables(BuiltInFunctions: seq<BFun>, Unaries: seq<nat>, Binaries: seq<BinaryOp>, MAXPREC: nat, GlobalConstants: map<string, Token>)

  /** The node of an expression. Operators and built-in functions are told apart by their codes. */
  datatype Expr =
    | Absent
    | Const(value: Token)
    | Variable(name: string)
    | Op(OpCode: nat, args: Args)
    | UserFunction(name: string, args: Args)
    | Array(assoc: bool, args: Args)

  datatype Args = NoArgs | Arg(actualm: Expr, rest: Args)

  // ---------------------------------------------------------------- tables

  predicate IsConstant(t: Token) {
    t.LongConst? || t.DoubleConst? || t.StringConst?
  }

  /** There is a level for tags, and declared constants are constants. */
  predicate Usable(tb: Tables) {
    tb.MAXPREC >= 1 && forall name :: name in tb.GlobalConstants ==> IsConstant(tb.GlobalConstants[name])
  }

  function FirstBFun(fs: seq<BFun>, code: nat): Option<BFun> {
    if fs == [] then None else if fs[0].OpCode == code then Some(fs[0]) else FirstBFun(fs[1..], code)
  }

  /** ex_IsBFun */
  function IsBFun(tb: Tables, t: Token): Option<BFun> {
    if t.NSymbol? then FirstBFun(tb.BuiltInFunctions, t.code) else None
  }

  /** ex_IsUnop */
  predicate IsUnop(tb: Tables, t: Token) {
    t.NSymbol? && t.code in tb.Unaries
  }

  function FirstBinary(ops: seq<BinaryOp>, code: nat): Option<nat> {
    if ops == [] then None else if ops[0].OpCode == code then Some(ops[0].precedence) else FirstBinary(ops[1..], code)
  }

  /** ex_IsBinop */
  predicate IsBinop(tb: Tables, t: Token, precedence: nat) {
    t.NSymbol? && FirstBinary(tb.Binaries, t.code) == Some(precedence)
  }

  // ---------------------------------------------------------------- what the parser returns

  /** A node or nothing, the lexemes that are left, and the number of errors that are reported. */
  datatype Parsed<T> = Parsed(result: T, rest: seq<Token>, errors: nat)

  predicate StartsWith(ts: seq<Token>, c: char) {
    ts != [] && ts[0] == Character(c)
  }

  /** A closing parenthesis is stepped over; a missing one is an error. */
  function Close<T>(p: Parsed<T>, c: char): (r: Parsed<T>)
    ensures |r.rest| <= |p.rest| && r.result == p.result
  {
    if StartsWith(p.rest, c) then p.(rest := p.rest[1..]) else p.(errors := p.errors + 1)
  }

  function Length(args: Args): nat {
    if args == NoArgs then 0 else 1 + Length(args.rest)
  }

  /** A built-in function behind its name. */
  function ParseBFun(tb: Tables, f: BFun, ts: seq<Token>): (r: Parsed<Expr>)
    requires Usable(tb)
    ensures |r.rest| <= |ts|
    decreases |ts|, 4, 0
  {
    if !StartsWith(ts, '(') then Parsed(Op(f.OpCode, NoArgs), ts, if f.MinArgs == 0 then 0 else 1)
    else if StartsWith(ts[1..], ')') then Parsed(Op(f.OpCode, NoArgs), ts[2..], if f.MinArgs == 0 then 0 else 1)
    else
      var l := Close(ParseList(tb, ts[1..]), ')');
      var n := Length(l.result);
      Parsed(Op(f.OpCode, l.result), l.rest, l.errors + (if n < f.MinArgs then 1 else 0) + (if n > f.MaxArgs then 1 else 0))
  }

  /** A symbol that is not a constant, behind its name. */
  function ParseName(tb: Tables, name: string, ts: seq<Token>): (r: Parsed<Expr>)
    requires Usable(tb)
    ensures |r.rest| <= |ts|
    decreases |ts|, 4, 0
  {
    if !StartsWith(ts, '(') then ParseIndices(tb, Variable(name), ts)
    else if StartsWith(ts[1..], ')') then Parsed(UserFunction(name, NoArgs), ts[2..], 0)
    else
      var l := Close(ParseList(tb, ts[1..]), ')');
      Parsed(UserFunction(name, l.result), l.rest, l.errors)
  }

  /** Indices, like [13]{"alma"}[5], behind the array. */
  function ParseIndices(tb: Tables, base: Expr, ts: seq<Token>): (r: Parsed<Expr>)
    requires Usable(tb)
    ensures |r.rest| <= |ts|
    decreases |ts|, 1, 0
  {
    if StartsWith(ts, '[') || StartsWith(ts, '{') then
      var assoc := StartsWith(ts, '{');
      var l := Close(ParseList(tb, ts[1..]), if assoc then '}' else ']');
      var r := ParseIndices(tb, Array(assoc, Arg(base, l.result)), l.rest);
      r.(errors := l.errors + r.errors)
    else
      Parsed(base, ts, 0)
  }

  /** ex_Tag */
  function ParseTag(tb: Tables, ts: seq<Token>): (r: Parsed<Expr>)
    requires Usable(tb)
    ensures |r.rest| <= |ts|
    decreases |ts|, 0, 0
  {
    if ts == [] then Parsed(Absent, ts, 0)
    else if IsBFun(tb, ts[0]).Some? then ParseBFun(tb, IsBFun(tb, ts[0]).value, ts[1..])
    else if IsUnop(tb, ts[0]) then
      var p := ParseTag(tb, ts[1..]);
      p.(result := Op(ts[0].code, Arg(p.result, NoArgs)))
    else if ts[0] == Character('(') then Close(ParseLevel(tb, tb.MAXPREC, ts[1..]), ')')
    else if IsConstant(ts[0]) then Parsed(Const(ts[0]), ts[1..], 0)
    else if ts[0].ASymbol? then
      if ts[0].name in tb.GlobalConstants then Parsed(Const(tb.GlobalConstants[ts[0].name]), ts[1..], 0)
      else ParseName(tb, ts[0].name, ts[1..])
    else Parsed(Absent, ts, 0)
  }

  /** ex_Expression_i */
  function ParseLevel(tb: Tables, i: nat, ts: seq<Token>): (r: Parsed<Expr>)
    requires Usable(tb)
    ensures |r.rest| <= |ts|
    decreases |ts|, 2, i
  {
    if i <= 1 then ParseTag(tb, ts)
    else
      var fo := ParseLevel(tb, i - 1, ts);
      if fo.result == Absent then fo else ParseMore(tb, i, fo.result, fo.rest, fo.errors)
  }

  /** The loop of ex_Expression_i behind a first operand. */
  function ParseMore(tb: Tables, i: nat, fo: Expr, ts: seq<Token>, errors: nat): (r: Parsed<Expr>)
    requires Usable(tb) && i > 1
    ensures |r.rest| <= |ts|
    decreases |ts|, 1, 0
  {
    if ts == [] || !IsBinop(tb, ts[0], i - 1) then Parsed(fo, ts, errors)
    else
      var p := ParseLevel(tb, i - 1, ts[1..]);
      if p.result == Absent then Parsed(Absent, p.rest, errors + p.errors)
      else ParseMore(tb, i, Op(ts[0].code, Arg(fo, Arg(p.result, NoArgs))), p.rest, errors + p.errors)
  }

  /** ex_ExpressionList */
  function ParseList(tb: Tables, ts: seq<Token>): (r: Parsed<Args>)
    requires Usable(tb)
    ensures |r.rest| <= |ts|
    decreases |ts|, 3, 0
  {
    var p := ParseLevel(tb, tb.MAXPREC, ts);
    if p.result == Absent then Parsed(NoArgs, p.rest, p.errors)
    else if StartsWith(p.rest, ',') then
      var l := ParseList(tb, p.rest[1..]);
      Parsed(if l.result == NoArgs then NoArgs else Arg(p.result, l.result), l.rest, p.errors + l.errors)
    else Parsed(Arg(p.result, NoArgs), p.rest, p.errors)
  }

  // ---------------------------------------------------------------- printing

  predicate IsPair(args: Args) {
    args.Arg? && args.rest.Arg? && args.rest.rest == NoArgs
  }

  /** The precedence of a tree whose root is a binary operator. */
  function Precedence(tb: Tables, e: Expr): Option<nat> {
    if e.Op? && FirstBFun(tb.BuiltInFunctions, e.OpCode) == None && IsPair(e.args) then FirstBinary(tb.Binaries, e.OpCode) else None
  }

  /** The trees of expressions: operators have their operands and a precedence below the highest level,
      functions as many arguments as they accept, and variables are no constants. */
  predicate IsExpression(tb: Tables, e: Expr)
    decreases e, 0
  {
    match e
    case Absent => false
    case Const(t) => IsConstant(t)
    case Variable(name) => name !in tb.GlobalConstants
    case UserFunction(name, args) => name !in tb.GlobalConstants && AreExpressions(tb, args)
    case Array(_, args) =>
      args != NoArgs && (args.actualm.Variable? || args.actualm.Array?) && AreExpressions(tb, args)
    case Op(code, args) =>
      && AreExpressions(tb, args)
      && match FirstBFun(tb.BuiltInFunctions, code)
         case Some(f) => f.MinArgs <= Length(args) <= f.MaxArgs
         case None =>
           || (args.Arg? && args.rest == NoArgs && code in tb.Unaries)
           || (IsPair(args) && FirstBinary(tb.Binaries, code).Some? && 1 <= FirstBinary(tb.Binaries, code).value < tb.MAXPREC)
  }

  predicate AreExpressions(tb: Tables, args: Args)
    decreases args, 1
  {
    args == NoArgs || (IsExpression(tb, args.actualm) && AreExpressions(tb, args.rest))
  }

  /** The lexemes of `e`, as an operand of the level `i`, in front of `rest`: a binary operator that binds less
      tightly than the level allows is put in parentheses, and nothing else is. */
  function Print(tb: Tables, e: Expr, i: nat, rest: seq<Token>): seq<Token>
    decreases e, 1
  {
    match Precedence(tb, e)
    case None => PrintTag(tb, e, rest)
    case Some(p) =>
      if p < i then PrintBinary(tb, e, p, rest)
      else [Character('(')] + PrintBinary(tb, e, p, [Character(')')] + rest)
  }

  function PrintBinary(tb: Tables, e: Expr, p: nat, rest: seq<Token>): seq<Token>
    requires Precedence(tb, e) == Some(p)
    decreases e, 0
  {
    Print(tb, e.args.actualm, p + 1, [NSymbol(e.OpCode)] + Print(tb, e.args.rest.actualm, p, rest))
  }

  function PrintTag(tb: Tables, e: Expr, rest: seq<Token>): seq<Token>
    requires Precedence(tb, e) == None
    decreases e, 0
  {
    match e
    case Absent => rest
    case Const(t) => [t] + rest
    case Variable(name) => [ASymbol(name)] + rest
    case UserFunction(name, args) => [ASymbol(name)] + ([Character('(')] + PrintArgs(tb, args, [Character(')')] + rest))
    case Array(assoc, args) =>
      if args == NoArgs then rest
      else Print(tb, args.actualm, 1, [Character(if assoc then '{' else '[')]
                                      + PrintArgs(tb, args.rest, [Character(if assoc then '}' else ']')] + rest))
    case Op(code, args) =>
      if FirstBFun(tb.BuiltInFunctions, code).Some? then
        if args == NoArgs then [NSymbol(code)] + rest
        else [NSymbol(code)] + ([Character('(')] + PrintArgs(tb, args, [Character(')')] + rest))
      else if args == NoArgs then rest
      else [NSymbol(code)] + Print(tb, args.actualm, 1, rest)
  }

  function PrintArgs(tb: Tables, args: Args, rest: seq<Token>): seq<Token>
    decreases args, 2
  {
    if args == NoArgs then rest
    else Print(tb, args.actualm, tb.MAXPREC, if args.rest == NoArgs then rest else [Character(',')] + PrintArgs(tb, args.rest, rest))
  }

  // ---------------------------------------------------------------- parsing what was printed

  /** `rest` does not go on with an expression that ends at the level `i`. */
  predicate Ends(tb: Tables, i: nat, rest: seq<Token>) {
    rest != [] ==>
      && rest[0] != Character('(') && rest[0] != Character('[') && rest[0] != Character('{')
      && (rest[0].NSymbol? && FirstBinary(tb.Binaries, rest[0].code).Some? ==> FirstBinary(tb.Binaries, rest[0].code).value >= i)
  }

  /** A list that is printed does not start with a closing parenthesis. */
  lemma {:induction false} StartOf(tb: Tables, e: Expr, i: nat, rest: seq<Token>)
    requires IsExpression(tb, e)
    ensures Print(tb, e, i, rest) != []
    ensures var t := Print(tb, e, i, rest)[0]; t != Character(')') && t != Character(']') && t != Character('}')
    decreases e
  {
    match Precedence(tb, e)
    case None =>
      if e.Array? {
        StartOf(tb, e.args.actualm, 1, [Character(if e.assoc then '{' else '[')]
                                       + PrintArgs(tb, e.args.rest, [Character(if e.assoc then '}' else ']')] + rest));
      }
    case Some(p) =>
      if p < i {
        StartOf(tb, e.args.actualm, p + 1, [NSymbol(e.OpCode)] + Print(tb, e.args.rest.actualm, p, rest));
      }
  }

  /** Parsing the printed operand of the level `i` leaves the lexemes behind it. */
  lemma {:induction false} ParseOperand(tb: Tables, e: Expr, i: nat, rest: seq<Token>)
    requires Usable(tb) && IsExpression(tb, e) && 1 <= i <= tb.MAXPREC && Ends(tb, i, rest)
    ensures ParseLevel(tb, i, Print(tb, e, i, rest)) == Parsed(e, rest, 0)
    decreases e, if Precedence(tb, e).Some? && Precedence(tb, e).value >= i then 2 else 1, i, 1
  {
    if i == 1 {
      ParsePrintedTag(tb, e, rest);
    } else {
      ParseFirstOperand(tb, e, i, rest);
    }
  }

  /** Behind the printed operand the loop of its level goes on. */
  lemma {:induction false} ParseFirstOperand(tb: Tables, e: Expr, i: nat, rest: seq<Token>)
    requires Usable(tb) && IsExpression(tb, e) && 2 <= i <= tb.MAXPREC && Ends(tb, i - 1, rest)
    ensures ParseLevel(tb, i, Print(tb, e, i, rest)) == ParseMore(tb, i, e, rest, 0)
    decreases e, if Precedence(tb, e).Some? && Precedence(tb, e).value >= i then 2 else 1, i, 0
  {
    var p := Precedence(tb, e);
    if p == Some(i - 1) {
      var tail := Print(tb, e.args.rest.actualm, i - 1, rest);
      var op := [NSymbol(e.OpCode)] + tail;
      ParseFirstOperand(tb, e.args.actualm, i, op);
      assert op[1..] == tail;
      assert AreExpressions(tb, e.args.rest);
      ParseOperand(tb, e.args.rest.actualm, i - 1, rest);
    } else {
      ParseOperand(tb, e, i - 1, rest);
    }
  }

  lemma {:induction false} NothingToParse(tb: Tables, i: nat, ts: seq<Token>)
    requires Usable(tb) && ParseTag(tb, ts) == Parsed(Absent, ts, 0)
    ensures ParseLevel(tb, i, ts) == Parsed(Absent, ts, 0)
  {
    if i > 1 {
      NothingToParse(tb, i - 1, ts);
    }
  }

  predicate StartsClosed(ts: seq<Token>) {
    StartsWith(ts, ')') || StartsWith(ts, ']') || StartsWith(ts, '}')
  }

  lemma {:induction false} ParsePrintedArgs(tb: Tables, args: Args, rest: seq<Token>)
    requires Usable(tb) && AreExpressions(tb, args) && StartsClosed(rest)
    ensures ParseList(tb, PrintArgs(tb, args, rest)) == Parsed(args, rest, 0)
    decreases args, 3, 0, 0
  {
    if args == NoArgs {
      NothingToParse(tb, tb.MAXPREC, rest);
    } else if args.rest == NoArgs {
      ParseOperand(tb, args.actualm, tb.MAXPREC, rest);
    } else {
      var tail := PrintArgs(tb, args.rest, rest);
      var s := [Character(',')] + tail;
      ParseOperand(tb, args.actualm, tb.MAXPREC, s);
      assert s[1..] == tail;
      ParsePrintedArgs(tb, args.rest, rest);
    }
  }

  /** Arguments in parentheses, behind the opening one. */
  lemma {:induction false} ParseClosed(tb: Tables, args: Args, c: char, rest: seq<Token>)
    requires Usable(tb) && AreExpressions(tb, args) && c in {')', ']', '}'}
    ensures Close(ParseList(tb, PrintArgs(tb, args, [Character(c)] + rest)), c) == Parsed(args, rest, 0)
    decreases args, 4, 0, 0
  {
    ParsePrintedArgs(tb, args, [Character(c)] + rest);
    assert ([Character(c)] + rest)[1..] == rest;
  }

  /** Arguments in parentheses, with both. */
  lemma {:induction false} ParseCall(tb: Tables, args: Args, rest: seq<Token>)
    requires Usable(tb) && AreExpressions(tb, args)
    ensures var t := [Character('(')] + PrintArgs(tb, args, [Character(')')] + rest);
      && StartsWith(t, '(')
      && (StartsWith(t[1..], ')') <==> args == NoArgs) && (args == NoArgs ==> t[2..] == rest)
      && Close(ParseList(tb, t[1..]), ')') == Parsed(args, rest, 0)
    decreases args, 5, 0, 0
  {
    var s := PrintArgs(tb, args, [Character(')')] + rest);
    var t := [Character('(')] + s;
    assert t[1..] == s;
    ParseClosed(tb, args, ')', rest);
    if args == NoArgs {
      assert t[2..] == s[1..] == rest;
    } else {
      StartOf(tb, args.actualm, tb.MAXPREC, if args.rest == NoArgs then [Character(')')] + rest else [Character(',')] + PrintArgs(tb, args.rest, [Character(')')] + rest));
    }
  }

  /** Behind a printed variable or array indices may follow. */
  lemma {:induction false} ParseArray(tb: Tables, e: Expr, rest: seq<Token>)
    requires Usable(tb) && IsExpression(tb, e) && (e.Variable? || e.Array?) && !StartsWith(rest, '(')
    ensures ParseTag(tb, Print(tb, e, 1, rest)) == ParseIndices(tb, e, rest)
    decreases e, 0, 0, 0
  {
    if e.Variable? {
      assert ([ASymbol(e.name)] + rest)[1..] == rest;
    } else {
      var base, l := e.args.actualm, e.args.rest;
      var c := if e.assoc then '}' else ']';
      var tail := PrintArgs(tb, l, [Character(c)] + rest);
      var s := [Character(if e.assoc then '{' else '[')] + tail;
      ParseArray(tb, base, s);
      assert s[1..] == tail;
      ParseClosed(tb, l, c, rest);
      assert e == Array(e.assoc, Arg(base, l));
    }
  }

  lemma {:induction false} ParsePrintedTag(tb: Tables, e: Expr, rest: seq<Token>)
    requires Usable(tb) && IsExpression(tb, e) && Ends(tb, 1, rest)
    ensures ParseTag(tb, Print(tb, e, 1, rest)) == Parsed(e, rest, 0)
    decreases e, if Precedence(tb, e).Some? && Precedence(tb, e).value >= 1 then 2 else 1, 1, 0
  {
    match Precedence(tb, e)
    case Some(p) =>
      var s := [Character(')')] + rest;
      ParseOperand(tb, e, tb.MAXPREC, s);
      assert ([Character('(')] + PrintBinary(tb, e, p, s))[1..] == PrintBinary(tb, e, p, s);
      assert s[1..] == rest;
    case None =>
      match e {
        case Const(t) => assert ([t] + rest)[1..] == rest;
        case Variable(_) => ParseArray(tb, e, rest);
        case Array(_, _) => ParseArray(tb, e, rest);
        case UserFunction(name, args) =>
          ParseCall(tb, args, rest);
          var t := [Character('(')] + PrintArgs(tb, args, [Character(')')] + rest);
          assert ([ASymbol(name)] + t)[1..] == t;
        case Op(code, args) => ParsePrintedOp(tb, e, rest);
      }
  }

  lemma {:induction false} ParsePrintedOp(tb: Tables, e: Expr, rest: seq<Token>)
    requires Usable(tb) && IsExpression(tb, e) && Ends(tb, 1, rest) && e.Op? && Precedence(tb, e) == None
    ensures ParseTag(tb, Print(tb, e, 1, rest)) == Parsed(e, rest, 0)
    decreases e, 0, 0, 0
  {
    if FirstBFun(tb.BuiltInFunctions, e.OpCode).Some? {
      BFunCode(tb.BuiltInFunctions, e.OpCode);
      if e.args == NoArgs {
        assert ([NSymbol(e.OpCode)] + rest)[1..] == rest;
      } else {
        ParseCall(tb, e.args, rest);
        var t := [Character('(')] + PrintArgs(tb, e.args, [Character(')')] + rest);
        assert ([NSymbol(e.OpCode)] + t)[1..] == t;
      }
    } else {
      ParsePrintedTag(tb, e.args.actualm, rest);
      var t := Print(tb, e.args.actualm, 1, rest);
      assert ([NSymbol(e.OpCode)] + t)[1..] == t;
    }
  }

  lemma {:induction false} BFunCode(fs: seq<BFun>, code: nat)
    ensures FirstBFun(fs, code).Some? ==> FirstBFun(fs, code).value.OpCode == code
  {
    if fs != [] {
      BFunCode(fs[1..], code);
    }
  }

  /** The lexemes of a whole expression. */
  function PrintExpression(tb: Tables, e: Expr): seq<Token> {
    Print(tb, e, tb.MAXPREC, [])
  }

  /** Printing and parsing gives the same tree, without an error, and leaves what stands behind. */
  lemma ParsePrinted(tb: Tables, e: Expr, rest: seq<Token>)
    requires Usable(tb) && IsExpression(tb, e) && Ends(tb, tb.MAXPREC, rest)
    ensures ParseLevel(tb, tb.MAXPREC, Print(tb, e, tb.MAXPREC, rest)) == Parsed(e, rest, 0)
  {
    ParseOperand(tb, e, tb.MAXPREC, rest);
  }

  /** Different trees are printed differently: parentheses are left out only where they say nothing. */
  lemma PrintIsInjective(tb: Tables, e: Expr, e': Expr)
    requires Usable(tb) && IsExpression(tb, e) && IsExpression(tb, e')
    requires PrintExpression(tb, e) == PrintExpression(tb, e')
    ensures e == e'
  {
    ParsePrinted(tb, e, []);
    ParsePrinted(tb, e', []);
  }

  // ---------------------------------------------------------------- as few lexemes as possible

  /** No code is that of a function and of a binary operator. */
  ghost predicate Separate(tb: Tables) {
    forall code: nat :: FirstBinary(tb.Binaries, code).Some? ==> FirstBFun(tb.BuiltInFunctions, code) == None
  }

  lemma {:induction false} PrintBehind(tb: Tables, e: Expr, i: nat, rest: seq<Token>)
    ensures |Print(tb, e, i, rest)| == |Print(tb, e, i, [])| + |rest|
    decreases e, 2
  {
    match Precedence(tb, e)
    case None => PrintTagBehind(tb, e, rest);
    case Some(p) =>
      PrintBinaryBehind(tb, e, p, rest);
      PrintBinaryBehind(tb, e, p, []);
      PrintBinaryBehind(tb, e, p, [Character(')')] + rest);
      PrintBinaryBehind(tb, e, p, [Character(')')] + []);
  }

  lemma {:induction false} PrintBinaryBehind(tb: Tables, e: Expr, p: nat, rest: seq<Token>)
    requires Precedence(tb, e) == Some(p)
    ensures |PrintBinary(tb, e, p, rest)| == Width(tb, e.args.actualm, p + 1) + 1 + Width(tb, e.args.rest.actualm, p) + |rest|
    decreases e, 1
  {
    PrintBehind(tb, e.args.actualm, p + 1, [NSymbol(e.OpCode)] + Print(tb, e.args.rest.actualm, p, rest));
    PrintBehind(tb, e.args.rest.actualm, p, rest);
  }

  lemma {:induction false} PrintTagBehind(tb: Tables, e: Expr, rest: seq<Token>)
    requires Precedence(tb, e) == None
    ensures |PrintTag(tb, e, rest)| == |PrintTag(tb, e, [])| + |rest|
    decreases e, 1
  {
    match e
    case UserFunction(_, args) => PrintArgsBehind(tb, args, [Character(')')] + rest); PrintArgsBehind(tb, args, [Character(')')] + []);
    case Array(assoc, args) =>
      if args != NoArgs {
        var open, close := [Character(if assoc then '{' else '[')], [Character(if assoc then '}' else ']')];
        PrintBehind(tb, args.actualm, 1, open + PrintArgs(tb, args.rest, close + rest));
        PrintBehind(tb, args.actualm, 1, open + PrintArgs(tb, args.rest, close + []));
        PrintArgsBehind(tb, args.rest, close + rest);
        PrintArgsBehind(tb, args.rest, close + []);
      }
    case Op(_, args) =>
      PrintArgsBehind(tb, args, [Character(')')] + rest);
      PrintArgsBehind(tb, args, [Character(')')] + []);
      if args != NoArgs {
        PrintBehind(tb, args.actualm, 1, rest);
      }
    case _ =>
  }

  lemma {:induction false} PrintArgsBehind(tb: Tables, args: Args, rest: seq<Token>)
    ensures |PrintArgs(tb, args, rest)| == ArgsWidth(tb, args) + |rest|
    decreases args, 3
  {
    if args != NoArgs {
      if args.rest == NoArgs {
        PrintBehind(tb, args.actualm, tb.MAXPREC, rest);
      } else {
        PrintBehind(tb, args.actualm, tb.MAXPREC, [Character(',')] + PrintArgs(tb, args.rest, rest));
        PrintArgsBehind(tb, args.rest, rest);
      }
    }
  }

  /** The number of lexemes of an operand of the level `i`. */
  function Width(tb: Tables, e: Expr, i: nat): nat {
    |Print(tb, e, i, [])|
  }

  function ArgsWidth(tb: Tables, args: Args): nat {
    if args == NoArgs then 0
    else Width(tb, args.actualm, tb.MAXPREC) + if args.rest == NoArgs then 0 else 1 + ArgsWidth(tb, args.rest)
  }

  /** A higher level needs no more lexemes, and a lower one at most two parentheses more. */
  lemma WidthOfLevels(tb: Tables, e: Expr, i: nat, j: nat)
    requires i <= j
    ensures Width(tb, e, j) <= Width(tb, e, i) <= Width(tb, e, j) + 2
  {
    match Precedence(tb, e)
    case None =>
    case Some(p) =>
      PrintBinaryBehind(tb, e, p, []);
      PrintBinaryBehind(tb, e, p, [Character(')')] + []);
  }

  lemma WidthOfUnary(tb: Tables, code: nat, e: Expr)
    requires FirstBFun(tb.BuiltInFunctions, code) == None
    ensures Width(tb, Op(code, Arg(e, NoArgs)), 1) == 1 + Width(tb, e, 1)
  {
    var u := Op(code, Arg(e, NoArgs));
    assert Print(tb, u, 1, []) == PrintTag(tb, u, []);
  }

  lemma WidthOfBFun(tb: Tables, code: nat, args: Args)
    requires FirstBFun(tb.BuiltInFunctions, code).Some?
    ensures Width(tb, Op(code, args), 1) == 1 + if args == NoArgs then 0 else 2 + ArgsWidth(tb, args)
  {
    var e := Op(code, args);
    assert Print(tb, e, 1, []) == PrintTag(tb, e, []);
    PrintArgsBehind(tb, args, [Character(')')] + []);
  }

  lemma WidthOfName(tb: Tables, name: string, args: Args)
    ensures Width(tb, Variable(name), 1) == 1 && Width(tb, UserFunction(name, args), 1) == 3 + ArgsWidth(tb, args)
  {
    assert Print(tb, Variable(name), 1, []) == PrintTag(tb, Variable(name), []);
    var e := UserFunction(name, args);
    assert Print(tb, e, 1, []) == PrintTag(tb, e, []);
    PrintArgsBehind(tb, args, [Character(')')] + []);
  }

  lemma WidthOfAtom(tb: Tables, t: Token)
    ensures Width(tb, Const(t), 1) == 1 && Width(tb, Absent, 1) == 0
  {
    assert Print(tb, Const(t), 1, []) == PrintTag(tb, Const(t), []);
    assert Print(tb, Absent, 1, []) == PrintTag(tb, Absent, []);
  }

  lemma WidthOfArray(tb: Tables, assoc: bool, base: Expr, args: Args)
    ensures Width(tb, Array(assoc, Arg(base, args)), 1) == Width(tb, base, 1) + 2 + ArgsWidth(tb, args)
  {
    var e := Array(assoc, Arg(base, args));
    var close := [Character(if assoc then '}' else ']')];
    assert Print(tb, e, 1, []) == PrintTag(tb, e, []);
    PrintBehind(tb, base, 1, [Character(if assoc then '{' else '[')] + PrintArgs(tb, args, close + []));
    PrintArgsBehind(tb, args, close + []);
  }

  /** What was parsed without an error has at least the lexemes that its tree is printed with. */
  predicate Enough(tb: Tables, ts: seq<Token>, p: Parsed<Expr>, i: nat) {
    p.errors == 0 ==> |ts| >= |p.rest| + Width(tb, p.result, i)
  }

  lemma {:induction false} LevelIsEnough(tb: Tables, i: nat, ts: seq<Token>)
    requires Usable(tb) && Separate(tb) && 1 <= i
    ensures Enough(tb, ts, ParseLevel(tb, i, ts), i)
    decreases |ts|, 2, i
  {
    if i == 1 {
      TagIsEnough(tb, ts);
    } else {
      LevelIsEnough(tb, i - 1, ts);
      var fo := ParseLevel(tb, i - 1, ts);
      if fo.result != Absent {
        MoreIsEnough(tb, i, fo.result, fo.rest, fo.errors);
        WidthOfLevels(tb, fo.result, i - 1, i);
      }
    }
  }

  lemma {:induction false} MoreIsEnough(tb: Tables, i: nat, fo: Expr, ts: seq<Token>, errors: nat)
    requires Usable(tb) && Separate(tb) && i > 1
    ensures var p := ParseMore(tb, i, fo, ts, errors);
      p.errors >= errors && (p.errors == 0 ==> |ts| + Width(tb, fo, i) >= |p.rest| + Width(tb, p.result, i))
    decreases |ts|, 1, 0
  {
    if ts != [] && IsBinop(tb, ts[0], i - 1) {
      LevelIsEnough(tb, i - 1, ts[1..]);
      var p := ParseLevel(tb, i - 1, ts[1..]);
      if p.result != Absent {
        var e := Op(ts[0].code, Arg(fo, Arg(p.result, NoArgs)));
        MoreIsEnough(tb, i, e, p.rest, errors + p.errors);
        PrintBinaryBehind(tb, e, i - 1, []);
      }
    }
  }

  lemma {:induction false} TagIsEnough(tb: Tables, ts: seq<Token>)
    requires Usable(tb) && Separate(tb)
    ensures Enough(tb, ts, ParseTag(tb, ts), 1)
    decreases |ts|, 1, 0
  {
    if ts == [] {
      WidthOfAtom(tb, Character(' '));
    } else if IsBFun(tb, ts[0]).Some? {
      BFunIsEnough(tb, IsBFun(tb, ts[0]).value, ts);
    } else if IsUnop(tb, ts[0]) {
      TagIsEnough(tb, ts[1..]);
      WidthOfUnary(tb, ts[0].code, ParseTag(tb, ts[1..]).result);
    } else if ts[0] == Character('(') {
      LevelIsEnough(tb, tb.MAXPREC, ts[1..]);
      WidthOfLevels(tb, ParseTag(tb, ts).result, 1, tb.MAXPREC);
    } else if ts[0].ASymbol? && ts[0].name !in tb.GlobalConstants {
      NameIsEnough(tb, ts[0].name, ts);
    } else {
      WidthOfAtom(tb, ts[0]);
      WidthOfAtom(tb, if ts[0].ASymbol? then tb.GlobalConstants[ts[0].name] else ts[0]);
    }
  }

  lemma {:induction false} BFunIsEnough(tb: Tables, f: BFun, ts: seq<Token>)
    requires Usable(tb) && Separate(tb) && ts != [] && IsBFun(tb, ts[0]) == Some(f)
    ensures Enough(tb, ts, ParseBFun(tb, f, ts[1..]), 1)
    decreases |ts|, 0, 0
  {
    BFunCode(tb.BuiltInFunctions, ts[0].code);
    WidthOfBFun(tb, f.OpCode, NoArgs);
    if StartsWith(ts[1..], '(') && !StartsWith(ts[2..], ')') {
      ListIsEnough(tb, ts[2..]);
      WidthOfBFun(tb, f.OpCode, ParseList(tb, ts[2..]).result);
    }
  }

  lemma {:induction false} NameIsEnough(tb: Tables, name: string, ts: seq<Token>)
    requires Usable(tb) && Separate(tb) && ts != []
    ensures Enough(tb, ts, ParseName(tb, name, ts[1..]), 1)
    decreases |ts|, 0, 0
  {
    WidthOfName(tb, name, NoArgs);
    if !StartsWith(ts[1..], '(') {
      IndicesAreEnough(tb, Variable(name), ts[1..]);
    } else if !StartsWith(ts[2..], ')') {
      ListIsEnough(tb, ts[2..]);
      WidthOfName(tb, name, ParseList(tb, ts[2..]).result);
    }
  }

  lemma {:induction false} IndicesAreEnough(tb: Tables, base: Expr, ts: seq<Token>)
    requires Usable(tb) && Separate(tb)
    ensures var p := ParseIndices(tb, base, ts); p.errors == 0 ==> |ts| + Width(tb, base, 1) >= |p.rest| + Width(tb, p.result, 1)
    decreases |ts|, 1, 0
  {
    if StartsWith(ts, '[') || StartsWith(ts, '{') {
      var assoc := StartsWith(ts, '{');
      var close := if assoc then '}' else ']';
      var l := ParseList(tb, ts[1..]);
      var args := l.result;
      ListIsEnough(tb, ts[1..]);
      IndicesAreEnough(tb, Array(assoc, Arg(base, args)), Close(l, close).rest);
      WidthOfArray(tb, assoc, base, args);
    }
  }

  lemma {:induction false} ListIsEnough(tb: Tables, ts: seq<Token>)
    requires Usable(tb) && Separate(tb)
    ensures var p := ParseList(tb, ts); p.errors == 0 ==> |ts| >= |p.rest| + ArgsWidth(tb, p.result)
    decreases |ts|, 3, 0
  {
    LevelIsEnough(tb, tb.MAXPREC, ts);
    var p := ParseLevel(tb, tb.MAXPREC, ts);
    if p.result != Absent && StartsWith(p.rest, ',') {
      ListIsEnough(tb, p.rest[1..]);
    }
  }

  /** No lexemes that are parsed to the same tree without an error are fewer than the printed ones: leaving out
      a printed parenthesis, or anything else, always changes what is parsed. */
  lemma PrintIsShortest(tb: Tables, e: Expr, ts: seq<Token>, rest: seq<Token>)
    requires Usable(tb) && Separate(tb) && ParseLevel(tb, tb.MAXPREC, ts) == Parsed(e, rest, 0)
    ensures |Print(tb, e, tb.MAXPREC, rest)| <= |ts|
  {
    LevelIsEnough(tb, tb.MAXPREC, ts);
    PrintBehind(tb, e, tb.MAXPREC, rest);
  }

  /** Operators of one precedence group to the left, and an unary operator binds tighter than any of them. */
  lemma Grouping(tb: Tables, a: Expr, b: Expr, c: Expr, op: nat, op': nat, neg: nat, p: nat)
    requires Usable(tb) && IsExpression(tb, a) && IsExpression(tb, b) && IsExpression(tb, c)
    requires Precedence(tb, a) == None && Precedence(tb, b) == None && Precedence(tb, c) == None
    requires FirstBFun(tb.BuiltInFunctions, op) == None && FirstBFun(tb.BuiltInFunctions, op') == None && FirstBFun(tb.BuiltInFunctions, neg) == None
    requires FirstBinary(tb.Binaries, op) == Some(p) && FirstBinary(tb.Binaries, op') == Some(p) && 1 <= p < tb.MAXPREC && neg in tb.Unaries
    ensures var text := [NSymbol(neg)] + PrintTag(tb, a, [NSymbol(op)] + PrintTag(tb, b, [NSymbol(op')] + PrintTag(tb, c, [])));
      ParseLevel(tb, tb.MAXPREC, text) == Parsed(Binary(op', Binary(op, Op(neg, Arg(a, NoArgs)), b), c), [], 0)
  {
    var minus := Op(neg, Arg(a, NoArgs));
    var left := Binary(op, minus, b);
    assert AreExpressions(tb, Arg(a, NoArgs)) && IsExpression(tb, minus);
    BinaryIsExpression(tb, op, p, minus, b);
    BinaryIsExpression(tb, op', p, left, c);
    ParsePrinted(tb, Binary(op', left, c), []);
    var s := [NSymbol(op')] + PrintTag(tb, c, []);
    PrintOfBinary(tb, op', p, left, c, tb.MAXPREC, []);
    PrintOfBinary(tb, op, p, minus, b, p + 1, s);
    PrintOfUnary(tb, neg, a, p + 1, [NSymbol(op)] + PrintTag(tb, b, s));
  }

  lemma PrintOfBinary(tb: Tables, op: nat, p: nat, l: Expr, r: Expr, i: nat, rest: seq<Token>)
    requires FirstBFun(tb.BuiltInFunctions, op) == None && FirstBinary(tb.Binaries, op) == Some(p) && p < i && Precedence(tb, r) == None
    ensures Print(tb, Binary(op, l, r), i, rest) == Print(tb, l, p + 1, [NSymbol(op)] + PrintTag(tb, r, rest))
  {
    var e := Binary(op, l, r);
    assert Precedence(tb, e) == Some(p);
    assert Print(tb, e, i, rest) == PrintBinary(tb, e, p, rest);
    assert Print(tb, r, p, rest) == PrintTag(tb, r, rest);
  }

  lemma PrintOfUnary(tb: Tables, neg: nat, a: Expr, i: nat, rest: seq<Token>)
    requires FirstBFun(tb.BuiltInFunctions, neg) == None && Precedence(tb, a) == None
    ensures Print(tb, Op(neg, Arg(a, NoArgs)), i, rest) == [NSymbol(neg)] + PrintTag(tb, a, rest)
  {
    var e := Op(neg, Arg(a, NoArgs));
    assert Print(tb, e, i, rest) == PrintTag(tb, e, rest);
    assert Print(tb, a, 1, rest) == PrintTag(tb, a, rest);
  }

  function Binary(op: nat, l: Expr, r: Expr): Expr {
    Op(op, Arg(l, Arg(r, NoArgs)))
  }

  lemma BinaryIsExpression(tb: Tables, op: nat, p: nat, l: Expr, r: Expr)
    requires IsExpression(tb, l) && IsExpression(tb, r)
    requires FirstBFun(tb.BuiltInFunctions, op) == None && FirstBinary(tb.Binaries, op) == Some(p) && 1 <= p < tb.MAXPREC
    ensures IsExpression(tb, Binary(op, l, r)) && Precedence(tb, Binary(op, l, r)) == Some(p)
  {
    assert AreExpressions(tb, Arg(r, NoArgs));
    assert AreExpressions(tb, Arg(l, Arg(r, NoArgs)));
  }

  // ---------------------------------------------------------------- declared constants

  /** The lexeme `t'` is `t`, or a symbol that the program declares to be the constant `t`. */
  predicate Spells(tb: Tables, t: Token, t': Token) {
    t' == t || (IsConstant(t) && t'.ASymbol? && t'.name in tb.GlobalConstants && tb.GlobalConstants[t'.name] == t)
  }

  predicate SpellsAll(tb: Tables, ts: seq<Token>, ts': seq<Token>) {
    |ts| == |ts'| && forall i :: 0 <= i < |ts| ==> Spells(tb, ts[i], ts'[i])
  }

  /** The same was parsed, and what is left is spelled alike. */
  ghost predicate SameParse<T>(tb: Tables, p: Parsed<T>, p': Parsed<T>) {
    p'.result == p.result && p'.errors == p.errors && SpellsAll(tb, p.rest, p'.rest)
  }

  lemma SpellsCharacter(tb: Tables, ts: seq<Token>, ts': seq<Token>, c: char)
    requires SpellsAll(tb, ts, ts')
    ensures StartsWith(ts', c) <==> StartsWith(ts, c)
    ensures ts != [] ==> SpellsAll(tb, ts[1..], ts'[1..])
  {
  }

  lemma SpellsClose<T>(tb: Tables, p: Parsed<T>, p': Parsed<T>, c: char)
    requires SameParse(tb, p, p')
    ensures SameParse(tb, Close(p, c), Close(p', c))
  {
    SpellsCharacter(tb, p.rest, p'.rest, c);
  }

  lemma {:induction false} SpellsTag(tb: Tables, ts: seq<Token>, ts': seq<Token>)
    requires Usable(tb) && SpellsAll(tb, ts, ts')
    ensures SameParse(tb, ParseTag(tb, ts), ParseTag(tb, ts'))
    decreases |ts|, 0, 0
  {
    if ts != [] {
      assert Spells(tb, ts[0], ts'[0]);
      SpellsCharacter(tb, ts, ts', '(');
      if IsBFun(tb, ts[0]).Some? {
        SpellsBFun(tb, IsBFun(tb, ts[0]).value, ts[1..], ts'[1..]);
      } else if IsUnop(tb, ts[0]) {
        SpellsTag(tb, ts[1..], ts'[1..]);
      } else if ts[0] == Character('(') {
        SpellsLevel(tb, tb.MAXPREC, ts[1..], ts'[1..]);
        SpellsClose(tb, ParseLevel(tb, tb.MAXPREC, ts[1..]), ParseLevel(tb, tb.MAXPREC, ts'[1..]), ')');
      } else if ts[0].ASymbol? && ts[0].name !in tb.GlobalConstants {
        SpellsName(tb, ts[0].name, ts[1..], ts'[1..]);
      }
    }
  }

  lemma {:induction false} SpellsBFun(tb: Tables, f: BFun, ts: seq<Token>, ts': seq<Token>)
    requires Usable(tb) && SpellsAll(tb, ts, ts')
    ensures SameParse(tb, ParseBFun(tb, f, ts), ParseBFun(tb, f, ts'))
    decreases |ts|, 4, 0
  {
    SpellsCharacter(tb, ts, ts', '(');
    if StartsWith(ts, '(') {
      SpellsCharacter(tb, ts[1..], ts'[1..], ')');
      if !StartsWith(ts[1..], ')') {
        SpellsList(tb, ts[1..], ts'[1..]);
        SpellsClose(tb, ParseList(tb, ts[1..]), ParseList(tb, ts'[1..]), ')');
      }
    }
  }

  lemma {:induction false} SpellsName(tb: Tables, name: string, ts: seq<Token>, ts': seq<Token>)
    requires Usable(tb) && SpellsAll(tb, ts, ts')
    ensures SameParse(tb, ParseName(tb, name, ts), ParseName(tb, name, ts'))
    decreases |ts|, 4, 0
  {
    SpellsCharacter(tb, ts, ts', '(');
    if !StartsWith(ts, '(') {
      SpellsIndices(tb, Variable(name), ts, ts');
    } else {
      SpellsCharacter(tb, ts[1..], ts'[1..], ')');
      if !StartsWith(ts[1..], ')') {
        SpellsList(tb, ts[1..], ts'[1..]);
        SpellsClose(tb, ParseList(tb, ts[1..]), ParseList(tb, ts'[1..]), ')');
      }
    }
  }

  lemma {:induction false} SpellsIndices(tb: Tables, base: Expr, ts: seq<Token>, ts': seq<Token>)
    requires Usable(tb) && SpellsAll(tb, ts, ts')
    ensures SameParse(tb, ParseIndices(tb, base, ts), ParseIndices(tb, base, ts'))
    decreases |ts|, 1, 0
  {
    SpellsCharacter(tb, ts, ts', '[');
    SpellsCharacter(tb, ts, ts', '{');
    if StartsWith(ts, '[') || StartsWith(ts, '{') {
      var c := if StartsWith(ts, '{') then '}' else ']';
      SpellsList(tb, ts[1..], ts'[1..]);
      var l, l' := Close(ParseList(tb, ts[1..]), c), Close(ParseList(tb, ts'[1..]), c);
      SpellsClose(tb, ParseList(tb, ts[1..]), ParseList(tb, ts'[1..]), c);
      SpellsIndices(tb, Array(StartsWith(ts, '{'), Arg(base, l.result)), l.rest, l'.rest);
    }
  }

  lemma {:induction false} SpellsLevel(tb: Tables, i: nat, ts: seq<Token>, ts': seq<Token>)
    requires Usable(tb) && SpellsAll(tb, ts, ts')
    ensures SameParse(tb, ParseLevel(tb, i, ts), ParseLevel(tb, i, ts'))
    decreases |ts|, 2, i
  {
    if i <= 1 {
      SpellsTag(tb, ts, ts');
    } else {
      SpellsLevel(tb, i - 1, ts, ts');
      var fo, fo' := ParseLevel(tb, i - 1, ts), ParseLevel(tb, i - 1, ts');
      if fo.result != Absent {
        SpellsMore(tb, i, fo.result, fo.rest, fo'.rest, fo.errors);
      }
    }
  }

  lemma {:induction false} SpellsMore(tb: Tables, i: nat, fo: Expr, ts: seq<Token>, ts': seq<Token>, errors: nat)
    requires Usable(tb) && i > 1 && SpellsAll(tb, ts, ts')
    ensures SameParse(tb, ParseMore(tb, i, fo, ts, errors), ParseMore(tb, i, fo, ts', errors))
    decreases |ts|, 1, 0
  {
    if ts != [] {
      assert Spells(tb, ts[0], ts'[0]);
      if IsBinop(tb, ts[0], i - 1) {
        SpellsLevel(tb, i - 1, ts[1..], ts'[1..]);
        var p, p' := ParseLevel(tb, i - 1, ts[1..]), ParseLevel(tb, i - 1, ts'[1..]);
        if p.result != Absent {
          SpellsMore(tb, i, Op(ts[0].code, Arg(fo, Arg(p.result, NoArgs))), p.rest, p'.rest, errors + p.errors);
        }
      }
    }
  }

  lemma {:induction false} SpellsList(tb: Tables, ts: seq<Token>, ts': seq<Token>)
    requires Usable(tb) && SpellsAll(tb, ts, ts')
    ensures SameParse(tb, ParseList(tb, ts), ParseList(tb, ts'))
    decreases |ts|, 3, 0
  {
    SpellsLevel(tb, tb.MAXPREC, ts, ts');
    var p, p' := ParseLevel(tb, tb.MAXPREC, ts), ParseLevel(tb, tb.MAXPREC, ts');
    SpellsCharacter(tb, p.rest, p'.rest, ',');
    if p.result != Absent && StartsWith(p.rest, ',') {
      SpellsList(tb, p.rest[1..], p'.rest[1..]);
    }
  }

  /** A declared constant stands for its value: writing symbols for constants changes nothing, and the printed
      lexemes of an expression with such symbols are parsed to the expression. */
  lemma ParseSpelled(tb: Tables, e: Expr, rest: seq<Token>, ts: seq<Token>)
    requires Usable(tb) && IsExpression(tb, e) && Ends(tb, tb.MAXPREC, rest)
    requires SpellsAll(tb, Print(tb, e, tb.MAXPREC, rest), ts)
    ensures var p := ParseLevel(tb, tb.MAXPREC, ts); p.result == e && p.errors == 0 && SpellsAll(tb, rest, p.rest)
  {
    ParsePrinted(tb, e, rest);
    SpellsLevel(tb, tb.MAXPREC, Print(tb, e, tb.MAXPREC, rest), ts);
  }

  // ---------------------------------------------------------------- errors that are reported

  /** A function gets the arguments that are written, and too few or too many are one error each. */
  lemma ParseAnyCall(tb: Tables, f: BFun, args: Args, rest: seq<Token>)
    requires Usable(tb) && AreExpressions(tb, args) && FirstBFun(tb.BuiltInFunctions, f.OpCode) == Some(f)
    ensures var ts := [NSymbol(f.OpCode)] + ([Character('(')] + PrintArgs(tb, args, [Character(')')] + rest));
      var wrong := if args == NoArgs then f.MinArgs > 0 else Length(args) < f.MinArgs || Length(args) > f.MaxArgs;
      var both := args != NoArgs && Length(args) < f.MinArgs && Length(args) > f.MaxArgs;
      ParseTag(tb, ts) == Parsed(Op(f.OpCode, args), rest, if both then 2 else if wrong then 1 else 0)
  {
    ParseCall(tb, args, rest);
    var t := [Character('(')] + PrintArgs(tb, args, [Character(')')] + rest);
    assert ([NSymbol(f.OpCode)] + t)[1..] == t;
  }

  /** A function without parentheses has no arguments. */
  lemma ParseBareCall(tb: Tables, f: BFun, rest: seq<Token>)
    requires Usable(tb) && FirstBFun(tb.BuiltInFunctions, f.OpCode) == Some(f) && !StartsWith(rest, '(')
    ensures ParseTag(tb, [NSymbol(f.OpCode)] + rest) == Parsed(Op(f.OpCode, NoArgs), rest, if f.MinArgs > 0 then 1 else 0)
  {
    assert ([NSymbol(f.OpCode)] + rest)[1..] == rest;
  }

  /** A parenthesis that is not closed is one error, and the expression is not lost. */
  lemma ParseUnclosed(tb: Tables, e: Expr, rest: seq<Token>)
    requires Usable(tb) && IsExpression(tb, e) && Ends(tb, tb.MAXPREC, rest) && !StartsWith(rest, ')')
    ensures ParseTag(tb, [Character('(')] + Print(tb, e, tb.MAXPREC, rest)) == Parsed(e, rest, 1)
  {
    ParsePrinted(tb, e, rest);
    var t := Print(tb, e, tb.MAXPREC, rest);
    assert ([Character('(')] + t)[1..] == t;
  }

  /** Behind a binary operator an expression that is missing loses the first operand, without an error. */
  lemma ParseHalf(tb: Tables, e: Expr, op: nat, p: nat, rest: seq<Token>)
    requires Usable(tb) && IsExpression(tb, e) && FirstBinary(tb.Binaries, op) == Some(p) && 1 <= p < tb.MAXPREC
    requires ParseTag(tb, rest) == Parsed(Absent, rest, 0)
    ensures ParseLevel(tb, p + 1, Print(tb, e, p + 1, [NSymbol(op)] + rest)) == Parsed(Absent, rest, 0)
  {
    var ts := [NSymbol(op)] + rest;
    ParseFirstOperand(tb, e, p + 1, ts);
    assert ts[1..] == rest;
    NothingToParse(tb, p, rest);
  }
}
