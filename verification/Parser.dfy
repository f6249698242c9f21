/** The parser of expression.c: it moves over the lexemes, gives a number to every node, and counts the bytes
    that string constants will need. What it returns is what the functions of Expression say. */
module Parser {
  import opened Expression
  import opened Nodes

  /** Behind `fo` the level `i`, which started at `ts`, goes on with `ahead`. */
  ghost predicate GoesOn(tb: Tables, i: nat, ts: seq<Token>, fo: Expr, ahead: seq<Token>, errors: nat)
    requires Usable(tb) && i > 1
  {
    ParseLevel(tb, i, ts) == ParseMore(tb, i, fo, ahead, errors)
  }

  lemma GoOn(tb: Tables, i: nat, ts: seq<Token>, fo: Expr, ahead: seq<Token>, errors: nat)
    requires Usable(tb) && i > 1 && GoesOn(tb, i, ts, fo, ahead, errors) && ahead != [] && IsBinop(tb, ahead[0], i - 1)
    ensures var p := ParseLevel(tb, i - 1, ahead[1..]);
      && |p.rest| < |ahead|
      && if p.result == Absent then ParseLevel(tb, i, ts) == Parsed(Absent, p.rest, errors + p.errors)
         else GoesOn(tb, i, ts, Binary(ahead[0].code, fo, p.result), p.rest, errors + p.errors)
  {
  }

  lemma Stop(tb: Tables, i: nat, ts: seq<Token>, fo: Expr, ahead: seq<Token>, errors: nat)
    requires Usable(tb) && i > 1 && GoesOn(tb, i, ts, fo, ahead, errors) && (ahead != [] ==> !IsBinop(tb, ahead[0], i - 1))
    ensures ParseLevel(tb, i, ts) == Parsed(fo, ahead, errors)
  {
  }

  /** One more index behind the array `e`. */
  function OneIndex(tb: Tables, e: Expr, ts: seq<Token>): (r: Parsed<Expr>)
    requires Usable(tb) && (StartsWith(ts, '[') || StartsWith(ts, '{'))
    ensures |r.rest| < |ts|
  {
    var assoc := StartsWith(ts, '{');
    var l := Close(ParseList(tb, ts[1..]), if assoc then '}' else ']');
    Parsed(Array(assoc, Arg(e, l.result)), l.rest, l.errors)
  }

  ghost predicate IndicesGoOn(tb: Tables, e0: Expr, ts: seq<Token>, e: Expr, ahead: seq<Token>, errors: nat)
    requires Usable(tb)
  {
    var p := ParseIndices(tb, e, ahead);
    ParseIndices(tb, e0, ts) == p.(errors := errors + p.errors)
  }

  lemma IndicesStep(tb: Tables, e0: Expr, ts: seq<Token>, e: Expr, ahead: seq<Token>, errors: nat)
    requires Usable(tb) && IndicesGoOn(tb, e0, ts, e, ahead, errors) && (StartsWith(ahead, '[') || StartsWith(ahead, '{'))
    ensures var p := OneIndex(tb, e, ahead); IndicesGoOn(tb, e0, ts, p.result, p.rest, errors + p.errors)
  {
  }

  function BinaryNode(id: nat, code: nat, l: Node, r: Node): Node {
    Operation(id, code, Cell(id + 1, l, Cell(id + 2, r, Nil)))
  }

  lemma BinaryIsNumbered(code: nat, l: Node, r: Node, e: Expr, e': Expr, symbols: Symbols, lo: nat, mid: nat, hi: nat)
    requires Numbered(l, lo, mid) && Numbered(r, mid + 3, hi) && lo <= mid && mid + 3 <= hi
    requires Mirrors(l, e, symbols) && Mirrors(r, e', symbols)
    ensures Numbered(BinaryNode(mid + 1, code, l, r), lo, hi)
    ensures Mirrors(BinaryNode(mid + 1, code, l, r), Binary(code, e, e'), symbols)
    ensures StringBytes(BinaryNode(mid + 1, code, l, r)) == StringBytes(l) + StringBytes(r)
  {
    var second := Cell(mid + 3, r, Nil);
    assert ListIds(second) == {mid + 3} + Ids(r) && DistinctList(second);
    var first := Cell(mid + 2, l, second);
    assert ListIds(first) == {mid + 2} + Ids(l) + ListIds(second) && DistinctList(first);
    assert MirrorsList(second, Arg(e', NoArgs), symbols);
    assert MirrorsList(first, Arg(e, Arg(e', NoArgs)), symbols);
    assert ListStringBytes(second) == StringBytes(r);
  }

  lemma CellIsNumbered(id: nat, q: Node, e: Expr, rest: List, args: Args, symbols: Symbols, lo: nat, mid: nat, mid': nat, hi: nat)
    requires Numbered(q, lo, mid) && NumberedList(rest, mid', hi) && lo <= mid < id <= mid' <= hi
    requires Mirrors(q, e, symbols) && MirrorsList(rest, args, symbols)
    ensures NumberedList(Cell(id, q, rest), lo, hi) && MirrorsList(Cell(id, q, rest), Arg(e, args), symbols)
    ensures ListIds(Cell(id, q, rest)) == {id} + Ids(q) + ListIds(rest)
    ensures ListStringBytes(Cell(id, q, rest)) == StringBytes(q) + ListStringBytes(rest)
  {
  }

  lemma UnaryIsNumbered(q: nat, code: nat, operand: Node, e: Expr, symbols: Symbols, lo: nat, hi: nat)
    requires Numbered(operand, q + 1, hi) && lo < q < hi && Mirrors(operand, e, symbols)
    ensures var n := Operation(q, code, Cell(q + 1, operand, Nil));
      Numbered(n, lo, hi) && Mirrors(n, Op(code, Arg(e, NoArgs)), symbols) && StringBytes(n) == StringBytes(operand)
  {
    var l := Cell(q + 1, operand, Nil);
    assert ListIds(l) == {q + 1} + Ids(operand) && DistinctList(l);
    assert MirrorsList(l, Arg(e, NoArgs), symbols);
    assert ListStringBytes(l) == StringBytes(operand);
  }

  lemma CallIsNumbered(n: Node, q: nat, l: List, lo: nat, hi: nat)
    requires (n.Operation? || n.Function? || n.ArrayAccess?) && n.NodeId == q && n.Argument == l
    requires NumberedList(l, lo, hi) && lo < q <= hi && q !in ListIds(l)
    ensures Numbered(n, lo, hi) && StringBytes(n) == ListStringBytes(l)
  {
    assert Ids(n) == {q} + ListIds(l);
  }

  lemma IndexIsNumbered(q: nat, cell: nat, base: Node, l: List, assoc: bool, lo: nat, hi: nat)
    requires Numbered(base, lo, hi) && NumberedList(l, lo, hi) && Ids(base) !! ListIds(l)
    requires lo < q <= hi && lo < cell <= hi && q != cell && {q, cell} !! Ids(base) && {q, cell} !! ListIds(l)
    ensures Numbered(ArrayAccess(q, assoc, Cell(cell, base, l)), lo, hi)
    ensures StringBytes(ArrayAccess(q, assoc, Cell(cell, base, l))) == StringBytes(base) + ListStringBytes(l)
  {
    var first := Cell(cell, base, l);
    assert ListStringBytes(first) == StringBytes(base) + ListStringBytes(l);
    assert ListIds(first) == {cell} + Ids(base) + ListIds(l) && DistinctList(first);
  }

  /** What a lexeme adds to the string table: a string constant or a symbol that is declared as one. */
  function LexemeBytes(tb: Tables, t: Token): nat {
    match t
    case StringConst(s) => |s| + 1 + SIZEOF_LONG
    case ASymbol(name) =>
      if name in tb.GlobalConstants && tb.GlobalConstants[name].StringConst? then |tb.GlobalConstants[name].s| + 1 + SIZEOF_LONG else 0
    case _ => 0
  }

  function LexBytes(tb: Tables, ts: seq<Token>): nat {
    if ts == [] then 0 else LexemeBytes(tb, ts[0]) + LexBytes(tb, ts[1..])
  }

  class Parser {
    const tb: Tables
    const symbols: Symbols
    const lexemes: seq<Token>
    var pLexCurrentLexeme: nat
    var NodeCounter: nat
    var cbStringTable: nat
    var iErrorCounter: nat

    ghost predicate Valid()
      reads this
    {
      Usable(tb) && pLexCurrentLexeme <= |lexemes|
    }

    ghost function Ahead(): seq<Token>
      reads this
      requires Valid()
    {
      lexemes[pLexCurrentLexeme..]
    }

    /** What the string table needs for the strings stepped over and for those ahead. */
    ghost function Owed(): nat
      reads this
      requires Valid()
    {
      cbStringTable + LexBytes(tb, Ahead())
    }

    constructor (tb: Tables, symbols: Symbols, lexemes: seq<Token>)
      requires Usable(tb)
      ensures Valid() && Ahead() == lexemes && NodeCounter == cbStringTable == iErrorCounter == 0
      ensures this.tb == tb && this.symbols == symbols
    {
      this.tb, this.symbols, this.lexemes := tb, symbols, lexemes;
      pLexCurrentLexeme, NodeCounter, cbStringTable, iErrorCounter := 0, 0, 0, 0;
    }

    /** The node is the result of a function of Expression, the lexemes and the errors are as it says, the
        numbers are new, and the strings are counted. */
    twostate predicate Did(n: Node, p: Parsed<Expr>)
      reads this
      requires old(Valid())
    {
      && Valid() && Ahead() == p.rest && iErrorCounter == old(iErrorCounter) + p.errors && Owed() == old(Owed())
      && Made(n, p.result, old(NodeCounter), old(cbStringTable))
    }

    twostate predicate DidList(l: List, p: Parsed<Args>)
      reads this
      requires old(Valid())
    {
      && Valid() && Ahead() == p.rest && iErrorCounter == old(iErrorCounter) + p.errors && Owed() == old(Owed())
      && MadeList(l, p.result, old(NodeCounter), old(cbStringTable))
    }

    method NextLexeme()
      requires Valid() && Ahead() != []
      modifies `pLexCurrentLexeme
      ensures Valid() && Ahead() == old(Ahead())[1..]
      ensures Owed() == old(Owed()) - LexemeBytes(tb, old(Ahead())[0])
    {
      pLexCurrentLexeme := pLexCurrentLexeme + 1;
    }

    /** Whether the current lexeme is this character. */
    function At(c: char): (r: bool)
      reads this
      requires Valid()
      ensures r == StartsWith(Ahead(), c)
    {
      pLexCurrentLexeme < |lexemes| && lexemes[pLexCurrentLexeme] == Character(c)
    }

    /** _new_eNODE and _new_eNODE_l give out the next number. */
    method NewId() returns (id: nat)
      modifies `NodeCounter
      ensures id == NodeCounter == old(NodeCounter) + 1
    {
      NodeCounter := NodeCounter + 1;
      id := NodeCounter;
    }

    /** Steps over a closing parenthesis or reports that it is missing. */
    method Closing<T>(c: char, ghost p: Parsed<T>)
      requires Valid() && Ahead() == p.rest
      modifies `pLexCurrentLexeme, `iErrorCounter
      ensures Valid() && Ahead() == Close(p, c).rest && Owed() == old(Owed())
      ensures iErrorCounter - old(iErrorCounter) == Close(p, c).errors - p.errors
    {
      if At(c) {
        NextLexeme();
      } else {
        iErrorCounter := iErrorCounter + 1;
      }
    }

    /** ex_Expression_i */
    method ParseExpression(i: nat) returns (n: Node)
      requires Valid()
      modifies this
      ensures Did(n, ParseLevel(tb, i, old(Ahead())))
      decreases |Ahead()|, 2, i
    {
      ghost var ts := Ahead();
      if i <= 1 {
        n := ParseATag();
        return;
      }
      n := ParseExpression(i - 1);
      if n == Null {
        return;
      }
      ghost var fo := ParseLevel(tb, i - 1, ts).result;
      while pLexCurrentLexeme < |lexemes| && IsBinop(tb, lexemes[pLexCurrentLexeme], i - 1)
        invariant Valid() && n != Null && |Ahead()| <= |ts| && iErrorCounter >= old(iErrorCounter)
        invariant Made(n, fo, old(NodeCounter), old(cbStringTable))
        invariant Owed() == old(Owed())
        invariant GoesOn(tb, i, ts, fo, Ahead(), iErrorCounter - old(iErrorCounter))
        decreases |Ahead()|
      {
        ghost var tail := Ahead();
        GoOn(tb, i, ts, fo, tail, iErrorCounter - old(iErrorCounter));
        n := ParseOperator(i, n, fo, old(NodeCounter), old(cbStringTable));
        if n == Null {
          return;
        }
        fo := Binary(tail[0].code, fo, ParseLevel(tb, i - 1, tail[1..]).result);
      }
      Stop(tb, i, ts, fo, Ahead(), iErrorCounter - old(iErrorCounter));
    }

    /** `n` stands for `e`, and has been made since the counters were at `lo` and `bytes`. */
    ghost predicate Made(n: Node, e: Expr, lo: nat, bytes: nat)
      reads this
    {
      Mirrors(n, e, symbols) && Numbered(n, lo, NodeCounter) && lo <= NodeCounter && cbStringTable >= bytes + StringBytes(n)
    }

    /** One round of ex_Expression_i: an operator and its second operand. */
    method ParseOperator(i: nat, fo: Node, ghost e: Expr, ghost lo: nat, ghost bytes: nat) returns (n: Node)
      requires Valid() && i > 1 && pLexCurrentLexeme < |lexemes| && IsBinop(tb, lexemes[pLexCurrentLexeme], i - 1)
      requires Made(fo, e, lo, bytes)
      modifies this
      ensures Valid() && old(Ahead()) != [] && Owed() == old(Owed())
      ensures var p := ParseLevel(tb, i - 1, old(Ahead())[1..]);
        && Ahead() == p.rest && iErrorCounter == old(iErrorCounter) + p.errors
        && Made(n, if p.result == Absent then Absent else Binary(old(Ahead())[0].code, e, p.result), lo, bytes)
      decreases |Ahead()|, 1, 0
    {
      var code := lexemes[pLexCurrentLexeme].code;
      ghost var tail := Ahead()[1..];
      var q := NewId();
      var first := NewId();
      var second := NewId();
      NextLexeme();
      var operand := ParseExpression(i - 1);
      if operand == Null {
        n := Null;
      } else {
        n := Operation(q, code, Cell(first, fo, Cell(second, operand, Nil)));
        BinaryIsNumbered(code, fo, operand, e, ParseLevel(tb, i - 1, tail).result, symbols, lo, q - 1, NodeCounter);
      }
    }

    ghost predicate MadeList(l: List, args: Args, lo: nat, bytes: nat)
      reads this
    {
      MirrorsList(l, args, symbols) && NumberedList(l, lo, NodeCounter) && lo <= NodeCounter && cbStringTable >= bytes + ListStringBytes(l)
    }

    /** ex_ExpressionList */
    method ParseExpressionList() returns (l: List)
      requires Valid()
      modifies this
      ensures DidList(l, ParseList(tb, old(Ahead())))
      decreases |Ahead()|, 3, 0
    {
      var q := ParseExpression(tb.MAXPREC);
      if q == Null {
        return Nil;
      }
      ghost var p := ParseLevel(tb, tb.MAXPREC, old(Ahead()));
      var id := NewId();
      var rest := Nil;
      ghost var args := NoArgs;
      if At(',') {
        NextLexeme();
        args := ParseList(tb, p.rest[1..]).result;
        rest := ParseExpressionList();
        if rest == Nil {
          return Nil;
        }
      }
      l := Cell(id, q, rest);
      CellIsNumbered(id, q, p.result, rest, args, symbols, old(NodeCounter), id - 1, id, NodeCounter);
    }

    /** Arguments behind an opening parenthesis, with the closing one. */
    method ParseClosedList(c: char) returns (l: List)
      requires Valid()
      modifies this
      ensures DidList(l, Close(ParseList(tb, old(Ahead())), c))
      decreases |Ahead()|, 4, 0
    {
      l := ParseExpressionList();
      Closing(c, ParseList(tb, old(Ahead())));
    }

    method CountArguments(l: List, ghost args: Args) returns (n: nat)
      requires MirrorsList(l, args, symbols)
      ensures n == Length(args)
    {
      n := 0;
      var z := l;
      ghost var a := args;
      while z != Nil
        invariant MirrorsList(z, a, symbols) && n + Length(a) == Length(args)
        decreases z
      {
        z := z.rest;
        a := a.rest;
        n := n + 1;
      }
    }

    /** A built-in function, with the current lexeme its name. */
    method ParseBuiltIn(f: BFun) returns (n: Node)
      requires Valid() && Ahead() != [] && LexemeBytes(tb, Ahead()[0]) == 0
      modifies this
      ensures Did(n, ParseBFun(tb, f, old(Ahead())[1..]))
      decreases |Ahead()|, 0, 0
    {
      var q := NewId();
      NextLexeme();
      ghost var ts := Ahead();
      if At('(') {
        NextLexeme();
        if At(')') {
          NextLexeme();
          assert Ahead() == ts[2..];
        } else {
          var l := ParseClosedList(')');
          var arg_count := CountArguments(l, ParseList(tb, ts[1..]).result);
          if arg_count < f.MinArgs {
            iErrorCounter := iErrorCounter + 1;
          }
          if arg_count > f.MaxArgs {
            iErrorCounter := iErrorCounter + 1;
          }
          n := Operation(q, f.OpCode, l);
          CallIsNumbered(n, q, l, q - 1, NodeCounter);
          return;
        }
      }
      if f.MinArgs != 0 {
        iErrorCounter := iErrorCounter + 1;
      }
      n := Operation(q, f.OpCode, Nil);
      CallIsNumbered(n, q, Nil, q - 1, NodeCounter);
    }

    method ParseATag() returns (n: Node)
      requires Valid()
      modifies this
      ensures Did(n, ParseTag(tb, old(Ahead())))
      decreases |Ahead()|, 1, 0
    {
      if pLexCurrentLexeme == |lexemes| {
        return Null;
      }
      var t := lexemes[pLexCurrentLexeme];
      var pFunction := IsBFun(tb, t);
      if pFunction.Some? {
        n := ParseBuiltIn(pFunction.value);
      } else if IsUnop(tb, t) {
        n := ParseUnary(t.code);
      } else if At('(') {
        NextLexeme();
        ghost var p := ParseLevel(tb, tb.MAXPREC, Ahead());
        n := ParseExpression(tb.MAXPREC);
        Closing(')', p);
      } else if IsConstant(t) {
        n := ParseConstant(t);
      } else if t.ASymbol? {
        if t.name in tb.GlobalConstants {
          n := ParseConstant(tb.GlobalConstants[t.name]);
        } else {
          n := ParseSymbol(t.name);
        }
      } else {
        n := Null;
      }
    }

    method ParseUnary(code: nat) returns (n: Node)
      requires Valid() && Ahead() != [] && LexemeBytes(tb, Ahead()[0]) == 0
      modifies this
      ensures var p := ParseTag(tb, old(Ahead())[1..]); Did(n, p.(result := Op(code, Arg(p.result, NoArgs))))
      decreases |Ahead()|, 0, 0
    {
      var q := NewId();
      NextLexeme();
      var cell := NewId();
      ghost var p := ParseTag(tb, Ahead());
      var operand := ParseATag();
      n := Operation(q, code, Cell(cell, operand, Nil));
      UnaryIsNumbered(q, code, operand, p.result, symbols, q - 1, NodeCounter);
    }

    /** A number or a string, which is the current lexeme or the value of the current symbol. */
    method ParseConstant(t: Token) returns (n: Node)
      requires Valid() && Ahead() != [] && IsConstant(t)
      requires Ahead()[0] == t || (Ahead()[0].ASymbol? && Ahead()[0].name in tb.GlobalConstants && tb.GlobalConstants[Ahead()[0].name] == t)
      modifies this
      ensures Did(n, Parsed(Const(t), old(Ahead())[1..], 0))
    {
      var q := NewId();
      if t.StringConst? {
        cbStringTable := cbStringTable + |t.s| + 1;
        cbStringTable := cbStringTable + SIZEOF_LONG;
      }
      NextLexeme();
      n := Constant(q, t);
    }

    /** A user function, an array access or a simple variable. */
    method ParseSymbol(name: string) returns (n: Node)
      requires Valid() && Ahead() != [] && LexemeBytes(tb, Ahead()[0]) == 0
      modifies this
      ensures Did(n, ParseName(tb, name, old(Ahead())[1..]))
      decreases |Ahead()|, 0, 0
    {
      var q := NewId();
      NextLexeme();
      ghost var ts := Ahead();
      var (local, serial) := symbols(name);
      if At('(') {
        n := ParseUserFunction(q, name);
      } else if At('[') || At('{') {
        n := ParseArrayAccess(q, name, local, serial);
      } else {
        n := Var(q, local, serial);
      }
    }

    method ParseUserFunction(q: nat, name: string) returns (n: Node)
      requires Valid() && At('(') && 0 < q == NodeCounter
      modifies this
      ensures Valid() && Ahead() == ParseName(tb, name, old(Ahead())).rest && Owed() == old(Owed())
      ensures iErrorCounter == old(iErrorCounter) + ParseName(tb, name, old(Ahead())).errors
      ensures Made(n, ParseName(tb, name, old(Ahead())).result, q - 1, old(cbStringTable))
      decreases |Ahead()|, 4, 0
    {
      ghost var ts := Ahead();
      NextLexeme();
      var l := Nil;
      if At(')') {
        NextLexeme();
        assert Ahead() == ts[2..];
      } else {
        l := ParseClosedList(')');
      }
      n := Function(q, name, l);
      CallIsNumbered(n, q, l, q - 1, NodeCounter);
    }

    method ParseArrayAccess(q: nat, name: string, local: bool, serial: nat) returns (n: Node)
      requires Valid() && (At('[') || At('{')) && 0 < q == NodeCounter && symbols(name) == (local, serial)
      modifies this
      ensures Valid() && Ahead() == ParseIndices(tb, Variable(name), old(Ahead())).rest && Owed() == old(Owed())
      ensures iErrorCounter == old(iErrorCounter) + ParseIndices(tb, Variable(name), old(Ahead())).errors
      ensures Made(n, ParseIndices(tb, Variable(name), old(Ahead())).result, q - 1, old(cbStringTable))
      decreases |Ahead()|, 4, 0
    {
      ghost var p, bytes := OneIndex(tb, Variable(name), Ahead()), cbStringTable;
      var assoc := At('{');
      NextLexeme();
      var cell := NewId();
      var v := NewId();
      var l := ParseClosedList(if assoc then '}' else ']');
      n := ArrayAccess(q, assoc, Cell(cell, Var(v, local, serial), l));
      IndexIsNumbered(q, cell, Var(v, local, serial), l, assoc, q - 1, NodeCounter);
      assert Mirrors(Var(v, local, serial), Variable(name), symbols);
      assert MirrorsList(Cell(cell, Var(v, local, serial), l), p.result.args, symbols);
      n := ParseMoreIndices(n, p.result, q - 1, bytes);
    }

    /** The loop over further indices, like a[13]{"alma"}[5]. */
    method ParseMoreIndices(n0: Node, ghost e0: Expr, ghost lo: nat, ghost bytes: nat) returns (n: Node)
      requires Valid() && Made(n0, e0, lo, bytes)
      modifies this
      ensures Valid() && Ahead() == ParseIndices(tb, e0, old(Ahead())).rest && Owed() == old(Owed())
      ensures iErrorCounter == old(iErrorCounter) + ParseIndices(tb, e0, old(Ahead())).errors
      ensures Made(n, ParseIndices(tb, e0, old(Ahead())).result, lo, bytes)
      decreases |Ahead()|, 5, 0
    {
      n := n0;
      ghost var e := e0;
      while At('[') || At('{')
        invariant Valid() && Made(n, e, lo, bytes) && |Ahead()| <= |old(Ahead())| && iErrorCounter >= old(iErrorCounter)
        invariant Owed() == old(Owed())
        invariant IndicesGoOn(tb, e0, old(Ahead()), e, Ahead(), iErrorCounter - old(iErrorCounter))
        decreases |Ahead()|
      {
        ghost var p := OneIndex(tb, e, Ahead());
        IndicesStep(tb, e0, old(Ahead()), e, Ahead(), iErrorCounter - old(iErrorCounter));
        n := ParseIndex(n, e, lo, bytes);
        e := p.result;
      }
    }

    method ParseIndex(r: Node, ghost e: Expr, ghost lo: nat, ghost bytes: nat) returns (n: Node)
      requires Valid() && Made(r, e, lo, bytes) && (At('[') || At('{'))
      modifies this
      ensures Valid() && Ahead() == OneIndex(tb, e, old(Ahead())).rest && Owed() == old(Owed())
      ensures iErrorCounter == old(iErrorCounter) + OneIndex(tb, e, old(Ahead())).errors
      ensures Made(n, OneIndex(tb, e, old(Ahead())).result, lo, bytes)
      decreases |Ahead()|, 4, 0
    {
      var assoc := At('{');
      NextLexeme();
      var q := NewId();
      var cell := NewId();
      var l := ParseClosedList(if assoc then '}' else ']');
      n := ArrayAccess(q, assoc, Cell(cell, r, l));
      IndexIsNumbered(q, cell, r, l, assoc, lo, NodeCounter);
    }

    /** ex_Expression_r on an expression that was printed, where declared names may stand for constants: the nodes
        mirror it, each with a number of its own, no error is reported, exactly the string constants stepped over
        are counted, and the lexemes behind the expression are left. */
    method ParseWhole(ghost e: Expr, ghost rest: seq<Token>) returns (n: Node)
      requires Valid() && IsExpression(tb, e) && Ends(tb, tb.MAXPREC, rest)
      requires SpellsAll(tb, Print(tb, e, tb.MAXPREC, rest), Ahead())
      modifies this
      ensures Valid() && SpellsAll(tb, rest, Ahead()) && Mirrors(n, e, symbols) && iErrorCounter == old(iErrorCounter)
      ensures Numbered(n, old(NodeCounter), NodeCounter) && cbStringTable >= old(cbStringTable) + StringBytes(n)
      ensures Owed() == old(Owed())
    {
      ParseSpelled(tb, e, rest, Ahead());
      n := ParseExpression(tb.MAXPREC);
    }
  }
}
