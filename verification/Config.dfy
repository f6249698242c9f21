/** Configurations (confpile.c): from a list that was read to a tree of keys, and back to text. */
module Config {
  import opened Wrappers
  import opened Lisp

  /** The value of a key; a real is the characters that the reader saw. */
  datatype Value = Text(text: string) | Number(n: int) | Real(digits: string)

  datatype Entry = Leaf(key: string, value: Value) | Branch(key: string, sub: Forest)

  /** The keys of one level, in order. */
  type Forest = seq<Entry>

  // ---------------------------------------------------------------- the list as a tree

  /** RemoveNil: drops each key whose value is NIL or missing, with the value. */
  function RemoveNil(q: Val): Val
    decreases q
  {
    match q
    case Cons(key, Cons(r, rest)) =>
      if r == Nil then RemoveNil(rest)
      else Cons(key, Cons(if r.Cons? then RemoveNil(r) else r, RemoveNil(rest)))
    case _ => Nil
  }

  /** The tree that CountSubTree accepts, or nothing where it reports a syntax error. */
  function ToForest(q: Val): Option<Forest>
    decreases q, 0
  {
    match q
    case Cons(Sym(key), Cons(r, rest)) =>
      var entry, others := ToEntry(key, r), ToForest(rest);
      if entry.None? || others.None? then None else Some([entry.value] + others.value)
    case Cons(_, _) => None
    case _ => Some([])
  }

  function ToEntry(key: string, r: Val): Option<Entry>
    decreases r, 1
  {
    match r
    case Nil => None
    case Cons(_, _) =>
      var sub := ToForest(r);
      if sub.None? then None else Some(Branch(key, sub.value))
    case Str(text) => Some(Leaf(key, Text(text)))
    case Sym(text) => Some(Leaf(key, Text(text)))
    case Int(n) => Some(Leaf(key, Number(n)))
    case Flo(digits) => Some(Leaf(key, Real(digits)))
  }

  /** What cft_ReadTextConfig makes of a text. */
  function Compile(text: string): Option<Forest> {
    ToForest(RemoveNil(ReadList(text).0))
  }

  // ---------------------------------------------------------------- the tree as text

  function Digits(n: nat): (r: string)
    ensures r != [] && forall i :: 0 <= i < |r| ==> IsDigit(r[i])
  {
    if n < 10 then [(48 + n) as char] else Digits(n / 10) + [(48 + n % 10) as char]
  }

  function ShowInt(n: int): string {
    if n < 0 then ['-'] + Digits(-n) else Digits(n)
  }

  function Spaces(n: nat): string {
    seq(n, _ => ' ')
  }

  function Escape(s: string): string {
    if s == [] then []
    else (if s[0] == '"' || s[0] == '\\' then ['\\', s[0]] else [s[0]]) + Escape(s[1..])
  }

  predicate HasLineBreak(s: string) {
    exists i :: 0 <= i < |s| && (s[i] == '\n' || s[i] == '\r')
  }

  function QuoteFor(s: string): string {
    if HasLineBreak(s) then "\"\"\"" else "\""
  }

  function ShowValue(v: Value): string {
    match v
    case Text(text) => QuoteFor(text) + Escape(text) + QuoteFor(text)
    case Number(n) => ShowInt(n)
    case Real(digits) => digits
  }

  /** What DumpTree prints for one level. */
  function Show(f: Forest, offset: nat): string
    decreases f
  {
    if f == [] then [] else ShowEntry(f[0], offset) + Show(f[1..], offset)
  }

  function ShowEntry(e: Entry, offset: nat): string
    decreases e
  {
    match e
    case Leaf(key, value) => Spaces(offset) + key + " " + ShowValue(value) + "\n"
    case Branch(key, sub) => Spaces(offset) + key + " (\n" + Show(sub, offset + 2) + Spaces(offset) + " )\n"
  }

  // ---------------------------------------------------------------- reading back what was printed

  predicate IsKey(key: string) {
    && key != [] && StartsSymbol(key[0]) && (forall i :: 0 <= i < |key| ==> IsConst(key[i]))
    && key != "NIL" && key != "nil"
  }

  predicate NoNul(s: string) {
    forall i :: 0 <= i < |s| ==> s[i] != NUL
  }

  /** Every key is a symbol, texts hold no zero character, branches are not empty, and there are no reals. */
  predicate Printable(f: Forest)
    decreases f
  {
    f == [] || (PrintableEntry(f[0]) && Printable(f[1..]))
  }

  predicate PrintableEntry(e: Entry)
    decreases e
  {
    IsKey(e.key) &&
    match e
    case Leaf(_, Text(text)) => NoNul(text)
    case Leaf(_, Number(_)) => true
    case Leaf(_, Real(_)) => false
    case Branch(_, sub) => sub != [] && Printable(sub)
  }

  /** The list of a tree in front of the list `l`. */
  function Prepend(f: Forest, l: Val): Val
    decreases f
  {
    if f == [] then l else Cons(Sym(f[0].key), Cons(EntryVal(f[0]), Prepend(f[1..], l)))
  }

  function EntryVal(e: Entry): Val
    decreases e
  {
    match e
    case Leaf(_, Text(text)) => Str(text)
    case Leaf(_, Number(n)) => Int(n)
    case Leaf(_, Real(digits)) => Flo(digits)
    case Branch(_, sub) => Prepend(sub, Nil)
  }

  lemma {:induction false} SkipSpaces(n: nat, x: string)
    ensures SkipBlank(Spaces(n) + x) == SkipBlank(x)
  {
    if n == 0 {
      assert Spaces(0) + x == x;
    } else {
      assert (Spaces(n) + x)[1..] == Spaces(n - 1) + x;
      SkipSpaces(n - 1, x);
    }
  }

  lemma ReadListAfter(s: string, t: string)
    requires SkipBlank(s) == SkipBlank(t)
    ensures ReadList(s) == ReadList(t)
  {
  }

  lemma SpanOfPrefix(p: char -> bool, a: string, b: string)
    requires forall i :: 0 <= i < |a| ==> p(a[i])
    requires b == [] || !p(b[0])
    ensures Span(p, a + b) == |a|
  {
    SpanOf(p, a + b, |a|);
  }

  lemma ReadKey(key: string, x: string)
    requires IsKey(key) && x != [] && x[0] == ' '
    ensures SkipBlank(key + x) == key + x && ReadExpr(key + x) == (Sym(key), x)
  {
    SpanOfPrefix(IsConst, key, x);
    assert (key + x)[..|key|] == key && (key + x)[|key|..] == x;
  }

  // ---------------------------------------------------------------- strings

  lemma UpToNulAll(s: string)
    requires NoNul(s)
    ensures UpToNul(s) == s
  {
    SpanOfPrefix(ch => ch != NUL, s, []);
    assert s + [] == s;
  }

  lemma {:induction false} OneLineOf(s: string, got: string, x: string)
    requires !HasLineBreak(s)
    ensures OneLine(Escape(s) + "\"" + x, got) == (Some(got + s), x)
    decreases |s|
  {
    var t := Escape(s) + "\"" + x;
    if s == [] {
      assert t[1..] == x && got + s == got;
    } else {
      assert forall i :: 0 <= i < |s[1..]| ==> s[1..][i] == s[i + 1];
      assert s[0] != '\n' && s[0] != '\r';
      OneLineOf(s[1..], got + [s[0]], x);
      assert got + [s[0]] + s[1..] == got + s;
      var rest := Escape(s[1..]) + "\"" + x;
      if s[0] == '"' || s[0] == '\\' {
        assert t == ['\\', s[0]] + rest && t[2..] == rest;
      } else {
        assert t == [s[0]] + rest && t[1..] == rest;
      }
    }
  }

  lemma {:induction false} ManyLinesOf(s: string, got: string, x: string)
    ensures ManyLines(Escape(s) + "\"\"\"" + x, got) == (got + s, x)
    decreases |s|
  {
    var t := Escape(s) + "\"\"\"" + x;
    if s == [] {
      assert t[3..] == x && got + s == got;
    } else {
      ManyLinesOf(s[1..], got + [s[0]], x);
      assert got + [s[0]] + s[1..] == got + s;
      var rest := Escape(s[1..]) + "\"\"\"" + x;
      if s[0] == '"' || s[0] == '\\' {
        assert t == ['\\', s[0]] + rest && t[2..] == rest;
      } else {
        assert t == [s[0]] + rest && t[1..] == rest;
      }
    }
  }

  lemma EscapeStarts(s: string)
    ensures s != [] ==> Escape(s) != [] && Escape(s)[0] != '"'
  {
  }

  lemma QuotedOneLine(s: string, x: string)
    requires NoNul(s) && !HasLineBreak(s) && x != [] && x[0] == '\n'
    ensures Quoted(Escape(s) + "\"" + x) == (Str(s), x)
  {
    var t := Escape(s) + "\"" + x;
    OneLineOf(s, [], x);
    UpToNulAll(s);
    EscapeStarts(s);
    assert [] + s == s;
    if s == [] {
      assert t == "\"" + x;
    } else {
      assert t[0] == Escape(s)[0];
    }
  }

  lemma QuotedManyLines(s: string, x: string)
    requires NoNul(s)
    ensures Quoted(['"', '"'] + (Escape(s) + "\"\"\"" + x)) == (Str(s), x)
  {
    var t := Escape(s) + "\"\"\"" + x;
    ManyLinesOf(s, [], x);
    UpToNulAll(s);
    assert [] + s == s;
    assert (['"', '"'] + t)[2..] == t;
  }

  lemma ReadQuoted(t: string)
    ensures ReadExpr(['"'] + t) == Quoted(t)
  {
    assert (['"'] + t)[1..] == t;
  }

  lemma ShowManyLines(s: string, x: string)
    requires HasLineBreak(s)
    ensures ShowValue(Text(s)) + x == ['"'] + (['"', '"'] + (Escape(s) + "\"\"\"" + x))
  {
  }

  lemma ShowOneLine(s: string, x: string)
    requires !HasLineBreak(s)
    ensures ShowValue(Text(s)) + x == ['"'] + (Escape(s) + "\"" + x)
  {
  }

  lemma ReadText(s: string, x: string)
    requires NoNul(s) && x != [] && x[0] == '\n'
    ensures ReadExpr(ShowValue(Text(s)) + x) == (Str(s), x)
  {
    if HasLineBreak(s) {
      ShowManyLines(s, x);
      QuotedManyLines(s, x);
      ReadQuoted(['"', '"'] + (Escape(s) + "\"\"\"" + x));
    } else {
      ShowOneLine(s, x);
      QuotedOneLine(s, x);
      ReadQuoted(Escape(s) + "\"" + x);
    }
  }

  // ---------------------------------------------------------------- integers

  lemma {:induction false} DecimalOfDigits(n: nat)
    ensures Decimal(Digits(n)) == n
  {
    var d := Digits(n);
    if n < 10 {
      assert d[..|d| - 1] == [];
    } else {
      DecimalOfDigits(n / 10);
      assert d[..|d| - 1] == Digits(n / 10);
    }
  }

  lemma NumericOfInt(n: int)
    ensures Numeric(ShowInt(n)) == Int(n)
  {
    var d := Digits(if n < 0 then -n else n);
    assert AfterSign(ShowInt(n)) == d;
    SpanOfPrefix(IsDigit, d, []);
    assert d + [] == d && d[..|d|] == d && d[|d|..] == [];
    DecimalOfDigits(if n < 0 then -n else n);
  }

  /** The letter, the sign and the digits of an exponent. */
  datatype Exponent = Exponent(letter: char, sign: string, digits: string)

  /** A sign, digits, digits behind a point, and an exponent. */
  datatype Numeral = Numeral(sign: string, whole: string, fraction: Option<string>, exponent: Option<Exponent>)

  predicate IsSign(s: string) {
    s == "" || s == "-" || s == "+"
  }

  predicate AllDigits(s: string) {
    forall i :: 0 <= i < |s| ==> IsDigit(s[i])
  }

  predicate IsExponent(e: Exponent) {
    (e.letter == 'e' || e.letter == 'E') && IsSign(e.sign) && AllDigits(e.digits)
  }

  predicate IsNumeral(m: Numeral) {
    && IsSign(m.sign) && AllDigits(m.whole)
    && (m.fraction.Some? ==> AllDigits(m.fraction.value))
    && (m.exponent.Some? ==> IsExponent(m.exponent.value))
  }

  /** The exponent has a small letter or a minus sign. */
  predicate Unread(e: Option<Exponent>) {
    e.Some? && (e.value.letter == 'e' || e.value.sign == "-")
  }

  function ShowExponent(e: Option<Exponent>): string {
    if e.None? then "" else [e.value.letter] + (e.value.sign + e.value.digits)
  }

  function ShowFraction(f: Option<string>): string {
    if f.None? then "" else "." + f.value
  }

  function ShowNumeral(m: Numeral): string {
    m.sign + (m.whole + (ShowFraction(m.fraction) + ShowExponent(m.exponent)))
  }

  lemma ReadExponent(e: Option<Exponent>)
    requires e.Some? ==> IsExponent(e.value)
    ensures AfterExponent(ShowExponent(e)) != [] <==> Unread(e)
  {
    if e.Some? {
      var sign, d := e.value.sign, e.value.digits;
      var v := ShowExponent(e);
      assert v[1..] == sign + d;
      if sign == "-" {
        assert AfterPlus(v[1..]) == sign + d;
        SpanOf(IsDigit, sign + d, 0);
      } else {
        assert AfterPlus(v[1..]) == d;
        SpanOf(IsDigit, d, |d|);
      }
    }
  }

  /** `x` is what can stand behind the digits of a numeral. */
  predicate GoesOn(x: string, point: bool) {
    x != [] ==> x[0] == 'E' || x[0] == 'e' || (point && x[0] == '.')
  }

  lemma ReadFraction(f: Option<string>, x: string)
    requires (f.Some? ==> AllDigits(f.value)) && GoesOn(x, false)
    ensures AfterFraction(ShowFraction(f) + x) == x
  {
    var u := ShowFraction(f) + x;
    if f.Some? {
      assert u[1..] == f.value + x;
      SpanOfPrefix(IsDigit, f.value, x);
      assert (f.value + x)[|f.value|..] == x;
    } else {
      assert u == x;
    }
  }

  /** cnumeric steps over a capital E only, and recognises the minus sign of an exponent but does not step over
      it: a numeral is no number at all if and only if its exponent has a small e or a minus sign; otherwise it is
      an integer exactly if it has neither point nor exponent. */
  lemma NumericOfNumeral(m: Numeral)
    requires IsNumeral(m)
    ensures Numeric(ShowNumeral(m)).Nil? <==> Unread(m.exponent)
    ensures Numeric(ShowNumeral(m)).Int? <==> m.fraction.None? && m.exponent.None?
  {
    var rest := ShowFraction(m.fraction) + ShowExponent(m.exponent);
    SkipSignAndWhole(m.sign, m.whole, rest);
    ReadFraction(m.fraction, ShowExponent(m.exponent));
    ReadExponent(m.exponent);
  }

  lemma SkipSignAndWhole(sign: string, whole: string, rest: string)
    requires IsSign(sign) && AllDigits(whole) && GoesOn(rest, true)
    ensures var t := AfterSign(sign + (whole + rest));
      t == whole + rest && Span(IsDigit, t) == |whole| && t[|whole|..] == rest
  {
    var t := whole + rest;
    assert t != [] ==> t[0] == if whole != [] then whole[0] else rest[0];
    assert AfterSign(sign + t) == t;
    SpanOfPrefix(IsDigit, whole, rest);
  }

  /** Digits at the start of a string. */
  lemma DigitsOf(s: string) returns (d: string)
    ensures AllDigits(d) && s == d + AfterDigits(s)
  {
    d := s[..Span(IsDigit, s)];
  }

  lemma SignOf(s: string) returns (sign: string)
    ensures IsSign(sign) && s == sign + AfterSign(s)
  {
    sign := if AfterSign(s) == s then "" else s[..1];
  }

  lemma FractionOf(s: string) returns (f: Option<string>)
    ensures (f.Some? ==> AllDigits(f.value)) && s == ShowFraction(f) + AfterFraction(s)
  {
    f := None;
    if s != [] && s[0] == '.' {
      var d := DigitsOf(s[1..]);
      f := Some(d);
      var x := AfterDigits(s[1..]);
      assert AfterFraction(s) == x && s[1..] == d + x;
      assert s == ['.'] + s[1..] == ['.'] + d + x;
    }
  }

  lemma ExponentOf(s: string) returns (e: Option<Exponent>)
    requires AfterExponent(s) == []
    ensures (e.Some? ==> IsExponent(e.value)) && !Unread(e) && s == ShowExponent(e)
  {
    e := None;
    if s != [] {
      var d := DigitsOf(AfterPlus(s[1..]));
      var sign := if AfterPlus(s[1..]) == s[1..] then "" else "+";
      e := Some(Exponent('E', sign, d));
      assert s[1..] == sign + AfterPlus(s[1..]);
      assert s == "E" + s[1..];
    }
  }

  /** The characters that are a number are exactly those of a numeral whose exponent, if any, has a capital E and no
      minus sign. */
  lemma NumericAccepts(s: string)
    ensures !Numeric(s).Nil? <==> exists m :: IsNumeral(m) && !Unread(m.exponent) && s == ShowNumeral(m)
  {
    if !Numeric(s).Nil? {
      var sign := SignOf(s);
      var whole := DigitsOf(AfterSign(s));
      var u := AfterDigits(AfterSign(s));
      var f := FractionOf(u);
      var e := ExponentOf(AfterFraction(u));
      assert s == ShowNumeral(Numeral(sign, whole, f, e));
    }
    forall m | IsNumeral(m) && !Unread(m.exponent) && s == ShowNumeral(m) ensures !Numeric(s).Nil? {
      NumericOfNumeral(m);
    }
  }

  /** Numerals without sign and fraction. */
  lemma NumericOfPlain(whole: string, e: Exponent)
    requires AllDigits(whole) && IsExponent(e)
    ensures Numeric(whole + ([e.letter] + (e.sign + e.digits))).Nil? <==> Unread(Some(e))
  {
    var m := Numeral("", whole, None, Some(e));
    var x := [e.letter] + (e.sign + e.digits);
    assert ShowNumeral(m) == whole + x;
    NumericOfNumeral(m);
  }

  lemma SmallIsNoNumber()
    ensures Numeric("1E-5") == Nil
  {
    NumericOfPlain("1", Exponent('E', "-", "5"));
    assert "1" + (['E'] + ("-" + "5")) == "1E-5";
  }

  lemma SmallLetterIsNoNumber()
    ensures Numeric("1e5") == Nil
  {
    NumericOfPlain("1", Exponent('e', "", "5"));
    assert "1" + (['e'] + ("" + "5")) == "1e5";
  }

  lemma ReadInt(n: int, x: string)
    requires x != [] && x[0] == '\n'
    ensures ReadExpr(ShowInt(n) + x) == (Int(n), x)
  {
    var d := ShowInt(n);
    SpanOfPrefix(InNumber, d, x);
    assert (d + x)[..|d|] == d && (d + x)[|d|..] == x;
    NumericOfInt(n);
  }

  // ---------------------------------------------------------------- levels

  /** Reading what was printed for a level, with more text behind it. */
  lemma {:induction false} ReadShow(f: Forest, offset: nat, tail: string)
    requires Printable(f)
    ensures ReadList(Show(f, offset) + tail) == (Prepend(f, ReadList(tail).0), ReadList(tail).1)
    decreases f, 1
  {
    if f == [] {
      assert Show(f, offset) + tail == tail;
    } else {
      var rest := Show(f[1..], offset) + tail;
      ReadShow(f[1..], offset, tail);
      ReadShowEntry(f[0], offset, rest);
      assert Show(f, offset) + tail == ShowEntry(f[0], offset) + rest;
    }
  }

  lemma {:induction false} ReadShowEntry(e: Entry, offset: nat, rest: string)
    requires PrintableEntry(e)
    ensures ReadList(ShowEntry(e, offset) + rest) == (Cons(Sym(e.key), Cons(EntryVal(e), ReadList(rest).0)), ReadList(rest).1)
    decreases e, 1
  {
    EntryIsKeyAndBody(e, offset, rest);
    if e.Leaf? {
      ReadLeaf(e, rest);
    } else {
      ReadBranch(e, offset, rest);
    }
    var body := Body(e, offset, rest);
    assert Reads(body, EntryVal(e), rest);
    ReadKeyAndBody(e.key, offset, body, EntryVal(e), rest);
  }

  /** What is printed behind the key and the space after it. */
  function Body(e: Entry, offset: nat, rest: string): string {
    match e
    case Leaf(_, value) => ShowValue(value) + (['\n'] + rest)
    case Branch(_, sub) => ['('] + (['\n'] + (Show(sub, offset + 2) + Close(offset, rest)))
  }

  function Close(offset: nat, rest: string): string {
    Spaces(offset) + ([' '] + ([')'] + (['\n'] + rest)))
  }

  lemma EntryIsKeyAndBody(e: Entry, offset: nat, rest: string)
    ensures ShowEntry(e, offset) + rest == Spaces(offset) + (e.key + ([' '] + Body(e, offset, rest)))
  {
    if e.Leaf? {
      Regroup(Spaces(offset), e.key, ShowValue(e.value) + "\n", rest);
      assert (ShowValue(e.value) + "\n") + rest == Body(e, offset, rest);
      assert ShowEntry(e, offset) == Spaces(offset) + e.key + " " + (ShowValue(e.value) + "\n");
    } else {
      var shown := "(\n" + Show(e.sub, offset + 2) + Spaces(offset) + " )\n";
      Regroup(Spaces(offset), e.key, shown, rest);
      assert shown + rest == Body(e, offset, rest);
      assert ShowEntry(e, offset) == Spaces(offset) + e.key + " " + shown;
    }
  }

  lemma Regroup(a: string, b: string, c: string, d: string)
    ensures (a + b + " " + c) + d == a + (b + ([' '] + (c + d)))
  {
  }

  lemma ReadBlank(ch: char, s: string)
    requires IsSpace(ch)
    ensures SkipBlank([ch] + s) == SkipBlank(s) && ReadList([ch] + s) == ReadList(s)
  {
    assert ([ch] + s)[1..] == s;
  }

  /** `s` starts with an expression that reads as `v`, and goes on with a newline and `rest`. */
  predicate Reads(s: string, v: Val, rest: string) {
    s != [] && SkipBlank(s) == s && s[0] != ')' && ReadExpr(s) == (v, ['\n'] + rest)
  }

  lemma ReadOne(s: string, v: Val, rest: string)
    requires Reads(s, v, rest)
    ensures ReadList(s) == (Cons(v, ReadList(rest).0), ReadList(rest).1)
  {
    ReadBlank('\n', rest);
  }

  lemma ReadKeyAndBody(key: string, offset: nat, body: string, v: Val, rest: string)
    requires IsKey(key) && Reads(body, v, rest)
    ensures ReadList(Spaces(offset) + (key + ([' '] + body))) == (Cons(Sym(key), Cons(v, ReadList(rest).0)), ReadList(rest).1)
  {
    var s := key + ([' '] + body);
    SkipSpaces(offset, s);
    ReadListAfter(Spaces(offset) + s, s);
    ReadKey(key, [' '] + body);
    ReadBlank(' ', body);
    ReadOne(body, v, rest);
    assert s[0] == key[0];
  }

  lemma ReadLeaf(e: Entry, rest: string)
    requires e.Leaf? && PrintableEntry(e)
    ensures Reads(ShowValue(e.value) + (['\n'] + rest), EntryVal(e), rest)
  {
    match e.value
    case Text(text) => ReadText(text, ['\n'] + rest);
    case Number(n) => ReadInt(n, ['\n'] + rest);
  }

  lemma {:induction false} ReadBranch(e: Entry, offset: nat, rest: string)
    requires e.Branch? && PrintableEntry(e)
    ensures Reads(Body(e, offset, rest), EntryVal(e), rest)
    decreases e, 0
  {
    var inner := Show(e.sub, offset + 2) + Close(offset, rest);
    ReadShow(e.sub, offset + 2, Close(offset, rest));
    ReadClose(offset, rest);
    ReadBlank('\n', inner);
    ReadParen(['\n'] + inner);
  }

  lemma ReadParen(s: string)
    ensures ReadExpr(['('] + s) == ReadList(s) && SkipBlank(['('] + s) == ['('] + s
  {
    assert (['('] + s)[1..] == s;
  }

  lemma ReadClose(offset: nat, rest: string)
    ensures ReadList(Close(offset, rest)) == (Nil, ['\n'] + rest)
  {
    var s := [')'] + (['\n'] + rest);
    SkipSpaces(offset, [' '] + s);
    ReadListAfter(Close(offset, rest), [' '] + s);
    ReadBlank(' ', s);
    assert s[1..] == ['\n'] + rest;
  }

  // ---------------------------------------------------------------- the round trip

  /** The list of a printable tree has no NIL value, and is the list of that tree. */
  lemma {:induction false} PrintableIsAccepted(f: Forest)
    requires Printable(f)
    ensures RemoveNil(Prepend(f, Nil)) == Prepend(f, Nil)
    ensures ToForest(Prepend(f, Nil)) == Some(f)
    decreases f
  {
    if f != [] {
      PrintableIsAccepted(f[1..]);
      if f[0].Branch? {
        PrintableIsAccepted(f[0].sub);
      }
      assert [f[0]] + f[1..] == f;
    }
  }

  /** Printing a tree and compiling what was printed gives the tree. */
  lemma PrintThenCompile(f: Forest)
    requires Printable(f)
    ensures Compile(Show(f, 0)) == Some(f)
  {
    ReadShow(f, 0, []);
    assert Show(f, 0) + [] == Show(f, 0);
    PrintableIsAccepted(f);
  }

  /** What the reader can return: symbols are tokens other than NIL, strings end at their first zero
      character, and the tail of a list is a list. */
  predicate WellRead(v: Val) {
    match v
    case Sym(s) => IsKey(s)
    case Str(s) => NoNul(s)
    case Cons(a, b) => WellRead(a) && WellRead(b) && (b.Cons? || b.Nil?)
    case _ => true
  }

  lemma {:induction false} ReadIsWellRead(s: string)
    ensures WellRead(ReadList(s).0) && (ReadList(s).0.Cons? || ReadList(s).0.Nil?)
    decreases |s|, 1
  {
    var t := SkipBlank(s);
    if t != [] && t[0] != ')' {
      ExprIsWellRead(t);
      ReadIsWellRead(ReadExpr(t).1);
    }
  }

  lemma {:induction false} ExprIsWellRead(s: string)
    requires s != []
    ensures WellRead(ReadExpr(s).0)
    decreases |s|, 0
  {
    if s[0] == '(' {
      ReadIsWellRead(s[1..]);
    }
  }

  lemma {:induction false} RemoveNilIsWellRead(q: Val)
    requires WellRead(q)
    ensures WellRead(RemoveNil(q)) && (RemoveNil(q).Cons? ==> q.Cons?) && (q.Cons? || q.Nil? ==> RemoveNil(q).Cons? || RemoveNil(q).Nil?)
    decreases q
  {
    match q
    case Cons(key, Cons(r, rest)) =>
      RemoveNilIsWellRead(rest);
      RemoveNilIsWellRead(r);
    case _ =>
  }

  predicate NoReals(f: Forest)
    decreases f
  {
    f == [] || ((match f[0] case Leaf(_, v) => !v.Real? case Branch(_, sub) => NoReals(sub)) && NoReals(f[1..]))
  }

  lemma {:induction false} AcceptedIsPrintable(q: Val)
    requires WellRead(q) && ToForest(q).Some? && NoReals(ToForest(q).value)
    ensures Printable(ToForest(q).value)
    decreases q
  {
    match q
    case Cons(Sym(key), Cons(r, rest)) =>
      var f := ToForest(q).value;
      assert f[1..] == ToForest(rest).value;
      AcceptedIsPrintable(rest);
      if r.Cons? {
        AcceptedIsPrintable(r);
      }
    case _ =>
  }

  /** For every text that compiles to a tree without reals, printing the tree and compiling
      the printed text gives the same tree: strings may hold any characters and trees may nest. */
  lemma RoundTrip(text: string)
    requires Compile(text).Some? && NoReals(Compile(text).value)
    ensures Compile(Show(Compile(text).value, 0)) == Compile(text)
  {
    ReadIsWellRead(text);
    RemoveNilIsWellRead(ReadList(text).0);
    AcceptedIsPrintable(RemoveNil(ReadList(text).0));
    PrintThenCompile(Compile(text).value);
  }

  // ---------------------------------------------------------------- what RemoveNil leaves

  /** Some key, at some depth, has no value. */
  predicate LacksValue(q: Val)
    decreases q
  {
    match q
    case Cons(_, Cons(r, rest)) => r == Nil || LacksValue(r) || LacksValue(rest)
    case Cons(_, _) => true
    case _ => false
  }

  /** Some list that is a value, at some depth, has no key with a value. */
  predicate LosesAll(q: Val)
    decreases q
  {
    match q
    case Cons(_, Cons(r, rest)) => (r.Cons? && (AllNil(r) || LosesAll(r))) || LosesAll(rest)
    case _ => false
  }

  /** No key of the list has a value. */
  predicate AllNil(q: Val)
    decreases q
  {
    match q
    case Cons(_, Cons(r, rest)) => r == Nil && AllNil(rest)
    case _ => true
  }

  lemma {:induction false} NothingIsLeft(q: Val)
    ensures RemoveNil(q) == Nil <==> AllNil(q)
    decreases q
  {
    match q
    case Cons(_, Cons(_, rest)) => NothingIsLeft(rest);
    case _ =>
  }

  /** RemoveNil is documented to remove the symbols that have NIL values. It leaves such a symbol behind
      exactly when no key of some list that is a value has a value. */
  lemma {:induction false} RemoveNilLeaves(q: Val)
    requires WellRead(q)
    ensures LacksValue(RemoveNil(q)) <==> LosesAll(q)
    decreases q
  {
    match q
    case Cons(key, Cons(r, rest)) =>
      NothingIsLeft(r);
      RemoveNilLeaves(r);
      RemoveNilLeaves(rest);
    case _ =>
  }

  /** Such a symbol is a syntax error. */
  lemma {:induction false} LackingIsRejected(q: Val)
    requires LacksValue(q)
    ensures ToForest(q).None?
    decreases q
  {
    match q
    case Cons(_, Cons(r, rest)) =>
      if LacksValue(rest) {
        LackingIsRejected(rest);
      } else if r.Cons? {
        LackingIsRejected(r);
      }
    case _ =>
  }

  /** For instance the text `a(b())` does not compile, although both symbols have empty values. */
  lemma EmptiedBranch()
    ensures Compile("a(b())").None?
  {
    ReadEmptyB();
    assert "(b())"[1..] == "b())";
    assert ReadList("(b())") == (Cons(Cons(Sym("b"), Cons(Nil, Nil)), Nil), "");
    ReadSymbol('a', "(b())");
    assert ['a'] + "(b())" == "a(b())";
  }

  lemma ReadEmptyB()
    ensures ReadList("b())") == (Cons(Sym("b"), Cons(Nil, Nil)), "") && ReadList("") == (Nil, "")
  {
    assert ")"[1..] == "" && "))"[1..] == ")" && "())"[1..] == "))";
    assert ReadList(")") == (Nil, "") && ReadList("))") == (Nil, ")");
    assert ReadList("())") == (Cons(Nil, Nil), "");
    ReadSymbol('b', "())");
    assert ['b'] + "())" == "b())";
  }

  lemma ReadSymbol(ch: char, s: string)
    requires 'a' <= ch <= 'z' && s != [] && s[0] == '('
    ensures ReadExpr([ch] + s) == (Sym([ch]), s) && SkipBlank([ch] + s) == [ch] + s
  {
    SpanOfPrefix(IsConst, [ch], s);
    assert ([ch] + s)[..1] == [ch] && ([ch] + s)[1..] == s;
  }
}
