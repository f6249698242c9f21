/** Configuration texts as one writes them: with blanks and comments anywhere between symbols, numbers, strings and
    lists. What such a text says is stated here without the functions that read it (lsp.c, confpile.c). */
module Layout {
  import opened Wrappers
  import opened Lisp
  import opened Config

  /** White space, or a comment with the line feed that ends it. */
  datatype Blank = White(ch: char) | Comment(text: string)

  type Gap = seq<Blank>

  /** A character of a string: itself, or behind a backslash. */
  datatype Char = Raw(ch: char) | Escaped(ch: char)

  datatype Item =
    | Word(name: string)
    | Num(m: Numeral)
    | OneLined(cs: seq<Char>)
    | ManyLined(cs: seq<Char>)
    | Odd(ch: char)
    | Sub(items: Items)

  /** Items with gaps before them, and a gap behind the last. */
  datatype Items = Done(gap: Gap) | More(gap: Gap, item: Item, rest: Items)

  // ---------------------------------------------------------------- how it is written

  function WriteBlank(b: Blank): string {
    match b
    case White(ch) => [ch]
    case Comment(text) => ";" + text + "\n"
  }

  function WriteGap(g: Gap, tail: string): string {
    if g == [] then tail else WriteBlank(g[0]) + WriteGap(g[1..], tail)
  }

  function WriteChars(cs: seq<Char>, tail: string): string {
    if cs == [] then tail else (if cs[0].Raw? then [cs[0].ch] else ['\\', cs[0].ch]) + WriteChars(cs[1..], tail)
  }

  function WriteItem(i: Item, tail: string): string
    decreases i
  {
    match i
    case Word(name) => name + tail
    case Num(m) => ShowNumeral(m) + tail
    case OneLined(cs) => ['"'] + WriteChars(cs, ['"'] + tail)
    case ManyLined(cs) => ['"', '"', '"'] + WriteChars(cs, ['"', '"', '"'] + tail)
    case Odd(ch) => [ch] + tail
    case Sub(items) => ['('] + Write(items, [')'] + tail)
  }

  function Write(items: Items, tail: string): string
    decreases items
  {
    match items
    case Done(gap) => WriteGap(gap, tail)
    case More(gap, item, rest) => WriteGap(gap, WriteItem(item, Write(rest, tail)))
  }

  // ---------------------------------------------------------------- what may be written

  predicate LegalGap(g: Gap) {
    forall b :: b in g ==> if b.White? then b.ch in " \t\n\r\U{000C}" else '\n' !in b.text
  }

  predicate IsLetter(ch: char) {
    'a' <= ch <= 'z' || 'A' <= ch <= 'Z'
  }

  predicate InWord(ch: char) {
    IsLetter(ch) || '0' <= ch <= '9' || ch in "!$%&*-+./:<=>?@[]^_{}~"
  }

  predicate LegalWord(name: string) {
    name != [] && (forall ch :: ch in name ==> InWord(ch)) && !('0' <= name[0] <= '9') && name[0] != '-' && name[0] != '+'
  }

  /** A quote in a string of many lines must not be followed by another one. */
  predicate LegalChars(cs: seq<Char>, many: bool) {
    cs == [] || (
      && cs[0].ch != NUL
      && (cs[0].Raw? ==> cs[0].ch != '\\')
      && (cs[0] == Raw('"') ==> many && |cs| > 1 && cs[1] != Raw('"'))
      && (!many ==> cs[0].ch != '\n' && cs[0] != Escaped('n'))
      && LegalChars(cs[1..], many))
  }

  predicate LegalItem(i: Item)
    decreases i
  {
    match i
    case Word(name) => LegalWord(name)
    case Num(m) => IsNumeral(m) && ShowNumeral(m) != [] && StartsNumber(ShowNumeral(m)[0])
    case OneLined(cs) => LegalChars(cs, false)
    case ManyLined(cs) => LegalChars(cs, true)
    case Odd(ch) => !InWord(ch) && ch !in " \t\n\r\U{000C}();\""
    case Sub(items) => Legal(items)
  }

  /** Nothing stands directly behind a word, a number or a string of one line that would be taken for a part of
      it. */
  predicate Apart(i: Item, rest: Items) {
    rest.Done? || rest.gap != []
    || (match i
        case Word(_) => !rest.item.Word? && !rest.item.Num?
        case Num(_) => rest.item.Sub? || rest.item.OneLined? || rest.item.ManyLined? || rest.item.Odd?
        case OneLined(_) => !rest.item.OneLined? && !rest.item.ManyLined?
        case _ => true)
  }

  predicate Legal(items: Items)
    decreases items
  {
    match items
    case Done(gap) => LegalGap(gap)
    case More(gap, item, rest) => LegalGap(gap) && LegalItem(item) && Apart(item, rest) && Legal(rest)
  }

  // ---------------------------------------------------------------- what it says

  /** The digits by their weights. */
  function Weighed(d: string): nat {
    if d == [] then 0 else DigitOf(d[0]) * Power10(|d| - 1) + Weighed(d[1..])
  }

  function Power10(n: nat): nat {
    if n == 0 then 1 else 10 * Power10(n - 1)
  }

  function DigitOf(ch: char): nat {
    match ch
    case '1' => 1
    case '2' => 2
    case '3' => 3
    case '4' => 4
    case '5' => 5
    case '6' => 6
    case '7' => 7
    case '8' => 8
    case '9' => 9
    case _ => 0
  }

  function CharOf(c: Char): char {
    match c
    case Raw(ch) => ch
    case Escaped('n') => '\n'
    case Escaped('r') => '\r'
    case Escaped('t') => '\t'
    case Escaped(ch) => ch
  }

  function Characters(cs: seq<Char>): string {
    if cs == [] then [] else [CharOf(cs[0])] + Characters(cs[1..])
  }

  function Said(i: Item): Val
    decreases i
  {
    match i
    case Word(name) => if name == "NIL" || name == "nil" then Nil else Sym(name)
    case Num(m) =>
      if Unread(m.exponent) then Nil
      else if m.fraction.Some? || m.exponent.Some? then Flo(ShowNumeral(m))
      else var n: int := Weighed(m.whole); Int(if m.sign == "-" then -n else n)
    case OneLined(cs) => Str(Characters(cs))
    case ManyLined(cs) => Str(Characters(cs))
    case Odd(_) => Nil
    case Sub(items) => Saying(items)
  }

  function Saying(items: Items): Val
    decreases items
  {
    match items
    case Done(_) => Nil
    case More(_, item, rest) => Cons(Said(item), Saying(rest))
  }

  // ---------------------------------------------------------------- gaps

  /** Reading a list goes on in the same way. */
  predicate SameAhead(s: string, t: string) {
    SkipBlank(s) == SkipBlank(t)
  }

  lemma {:induction false} AfterComment(text: string, x: string)
    requires '\n' !in text
    ensures AfterLine(text + "\n" + x) == "\n" + x
  {
    var s := text + "\n" + x;
    if text == [] {
      assert s == "\n" + x;
    } else {
      assert text[0] in text && s[1..] == text[1..] + "\n" + x;
      AfterComment(text[1..], x);
    }
  }

  lemma BlankIsSkipped(b: Blank, x: string)
    requires LegalGap([b])
    ensures SameAhead(WriteBlank(b) + x, x)
  {
    assert b in [b];
    if b.Comment? {
      AfterComment(b.text, x);
      assert (WriteBlank(b) + x)[1..] == b.text + "\n" + x;
      assert ("\n" + x)[1..] == x;
    } else {
      assert ([b.ch] + x)[1..] == x;
    }
  }

  lemma {:induction false} GapIsSkipped(g: Gap, x: string)
    requires LegalGap(g)
    ensures SameAhead(WriteGap(g, x), x)
  {
    if g != [] {
      assert g[0] in g && [g[0]][0] == g[0];
      BlankIsSkipped(g[0], WriteGap(g[1..], x));
      GapIsSkipped(g[1..], x);
    }
  }

  /** A comment behind a token is read as the line feed that ends it. */
  lemma DropIsSkipped(s: string)
    ensures SameAhead(DropComment(s), s)
  {
  }

  lemma ReadsSame(s: string, t: string)
    requires SameAhead(s, t)
    ensures ReadList(s) == ReadList(t)
  {
  }

  // ---------------------------------------------------------------- numbers and strings

  lemma {:induction false} WeighedSnoc(d: string, ch: char)
    requires AllDigits(d + [ch])
    ensures Weighed(d + [ch]) == 10 * Weighed(d) + DigitOf(ch)
    decreases |d|
  {
    var s := d + [ch];
    if d == [] {
      assert s[1..] == [];
    } else {
      assert s[1..] == d[1..] + [ch];
      assert forall i :: 0 <= i < |d[1..] + [ch]| ==> (d[1..] + [ch])[i] == s[i + 1];
      WeighedSnoc(d[1..], ch);
      var x, p := DigitOf(d[0]), Power10(|d| - 1);
      assert Power10(|s| - 1) == 10 * p;
      assert x * (10 * p) == 10 * (x * p);
    }
  }

  lemma {:induction false} DecimalIsWeighed(d: string)
    requires AllDigits(d)
    ensures Decimal(d) == Weighed(d)
    decreases |d|
  {
    if d != [] {
      var front, last := d[..|d| - 1], d[|d| - 1];
      DecimalIsWeighed(front);
      assert d == front + [last];
      WeighedSnoc(front, last);
      assert IsDigit(last);
      assert DigitValue(last) == DigitOf(last);
    }
  }

  lemma NumberSaid(m: Numeral)
    requires IsNumeral(m)
    ensures Numeric(ShowNumeral(m)) == Said(Num(m))
  {
    NumericOfNumeral(m);
    if m.fraction.None? && m.exponent.None? {
      assert ShowNumeral(m) == m.sign + (m.whole + "");
      SkipSignAndWhole(m.sign, m.whole, "");
      assert m.whole + "" == m.whole;
      DecimalIsWeighed(m.whole);
      assert (m.whole + "")[..|m.whole|] == m.whole;
    }
  }

  lemma {:induction false} NumeralInNumber(m: Numeral)
    requires IsNumeral(m)
    ensures forall i :: 0 <= i < |ShowNumeral(m)| ==> InNumber(ShowNumeral(m)[i])
  {
    forall i | 0 <= i < |ShowNumeral(m)| ensures InNumber(ShowNumeral(m)[i]) {
    }
  }

  lemma {:induction false} OneLineSaid(cs: seq<Char>, got: string, tail: string)
    requires LegalChars(cs, false)
    ensures OneLine(WriteChars(cs, ['"'] + tail), got) == (Some(got + Characters(cs)), tail)
    decreases |cs|
  {
    var t := WriteChars(cs, ['"'] + tail);
    if cs == [] {
      assert t[1..] == tail && got + Characters(cs) == got;
    } else {
      var c, rest := cs[0], WriteChars(cs[1..], ['"'] + tail);
      OneLineSaid(cs[1..], got + [CharOf(c)], tail);
      assert got + [CharOf(c)] + Characters(cs[1..]) == got + Characters(cs);
      assert t == (if c.Raw? then [c.ch] else ['\\', c.ch]) + rest;
      assert if c.Raw? then t[1..] == rest else t[2..] == rest;
    }
  }

  lemma {:induction false} ManyLinesSaid(cs: seq<Char>, got: string, tail: string)
    requires LegalChars(cs, true)
    ensures ManyLines(WriteChars(cs, ['"', '"', '"'] + tail), got) == (got + Characters(cs), tail)
    decreases |cs|
  {
    var t := WriteChars(cs, ['"', '"', '"'] + tail);
    if cs == [] {
      assert t[3..] == tail && got + Characters(cs) == got;
    } else {
      var c, rest := cs[0], WriteChars(cs[1..], ['"', '"', '"'] + tail);
      ManyLinesSaid(cs[1..], got + [CharOf(c)], tail);
      assert got + [CharOf(c)] + Characters(cs[1..]) == got + Characters(cs);
      assert t == (if c.Raw? then [c.ch] else ['\\', c.ch]) + rest;
      assert if c.Raw? then t[1..] == rest else t[2..] == rest;
      if c == Raw('"') {
        assert rest[0] == (if cs[1].Raw? then cs[1].ch else '\\') != '"';
      }
    }
  }

  lemma {:induction false} NoNulSaid(cs: seq<Char>, many: bool)
    requires LegalChars(cs, many)
    ensures NoNul(Characters(cs))
  {
    if cs != [] {
      NoNulSaid(cs[1..], many);
    }
  }

  // ---------------------------------------------------------------- items

  lemma WordCharacters(ch: char)
    ensures InWord(ch) <==> IsConst(ch)
  {
  }

  /** What `tail` starts with is no part of the item before it. */
  predicate Ends(i: Item, tail: string) {
    tail == []
    || (match i
        case Word(_) => !IsConst(tail[0])
        case Num(_) => !InNumber(tail[0])
        case OneLined(_) => tail[0] != '"'
        case _ => true)
  }

  /** What an item starts with. */
  lemma StartOfItem(i: Item, tail: string)
    requires LegalItem(i)
    ensures var t := WriteItem(i, tail);
      && t != [] && SkipBlank(t) == t && t[0] != ')'
      && (IsConst(t[0]) ==> i.Word? || i.Num?) && (InNumber(t[0]) ==> i.Word? || i.Num?)
      && (t[0] == '"' ==> i.OneLined? || i.ManyLined?)
  {
    var t := WriteItem(i, tail);
    match i
    case Word(name) =>
      assert t[0] == name[0] && name[0] in name;
      WordCharacters(t[0]);
    case Num(m) => assert t[0] == ShowNumeral(m)[0];
    case Odd(ch) => WordCharacters(ch);
    case _ =>
  }

  lemma StartOfGap(g: Gap, x: string)
    requires LegalGap(g) && g != []
    ensures var t := WriteGap(g, x); t != [] && !IsConst(t[0]) && !InNumber(t[0]) && t[0] != '"'
  {
    assert g[0] in g;
    if g[0].White? {
      assert WriteGap(g, x)[0] == g[0].ch;
    } else {
      assert WriteGap(g, x)[0] == ';';
    }
  }

  /** What stands behind an item ends it. */
  lemma ApartEnds(i: Item, rest: Items, tail: string)
    requires LegalItem(i) && Legal(rest) && Apart(i, rest) && (tail != [] ==> tail[0] == ')')
    ensures Ends(i, Write(rest, tail))
  {
    if rest.gap != [] {
      StartOfGap(rest.gap, if rest.Done? then tail else WriteItem(rest.item, Write(rest.rest, tail)));
    } else if rest.More? {
      StartOfItem(rest.item, Write(rest.rest, tail));
    }
  }

  lemma WordIsRead(name: string, tail: string)
    requires LegalWord(name) && Ends(Word(name), tail)
    ensures ReadExpr(name + tail) == (Said(Word(name)), DropComment(tail))
  {
    forall k | 0 <= k < |name| ensures IsConst(name[k]) {
      assert name[k] in name;
      WordCharacters(name[k]);
    }
    SpanOfPrefix(IsConst, name, tail);
    assert (name + tail)[..|name|] == name && (name + tail)[|name|..] == tail && (name + tail)[0] == name[0];
  }

  lemma NumIsRead(m: Numeral, tail: string)
    requires LegalItem(Num(m)) && Ends(Num(m), tail)
    ensures ReadExpr(ShowNumeral(m) + tail) == (Said(Num(m)), DropComment(tail))
  {
    var d := ShowNumeral(m);
    NumeralInNumber(m);
    SpanOfPrefix(InNumber, d, tail);
    assert (d + tail)[..|d|] == d && (d + tail)[|d|..] == tail && (d + tail)[0] == d[0];
    NumberSaid(m);
  }

  lemma UpToNulSaid(cs: seq<Char>, many: bool)
    requires LegalChars(cs, many)
    ensures UpToNul(Characters(cs)) == Characters(cs) && [] + Characters(cs) == Characters(cs)
  {
    NoNulSaid(cs, many);
    UpToNulAll(Characters(cs));
  }

  lemma OneLinedIsRead(cs: seq<Char>, tail: string)
    requires LegalChars(cs, false) && Ends(OneLined(cs), tail)
    ensures ReadExpr(WriteItem(OneLined(cs), tail)) == (Said(OneLined(cs)), tail)
  {
    var t := WriteChars(cs, ['"'] + tail);
    ReadQuoted(t);
    OneLineSaid(cs, [], tail);
    UpToNulSaid(cs, false);
    if cs == [] {
      assert t == ['"'] + tail;
    } else {
      assert t[0] == if cs[0].Raw? then cs[0].ch else '\\';
    }
  }

  lemma ManyLinedIsRead(cs: seq<Char>, tail: string)
    requires LegalChars(cs, true)
    ensures ReadExpr(WriteItem(ManyLined(cs), tail)) == (Said(ManyLined(cs)), tail)
  {
    var t := WriteChars(cs, ['"', '"', '"'] + tail);
    var u := ['"', '"'] + t;
    assert WriteItem(ManyLined(cs), tail) == ['"'] + u;
    ReadQuoted(u);
    assert u[2..] == t;
    ManyLinesSaid(cs, [], tail);
    UpToNulSaid(cs, true);
  }

  /** An item is read as what it says, and reading goes on behind it. */
  lemma {:induction false} ItemIsRead(i: Item, tail: string)
    requires LegalItem(i) && Ends(i, tail)
    ensures WriteItem(i, tail) != []
    ensures var r := ReadExpr(WriteItem(i, tail)); r.0 == Said(i) && SameAhead(r.1, tail)
    decreases i, 1
  {
    StartOfItem(i, tail);
    DropIsSkipped(tail);
    match i
    case Word(name) => WordIsRead(name, tail);
    case Num(m) => NumIsRead(m, tail);
    case OneLined(cs) => OneLinedIsRead(cs, tail);
    case ManyLined(cs) => ManyLinedIsRead(cs, tail);
    case Odd(ch) =>
      WordCharacters(ch);
      assert ([ch] + tail)[1..] == tail;
    case Sub(items) =>
      var t := Write(items, [')'] + tail);
      LayoutIsRead(items, [')'] + tail);
      assert (['('] + t)[1..] == t && ([')'] + tail)[1..] == tail;
  }

  /** However it is laid out and commented, a list is read as what its items say. */
  lemma {:induction false} LayoutIsRead(items: Items, tail: string)
    requires Legal(items) && (tail != [] ==> tail[0] == ')')
    ensures ReadList(Write(items, tail)) == (Saying(items), if tail == [] then [] else tail[1..])
    decreases items, 0
  {
    match items
    case Done(gap) =>
      GapIsSkipped(gap, tail);
      ReadsSame(Write(items, tail), tail);
    case More(gap, item, rest) =>
      var u := Write(rest, tail);
      var t := WriteItem(item, u);
      GapIsSkipped(gap, t);
      ReadsSame(Write(items, tail), t);
      StartOfItem(item, u);
      ApartEnds(item, rest, tail);
      ItemIsRead(item, u);
      ReadsSame(ReadExpr(t).1, u);
      LayoutIsRead(rest, tail);
  }

  // ---------------------------------------------------------------- configurations

  /** An item that gives a key no value. */
  predicate IsNothing(i: Item) {
    match i
    case Word(name) => name == "NIL" || name == "nil"
    case Num(m) => Unread(m.exponent)
    case Odd(_) => true
    case Sub(items) => items.Done?
    case _ => false
  }

  /** The tree of a text: keys and values take turns; what has no value is left out, and a key that is no word, or
      whose list comes to nothing, makes the text wrong. */
  function TreeOf(items: Items): Option<Forest>
    decreases items
  {
    match items
    case Done(_) => Some([])
    case More(_, _, Done(_)) => Some([])
    case More(_, key, More(_, value, rest)) =>
      if IsNothing(value) then TreeOf(rest)
      else if !key.Word? || IsNothing(key) || TreeOf(rest).None? then None
      else
        var others := TreeOf(rest).value;
        match value
        case Word(name) => Some([Leaf(key.name, Text(name))] + others)
        case OneLined(cs) => Some([Leaf(key.name, Text(Characters(cs)))] + others)
        case ManyLined(cs) => Some([Leaf(key.name, Text(Characters(cs)))] + others)
        case Num(m) =>
          if m.fraction.Some? || m.exponent.Some? then Some([Leaf(key.name, Real(ShowNumeral(m)))] + others)
          else
            var n: int := Weighed(m.whole);
            Some([Leaf(key.name, Number(if m.sign == "-" then -n else n))] + others)
        case Sub(sub) =>
          if TreeOf(sub).None? || TreeOf(sub).value == [] then None
          else Some([Branch(key.name, TreeOf(sub).value)] + others)
        case Odd(_) => None
  }

  lemma NothingSaid(i: Item)
    ensures Said(i) == Nil <==> IsNothing(i)
  {
  }

  lemma {:induction false} TreeOfSaying(items: Items)
    ensures ToForest(RemoveNil(Saying(items))) == TreeOf(items)
    ensures RemoveNil(Saying(items)) == Nil <==> TreeOf(items) == Some([])
    decreases items
  {
    match items
    case Done(_) =>
    case More(_, _, Done(_)) =>
    case More(_, key, More(_, value, rest)) =>
      TreeOfSaying(rest);
      NothingSaid(value);
      NothingSaid(key);
      if value.Sub? {
        TreeOfSaying(value.items);
      }
  }

  /** Whatever its gaps, a text compiles to the tree of what it says. */
  lemma CompileLayout(items: Items)
    requires Legal(items)
    ensures Compile(Write(items, "")) == TreeOf(items)
  {
    LayoutIsRead(items, "");
    TreeOfSaying(items);
  }

  /** A comment takes the rest of its line and nothing else. */
  lemma CommentIsSkipped(c: string, b: string)
    requires '\n' !in c
    ensures ReadList(";" + c + "\n" + b) == ReadList(b)
    ensures ReadList(";" + c) == (Nil, "")
  {
    var x := Comment(c);
    assert WriteBlank(x) + b == ";" + c + "\n" + b;
    BlankIsSkipped(x, b);
    ReadsSame(WriteBlank(x) + b, b);
    AfterLastComment(c);
    assert (";" + c)[1..] == c;
  }

  lemma {:induction false} AfterLastComment(c: string)
    requires '\n' !in c
    ensures AfterLine(c) == ""
  {
    if c != [] {
      assert c[0] in c;
      AfterLastComment(c[1..]);
    }
  }

  /** Behind a word it is read as the end of the line. */
  lemma CommentBehindWord(name: string, c: string, b: string)
    requires LegalWord(name) && name != "NIL" && name != "nil" && '\n' !in c
    ensures ReadExpr(name + (";" + c + "\n" + b)) == (Sym(name), "\n" + b)
  {
    var tail := ";" + c + "\n" + b;
    WordIsRead(name, tail);
    assert tail[1..] == c + "\n" + b;
    AfterComment(c, b);
  }

  // ---------------------------------------------------------------- texts that end too early

  lemma {:induction false} OneLineGoesOn(cs: seq<Char>, got: string, x: string)
    requires LegalChars(cs, false)
    ensures OneLine(WriteChars(cs, x), got) == OneLine(x, got + Characters(cs))
    decreases |cs|
  {
    if cs == [] {
      assert got + Characters(cs) == got;
    } else {
      var c, rest := cs[0], WriteChars(cs[1..], x);
      OneLineGoesOn(cs[1..], got + [CharOf(c)], x);
      assert got + [CharOf(c)] + Characters(cs[1..]) == got + Characters(cs);
      assert WriteChars(cs, x) == (if c.Raw? then [c.ch] else ['\\', c.ch]) + rest;
    }
  }

  /** A string that is not closed ends with the text, and one with a line feed, raw or escaped, is nothing. */
  lemma BrokenStrings(cs: seq<Char>, x: string)
    requires LegalChars(cs, false) && cs != []
    ensures ReadExpr(['"'] + WriteChars(cs, "")) == (Str(Characters(cs)), "")
    ensures ReadExpr(['"'] + WriteChars(cs, "\n" + x)) == (Nil, x)
    ensures ReadExpr(['"'] + WriteChars(cs, "\\n" + x)) == (Nil, x)
  {
    UpToNulSaid(cs, false);
    BrokenString(cs, "");
    BrokenString(cs, "\n" + x);
    BrokenString(cs, "\\n" + x);
    assert ("\n" + x)[1..] == x && ("\\n" + x)[2..] == x;
  }

  lemma BrokenString(cs: seq<Char>, x: string)
    requires LegalChars(cs, false) && cs != []
    ensures ReadExpr(['"'] + WriteChars(cs, x)) ==
              var (got, rest) := OneLine(x, Characters(cs)); (if got.Some? then Str(UpToNul(got.value)) else Nil, rest)
  {
    var t := WriteChars(cs, x);
    ReadQuoted(t);
    OneLineGoesOn(cs, [], x);
    assert [] + Characters(cs) == Characters(cs);
    assert t[0] == if cs[0].Raw? then cs[0].ch else '\\';
  }

  /** A list that is not closed ends with the text. */
  lemma UnclosedList(items: Items)
    requires Legal(items)
    ensures ReadExpr(['('] + Write(items, "")) == (Saying(items), "")
  {
    LayoutIsRead(items, "");
    assert (['('] + Write(items, ""))[1..] == Write(items, "");
  }

  // ---------------------------------------------------------------- comments in what was printed

  function CharsOf(s: string): seq<Char> {
    if s == [] then [] else [if s[0] == '"' || s[0] == '\\' then Escaped(s[0]) else Raw(s[0])] + CharsOf(s[1..])
  }

  function NumeralOf(n: int): Numeral {
    Numeral(if n < 0 then "-" else "", Digits(if n < 0 then -n else n), None, None)
  }

  function Indent(n: nat): Gap {
    if n == 0 then [] else [White(' ')] + Indent(n - 1)
  }

  function LineEnd(c: Gap): Gap {
    c + [White('\n')]
  }

  /** The printed level `f`, behind the gap `before` and in front of the gap `close`, with `c` at the end of each
      line. */
  function Laid(f: Forest, before: Gap, offset: nat, c: Gap, close: Gap): Items
    decreases f
  {
    if f == [] then Done(before + close)
    else
      More(before + Indent(offset), Word(f[0].key),
           More([White(' ')], LaidValue(f[0], offset, c), Laid(f[1..], LineEnd(c), offset, c, close)))
  }

  function LaidValue(e: Entry, offset: nat, c: Gap): Item
    decreases e
  {
    match e
    case Leaf(_, Text(s)) => if HasLineBreak(s) then ManyLined(CharsOf(s)) else OneLined(CharsOf(s))
    case Leaf(_, Number(n)) => Num(NumeralOf(n))
    case Leaf(_, Real(digits)) => Word(digits)
    case Branch(_, sub) => Sub(Laid(sub, LineEnd(c), offset + 2, c, Indent(offset) + [White(' ')]))
  }

  lemma {:induction false} WriteTwoGaps(g: Gap, h: Gap, x: string)
    ensures WriteGap(g + h, x) == WriteGap(g, WriteGap(h, x))
  {
    if g == [] {
      assert g + h == h;
    } else {
      assert (g + h)[1..] == g[1..] + h;
      WriteTwoGaps(g[1..], h, x);
    }
  }

  lemma {:induction false} WriteIndent(n: nat, x: string)
    ensures WriteGap(Indent(n), x) == Spaces(n) + x
  {
    if n > 0 {
      assert Indent(n)[1..] == Indent(n - 1);
      WriteIndent(n - 1, x);
      assert Spaces(n) == [' '] + Spaces(n - 1);
    } else {
      assert Spaces(0) + x == x;
    }
  }

  lemma WriteOne(ch: char, x: string)
    ensures WriteGap([White(ch)], x) == [ch] + x
  {
    assert [White(ch)][1..] == [];
  }

  lemma {:induction false} WriteCharsOf(s: string, x: string)
    ensures WriteChars(CharsOf(s), x) == Escape(s) + x && Characters(CharsOf(s)) == s
  {
    if s != [] {
      var cs, head := CharsOf(s), if s[0] == '"' || s[0] == '\\' then ['\\', s[0]] else [s[0]];
      WriteCharsOf(s[1..], x);
      assert cs[1..] == CharsOf(s[1..]);
      assert WriteChars(cs, x) == head + WriteChars(cs[1..], x);
      assert Escape(s) + x == head + (Escape(s[1..]) + x);
      assert s == [s[0]] + s[1..];
    } else {
      assert Escape(s) + x == x;
    }
  }

  /** Without anything at the ends of the lines it is what DumpTree prints. */
  lemma {:induction false} LaidIsShown(f: Forest, before: Gap, offset: nat, close: Gap, tail: string)
    requires Printable(f)
    ensures Write(Laid(f, before, offset, [], close), tail) == WriteGap(before, Show(f, offset) + WriteGap(close, tail))
    decreases f, 0
  {
    if f == [] {
      WriteTwoGaps(before, close, tail);
      assert Show(f, offset) + WriteGap(close, tail) == WriteGap(close, tail);
    } else {
      var end := WriteGap(close, tail);
      var rest := Show(f[1..], offset) + end;
      assert LineEnd([]) == [White('\n')];
      LaidIsShown(f[1..], LineEnd([]), offset, close, tail);
      WriteOne('\n', rest);
      var behind := ['\n'] + rest;
      LaidValueIsShown(f[0], offset, behind);
      WriteOne(' ', WriteItem(LaidValue(f[0], offset, []), behind));
      var line := f[0].key + ([' '] + WriteItem(LaidValue(f[0], offset, []), behind));
      WriteTwoGaps(before, Indent(offset), line);
      WriteIndent(offset, line);
      assert Spaces(offset) + line == ShowEntry(f[0], offset) + rest;
      assert ShowEntry(f[0], offset) + rest == Show(f, offset) + end;
    }
  }

  lemma {:induction false} LaidValueIsShown(e: Entry, offset: nat, rest: string)
    requires PrintableEntry(e) && rest != [] && rest[0] == '\n'
    ensures Spaces(offset) + (e.key + ([' '] + WriteItem(LaidValue(e, offset, []), rest))) == ShowEntry(e, offset) + rest[1..]
    decreases e
  {
    match e
    case Leaf(key, value) =>
      LaidLeafIsShown(key, value, offset, rest);
      LineOf(Spaces(offset), key, ShowValue(value), rest);
    case Branch(key, sub) =>
      LaidBranchIsShown(sub, offset, rest);
      var value := "(\n" + Show(sub, offset + 2) + Spaces(offset) + " )";
      LineOf(Spaces(offset), key, value, rest);
      BranchLine(Spaces(offset), key, Show(sub, offset + 2));
  }

  lemma BranchLine(spaces: string, key: string, level: string)
    ensures spaces + key + " (\n" + level + spaces + " )\n" == spaces + key + " " + ("(\n" + level + spaces + " )") + "\n"
  {
  }

  lemma LineOf(spaces: string, key: string, value: string, rest: string)
    requires rest != [] && rest[0] == '\n'
    ensures spaces + (key + ([' '] + (value + rest))) == spaces + key + " " + value + "\n" + rest[1..]
  {
    assert rest == "\n" + rest[1..];
  }

  lemma LaidLeafIsShown(key: string, value: Value, offset: nat, rest: string)
    requires PrintableEntry(Leaf(key, value))
    ensures WriteItem(LaidValue(Leaf(key, value), offset, []), rest) == ShowValue(value) + rest
  {
    match value
    case Text(s) =>
      var q := QuoteFor(s);
      WriteCharsOf(s, q + rest);
      assert q + (Escape(s) + (q + rest)) == q + Escape(s) + q + rest;
    case Number(n) =>
      assert ShowNumeral(NumeralOf(n)) == ShowInt(n);
    case Real(_) =>
  }

  lemma {:induction false} LaidBranchIsShown(sub: Forest, offset: nat, rest: string)
    requires Printable(sub)
    ensures var close := Indent(offset) + [White(' ')];
      WriteItem(Sub(Laid(sub, LineEnd([]), offset + 2, [], close)), rest)
      == "(\n" + Show(sub, offset + 2) + Spaces(offset) + " )" + rest
    decreases sub, 1
  {
    var close := Indent(offset) + [White(' ')];
    var tail, level := [')'] + rest, Show(sub, offset + 2);
    assert LineEnd([]) == [White('\n')];
    LaidIsShown(sub, LineEnd([]), offset + 2, close, tail);
    WriteTwoGaps(Indent(offset), [White(' ')], tail);
    WriteOne(' ', tail);
    WriteIndent(offset, [' '] + tail);
    WriteOne('\n', level + WriteGap(close, tail));
    assert ['('] + (['\n'] + (level + (Spaces(offset) + ([' '] + tail)))) == "(\n" + level + Spaces(offset) + " )" + rest;
  }

  lemma {:induction false} IndentIsLegal(n: nat)
    ensures LegalGap(Indent(n))
  {
    if n > 0 {
      IndentIsLegal(n - 1);
    }
  }

  lemma {:induction false} CharsAreLegal(s: string)
    requires NoNul(s)
    ensures LegalChars(CharsOf(s), true) && (!HasLineBreak(s) ==> LegalChars(CharsOf(s), false))
  {
    if s != [] {
      CharsAreLegal(s[1..]);
      assert CharsOf(s)[1..] == CharsOf(s[1..]);
      if !HasLineBreak(s) {
        assert s[0] != '\n' && s[0] != '\r';
        forall i | 0 <= i < |s[1..]| ensures s[1..][i] != '\n' && s[1..][i] != '\r' {
          assert s[1..][i] == s[i + 1];
        }
      }
    }
  }

  lemma NumberIsLegal(n: int)
    ensures LegalItem(Num(NumeralOf(n))) && Said(Num(NumeralOf(n))) == Int(n)
  {
    var m := NumeralOf(n);
    assert ShowNumeral(m) == ShowInt(n);
    NumberSaid(m);
    NumericOfInt(n);
  }

  lemma KeyIsLegal(key: string)
    requires IsKey(key)
    ensures LegalWord(key)
  {
    forall ch | ch in key ensures InWord(ch) {
      WordCharacters(ch);
    }
  }

  /** The tree is that of the printed text, whatever comments and blanks stand at the ends of its lines. */
  lemma {:induction false} LaidSaysTree(f: Forest, before: Gap, offset: nat, c: Gap, close: Gap)
    requires Printable(f) && LegalGap(before) && LegalGap(c) && LegalGap(close)
    ensures Legal(Laid(f, before, offset, c, close)) && TreeOf(Laid(f, before, offset, c, close)) == Some(f)
    decreases f
  {
    if f != [] {
      IndentIsLegal(offset);
      KeyIsLegal(f[0].key);
      LaidValueSays(f[0], offset, c);
      LaidSaysTree(f[1..], LineEnd(c), offset, c, close);
      assert f == [f[0]] + f[1..];
    }
  }

  lemma {:induction false} LaidValueSays(e: Entry, offset: nat, c: Gap)
    requires PrintableEntry(e) && LegalGap(c)
    ensures var i := LaidValue(e, offset, c);
      && LegalItem(i) && !IsNothing(i) && !i.Word? && !i.Odd?
      && match e
         case Leaf(_, Text(s)) => (i.OneLined? || i.ManyLined?) && Characters(i.cs) == s
         case Leaf(_, Number(n)) => i.Num? && Said(i) == Int(n) && i.m.fraction.None? && i.m.exponent.None?
         case Leaf(_, _) => false
         case Branch(_, sub) => i.Sub? && TreeOf(i.items) == Some(sub)
    decreases e
  {
    match e
    case Leaf(_, Text(s)) =>
      CharsAreLegal(s);
      WriteCharsOf(s, "");
    case Leaf(_, Number(n)) => NumberIsLegal(n);
    case Branch(_, sub) =>
      IndentIsLegal(offset);
      LaidSaysTree(sub, LineEnd(c), offset + 2, c, Indent(offset) + [White(' ')]);
  }

  /** A tree that was printed and commented compiles to itself; without comments that is the printed text. */
  lemma CommentedPrint(f: Forest, c: Gap)
    requires Printable(f) && LegalGap(c)
    ensures Compile(Write(Laid(f, [], 0, c, []), "")) == Some(f)
    ensures Write(Laid(f, [], 0, [], []), "") == Show(f, 0)
  {
    LaidSaysTree(f, [], 0, c, []);
    CompileLayout(Laid(f, [], 0, c, []));
    LaidIsShown(f, [], 0, [], "");
    assert Show(f, 0) + "" == Show(f, 0);
  }
}
