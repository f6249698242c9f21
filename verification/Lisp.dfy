/** LISP-syntax text (lsp.c): what a text reads as. The class in LispReader.dfy does the reading. */
module Lisp {
  import opened Wrappers

  /** LVAL. A real number is represented by the characters it was read from. */
  datatype Val =
    | Nil
    | Cons(car: Val, cdr: Val)
    | Str(str: string)
    | Sym(sym: string)
    | Int(n: int)
    | Flo(digits: string)

  function Car(v: Val): Val {
    if v.Cons? then v.car else Nil
  }

  function Cdr(v: Val): Val {
    if v.Cons? then v.cdr else Nil
  }

  // ---------------------------------------------------------------- characters

  const NUL: char := '\0'
  const EOF_AS_CHAR: char := 255 as char

  predicate IsSpace(ch: char) {
    ch == '\t' || ch == ' ' || ch == '\U{000C}' || ch == '\r' || ch == '\n'
  }

  /** Letters, digits and !$%&*-+./:<=>?@[]^_{}~ */
  predicate IsConst(ch: char) {
    || ch == '!' || '$' <= ch <= '&' || '*' <= ch <= '+' || '-' <= ch <= ':' || '<' <= ch <= '['
    || ']' <= ch <= '_' || 'a' <= ch <= '{' || '}' <= ch <= '~'
  }

  predicate IsDigit(ch: char) {
    '0' <= ch <= '9'
  }

  /** A character that a number can start with. */
  predicate StartsNumber(ch: char) {
    IsDigit(ch) || ch == '-' || ch == '+'
  }

  predicate InNumber(ch: char) {
    StartsNumber(ch) || ch == 'e' || ch == 'E' || ch == '.'
  }

  predicate StartsSymbol(ch: char) {
    IsConst(ch) && !StartsNumber(ch)
  }

  /** What a character after a backslash stands for. */
  function Unescape(ch: char): char {
    if ch == 't' then '\t' else if ch == 'n' then '\n' else if ch == 'r' then '\r' else ch
  }

  // ---------------------------------------------------------------- blanks and comments

  /** The text from the end of the line on. */
  function AfterLine(s: string): (r: string)
    ensures |r| <= |s|
    ensures r != [] ==> r[0] == '\n'
  {
    if s == [] || s[0] == '\n' then s else AfterLine(s[1..])
  }

  /** getC reads a comment as the newline that ends it. */
  function DropComment(s: string): (r: string)
    ensures |r| <= |s|
    ensures r != [] ==> r[0] != ';'
  {
    if s != [] && s[0] == ';' then AfterLine(s[1..]) else s
  }

  function SkipBlank(s: string): (r: string)
    ensures |r| <= |s|
    ensures r != [] ==> !IsSpace(r[0]) && r[0] != ';'
    decreases |s|, if s != [] && s[0] == ';' then 1 else 0
  {
    var t := DropComment(s);
    if t != [] && IsSpace(t[0]) then SkipBlank(t[1..]) else t
  }

  // ---------------------------------------------------------------- tokens

  /** The longest prefix of characters that satisfy `p`. */
  function Span(p: char -> bool, s: string): (n: nat)
    ensures n <= |s|
    ensures forall i :: 0 <= i < n ==> p(s[i])
    ensures n < |s| ==> !p(s[n])
  {
    if s == [] || !p(s[0]) then 0 else 1 + Span(p, s[1..])
  }

  lemma {:induction false} SpanOf(p: char -> bool, s: string, n: nat)
    requires n <= |s|
    requires forall i :: 0 <= i < n ==> p(s[i])
    requires n < |s| ==> !p(s[n])
    ensures Span(p, s) == n
  {
    if n > 0 {
      assert p(s[0]);
      SpanOf(p, s[1..], n - 1);
    }
  }

  /** StrDup copies up to the first zero character. */
  function UpToNul(s: string): string {
    s[..Span(ch => ch != NUL, s)]
  }

  function DigitValue(ch: char): nat
    requires IsDigit(ch)
  {
    (ch as int) - 48
  }

  /** The value of decimal digits. */
  function Decimal(s: string): nat
    requires forall i :: 0 <= i < |s| ==> IsDigit(s[i])
  {
    if s == [] then 0 else 10 * Decimal(s[..|s| - 1]) + DigitValue(s[|s| - 1])
  }

  function AfterSign(s: string): string {
    if s != [] && (s[0] == '-' || s[0] == '+') then s[1..] else s
  }

  function AfterDigits(s: string): (r: string)
    ensures |r| <= |s|
  {
    s[Span(IsDigit, s)..]
  }

  /** The sign of an exponent; a minus sign is recognised but not stepped over. */
  function AfterPlus(s: string): string {
    if s != [] && s[0] == '+' then s[1..] else s
  }

  function AfterFraction(s: string): string {
    if s != [] && s[0] == '.' then AfterDigits(s[1..]) else s
  }

  function AfterExponent(s: string): string {
    if s != [] && s[0] == 'E' then AfterDigits(AfterPlus(s[1..])) else s
  }

  /** cnumeric: an integer, a real, or nothing for characters that do not form a number. */
  function Numeric(s: string): Val {
    var t := AfterSign(s);
    var k := Span(IsDigit, t);
    var u := t[k..];
    if u == [] then
      var n: int := Decimal(t[..k]);
      Int(if s != [] && s[0] == '-' then -n else n)
    else if AfterExponent(AfterFraction(u)) != [] then Nil
    else Flo(s)
  }

  function Symbol(s: string): Val {
    if s == "NIL" || s == "nil" then Nil else Sym(s)
  }

  /** The characters of a quoted string and the text after it, or nothing and the text after the newline
      that a one-line string must not contain. `s` starts behind the quote. */
  function OneLine(s: string, got: string): (r: (Option<string>, string))
    ensures |r.1| <= |s|
    decreases |s|
  {
    if s == [] then (Some(got), [])
    else if s[0] == '"' then (Some(got), s[1..])
    else if s[0] == '\\' then
      if |s| == 1 then (Some(got + [EOF_AS_CHAR]), [])
      else if Unescape(s[1]) == '\n' then (None, s[2..])
      else OneLine(s[2..], got + [Unescape(s[1])])
    else if s[0] == '\n' then (None, s[1..])
    else OneLine(s[1..], got + [s[0]])
  }

  /** The same for a string between triple quotes. */
  function ManyLines(s: string, got: string): (r: (string, string))
    ensures |r.1| <= |s|
    decreases |s|
  {
    if s == [] then (got, [])
    else if |s| >= 3 && s[0] == s[1] == s[2] == '"' then (got, s[3..])
    else if s[0] == '\\' then
      if |s| == 1 then (got + [EOF_AS_CHAR], []) else ManyLines(s[2..], got + [Unescape(s[1])])
    else ManyLines(s[1..], got + [s[0]])
  }

  function AsOneLine(s: string): (r: (Val, string))
    ensures |r.1| <= |s|
  {
    var (got, rest) := OneLine(s, []);
    (if got.Some? then Str(UpToNul(got.value)) else Nil, rest)
  }

  function AsManyLines(s: string): (r: (Val, string))
    ensures |r.1| <= |s|
  {
    var (got, rest) := ManyLines(s, []);
    (Str(UpToNul(got)), rest)
  }

  /** `s` starts behind the first quote of a string. */
  function Quoted(s: string): (r: (Val, string))
    ensures |r.1| <= |s|
  {
    if |s| >= 2 && s[0] == s[1] == '"' then
      AsManyLines(s[2..])
    else
      AsOneLine(s)
  }

  // ---------------------------------------------------------------- expressions and lists

  /** The expression that `s` starts with, and the text after it. */
  function ReadExpr(s: string): (r: (Val, string))
    requires s != []
    ensures |r.1| < |s|
    decreases |s|, 0
  {
    if s[0] == '(' then ReadList(s[1..])
    else if StartsSymbol(s[0]) then
      var k := Span(IsConst, s);
      (Symbol(s[..k]), DropComment(s[k..]))
    else if s[0] == '"' then Quoted(s[1..])
    else if StartsNumber(s[0]) then
      var k := Span(InNumber, s);
      (Numeric(s[..k]), DropComment(s[k..]))
    else (Nil, s[1..])
  }

  /** readlist: expressions up to the closing parenthesis or the end. */
  function ReadList(s: string): (r: (Val, string))
    ensures |r.1| <= |s|
    decreases |s|, 1
  {
    var t := SkipBlank(s);
    if t == [] then (Nil, [])
    else if t[0] == ')' then (Nil, t[1..])
    else
      var (e, u) := ReadExpr(t);
      var (l, v) := ReadList(u);
      (Cons(e, l), v)
  }
}
