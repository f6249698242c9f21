/** The reader of lsp.c over a file, with its unget buffer and its growing character buffer. Each
    method is specified by what Lisp says of the text that is still to come. */
module LispReader {
  import opened Wrappers
  import opened Lisp

  const UNGET_BUFFER_LENGTH := 10
  const BUFFERINC := 1024

  /** The characters that were put back, the last one first; an end of file that was put back is none. */
  function PutBack(u: seq<Option<char>>): string {
    if u == [] then []
    else (if u[|u| - 1].Some? then [u[|u| - 1].value] else []) + PutBack(u[..|u| - 1])
  }

  lemma {:induction false} NothingPutBack(u: seq<Option<char>>)
    requires forall i :: 0 <= i < |u| ==> u[i].None?
    ensures PutBack(u) == []
  {
    if u != [] {
      NothingPutBack(u[..|u| - 1]);
    }
  }

  lemma NoNul(p: char -> bool, t: string)
    requires !p(NUL) && forall i :: 0 <= i < |t| ==> p(t[i])
    ensures UpToNul(t) == t
  {
    SpanOf(ch => ch != NUL, t, |t|);
  }

  /** `i` characters of the token have been read, and `ahead` is to come. */
  ghost predicate InToken(p: char -> bool, s: string, i: nat, ahead: string) {
    && i <= |s| && (forall j :: 0 <= j < i ==> p(s[j]))
    && ahead == DropComment(s[i..])
  }

  /** A comment starts or ends where a token does: a character of the token is neither. */
  lemma TokenStep(p: char -> bool, s: string, i: nat, ch: char, rest: string)
    requires !p(';') && !p('\n') && p(ch)
    requires InToken(p, s, i, [ch] + rest)
    ensures i < |s| && s[..i] + [ch] == s[..i + 1] && InToken(p, s, i + 1, DropComment(rest))
  {
    assert ([ch] + rest)[0] == ch;
    assert rest == ([ch] + rest)[1..];
    assert rest == s[i + 1..];
  }

  lemma TokenEnd(p: char -> bool, s: string, i: nat, ahead: string)
    requires !p(';') && !p('\n') && !p(NUL)
    requires InToken(p, s, i, ahead)
    requires ahead != [] ==> !p(ahead[0])
    ensures Span(p, s) == i && UpToNul(s[..i]) == s[..i]
    ensures ahead == DropComment(s[i..])
  {
    SpanOf(p, s, i);
    NoNul(p, s[..i]);
  }

  /** The string that started at `s` has become `got`, and `ahead` is to come. */
  ghost predicate InOneLine(s: string, got: string, ahead: string) {
    OneLine(s, []) == OneLine(ahead, got)
  }

  /** What one character of a one-line string, or a backslash and a character, add to it. */
  lemma OneLineStep(s: string, got: string, ch: char, rest: string)
    requires InOneLine(s, got, [ch] + rest) && ch != '"'
    ensures var c := Escaped(ch, rest);
      if c == '\n' then AsOneLine(s) == (Nil, AfterEscape(ch, rest))
      else InOneLine(s, got + [c], AfterEscape(ch, rest))
  {
    var t := [ch] + rest;
    assert t[1..] == rest;
    if ch == '\\' && rest != [] {
      assert t[1] == rest[0] && t[2..] == rest[1..];
    }
  }

  lemma OneLineEnd(s: string, got: string, ch: Option<char>, rest: string)
    requires ch.Some? ==> ch.value == '"' && InOneLine(s, got, [ch.value] + rest)
    requires ch.None? ==> rest == [] && InOneLine(s, got, [])
    ensures AsOneLine(s) == (Str(UpToNul(got)), rest)
  {
  }

  ghost predicate InManyLines(s: string, got: string, ahead: string) {
    ManyLines(s, []) == ManyLines(ahead, got)
  }

  lemma ManyLinesStep(s: string, got: string, ch: char, rest: string)
    requires InManyLines(s, got, [ch] + rest) && !(ch == '"' && |rest| >= 2 && rest[0] == rest[1] == '"')
    ensures InManyLines(s, got + [Escaped(ch, rest)], AfterEscape(ch, rest))
  {
    var t := [ch] + rest;
    assert t[1..] == rest;
    if |rest| >= 2 {
      assert t[1] == rest[0] && t[2] == rest[1];
    }
    if ch == '\\' && rest != [] {
      assert t[1] == rest[0] && t[2..] == rest[1..];
    }
  }

  lemma ManyLinesEnd(s: string, got: string, rest: string)
    requires InManyLines(s, got, "\"\"\"" + rest)
    ensures AsManyLines(s) == (Str(UpToNul(got)), rest)
  {
    var t := "\"\"\"" + rest;
    assert t[0] == t[1] == t[2] == '"' && t[3..] == rest;
  }

  /** The character that `first`, followed by `rest`, stands for in a string. */
  function Escaped(first: char, rest: string): char {
    if first != '\\' then first else if rest == [] then EOF_AS_CHAR else Unescape(rest[0])
  }

  function AfterEscape(first: char, rest: string): string {
    if first != '\\' || rest == [] then rest else rest[1..]
  }

  class Reader {
    const input: string
    var pos: nat
    const UngetBuffer: array<Option<char>>
    var UngetCounter: nat
    var buffer: array<char>

    ghost predicate Valid()
      reads `pos, `UngetCounter, UngetBuffer
    {
      && pos <= |input|
      && UngetBuffer.Length == UNGET_BUFFER_LENGTH && UngetCounter <= 2
      && (forall i :: 0 <= i < UngetCounter && UngetBuffer[i].None? ==>
            pos == |input| && forall j :: 0 <= j < i ==> UngetBuffer[j].None?)
    }

    /** The text still to come. */
    ghost function Rest(): string
      reads `pos, `UngetCounter, UngetBuffer
      requires Valid()
    {
      PutBack(UngetBuffer[..UngetCounter]) + input[pos..]
    }

    /** The text still to come, when `ch` has been read and not used. */
    ghost function Ahead(ch: Option<char>): string
      reads `pos, `UngetCounter, UngetBuffer
      requires Valid()
    {
      (if ch.Some? then [ch.value] else []) + Rest()
    }

    constructor (input: string)
      ensures Valid() && UngetCounter == 0 && Rest() == input && fresh(UngetBuffer) && fresh(buffer)
    {
      this.input := input;
      pos := 0;
      UngetBuffer := new Option<char>[UNGET_BUFFER_LENGTH];
      UngetCounter := 0;
      buffer := new char[0];
    }

    /** __GETC */
    method GetChar() returns (ch: Option<char>)
      requires Valid()
      modifies `pos, `UngetCounter
      ensures Valid() && Ahead(ch) == old(Rest()) && (ch.None? ==> Rest() == [])
      ensures ch.Some? ==> |Rest()| < |old(Rest())|
      ensures UngetCounter <= if old(UngetCounter) == 0 then 0 else old(UngetCounter) - 1
    {
      if UngetCounter > 0 {
        UngetCounter := UngetCounter - 1;
        ch := UngetBuffer[UngetCounter];
        assert UngetBuffer[..UngetCounter + 1][..UngetCounter] == UngetBuffer[..UngetCounter];
        if ch.None? {
          NothingPutBack(UngetBuffer[..UngetCounter]);
        }
      } else if pos < |input| {
        ch := Some(input[pos]);
        pos := pos + 1;
      } else {
        ch := None;
      }
    }

    /** __UNGETC */
    method UngetChar(ch: Option<char>)
      requires Valid() && UngetCounter <= 1
      requires ch.None? ==> Rest() == []
      modifies `UngetCounter, UngetBuffer
      ensures Valid() && Rest() == old(Ahead(ch)) && UngetCounter == old(UngetCounter) + 1
    {
      ghost var u := UngetBuffer[..UngetCounter];
      UngetBuffer[UngetCounter] := ch;
      UngetCounter := UngetCounter + 1;
      assert UngetBuffer[..UngetCounter] == u + [ch];
    }

    /** getC reads a comment as the newline that ends it. */
    method GetC() returns (ch: Option<char>)
      requires Valid()
      modifies `pos, `UngetCounter
      ensures Valid() && Ahead(ch) == DropComment(old(Rest())) && (ch.None? ==> Rest() == [])
      ensures ch.Some? ==> |Rest()| < |old(Rest())|
      ensures UngetCounter <= if old(UngetCounter) == 0 then 0 else old(UngetCounter) - 1
    {
      ch := GetChar();
      if ch == Some(';') {
        ghost var n := |Rest()|;
        ghost var line := Rest();
        ch := GetChar();
        while ch != Some('\n') && ch != None
          invariant Valid() && (ch.None? ==> Rest() == []) && |Ahead(ch)| <= n
          invariant AfterLine(Ahead(ch)) == AfterLine(line)
          invariant UngetCounter <= if old(UngetCounter) == 0 then 0 else old(UngetCounter) - 1
          decreases |Ahead(ch)|
        {
          ch := GetChar();
        }
      }
    }

    /** The macro spaceat: the first character that is not blank. */
    method SpaceAt() returns (ch: Option<char>)
      requires Valid()
      modifies `pos, `UngetCounter
      ensures Valid() && Ahead(ch) == SkipBlank(old(Rest())) && (ch.None? ==> Rest() == [])
      ensures ch.Some? ==> |Rest()| < |old(Rest())|
      ensures UngetCounter <= if old(UngetCounter) == 0 then 0 else old(UngetCounter) - 1
    {
      ch := GetC();
      while ch.Some? && IsSpace(ch.value)
        invariant Valid() && (ch.None? ==> Rest() == []) && (ch.Some? ==> |Rest()| < |old(Rest())|)
        invariant UngetCounter <= if old(UngetCounter) == 0 then 0 else old(UngetCounter) - 1
        invariant SkipBlank(old(Rest())) == if ch.Some? && IsSpace(ch.value) then SkipBlank(Rest()) else Ahead(ch)
        decreases |Rest()|, ch.Some?
      {
        ch := GetC();
      }
    }

    // -------------------------------------------------------------- the character buffer

    /** The buffer holds `t` and a zero character behind it. */
    ghost predicate Holds(t: string)
      reads `buffer, buffer
    {
      |t| < buffer.Length && buffer[..|t|] == t && buffer[|t|] == NUL
    }

    /** storech */
    method StoreCh(ghost t: string, i: nat, ch: char)
      requires i == |t| && (i > 0 ==> Holds(t))
      modifies `buffer, buffer
      ensures Holds(t + [ch]) && (buffer == old(buffer) || fresh(buffer))
    {
      assert i == 0 ==> t == [];
      if i + 1 >= buffer.Length {
        var was := buffer;
        var grown := new char[was.Length + BUFFERINC];
        for j := 0 to was.Length
          invariant grown[..j] == was[..j] && was[..] == old(buffer[..])
        {
          grown[j] := was[j];
        }
        assert grown[..i] == grown[..was.Length][..i] == was[..i];
        buffer := grown;
      }
      assert buffer[..i] == t;
      buffer[i] := ch;
      buffer[i + 1] := NUL;
      assert buffer[..i + 1] == t + [ch];
    }

    /** StrDup */
    method StrDup(ghost t: string) returns (s: string)
      requires Holds(t)
      ensures s == UpToNul(t)
    {
      var i := 0;
      while buffer[i] != NUL
        invariant 0 <= i <= |t|
        invariant forall j :: 0 <= j < i ==> t[j] != NUL
        decreases |t| - i
      {
        i := i + 1;
      }
      s := buffer[..i];
      assert s == t[..i];
      SpanOf(ch => ch != NUL, t, i);
    }

    // -------------------------------------------------------------- tokens

    /** The loops of _readexpr over the characters of a symbol and of a number. */
    method ReadToken(p: char -> bool, first: char) returns (t: string)
      requires Valid() && UngetCounter == 0 && p(first) && !p(NUL) && !p(';') && !p('\n') && first != ';'
      modifies `pos, `UngetCounter, `buffer, UngetBuffer, buffer
      ensures Valid() && UngetCounter <= 1 && (buffer == old(buffer) || fresh(buffer))
      ensures var s := [first] + old(Rest());
        var k := Span(p, s);
        k > 0 && t == s[..k] && Rest() == DropComment(s[k..])
    {
      ghost var s := [first] + Rest();
      var i, ch := 0, Some(first);
      while ch.Some? && p(ch.value)
        invariant Valid() && UngetCounter == 0 && (buffer == old(buffer) || fresh(buffer))
        invariant (i > 0 ==> i <= |s| && Holds(s[..i])) && (i == 0 ==> ch == Some(first))
        invariant ch.None? ==> Rest() == []
        invariant InToken(p, s, i, Ahead(ch))
        decreases |Ahead(ch)|
      {
        TokenStep(p, s, i, ch.value, Rest());
        StoreCh(s[..i], i, ch.value);
        i := i + 1;
        ch := GetC();
      }
      TokenEnd(p, s, i, Ahead(ch));
      UngetChar(ch);
      t := StrDup(s[..i]);
    }

    // -------------------------------------------------------------- strings

    /** A character of a string, when the character after a backslash is looked up among the escapers. */
    method GetEscaped(first: char) returns (ch: char)
      requires Valid()
      modifies `pos, `UngetCounter
      ensures Valid() && UngetCounter <= old(UngetCounter)
      ensures ch == Escaped(first, old(Rest())) && Rest() == AfterEscape(first, old(Rest()))
    {
      ch := first;
      if ch == '\\' {
        var next := GetChar();
        ch := if next.Some? then Unescape(next.value) else EOF_AS_CHAR;
      }
    }

    method Clear()
      modifies `buffer, buffer
      ensures Holds([]) && (buffer == old(buffer) || fresh(buffer))
    {
      StoreCh([], 0, NUL);
      assert buffer[0] == NUL;
    }

    method StoreAndGet(ghost t: string, i: nat, c: char) returns (ch: Option<char>)
      requires Valid() && i == |t| && Holds(t)
      modifies `pos, `UngetCounter, `buffer, buffer
      ensures Valid() && Ahead(ch) == old(Rest()) && (ch.None? ==> Rest() == [])
      ensures Holds(t + [c]) && (buffer == old(buffer) || fresh(buffer))
      ensures UngetCounter <= if old(UngetCounter) == 0 then 0 else old(UngetCounter) - 1
    {
      StoreCh(t, i, c);
      ch := GetChar();
    }

    /** SimpleString: `first` is the character behind the quote. */
    method ReadOneLine(first: Option<char>) returns (v: Val)
      requires Valid() && UngetCounter <= 1 && (first.None? ==> Rest() == [])
      modifies `pos, `UngetCounter, `buffer, UngetBuffer, buffer
      ensures Valid() && UngetCounter <= 1 && (buffer == old(buffer) || fresh(buffer))
      ensures (v, Rest()) == AsOneLine(old(Ahead(first)))
    {
      ghost var s, got := Ahead(first), "";
      Clear();
      var i, ch := 0, first;
      while ch.Some? && ch.value != '"'
        invariant Valid() && UngetCounter <= 1 && (buffer == old(buffer) || fresh(buffer))
        invariant i == |got| && Holds(got)
        invariant ch.None? ==> Rest() == []
        invariant InOneLine(s, got, Ahead(ch))
        decreases |Ahead(ch)|
      {
        OneLineStep(s, got, ch.value, Rest());
        var c := GetEscaped(ch.value);
        if c == '\n' {
          return Nil;
        }
        ch := StoreAndGet(got, i, c);
        got := got + [c];
        i := i + 1;
      }
      OneLineEnd(s, got, ch, Rest());
      var str := StrDup(got);
      v := Str(str);
    }

    method KeepAndGet(ghost t: string, i: nat, first: char) returns (ch: Option<char>)
      requires Valid() && i == |t| && Holds(t)
      modifies `pos, `UngetCounter, `buffer, buffer
      ensures Valid() && Ahead(ch) == AfterEscape(first, old(Rest())) && (ch.None? ==> Rest() == [])
      ensures Holds(t + [Escaped(first, old(Rest()))]) && (buffer == old(buffer) || fresh(buffer))
      ensures UngetCounter <= if old(UngetCounter) == 0 then 0 else old(UngetCounter) - 1
    {
      var c := GetEscaped(first);
      ch := StoreAndGet(t, i, c);
    }

    /** A string between triple quotes; `first` is the character behind them. */
    method ReadManyLines(first: Option<char>) returns (v: Val)
      requires Valid() && UngetCounter <= 1 && (first.None? ==> Rest() == [])
      modifies `pos, `UngetCounter, `buffer, UngetBuffer, buffer
      ensures Valid() && UngetCounter <= 1 && (buffer == old(buffer) || fresh(buffer))
      ensures (v, Rest()) == AsManyLines(old(Ahead(first)))
    {
      ghost var s, got := Ahead(first), "";
      Clear();
      var i, ch := 0, first;
      while ch.Some?
        invariant Valid() && UngetCounter <= 1 && (buffer == old(buffer) || fresh(buffer))
        invariant i == |got| && Holds(got)
        invariant ch.None? ==> Rest() == []
        invariant InManyLines(s, got, Ahead(ch))
        decreases |Ahead(ch)|
      {
        ghost var ahead := Rest();
        var done := TripleQuote(ch.value);
        if done {
          ManyLinesEnd(s, got, Rest());
          assert "\"\"\"" + Rest() == [ch.value] + ahead;
          break;
        }
        ManyLinesStep(s, got, ch.value, Rest());
        ghost var c := Escaped(ch.value, Rest());
        ch := KeepAndGet(got, i, ch.value);
        got := got + [c];
        i := i + 1;
      }
      var str := StrDup(got);
      v := Str(str);
    }

    /** Looks two characters ahead for the end of the string; puts them back when it is not there. */
    method TripleQuote(ch: char) returns (done: bool)
      requires Valid() && UngetCounter <= 1
      modifies `pos, `UngetCounter, UngetBuffer
      ensures Valid()
      ensures done ==> UngetCounter == 0 && ['"', '"', '"'] + Rest() == [ch] + old(Rest())
      ensures !done ==> UngetCounter <= 2 && Rest() == old(Rest())
      ensures !done ==> !(ch == '"' && |Rest()| >= 2 && Rest()[0] == Rest()[1] == '"')
    {
      done := false;
      if ch == '"' {
        var ch1 := GetChar();
        var ch2 := GetChar();
        if ch1 == Some('"') && ch2 == Some('"') {
          done := true;
        } else {
          UngetChar(ch2);
          UngetChar(ch1);
        }
      }
    }

    // -------------------------------------------------------------- expressions and lists

    /** The part of _readexpr behind a quote. */
    method ReadString() returns (v: Val)
      requires Valid() && UngetCounter == 0
      modifies `pos, `UngetCounter, `buffer, UngetBuffer, buffer
      ensures Valid() && UngetCounter <= 1 && (buffer == old(buffer) || fresh(buffer))
      ensures (v, Rest()) == Quoted(old(Rest()))
    {
      var ch := GetChar();
      if ch != Some('"') {
        v := ReadOneLine(ch);
        return;
      }
      assert Rest() == old(Rest())[1..];
      ch := GetChar();
      if ch != Some('"') {
        UngetChar(ch);
        v := ReadOneLine(Some('"'));
        return;
      }
      assert Rest() == old(Rest())[2..];
      ch := GetChar();
      v := ReadManyLines(ch);
    }

    /** _readexpr */
    method ReadExpression() returns (v: Val)
      requires Valid() && UngetCounter <= 1
      modifies `pos, `UngetCounter, `buffer, UngetBuffer, buffer
      ensures Valid() && UngetCounter <= 1 && (buffer == old(buffer) || fresh(buffer))
      ensures var s := SkipBlank(old(Rest())); (v, Rest()) == if s == [] then (Nil, []) else ReadExpr(s)
      decreases |Rest()|, 1
    {
      ghost var s := SkipBlank(Rest());
      var first := SpaceAt();
      if first == None || first == Some(')') {
        return Nil;
      }
      var ch := first.value;
      assert s[1..] == Rest();
      if ch == '(' {
        v := ReadCons();
      } else if StartsSymbol(ch) {
        var t := ReadToken(IsConst, ch);
        v := Symbol(t);
      } else if ch == '"' {
        v := ReadString();
      } else if StartsNumber(ch) {
        var t := ReadToken(InNumber, ch);
        v := Numeric(t);
      } else {
        v := Nil;
      }
    }

    /** readcons */
    method ReadCons() returns (v: Val)
      requires Valid() && UngetCounter == 0
      modifies `pos, `UngetCounter, `buffer, UngetBuffer, buffer
      ensures Valid() && UngetCounter <= 1 && (buffer == old(buffer) || fresh(buffer))
      ensures (v, Rest()) == ReadList(old(Rest()))
      decreases |Rest()|, 3
    {
      ghost var s := Rest();
      var ch := SpaceAt();
      if ch == Some(')') {
        assert SkipBlank(s)[1..] == Rest();
        return Nil;
      }
      UngetChar(ch);
      v := ReadLst();
    }

    /** readlist */
    method ReadLst() returns (v: Val)
      requires Valid() && UngetCounter <= 1
      modifies `pos, `UngetCounter, `buffer, UngetBuffer, buffer
      ensures Valid() && UngetCounter <= 1 && (buffer == old(buffer) || fresh(buffer))
      ensures (v, Rest()) == ReadList(old(Rest()))
      decreases |Rest()|, 2
    {
      ghost var s := SkipBlank(Rest());
      var ch := SpaceAt();
      if ch == Some(')') || ch == None {
        assert ch.Some? ==> s[1..] == Rest();
        return Nil;
      }
      UngetChar(ch);
      assert Rest() == s && SkipBlank(s) == s;
      var p := ReadExpression();
      var q := ReadLst();
      v := Cons(p, q);
    }
  }
}
