/** The symbol tables that are saved with the code (builder.c): records of a value, a zero-terminated name and
    padding to a multiple of the size of a long, which are searched from the start. */
module SymbolTables {
  import opened Nodes
  import opened Strings

  /** A user function and its entry point, or a global variable and its serial number. */
  datatype Symbol = Symbol(name: string, value: nat)

  predicate IsName(s: string) {
    forall i :: 0 <= i < |s| ==> s[i] != ZCHAR
  }

  predicate AreSymbols(symbols: seq<Symbol>) {
    forall i :: 0 <= i < |symbols| ==> IsName(symbols[i].name) && symbols[i].value < Power256(SIZEOF_LONG)
  }

  /** The least multiple of the size of a long that is not less than `len`. */
  function Aligned(len: nat): (r: nat)
    ensures len <= r < len + SIZEOF_LONG
  {
    if len == 0 then 0 else if len < SIZEOF_LONG then SIZEOF_LONG else SIZEOF_LONG + Aligned(len - SIZEOF_LONG)
  }

  function TableItemBytes(name: string): (len: nat)
    ensures |name| + 1 + SIZEOF_LONG <= len < |name| + 1 + 2 * SIZEOF_LONG
  {
    Aligned(|name| + 1 + SIZEOF_LONG)
  }

  lemma {:induction false} AlignedRemainder(len: nat)
    ensures Aligned(len) == if len % SIZEOF_LONG != 0 then len + (SIZEOF_LONG - len % SIZEOF_LONG) else len
  {
    if len >= SIZEOF_LONG {
      AlignedRemainder(len - SIZEOF_LONG);
      assert len % SIZEOF_LONG == (len - SIZEOF_LONG) % SIZEOF_LONG;
    }
  }

  /** A record has room for the value and the zero-terminated name, is a whole number of longs, and is no longer
      than that takes. */
  lemma ItemIsAligned(name: string)
    ensures TableItemBytes(name) % SIZEOF_LONG == 0
    ensures |name| + 9 <= TableItemBytes(name) < |name| + 17
  {
    AlignedRemainder(|name| + 1 + SIZEOF_LONG);
  }

  /** build_TableItemBytes */
  method ItemBytes(SymbolName: string) returns (len: nat)
    ensures len == TableItemBytes(SymbolName)
  {
    len := |SymbolName| + 1 + SIZEOF_LONG;
    AlignedRemainder(len);
    if len % SIZEOF_LONG != 0 {
      len := len + (SIZEOF_LONG - len % SIZEOF_LONG);
    }
  }

  function TableBytes(symbols: seq<Symbol>): nat {
    if symbols == [] then 0 else TableItemBytes(symbols[0].name) + TableBytes(symbols[1..])
  }

  lemma {:induction false} BytesOfSnoc(symbols: seq<Symbol>, s: Symbol)
    ensures TableBytes(symbols + [s]) == TableBytes(symbols) + TableItemBytes(s.name)
  {
    if symbols == [] {
      assert symbols + [s] == [s];
      assert TableBytes([s][1..]) == 0;
    } else {
      assert (symbols + [s])[1..] == symbols[1..] + [s];
      BytesOfSnoc(symbols[1..], s);
    }
  }

  lemma {:induction false} BytesOfPrefix(symbols: seq<Symbol>, k: nat)
    requires k < |symbols|
    ensures TableBytes(symbols[..k + 1]) == TableBytes(symbols[..k]) + TableItemBytes(symbols[k].name)
    ensures TableBytes(symbols[..k + 1]) <= TableBytes(symbols)
    decreases |symbols| - k
  {
    assert symbols[..k + 1] == symbols[..k] + [symbols[k]];
    BytesOfSnoc(symbols[..k], symbols[k]);
    if k + 1 < |symbols| {
      BytesOfPrefix(symbols, k + 1);
    } else {
      assert symbols[..k + 1] == symbols;
    }
  }

  /** The record at `at` is that of the symbol. */
  predicate HasRecord(table: string, at: nat, s: Symbol) {
    var name := at + SIZEOF_LONG;
    && at + TableItemBytes(s.name) <= |table|
    && Number(table[at..name]) == s.value && table[name..name + |s.name|] == s.name && table[name + |s.name|] == ZCHAR
  }

  /** The first `n` records of the table are those of the symbols, in order. */
  predicate HasRecords(table: string, symbols: seq<Symbol>, n: nat) {
    n <= |symbols| && forall k {:trigger RecordOf(table, symbols, k)} :: 0 <= k < n ==> RecordOf(table, symbols, k)
  }

  predicate RecordOf(table: string, symbols: seq<Symbol>, k: nat)
    requires k < |symbols|
  {
    HasRecord(table, TableBytes(symbols[..k]), symbols[k])
  }

  /** The value of a name: that of the first symbol of the name, or 0. */
  function ValueOf(symbols: seq<Symbol>, name: string): nat {
    if symbols == [] then 0 else if symbols[0].name == name then symbols[0].value else ValueOf(symbols[1..], name)
  }

  lemma {:induction false} ValueOfFirst(symbols: seq<Symbol>, name: string, k: nat)
    requires k <= |symbols| && (forall j :: 0 <= j < k ==> symbols[j].name != name)
    ensures ValueOf(symbols, name) == if k == |symbols| then 0 else ValueOf(symbols[k..], name)
  {
    if k > 0 {
      ValueOfFirst(symbols[1..], name, k - 1);
      assert symbols[1..][k - 1..] == symbols[k..];
    } else {
      assert symbols[0..] == symbols;
    }
  }

  /** With names that differ every symbol is found. */
  lemma {:induction false} EverySymbolIsFound(symbols: seq<Symbol>, k: nat)
    requires k < |symbols| && forall i, j :: 0 <= i < j < |symbols| ==> symbols[i].name != symbols[j].name
    ensures ValueOf(symbols, symbols[k].name) == symbols[k].value
  {
    if k > 0 {
      EverySymbolIsFound(symbols[1..], k - 1);
    }
  }

  /** build_CountSymbolBytes, called for every symbol */
  method CountBytes(symbols: seq<Symbol>) returns (cbTable: nat)
    ensures cbTable == TableBytes(symbols)
  {
    cbTable := 0;
    assert symbols[..0] == [];
    for k := 0 to |symbols|
      invariant cbTable == TableBytes(symbols[..k])
    {
      BytesOfPrefix(symbols, k);
      var len := ItemBytes(symbols[k].name);
      cbTable := cbTable + len;
    }
    assert symbols[..|symbols|] == symbols;
  }

  /** Storing a record leaves what is before it and fills what it needs. */
  method PutTableItem(table: array<char>, at: nat, s: Symbol)
    requires at + TableItemBytes(s.name) <= table.Length && s.value < Power256(SIZEOF_LONG)
    modifies table
    ensures HasRecord(table[..], at, s) && table[..at] == old(table[..at])
  {
    var record := LongBytes(s.value) + (s.name + [ZCHAR]);
    for i := 0 to |record|
      invariant table[at..at + i] == record[..i] && table[..at] == old(table[..at])
    {
      table[at + i] := record[i];
    }
    NumberOfBytes(s.value, SIZEOF_LONG);
    var name := at + SIZEOF_LONG;
    assert table[at..at + |record|] == record;
    RecordSlices(table[..], at, record, s);
  }

  lemma RecordSlices(table: string, at: nat, record: string, s: Symbol)
    requires record == LongBytes(s.value) + (s.name + [ZCHAR]) && at + |record| <= |table| && table[at..at + |record|] == record
    ensures var name := at + SIZEOF_LONG;
      table[at..name] == LongBytes(s.value) && table[name..name + |s.name|] == s.name && table[name + |s.name|] == ZCHAR
  {
    var n := at + SIZEOF_LONG;
    SubSlice(table, at, record, 0, SIZEOF_LONG);
    SubSlice(table, at, record, SIZEOF_LONG, SIZEOF_LONG + |s.name|);
    SubSlice(table, at, record, SIZEOF_LONG + |s.name|, |record|);
    assert record[..SIZEOF_LONG] == LongBytes(s.value);
    assert record[SIZEOF_LONG..SIZEOF_LONG + |s.name|] == s.name;
  }

  lemma SubSlice(table: string, at: nat, record: string, i: nat, j: nat)
    requires i <= j <= |record| && at + |record| <= |table| && table[at..at + |record|] == record
    ensures table[at + i..at + j] == record[i..j]
    ensures i < j ==> table[at + i] == record[i]
  {
    forall k | i <= k < j ensures table[at + k] == record[k] {
      assert table[at..at + |record|][k] == record[k];
    }
    assert |table[at + i..at + j]| == j - i;
  }

  lemma RecordStays(table: string, table': string, at: nat, s: Symbol, to: nat)
    requires HasRecord(table, at, s) && at + TableItemBytes(s.name) <= to <= |table| == |table'| && table'[..to] == table[..to]
    ensures HasRecord(table', at, s)
  {
    SliceStays(table, table', at, at + SIZEOF_LONG, to);
    SliceStays(table, table', at + SIZEOF_LONG, at + SIZEOF_LONG + |s.name|, to);
    assert table'[at + SIZEOF_LONG + |s.name|] == table'[..to][at + SIZEOF_LONG + |s.name|];
  }

  lemma SliceStays(table: string, table': string, from: nat, until: nat, to: nat)
    requires from <= until <= to <= |table| == |table'| && table'[..to] == table[..to]
    ensures table'[from..until] == table[from..until]
  {
    forall k | from <= k < until ensures table'[k] == table[k] {
      assert table'[..to][k] == table[..to][k];
    }
    assert |table'[from..until]| == |table[from..until]| == until - from;
  }

  /** build_CreateFTable and build_CreateVTable: the size is counted first, and the records fill it exactly. */
  method CreateTable(symbols: seq<Symbol>) returns (table: array<char>, cbTable: nat)
    requires AreSymbols(symbols)
    ensures cbTable == TableBytes(symbols) == table.Length && HasRecords(table[..], symbols, |symbols|)
  {
    cbTable := CountBytes(symbols);
    table := new char[cbTable];
    var p := 0;
    assert symbols[..0] == [];
    for k := 0 to |symbols|
      invariant p == TableBytes(symbols[..k]) && HasRecords(table[..], symbols, k)
    {
      BytesOfPrefix(symbols, k);
      ghost var was := table[..];
      PutTableItem(table, p, symbols[k]);
      forall j | 0 <= j < k ensures RecordOf(table[..], symbols, j) {
        assert RecordOf(was, symbols, j);
        BytesUpTo(symbols, j, k);
        RecordStays(was, table[..], TableBytes(symbols[..j]), symbols[j], p);
      }
      var len := ItemBytes(symbols[k].name);
      p := p + len;
    }
  }

  lemma {:induction false} BytesUpTo(symbols: seq<Symbol>, j: nat, k: nat)
    requires j < k <= |symbols|
    ensures TableBytes(symbols[..j]) + TableItemBytes(symbols[j].name) <= TableBytes(symbols[..k])
    decreases k
  {
    BytesOfPrefix(symbols, k - 1);
    if j < k - 1 {
      BytesUpTo(symbols, j, k - 1);
    }
  }

  lemma CharsAt(table: array<char>, at: nat, stored: string)
    requires at + |stored| < table.Length && table[at..at + |stored|] == stored
    ensures forall i :: 0 <= i < |stored| ==> table[at + i] == stored[i]
  {
    forall i | 0 <= i < |stored| ensures table[at + i] == stored[i] {
      assert table[at..at + |stored|][i] == stored[i];
    }
  }

  /** strcmp with the name at `at`. */
  method SameName(table: array<char>, at: nat, s: string, ghost stored: string) returns (same: bool)
    requires IsName(s) && IsName(stored) && at + |stored| < table.Length
    requires table[at..at + |stored|] == stored && table[at + |stored|] == ZCHAR
    ensures same <==> s == stored
  {
    var i := 0;
    CharsAt(table, at, stored);
    while i < |s| && table[at + i] == s[i]
      invariant 0 <= i <= |s| && i <= |stored| && s[..i] == stored[..i]
    {
      i := i + 1;
    }
    same := i == |s| && table[at + i] == ZCHAR;
    if i == |s| && i == |stored| {
      assert s == stored;
    }
  }

  /** strlen of the name at `at`. */
  method NameLength(table: array<char>, at: nat, ghost stored: string) returns (n: nat)
    requires IsName(stored) && at + |stored| < table.Length
    requires table[at..at + |stored|] == stored && table[at + |stored|] == ZCHAR
    ensures n == |stored|
  {
    n := 0;
    CharsAt(table, at, stored);
    while table[at + n] != ZCHAR
      invariant n <= |stored|
      decreases |stored| - n
    {
      n := n + 1;
    }
  }

  /** build_LookupFunctionOrVariable on a table that was created from the symbols. */
  method Lookup(table: array<char>, cbTable0: nat, s: string, ghost symbols: seq<Symbol>) returns (value: nat)
    requires AreSymbols(symbols) && IsName(s) && cbTable0 == TableBytes(symbols) == table.Length && HasRecords(table[..], symbols, |symbols|)
    ensures value == ValueOf(symbols, s)
  {
    var p, cbTable := 0, cbTable0;
    ghost var k := 0;
    assert symbols[..0] == [];
    while cbTable > 0
      invariant 0 <= k <= |symbols| && p == TableBytes(symbols[..k]) && cbTable == cbTable0 - p
      invariant forall j :: 0 <= j < k ==> symbols[j].name != s
      decreases cbTable
    {
      var same, TableItemLen, found := ReadRecord(table, p, s, symbols, k);
      if same {
        ValueOfFirst(symbols, s, k);
        return found;
      }
      p := p + TableItemLen;
      cbTable := cbTable - TableItemLen;
      k := k + 1;
    }
    AllRead(symbols, k);
    ValueOfFirst(symbols, s, k);
    value := 0;
  }

  /** Whether the record at `p`, which is the record `k`, has the name `s`, how long it is, and its value. */
  method ReadRecord(table: array<char>, p: nat, s: string, ghost symbols: seq<Symbol>, ghost k: nat)
    returns (same: bool, TableItemLen: nat, value: nat)
    requires IsName(s) && k <= |symbols| && p == TableBytes(symbols[..k]) < TableBytes(symbols)
    requires HasRecords(table[..], symbols, |symbols|) && forall i :: 0 <= i < |symbols| ==> IsName(symbols[i].name)
    ensures k < |symbols| && same == (s == symbols[k].name) && value == symbols[k].value
    ensures TableItemLen > 0 && p + TableItemLen == TableBytes(symbols[..k + 1]) <= TableBytes(symbols)
  {
    RecordFollows(table, symbols, k);
    ghost var stored := symbols[k].name;
    same := SameName(table, p + SIZEOF_LONG, s, stored);
    var n := NameLength(table, p + SIZEOF_LONG, stored);
    TableItemLen := ItemBytes(table[p + SIZEOF_LONG..p + SIZEOF_LONG + n]);
    value := Number(table[p..p + SIZEOF_LONG]);
  }

  lemma AllRead(symbols: seq<Symbol>, k: nat)
    requires k <= |symbols| && TableBytes(symbols[..k]) == TableBytes(symbols)
    ensures k == |symbols|
  {
    assert symbols[..|symbols|] == symbols;
    if k < |symbols| {
      BytesUpTo(symbols, k, |symbols|);
    }
  }

  /** Before the end of the table there is a record. */
  lemma RecordFollows(table: array<char>, symbols: seq<Symbol>, k: nat)
    requires k <= |symbols| && HasRecords(table[..], symbols, |symbols|) && TableBytes(symbols[..k]) < TableBytes(symbols)
    ensures k < |symbols| && TableBytes(symbols[..k + 1]) == TableBytes(symbols[..k]) + TableItemBytes(symbols[k].name) <= TableBytes(symbols)
    ensures var at, s := TableBytes(symbols[..k]), symbols[k];
      var name := at + SIZEOF_LONG;
      && at + TableItemBytes(s.name) <= table.Length && Number(table[at..name]) == s.value
      && table[name..name + |s.name|] == s.name && table[name + |s.name|] == ZCHAR
  {
    assert symbols[..|symbols|] == symbols;
    BytesOfPrefix(symbols, k);
    var at := TableBytes(symbols[..k]);
    assert RecordOf(table[..], symbols, k);
    RecordInArray(table, at, symbols[k]);
  }

  lemma RecordInArray(table: array<char>, at: nat, s: Symbol)
    requires HasRecord(table[..], at, s)
    ensures var name := at + SIZEOF_LONG;
      && at + TableItemBytes(s.name) <= table.Length && Number(table[at..name]) == s.value
      && table[name..name + |s.name|] == s.name && table[name + |s.name|] == ZCHAR
  {
    var name := at + SIZEOF_LONG;
    assert table[..][at..name] == table[at..name] && table[..][name..name + |s.name|] == table[name..name + |s.name|];
  }
}
