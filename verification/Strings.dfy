/** The string table of a program (builder.c): each string is stored once, behind its length and in front of a
    zero character, and is referred to by the offset of its first character. */
module Strings {
  import opened Nodes

  const ZCHAR: char := '\0'

  /** The bytes of a number, the lowest first. */
  function Bytes(n: nat, k: nat): (r: string)
    ensures |r| == k
  {
    if k == 0 then [] else [(n % 256) as char] + Bytes(n / 256, k - 1)
  }

  function Number(b: string): nat {
    if b == [] then 0 else (b[0] as nat) + 256 * Number(b[1..])
  }

  function Power256(k: nat): (r: nat)
    ensures r > 0
  {
    if k == 0 then 1 else 256 * Power256(k - 1)
  }

  lemma Shrink(n: nat, p: nat)
    requires p > 0 && n < 256 * p
    ensures n / 256 < p
  {
  }

  lemma {:induction false} NumberOfBytes(n: nat, k: nat)
    requires n < Power256(k)
    ensures Number(Bytes(n, k)) == n
  {
    if k > 0 {
      Shrink(n, Power256(k - 1));
      NumberOfBytes(n / 256, k - 1);
      assert Bytes(n, k)[1..] == Bytes(n / 256, k - 1);
    }
  }

  /** Byte `i` has the weight of the `i`th power of 256. */
  lemma {:induction false} ByteAt(n: nat, k: nat, i: nat)
    requires i < k
    ensures Bytes(n, k)[i] as nat == n / Power256(i) % 256
  {
    if i > 0 {
      ByteAt(n / 256, k - 1, i - 1);
      DivideTwice(n, Power256(i - 1));
    }
  }

  lemma DivideTwice(n: nat, p: nat)
    requires p > 0
    ensures n / 256 / p == n / (256 * p)
  {
    var q := n / (256 * p);
    assert 256 * p * q <= n < 256 * p * (q + 1);
    assert p * q <= n / 256 < p * (q + 1);
    var r := n / 256 / p;
    assert p * r <= n / 256 < p * (r + 1);
    assert r < q ==> p * (r + 1) <= p * q;
    assert r > q ==> p * (q + 1) <= p * r;
  }

  /** The length of a string is a long. */
  predicate IsShort(s: string) {
    |s| < Power256(SIZEOF_LONG)
  }

  function LongBytes(n: nat): (r: string)
    ensures |r| == SIZEOF_LONG
  {
    Bytes(n, SIZEOF_LONG)
  }

  function Item(s: string): (r: string)
    ensures |r| == SIZEOF_LONG + |s| + 1
  {
    LongBytes(|s|) + (s + [ZCHAR])
  }

  function Pack(items: seq<string>): string {
    if items == [] then [] else Item(items[0]) + Pack(items[1..])
  }

  /** Where `s` is in the table. */
  function Offset(items: seq<string>, s: string): nat
    requires s in items
  {
    if items[0] == s then SIZEOF_LONG else |Item(items[0])| + Offset(items[1..], s)
  }

  lemma {:induction false} PackConcat(a: seq<string>, b: seq<string>)
    ensures Pack(a + b) == Pack(a) + Pack(b)
  {
    if a == [] {
      assert a + b == b;
    } else {
      PackConcat(a[1..], b);
      assert (a + b)[1..] == a[1..] + b;
      var x, y, z := Item(a[0]), Pack(a[1..]), Pack(b);
      assert x + (y + z) == (x + y) + z;
    }
  }

  /** What was put in the table stays where it is. */
  lemma {:induction false} OffsetStays(items: seq<string>, more: seq<string>, s: string)
    requires s in items
    ensures s in items + more && Offset(items + more, s) == Offset(items, s)
  {
    if items[0] != s {
      OffsetStays(items[1..], more, s);
      assert (items + more)[1..] == items[1..] + more;
    }
  }

  lemma {:induction false} OffsetAt(items: seq<string>, k: nat)
    requires k < |items| && forall j :: 0 <= j < k ==> items[j] != items[k]
    ensures Offset(items, items[k]) == |Pack(items[..k])| + SIZEOF_LONG
  {
    if k > 0 {
      OffsetAt(items[1..], k - 1);
      assert items[1..][..k - 1] == items[..k][1..];
    }
  }

  /** The string that an offset denotes in a table. */
  function TextAt(table: string, at: nat): string {
    if SIZEOF_LONG <= at <= |table| then
      var n := Number(table[at - SIZEOF_LONG..at]);
      if at + n <= |table| then table[at..at + n] else []
    else []
  }

  lemma ItemAt(s: string, before: string, behind: string)
    requires IsShort(s)
    ensures var table := before + (Item(s) + behind);
      && TextAt(table, |before| + SIZEOF_LONG) == s
      && |before| + SIZEOF_LONG + |s| < |table| && table[|before| + SIZEOF_LONG + |s|] == ZCHAR
  {
    var table := before + (Item(s) + behind);
    var at := |before| + SIZEOF_LONG;
    assert table[|before|..at] == LongBytes(|s|);
    NumberOfBytes(|s|, SIZEOF_LONG);
    assert table[at..at + |s|] == s;
  }

  /** Each string that was put in the table is found at its offset, whatever is stored behind. */
  lemma {:induction false} TextAtOffset(items: seq<string>, s: string, before: string, behind: string)
    requires s in items && forall t :: t in items ==> IsShort(t)
    ensures var table := before + (Pack(items) + behind);
      |before| + Offset(items, s) + |s| < |table| && TextAt(table, |before| + Offset(items, s)) == s
  {
    var rest := Pack(items[1..]) + behind;
    assert Pack(items) + behind == Item(items[0]) + rest;
    if items[0] == s {
      ItemAt(s, before, rest);
    } else {
      var before' := before + Item(items[0]);
      assert before + (Item(items[0]) + rest) == before' + rest;
      TextAtOffset(items[1..], s, before', behind);
    }
  }

  lemma FoundIn(items: seq<string>, s: string, table: string, behind: string)
    requires s in items && (forall t :: t in items ==> IsShort(t)) && table == Pack(items) + behind
    ensures TextAt(table, Offset(items, s)) == s
  {
    TextAtOffset(items, s, [], behind);
    assert [] + (Pack(items) + behind) == table;
  }

  /** Different strings have different offsets. */
  lemma OffsetsDiffer(items: seq<string>, s: string, t: string)
    requires s in items && t in items && (forall u :: u in items ==> IsShort(u))
    requires Offset(items, s) == Offset(items, t)
    ensures s == t
  {
    TextAtOffset(items, s, [], []);
    TextAtOffset(items, t, [], []);
  }

  lemma PackAt(items: seq<string>, k: nat)
    requires k < |items|
    ensures Pack(items) == Pack(items[..k]) + (Item(items[k]) + Pack(items[k + 1..]))
    ensures Pack(items[k + 1..]) == [] <==> k + 1 == |items|
  {
    var tail := items[k..];
    assert items == items[..k] + tail && tail[1..] == items[k + 1..];
    PackConcat(items[..k], tail);
  }

  lemma PackNext(items: seq<string>, k: nat)
    requires k < |items|
    ensures Pack(items[..k + 1]) == Pack(items[..k]) + Item(items[k])
  {
    PackSnoc(items[..k], items[k]);
    assert items[..k + 1] == items[..k] + [items[k]];
  }

  lemma PackSnoc(items: seq<string>, s: string)
    ensures Pack(items + [s]) == Pack(items) + Item(s)
  {
    PackConcat(items, [s]);
    assert [s][1..] == [];
    var x := Item(s);
    assert Pack([s]) == x + [] == x;
  }

  lemma ItemSlices(s: string, before: string, behind: string)
    requires IsShort(s)
    ensures var table, at := before + (Item(s) + behind), |before|;
      && at + SIZEOF_LONG + |s| + 1 <= |table|
      && Number(table[at..at + SIZEOF_LONG]) == |s| && table[at + SIZEOF_LONG..at + SIZEOF_LONG + |s|] == s
  {
    var table, at := before + (Item(s) + behind), |before|;
    assert table[at..at + SIZEOF_LONG] == LongBytes(|s|);
    NumberOfBytes(|s|, SIZEOF_LONG);
  }
}
