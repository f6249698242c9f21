/** MD5 over a stream (md5.c, RFC 1321). The 64-step block function is a parameter: every
    result here holds whatever it computes. UINT4 is a 32-bit word. */
module Md5 {
  type Byte = b: nat | b < 256
  type Word = w: nat | w < 0x1_0000_0000

  /** The chaining value: A, B, C, D. */
  type Chain = s: seq<Word> | |s| == 4 witness [0, 0, 0, 0]

  /** MD5Transform: chaining value and 64-byte block to chaining value. */
  type Compression = (Chain, seq<Byte>) -> Chain

  const INITIAL: Chain := [0x67452301, 0xefcdab89, 0x98badcfe, 0x10325476]
  const PADDING: seq<Byte> := [0x80] + Zeros(63)

  function Zeros(n: nat): (z: seq<Byte>)
    ensures |z| == n
  {
    seq(n, _ => 0)
  }

  // ---------------------------------------------------------------- what RFC 1321 asks for

  /** The chaining value after all whole blocks of `m`, from the left. */
  function Fold(f: Compression, s: Chain, m: seq<Byte>): Chain
    decreases |m|
  {
    if |m| < 64 then s else Fold(f, f(s, m[..64]), m[64..])
  }

  /** What is left of `m` after its whole blocks. */
  function Tail(m: seq<Byte>): seq<Byte> {
    m[|m| - |m| % 64..]
  }

  /** A word as four bytes, low byte first. */
  function WordBytes(w: Word): seq<Byte> {
    [w % 0x100, w / 0x100 % 0x100, w / 0x1_0000 % 0x100, w / 0x100_0000]
  }

  function Bytes(ws: seq<Word>): (r: seq<Byte>)
    ensures |r| == 4 * |ws|
  {
    if ws == [] then [] else WordBytes(ws[0]) + Bytes(ws[1..])
  }

  /** The number of zero bytes after the 1 bit. */
  function ZerosAfter(n: nat): nat {
    if n % 64 < 56 then 55 - n % 64 else 119 - n % 64
  }

  function WithoutLength(m: seq<Byte>): seq<Byte> {
    m + [0x80] + Zeros(ZerosAfter(|m|))
  }

  /** The bit length modulo 2^64 as two words, low word first. */
  function LengthWords(n: nat): (r: seq<Word>)
    ensures |r| == 2
  {
    [8 * n % 0x1_0000_0000, n / 0x2000_0000 % 0x1_0000_0000]
  }

  /** Sections 3.1 and 3.2: a 1 bit, the fewest 0 bits that leave room for the length in a whole
      number of blocks, and the length. */
  function Pad(m: seq<Byte>): seq<Byte> {
    WithoutLength(m) + Bytes(LengthWords(|m|))
  }

  /** Sections 3.3 to 3.5. */
  function Digest(f: Compression, m: seq<Byte>): seq<Byte> {
    Bytes(Fold(f, INITIAL, Pad(m)))
  }

  // ---------------------------------------------------------------- facts about it

  lemma {:induction false} FoldConcat(f: Compression, s: Chain, a: seq<Byte>, b: seq<Byte>)
    requires |a| % 64 == 0
    ensures Fold(f, s, a + b) == Fold(f, Fold(f, s, a), b)
    decreases |a|
  {
    if a == [] {
      assert a + b == b;
    } else {
      FoldConcat(f, f(s, a[..64]), a[64..], b);
      assert (a + b)[..64] == a[..64] && (a + b)[64..] == a[64..] + b;
    }
  }

  /** Only the tail of a message meets what is appended to it. */
  lemma FoldAppend(f: Compression, s: Chain, m: seq<Byte>, x: seq<Byte>)
    ensures Fold(f, s, m + x) == Fold(f, Fold(f, s, m), Tail(m) + x)
    ensures Tail(m + x) == Tail(Tail(m) + x)
  {
    var whole, tail := m[..|m| - |m| % 64], Tail(m);
    assert m == whole + tail && m + x == whole + (tail + x);
    FoldConcat(f, s, whole, tail);
    FoldConcat(f, s, whole, tail + x);
    TailConcat(whole, tail + x);
  }

  lemma TailConcat(a: seq<Byte>, b: seq<Byte>)
    requires |a| % 64 == 0
    ensures Tail(a + b) == Tail(b)
  {
    assert |a + b| % 64 == |b| % 64;
  }

  lemma RoomForLength(n: nat)
    ensures (n + 1 + ZerosAfter(n) + 8) % 64 == 0 && ZerosAfter(n) < 64
  {
    var q, r := n / 64, n % 64;
    assert n == 64 * q + r;
    if r < 56 {
      assert n + 9 + ZerosAfter(n) == 64 * (q + 1);
    } else {
      assert n + 9 + ZerosAfter(n) == 64 * (q + 2);
    }
  }

  /** A padded message is a whole number of blocks, with fewer than 64 zero bytes. */
  lemma PadFits(m: seq<Byte>)
    ensures |Pad(m)| % 64 == 0
    ensures |m| + 9 <= |Pad(m)| < |m| + 9 + 64
  {
    RoomForLength(|m|);
  }

  /** Two messages shorter than 2^61 bytes never have the same padded form. */
  lemma PadIsInjective(m1: seq<Byte>, m2: seq<Byte>)
    requires |m1| < 0x2000_0000_0000_0000 && |m2| < 0x2000_0000_0000_0000
    requires Pad(m1) == Pad(m2)
    ensures m1 == m2
  {
    var w1, w2 := LengthWords(|m1|), LengthWords(|m2|);
    assert Bytes(w1) == Pad(m1)[|Pad(m1)| - 8..] == Pad(m2)[|Pad(m2)| - 8..] == Bytes(w2);
    BytesInjective(w1, w2);
    SameLength(|m1|, |m2|);
    assert m1 == Pad(m1)[..|m1|] && m2 == Pad(m2)[..|m2|];
  }

  lemma SameLength(n1: nat, n2: nat)
    requires n1 < 0x2000_0000_0000_0000 && n2 < 0x2000_0000_0000_0000
    requires LengthWords(n1) == LengthWords(n2)
    ensures n1 == n2
  {
    LengthFromWords(n1, LengthWords(n1));
    LengthFromWords(n2, LengthWords(n2));
  }

  lemma LengthFromWords(n: nat, w: seq<Word>)
    requires n < 0x2000_0000_0000_0000 && w == LengthWords(n)
    ensures 8 * n == w[0] + 0x1_0000_0000 * (w[1] as int)
  {
    var h, k := n / 0x2000_0000, n % 0x2000_0000;
    assert n == k + 0x2000_0000 * h && h < 0x1_0000_0000;
    SplitWord(8 * k, h);
  }

  lemma {:induction false} BytesInjective(ws: seq<Word>, vs: seq<Word>)
    requires Bytes(ws) == Bytes(vs)
    ensures ws == vs
  {
    if ws != [] {
      var b, c := Bytes(ws), Bytes(vs);
      assert WordBytes(ws[0]) == b[..4] == c[..4] == WordBytes(vs[0]);
      WordBytesInverse(ws[0]);
      WordBytesInverse(vs[0]);
      assert Bytes(ws[1..]) == b[4..] == c[4..] == Bytes(vs[1..]);
      BytesInjective(ws[1..], vs[1..]);
    }
  }

  lemma Split256(b: int, n: int)
    requires 0 <= b < 256
    ensures (b + 256 * n) % 256 == b && (b + 256 * n) / 256 == n
  {
  }

  lemma DivideAgain(w: nat)
    ensures w / 0x1_0000 == w / 0x100 / 0x100 && w / 0x100_0000 == w / 0x1_0000 / 0x100
  {
  }

  lemma WordBytesInverse(w: Word)
    ensures var b := WordBytes(w); w == WordOf(b[0], b[1], b[2], b[3])
  {
    DivideAgain(w);
    var w1, w2: int := w / 0x100, w / 0x1_0000;
    assert w == w % 0x100 + 0x100 * w1 && w1 == w1 % 0x100 + 0x100 * w2;
  }

  // ---------------------------------------------------------------- byte by byte

  /** Section 3.3 gives the chaining value by its bytes, low byte first. */
  lemma InitialBytes()
    ensures Bytes(INITIAL) == [0x01, 0x23, 0x45, 0x67, 0x89, 0xab, 0xcd, 0xef, 0xfe, 0xdc, 0xba, 0x98, 0x76, 0x54, 0x32, 0x10]
  {
    var s: seq<Word> := INITIAL;
    assert s[1..] == [0xefcdab89, 0x98badcfe, 0x10325476];
    assert s[1..][1..] == [0x98badcfe, 0x10325476] && s[1..][1..][1..] == [0x10325476];
    assert Bytes([0x10325476]) == WordBytes(0x10325476) + [];
  }

  function Power256(i: nat): (r: nat)
    ensures r > 0
  {
    if i == 0 then 1 else 256 * Power256(i - 1)
  }

  lemma Powers256()
    ensures Power256(0) == 1 && Power256(1) == 0x100 && Power256(2) == 0x1_0000 && Power256(3) == 0x100_0000
    ensures Power256(4) == 0x1_0000_0000 && Power256(5) == 0x100_0000_0000 && Power256(6) == 0x1_0000_0000_0000
    ensures Power256(7) == 0x100_0000_0000_0000
  {
  }

  lemma LowBytes(low: int, high: int)
    requires 0 <= low < 0x1_0000_0000 && 0 <= high
    ensures var n := low + 0x1_0000_0000 * high;
      && n % 0x100 == low % 0x100 && n / 0x100 % 0x100 == low / 0x100 % 0x100
      && n / 0x1_0000 % 0x100 == low / 0x1_0000 % 0x100 && n / 0x100_0000 % 0x100 == low / 0x100_0000
  {
    LowByte(low, 1, 0x100_0000, high);
    LowByte(low, 0x100, 0x1_0000, high);
    LowByte(low, 0x1_0000, 0x100, high);
    LowByte(low, 0x100_0000, 1, high);
  }

  lemma LowByte(low: int, p: int, q: int, high: int)
    requires 0 <= low < 0x1_0000_0000 && 0 <= high && 0 < p && 0 < q && p * q == 0x100_0000
    ensures (low + 0x1_0000_0000 * high) / p % 0x100 == low / p % 0x100
  {
    var k := 0x100 * q * high;
    assert 0x1_0000_0000 * high == p * k by {
      assert p * (0x100 * q) == 0x100 * (p * q) == 0x1_0000_0000;
      assert p * k == (p * (0x100 * q)) * high;
    }
    DivideSum(low, p, k);
    ModSum(low / p, q * high);
    assert 0x100 * (q * high) == k;
  }

  lemma DivideSum(x: int, p: int, k: int)
    requires p > 0
    ensures (x + p * k) / p == x / p + k
  {
    var r := (x + p * k) / p;
    assert p * r <= x + p * k < p * (r + 1);
    assert p * (r - k) <= x < p * (r - k + 1);
    SameQuotient(x, p, r - k);
  }

  lemma SameQuotient(x: int, p: int, q: int)
    requires p > 0 && p * q <= x < p * (q + 1)
    ensures x / p == q
  {
    var r := x / p;
    assert p * r <= x < p * (r + 1);
    assert r < q ==> p * (r + 1) <= p * q;
    assert r > q ==> p * (q + 1) <= p * r;
  }

  lemma ModSum(x: int, k: int)
    ensures (x + 0x100 * k) % 0x100 == x % 0x100
  {
  }

  /** Byte `i` of a number, counted from the low end. */
  function ByteOf(n: nat, i: nat): Byte {
    n / Power256(i) % 0x100
  }

  lemma LengthBytes(n: nat)
    ensures forall i :: 0 <= i < 8 ==> Bytes(LengthWords(n))[i] == ByteOf(8 * n, i)
  {
    var low, high := 8 * n % 0x1_0000_0000, n / 0x2000_0000;
    assert 8 * n == low + 0x1_0000_0000 * high;
    Powers256();
    LowBytes(low, high);
    var w := high % 0x1_0000_0000;
    LowBytes(w, high / 0x1_0000_0000);
    HighBytes(low, high);
    var ws := LengthWords(n);
    assert ws[1..] == [ws[1]] && [ws[1]][1..] == [];
    assert Bytes(ws) == WordBytes(ws[0]) + (WordBytes(ws[1]) + []);
  }

  /** The bytes from the fifth on are those of the high part. */
  lemma HighBytes(low: int, high: int)
    requires 0 <= low < 0x1_0000_0000 && 0 <= high
    ensures var n := low + 0x1_0000_0000 * high;
      && n / 0x1_0000_0000 == high && n / 0x100_0000_0000 == high / 0x100
      && n / 0x1_0000_0000_0000 == high / 0x1_0000 && n / 0x100_0000_0000_0000 == high / 0x100_0000
  {
  }

  /** Sections 3.1 and 3.2, byte by byte: the message, a byte with its high bit set, zeros, as few as make whole
      blocks, and eight bytes with the length in bits, low byte first. */
  lemma PaddedBytes(m: seq<Byte>)
    ensures var p := Pad(m);
      && |p| % 64 == 0 && |m| + 9 <= |p| < |m| + 73
      && p[..|m|] == m && p[|m|] == 128
      && (forall k :: |m| < k < |p| - 8 ==> p[k] == 0)
      && (forall i :: 0 <= i < 8 ==> p[|p| - 8 + i] == ByteOf(8 * |m|, i))
  {
    PadFits(m);
    LengthBytes(|m|);
    var p, w := Pad(m), WithoutLength(m);
    assert forall k :: 0 <= k < |w| ==> p[k] == w[k];
    assert forall i :: 0 <= i < 8 ==> p[|w| + i] == Bytes(LengthWords(|m|))[i];
  }

  // ---------------------------------------------------------------- the streaming code

  /** Copies `input` into `output` from position `at`. */
  method MD5_memcpy(output: array<Byte>, at: nat, input: seq<Byte>)
    requires at + |input| <= output.Length
    modifies output
    ensures output[..] == old(output[..at]) + input + old(output[at + |input|..])
  {
    for i := 0 to |input|
      invariant output[..] == old(output[..at]) + input[..i] + old(output[at + i..])
    {
      output[at + i] := input[i];
    }
  }

  method Encode(input: seq<Word>) returns (output: seq<Byte>)
    ensures output == Bytes(input)
  {
    output := [];
    for i := 0 to |input|
      invariant output == Bytes(input[..i])
    {
      var w := input[i];
      output := output + [w % 0x100, w / 0x100 % 0x100, w / 0x1_0000 % 0x100, w / 0x100_0000 % 0x100];
      BytesSnoc(input[..i], w);
      assert input[..i] + [w] == input[..i + 1];
    }
    assert input[..|input|] == input;
  }

  method Decode(input: seq<Byte>) returns (output: seq<Word>)
    requires |input| % 4 == 0
    ensures Bytes(output) == input
  {
    output := [];
    var j := 0;
    while j < |input|
      invariant j <= |input| && j % 4 == 0
      invariant Bytes(output) == input[..j]
    {
      var w := WordOf(input[j], input[j + 1], input[j + 2], input[j + 3]);
      WordOfBytes(input[j], input[j + 1], input[j + 2], input[j + 3]);
      BytesSnoc(output, w);
      output := output + [w];
      j := j + 4;
    }
    assert input[..|input|] == input;
  }

  function WordOf(b0: int, b1: int, b2: int, b3: int): (w: Word)
    requires 0 <= b0 < 256 && 0 <= b1 < 256 && 0 <= b2 < 256 && 0 <= b3 < 256
  {
    b0 + b1 * 0x100 + b2 * 0x1_0000 + b3 * 0x100_0000
  }

  lemma WordOfBytes(b0: int, b1: int, b2: int, b3: int)
    requires 0 <= b0 < 256 && 0 <= b1 < 256 && 0 <= b2 < 256 && 0 <= b3 < 256
    ensures WordBytes(WordOf(b0, b1, b2, b3)) == [b0, b1, b2, b3]
  {
    var w2 := b2 + 256 * b3;
    var w1 := b1 + 256 * w2;
    assert WordOf(b0, b1, b2, b3) == b0 + 256 * w1;
    Split256(b0, w1);
    Split256(b1, w2);
    Split256(b2, b3);
    DivideAgain(WordOf(b0, b1, b2, b3));
  }

  lemma {:induction false} BytesSnoc(ws: seq<Word>, w: Word)
    ensures Bytes(ws + [w]) == Bytes(ws) + WordBytes(w)
  {
    if ws != [] {
      BytesSnoc(ws[1..], w);
      assert (ws + [w])[1..] == ws[1..] + [w];
    }
  }

  /** `count` holds `n` bytes in bits, as a 64-bit number that has wrapped around `wraps` times. */
  predicate CountsBits(count: seq<Word>, wraps: nat, n: nat) {
    |count| == 2 && CountOf(count[1], count[0]) + wraps * 0x1_0000_0000_0000_0000 == 8 * n
  }

  lemma CountIsBitLength(count: seq<Word>, wraps: nat, n: nat)
    requires CountsBits(count, wraps, n)
    ensures count == LengthWords(n)
  {
    HighWord(count[1], wraps, count[0], n);
  }

  lemma HighWord(high: int, wraps: int, low: int, n: int)
    requires 0 <= low < 0x1_0000_0000 && 0 <= high < 0x1_0000_0000
    requires 8 * n == low + 0x1_0000_0000 * (high + 0x1_0000_0000 * wraps)
    ensures 8 * n % 0x1_0000_0000 == low && n / 0x2000_0000 % 0x1_0000_0000 == high
  {
    var h := high + 0x1_0000_0000 * wraps;
    SplitWord(low, h);
    SplitWord(high, wraps);
    var k := n - 0x2000_0000 * h;
    assert low == 8 * k;
    assert n == k + 0x2000_0000 * h && 0 <= k < 0x2000_0000;
    SplitLength(k, h);
  }

  lemma SplitWord(low: int, high: int)
    requires 0 <= low < 0x1_0000_0000
    ensures (low + 0x1_0000_0000 * high) % 0x1_0000_0000 == low
  {
  }

  lemma SplitLength(k: int, h: int)
    requires 0 <= k < 0x2000_0000
    ensures (k + 0x2000_0000 * h) / 0x2000_0000 == h
  {
  }

  predicate StartsWith(s: seq<Byte>, t: seq<Byte>) {
    |t| <= |s| && s[..|t|] == t
  }

  /** Between two calls the state covers the whole blocks, and the buffer starts with the rest. */
  ghost predicate Absorbed(f: Compression, state: Chain, count: seq<Word>, wraps: nat, buffer: seq<Byte>, message: seq<Byte>) {
    && CountsBits(count, wraps, |message|)
    && state == Fold(f, INITIAL, message)
    && StartsWith(buffer, Tail(message))
  }

  /** What MD5Update has to reach, from what it started with. */
  lemma AbsorbMore(f: Compression, state: Chain, count: seq<Word>, wraps: nat, buffer: seq<Byte>, message: seq<Byte>, input: seq<Byte>)
    requires CountsBits(count, wraps, |message| + |input|)
    requires state == Fold(f, Fold(f, INITIAL, message), Tail(message) + input)
    requires StartsWith(buffer, Tail(Tail(message) + input))
    ensures Absorbed(f, state, count, wraps, buffer, message + input)
  {
    FoldAppend(f, INITIAL, message, input);
    assert |message + input| == |message| + |input|;
  }

  /** MD5_CTX. */
  class MD5Context {
    const f: Compression
    var state: Chain
    var count: seq<Word>
    const buffer: array<Byte>
    ghost var message: seq<Byte>    // everything given to MD5Update so far
    ghost var wraps: nat            // how often the counter wrapped around

    ghost predicate Valid()
      reads this, buffer
    {
      buffer.Length == 64 && Absorbed(f, state, count, wraps, buffer[..], message)
    }

    constructor (f: Compression)
      ensures Valid() && message == [] && this.f == f && fresh(buffer)
    {
      this.f := f;
      buffer := new Byte[64];
      count := [0, 0];
      state := INITIAL;
      message := [];
      wraps := 0;
    }

    /** The first lines of MD5Update: add the bits of the input to the counter. */
    method CountBits(inputLen: nat)
      requires CountsBits(count, wraps, |message|) && inputLen < 0x1_0000_0000
      modifies `count, `wraps
      ensures CountsBits(count, wraps, |message| + inputLen)
    {
      var low := (count[0] + inputLen * 8) % 0x1_0000_0000;
      var high := count[1];
      if low < inputLen * 8 % 0x1_0000_0000 {
        high := (high + 1) % 0x1_0000_0000;
      }
      high := (high + inputLen / 0x2000_0000) % 0x1_0000_0000;
      ghost var k := CountAdds(count[1], count[0], inputLen, high, low);
      wraps := wraps + k;
      count := [low, high];
    }

    /** The rest of MD5Update: run the block function as often as possible, buffer what is left. */
    method Absorb(input: seq<Byte>, start: nat)
      requires buffer.Length == 64 && start < 64 && |input| < 0x1_0000_0000 - 63
      modifies `state, buffer
      ensures state == Fold(f, old(state), old(buffer[..start]) + input)
      ensures StartsWith(buffer[..], Tail(old(buffer[..start]) + input))
    {
      var inputLen, index := |input|, start;
      var partLen := 64 - index;
      var i: nat;
      ghost var both := buffer[..index] + input;
      if inputLen >= partLen {
        MD5_memcpy(buffer, index, input[..partLen]);
        assert both == buffer[..] + input[partLen..];
        FoldBlock(f, state, buffer[..], input[partLen..]);
        state := f(state, buffer[..]);
        i := partLen;
        while i + 63 < inputLen
          invariant partLen <= i <= inputLen
          invariant (i + index) % 64 == 0
          invariant Fold(f, state, input[i..]) == Fold(f, old(state), both)
        {
          assert input[i..] == input[i..i + 64] + input[i + 64..];
          FoldBlock(f, state, input[i..i + 64], input[i + 64..]);
          state := f(state, input[i..i + 64]);
          i := i + 64;
        }
        TailIs(both, index + i);
        assert Tail(both) == input[i..];
        index := 0;
      } else {
        i := 0;
        TailIs(both, 0);
      }
      MD5_memcpy(buffer, index, input[i..]);
    }

    method MD5Update(input: seq<Byte>)
      requires Valid() && |input| < 0x1_0000_0000 - 63
      modifies this, buffer
      ensures Valid() && message == old(message) + input
    {
      var index := count[0] / 8 % 64;
      CountIsLength(count, wraps, |message|);
      assert buffer[..index] == Tail(message);
      CountBits(|input|);
      Absorb(input, index);
      AbsorbMore(f, state, count, wraps, buffer[..], message, input);
      message := message + input;
    }

    /** Writes the digest of everything given to MD5Update, and wipes the context. */
    method MD5Final() returns (digest: seq<Byte>)
      requires Valid()
      modifies this, buffer
      ensures digest == Digest(f, old(message))
      ensures state == [0, 0, 0, 0] && count == [0, 0] && buffer[..] == Zeros(64)
    {
      ghost var m := message;
      var bits := Encode(count);
      CountIsBitLength(count, wraps, |m|);
      CountIsLength(count, wraps, |m|);
      var index := count[0] / 8 % 64;
      var padLen := if index < 56 then 56 - index else 120 - index;
      PaddingIsPad(m, padLen);
      MD5Update(PADDING[..padLen]);
      MD5Update(bits);
      digest := Encode(state);
      for j := 0 to 64
        invariant buffer[..j] == Zeros(j)
      {
        buffer[j] := 0;
      }
      state := [0, 0, 0, 0];
      count := [0, 0];
    }
  }

  lemma FoldBlock(f: Compression, s: Chain, block: seq<Byte>, rest: seq<Byte>)
    requires |block| == 64
    ensures Fold(f, s, block + rest) == Fold(f, f(s, block), rest)
  {
    assert (block + rest)[..64] == block && (block + rest)[64..] == rest;
  }

  lemma TailIs(m: seq<Byte>, k: nat)
    requires k <= |m| < k + 64 && k % 64 == 0
    ensures Tail(m) == m[k..]
  {
  }

  lemma PaddingIsPad(m: seq<Byte>, padLen: nat)
    requires padLen == if |m| % 64 < 56 then 56 - |m| % 64 else 120 - |m| % 64
    ensures m + PADDING[..padLen] == WithoutLength(m)
  {
    assert PADDING[..padLen] == [0x80] + Zeros(padLen - 1);
  }

  /** The 64-bit counter in two words. */
  function CountOf(high: int, low: int): int {
    high * 0x1_0000_0000 + low
  }

  lemma CountIsLength(count: seq<Word>, wraps: nat, n: nat)
    requires CountsBits(count, wraps, n)
    ensures count[0] / 8 % 64 == n % 64
  {
    LowWord(count[1], count[0], wraps, n);
  }

  lemma LowWord(high: int, low: int, q: int, n: int)
    requires 8 * n == q * 0x1_0000_0000_0000_0000 + CountOf(high, low)
    ensures low / 8 % 64 == n % 64
  {
    var y := q * 0x80_0000_0000_0000 + high * 0x80_0000;
    assert low == 8 * (n - 64 * y);
    Modulo64(n - 64 * y, y);
  }

  lemma Modulo64(x: int, y: int)
    ensures (x + 64 * y) % 64 == x % 64
  {
  }

  /** The counter is a 64-bit sum with carry; the result says how often it wraps. */
  lemma CountAdds(high: Word, low: Word, len: nat, high': Word, low': Word) returns (k: nat)
    requires len < 0x1_0000_0000
    requires low' == (low + len * 8) % 0x1_0000_0000
    requires var carry := if low' < len * 8 % 0x1_0000_0000 then 1 else 0;
      high' == ((high + carry) % 0x1_0000_0000 + len / 0x2000_0000) % 0x1_0000_0000
    ensures CountOf(high', low') + k * 0x1_0000_0000_0000_0000 == CountOf(high, low) + 8 * len
  {
    var carry := LowAdds(low, len, low');
    k := HighAdds(high, carry, len / 0x2000_0000, high');
  }

  lemma LowAdds(low: int, len: int, low': int) returns (carry: int)
    requires 0 <= low < 0x1_0000_0000 && 0 <= len && low' == (low + len * 8) % 0x1_0000_0000
    ensures carry == if low' < len * 8 % 0x1_0000_0000 then 1 else 0
    ensures low' + 0x1_0000_0000 * (len / 0x2000_0000 + carry) == low + 8 * len
  {
    var h, l := len / 0x2000_0000, len * 8 % 0x1_0000_0000;
    EightTimes(len);
    carry := if low + l < 0x1_0000_0000 then 0 else 1;
    SplitWord(low + l - 0x1_0000_0000 * carry, h + carry);
  }

  lemma EightTimes(len: int)
    requires 0 <= len
    ensures len * 8 == len / 0x2000_0000 * 0x1_0000_0000 + len * 8 % 0x1_0000_0000
  {
    var h, k := len / 0x2000_0000, len % 0x2000_0000;
    assert len == k + 0x2000_0000 * h;
    SplitWord(8 * k, h);
  }

  lemma HighAdds(high: int, carry: int, h: int, high': int) returns (k: nat)
    requires 0 <= high < 0x1_0000_0000 && 0 <= carry <= 1 && 0 <= h < 0x1_0000_0000
    requires high' == ((high + carry) % 0x1_0000_0000 + h) % 0x1_0000_0000
    ensures high' + 0x1_0000_0000 * k == high + carry + h
  {
    var k1 := if high + carry < 0x1_0000_0000 then 0 else 1;
    var high1 := high + carry - 0x1_0000_0000 * k1;
    SplitWord(high1, k1);
    var k2 := if high1 + h < 0x1_0000_0000 then 0 else 1;
    SplitWord(high1 + h - 0x1_0000_0000 * k2, k2);
    k := k1 + k2;
  }

  // ---------------------------------------------------------------- any way of cutting the message

  function Join(pieces: seq<seq<Byte>>): seq<Byte> {
    if pieces == [] then [] else pieces[0] + Join(pieces[1..])
  }

  lemma {:induction false} JoinSnoc(pieces: seq<seq<Byte>>, x: seq<Byte>)
    ensures Join(pieces + [x]) == Join(pieces) + x
  {
    if pieces != [] {
      JoinSnoc(pieces[1..], x);
      assert (pieces + [x])[1..] == pieces[1..] + [x];
    }
  }

  /** However a message is cut into MD5Update calls, MD5Final gives the digest of the whole message. */
  method DigestOfPieces(f: Compression, pieces: seq<seq<Byte>>) returns (digest: seq<Byte>)
    requires forall x :: x in pieces ==> |x| < 0x1_0000_0000 - 63
    ensures digest == Digest(f, Join(pieces))
  {
    var context := new MD5Context(f);
    for i := 0 to |pieces|
      invariant context.Valid() && context.f == f
      invariant fresh(context) && fresh(context.buffer)
      invariant context.message == Join(pieces[..i])
    {
      context.MD5Update(pieces[i]);
      JoinSnoc(pieces[..i], pieces[i]);
      assert pieces[..i] + [pieces[i]] == pieces[..i + 1];
    }
    assert pieces[..|pieces|] == pieces;
    digest := context.MD5Final();
  }
}
