/** The segment allocator (myalloc.c): each segment is a doubly linked list of the blocks that were allocated in
    it, with a running size, and global statistics run over all segments. */
module Segments {
  import opened Wrappers

  /** AllocUnit: the header of a block. */
  class Unit {
    const Size: nat
    var next: Unit?
    var prev: Unit?
    /** The segment that the block belongs to. */
    ghost var owner: Segment?

    constructor (Size: nat)
      ensures this.Size == Size && next == null && prev == null && owner == null
    {
      this.Size := Size;
      next, prev, owner := null, null, null;
    }
  }

  function Max(a: nat, b: nat): nat {
    if a < b then b else a
  }

  function Min(a: nat, b: nat): nat {
    if a < b then a else b
  }

  function Total(units: seq<Unit>): nat {
    if units == [] then 0 else units[0].Size + Total(units[1..])
  }

  lemma {:induction false} TotalOfConcat(a: seq<Unit>, b: seq<Unit>)
    ensures Total(a + b) == Total(a) + Total(b)
  {
    if a == [] {
      assert a + b == b;
    } else {
      assert (a + b)[1..] == a[1..] + b;
      TotalOfConcat(a[1..], b);
    }
  }

  lemma TotalOfFirst(n: nat, units: seq<Unit>)
    ensures forall u: Unit :: u.Size == n ==> Total([u] + units) == n + Total(units)
  {
    forall u: Unit | u.Size == n ensures Total([u] + units) == n + Total(units) {
      assert ([u] + units)[1..] == units;
    }
  }

  lemma TotalWithout(units: seq<Unit>, k: nat)
    requires k < |units|
    ensures Total(Without(units, k)) + units[k].Size == Total(units)
  {
    assert units == units[..k] + ([units[k]] + units[k + 1..]);
    TotalOfConcat(units[..k], [units[k]] + units[k + 1..]);
    TotalOfConcat([units[k]], units[k + 1..]);
    TotalOfConcat(units[..k], units[k + 1..]);
    assert Total([units[k]]) == units[k].Size;
  }

  /** MyAlloc */
  class Segment {
    var FirstUnit: Unit?
    var MaxSize: nat
    var CurrentSize: nat
    var MaxNetSize: nat
    var MinNetSize: nat
    /** The blocks, in the order of the list. */
    ghost var units: seq<Unit>

    constructor ()
      ensures FirstUnit == null && units == [] && MaxSize == CurrentSize == MaxNetSize == MinNetSize == 0
    {
      FirstUnit, units := null, [];
      MaxSize, CurrentSize, MaxNetSize, MinNetSize := 0, 0, 0, 0;
    }

    /** The block `i` is this segment's, and is linked to its neighbours. */
    ghost predicate UnitAt(i: nat)
      requires i < |units|
      reads `units, units
    {
      && units[i].owner == this
      && units[i].next == (if i + 1 < |units| then units[i + 1] else null)
      && units[i].prev == (if i > 0 then units[i - 1] else null)
      && forall j :: 0 <= j < i ==> units[j] != units[i]
    }

    ghost predicate ListInv()
      reads `FirstUnit, `units, units
    {
      && FirstUnit == (if units == [] then null else units[0])
      && forall i {:trigger UnitAt(i)} :: 0 <= i < |units| ==> UnitAt(i)
    }

    /** A doubly linked list of different blocks, and the sum of their sizes. */
    ghost predicate Valid()
      reads this, units
    {
      ListInv() && CurrentSize == Total(units)
    }

    lemma OwnUnits()
      requires ListInv()
      ensures forall u :: u in units ==> u.owner == this
    {
      forall u | u in units ensures u.owner == this {
        var j :| 0 <= j < |units| && units[j] == u;
        assert UnitAt(j);
      }
    }

    // -------------------------------------------------------------- the list

    method Push(u: Unit)
      requires ListInv() && u.owner == null
      modifies `FirstUnit, `units, u, units
      ensures ListInv() && units == [u] + old(units)
    {
      forall i | 0 <= i < |units| ensures units[i] != u {
        assert UnitAt(i);
      }
      u.prev := null;
      u.next := FirstUnit;
      if FirstUnit != null {
        FirstUnit.prev := u;
      }
      FirstUnit := u;
      u.owner := this;
      ghost var was := units;
      units := [u] + was;
      forall i | 0 <= i < |units| ensures UnitAt(i) {
        if i > 0 {
          assert old(UnitAt(i - 1));
        }
        if i > 1 {
          assert old(UnitAt(0));
        }
        forall j | 0 <= j < i ensures units[j] != units[i] {
          assert j > 0 ==> units[j] == was[j - 1];
        }
      }
    }

    method Remove(u: Unit, ghost k: nat)
      requires ListInv() && k < |units| && units[k] == u
      modifies `FirstUnit, `units, units
      ensures ListInv() && units == Without(old(units), k) && u.owner == null
    {
      assert UnitAt(k);
      assert k > 0 ==> UnitAt(k - 1);
      assert k + 1 < |units| ==> UnitAt(k + 1);
      if u.next != null {
        u.next.prev := u.prev;
      }
      if u.prev != null {
        u.prev.next := u.next;
      } else {
        FirstUnit := u.next;
      }
      u.owner := null;
      ghost var was := units;
      units := Without(was, k);
      forall i | 0 <= i < |units| ensures UnitAt(i) {
        var m := if i < k then i else i + 1;
        assert old(UnitAt(m));
        forall j | 0 <= j < i ensures units[j] != units[i] {
          assert units[j] == was[if j < k then j else j + 1];
        }
      }
    }

    /** The list of `that` is linked to the end of this one (alloc_Merge). */
    method Append(that: Segment)
      requires this != that && ListInv() && that.ListInv()
      modifies `FirstUnit, `units, that`FirstUnit, that`units, units, that.units
      ensures ListInv() && units == old(units) + old(that.units) && that.ListInv() && that.units == []
    {
      ghost var a, b := units, that.units;
      assert a != [] ==> UnitAt(|a| - 1);
      OwnUnits();
      that.OwnUnits();
      var q := LastUnit();
      if b != [] {
        assert that.UnitAt(0);
      }
      if q == null {
        FirstUnit := that.FirstUnit;
      } else {
        q.next := that.FirstUnit;
      }
      if that.FirstUnit != null {
        that.FirstUnit.prev := q;
      }
      that.FirstUnit := null;
      forall u | u in b {
        u.owner := this;
      }
      units, that.units := a + b, [];
      forall i | 0 <= i < |units| ensures UnitAt(i) {
        if i < |a| {
          assert old(UnitAt(i));
        } else {
          assert old(that.UnitAt(i - |a|));
        }
        assert i == |a| && i > 0 ==> old(UnitAt(i - 1));
        forall j | 0 <= j < i ensures units[j] != units[i] {
          if j < |a| {
            assert old(UnitAt(j));
          }
        }
      }
    }

    /** The loop of alloc_Merge. */
    method LastUnit() returns (q: Unit?)
      requires ListInv()
      ensures q == if units == [] then null else units[|units| - 1]
    {
      q := FirstUnit;
      if q == null {
        return;
      }
      ghost var i := 0;
      assert UnitAt(0);
      while q.next != null
        invariant 0 <= i < |units| && q == units[i] && UnitAt(i)
        decreases |units| - i
      {
        q := q.next;
        i := i + 1;
        assert UnitAt(i);
      }
    }
  }

  // ---------------------------------------------------------------- all segments

  function Sum(sizes: seq<nat>): nat {
    if sizes == [] then 0 else sizes[0] + Sum(sizes[1..])
  }

  lemma {:induction false} SumUpdate(sizes: seq<nat>, k: nat, n: nat)
    requires k < |sizes|
    ensures Sum(sizes[k := n]) + sizes[k] == Sum(sizes) + n
    ensures sizes[k] <= Sum(sizes)
  {
    if k > 0 {
      assert sizes[k := n][1..] == sizes[1..][k - 1 := n];
      SumUpdate(sizes[1..], k - 1, n);
    } else {
      assert sizes[0 := n][1..] == sizes[1..];
    }
  }

  lemma {:induction false} SumOfConcat(a: seq<nat>, b: seq<nat>)
    ensures Sum(a + b) == Sum(a) + Sum(b)
  {
    if a == [] {
      assert a + b == b;
    } else {
      assert (a + b)[1..] == a[1..] + b;
      SumOfConcat(a[1..], b);
    }
  }

  lemma {:induction false} SumWithout(sizes: seq<nat>, k: nat)
    requires k < |sizes|
    ensures Sum(sizes[..k] + sizes[k + 1..]) + sizes[k] == Sum(sizes)
    decreases k
  {
    var less := sizes[..k] + sizes[k + 1..];
    if k == 0 {
      assert less == sizes[1..];
    } else {
      var rest := sizes[1..];
      SumWithout(rest, k - 1);
      assert less[1..] == rest[..k - 1] + rest[k..];
    }
  }

  /** The segments and the global net statistics. */
  class Allocator {
    var ActNetSize: nat
    var MaxNetSize: nat
    var MinNetSize: nat
    ghost var segments: seq<Segment>
    ghost var sizes: seq<nat>
    /** Every block that was ever allocated. */
    ghost var blocks: set<Unit>

    ghost predicate SegmentAt(k: nat)
      requires k < |segments|
      reads `segments, `sizes, `blocks, segments, blocks
    {
      && (forall j :: 0 <= j < |segments[k].units| ==> segments[k].units[j] in blocks)
      && segments[k].Valid() && k < |sizes| && segments[k].CurrentSize == sizes[k]
      && forall j :: 0 <= j < k ==> segments[j] != segments[k]
    }

    /** Every segment is well formed, no segment is listed twice, and the net size is the sum of the sizes of all
        blocks of all segments. */
    ghost predicate Valid()
      reads this, segments, blocks
    {
      && |sizes| == |segments| && MinNetSize <= ActNetSize == Sum(sizes) <= MaxNetSize
      && forall k {:trigger SegmentAt(k)} :: 0 <= k < |segments| ==> SegmentAt(k)
    }

    constructor ()
      ensures Valid() && segments == [] && ActNetSize == MaxNetSize == MinNetSize == 0
    {
      ActNetSize, MaxNetSize, MinNetSize := 0, 0, 0;
      segments, sizes, blocks := [], [], {};
    }

    /** STAT_ADD and STAT_SUB, for the net size. */
    method StatChange(net: nat)
      modifies `ActNetSize, `MaxNetSize, `MinNetSize
      ensures ActNetSize == net && MaxNetSize == Max(old(MaxNetSize), net) && MinNetSize == Min(old(MinNetSize), net)
    {
      ActNetSize := net;
      if ActNetSize > MaxNetSize {
        MaxNetSize := ActNetSize;
      }
      if ActNetSize < MinNetSize {
        MinNetSize := ActNetSize;
      }
    }

    /** The segment `p`, which is the one at `k`, has changed, and the others have not. */
    twostate lemma OneChanged(p: Segment, new k: nat)
      requires old(Valid()) && segments == old(segments) && k < |segments| && segments[k] == p && k < |old(sizes)|
      requires p.Valid() && (forall j :: 0 <= j < |p.units| ==> p.units[j] in blocks) && sizes == old(sizes)[k := p.CurrentSize]
      requires old(blocks) <= blocks
      requires forall s :: s in segments && s != p ==> unchanged(s)
      requires forall u :: u in old(blocks) && old(u.owner) != null && old(u.owner) != p ==> unchanged(u)
      ensures |sizes| == |segments| && Sum(sizes) + old(sizes)[k] == Sum(old(sizes)) + p.CurrentSize
      ensures forall i :: 0 <= i < |segments| ==> SegmentAt(i)
    {
      SumUpdate(old(sizes), k, p.CurrentSize);
      assert old(SegmentAt(k));
      forall i | 0 <= i < |segments| ensures SegmentAt(i) {
        assert old(SegmentAt(i));
        if i != k {
          var s := segments[i];
          assert s != p by {
            assert segments[k] == p;
          }
          assert s in segments && s.units == old(s.units);
          forall j | 0 <= j < |s.units| ensures s.UnitAt(j) {
            assert old(s.UnitAt(j));
          }
        }
      }
    }

    /** alloc_InitSegment */
    method InitSegment() returns (p: Segment)
      requires Valid()
      modifies `segments, `sizes
      ensures Valid() && fresh(p) && p.units == [] && segments == old(segments) + [p]
      ensures p.MaxSize == p.MaxNetSize == p.MinNetSize == 0 && unchanged(`ActNetSize, `MaxNetSize, `MinNetSize)
    {
      p := new Segment();
      forall k | 0 <= k < |segments| ensures segments[k] != p {
        assert SegmentAt(k);
      }
      SumOfConcat(sizes, [0]);
      segments, sizes := segments + [p], sizes + [0];
      forall k | 0 <= k < |segments| ensures SegmentAt(k) {
        if k < |segments| - 1 {
          assert old(SegmentAt(k));
        }
      }
    }

    /** alloc_Alloc, with memory that never runs out: null for no bytes, or if the segment's limit is exceeded. */
    method Alloc(n: nat, p: Segment, ghost k: nat) returns (u: Unit?)
      requires Valid() && k < |segments| && segments[k] == p
      modifies this, p, p.units
      ensures Valid() && segments == old(segments)
      ensures u == null <==> n == 0 || (p.MaxSize != 0 && p.MaxSize < old(p.CurrentSize) + n)
      ensures u == null ==> p.units == old(p.units) && unchanged(`ActNetSize, `MaxNetSize, `MinNetSize) && unchanged(p)
      ensures MaxNetSize == Max(old(MaxNetSize), ActNetSize) && MinNetSize == old(MinNetSize)
      ensures p.MaxNetSize == (if u == null then old(p.MaxNetSize) else Max(old(p.MaxNetSize), p.CurrentSize))
      ensures p.MinNetSize == old(p.MinNetSize)
      ensures u != null ==>
                fresh(u) && u.Size == n && p.units == [u] + old(p.units) && ActNetSize == old(ActNetSize) + n
                && p.CurrentSize <= p.MaxNetSize && p.MaxSize == old(p.MaxSize)
    {
      if n == 0 {
        return null;
      }
      if p.MaxSize != 0 && p.MaxSize < p.CurrentSize + n {
        return null;
      }
      assert SegmentAt(k);
      p.OwnUnits();
      TotalOfFirst(n, p.units);
      u := new Unit(n);
      p.Push(u);
      assert Total(p.units) == n + Total(old(p.units));
      p.CurrentSize := p.CurrentSize + n;
      if p.CurrentSize > p.MaxNetSize {
        p.MaxNetSize := p.CurrentSize;
      }
      blocks := blocks + {u};
      sizes := sizes[k := p.CurrentSize];
      OneChanged(p, k);
      StatChange(ActNetSize + n);
    }

    /** alloc_Free, for a block of the segment; `i` is its place in the list. */
    method Free(u: Unit, p: Segment, ghost k: nat, ghost i: nat)
      requires Valid() && k < |segments| && segments[k] == p && i < |p.units| && p.units[i] == u
      modifies this, p, p.units
      ensures Valid() && segments == old(segments) && p.units == Without(old(p.units), i) && u.owner == null
      ensures ActNetSize == old(ActNetSize) - u.Size && p.MaxSize == old(p.MaxSize) && p.MaxNetSize == old(p.MaxNetSize)
      ensures p.MinNetSize == Min(old(p.MinNetSize), p.CurrentSize)
      ensures MaxNetSize == old(MaxNetSize) && MinNetSize == Min(old(MinNetSize), ActNetSize)
    {
      assert SegmentAt(k);
      p.OwnUnits();
      SumUpdate(sizes, k, 0);
      TotalWithout(p.units, i);
      p.CurrentSize := p.CurrentSize - u.Size;
      if p.CurrentSize < p.MinNetSize {
        p.MinNetSize := p.CurrentSize;
      }
      p.Remove(u, i);
      sizes := sizes[k := p.CurrentSize];
      OneChanged(p, k);
      StatChange(ActNetSize - u.Size);
    }

    /** alloc_FreeSegment */
    method FreeSegment(p: Segment, ghost k: nat)
      requires Valid() && k < |segments| && segments[k] == p
      modifies this, p, p.units
      ensures Valid() && segments == old(segments) && p.units == [] && p.CurrentSize == 0
      ensures ActNetSize == old(ActNetSize) - old(p.CurrentSize)
      ensures forall u :: u in old(p.units) ==> u.owner == null
      ensures p.MaxSize == old(p.MaxSize) && p.MaxNetSize == old(p.MaxNetSize) && p.MinNetSize == 0
      ensures MaxNetSize == old(MaxNetSize) && MinNetSize == Min(old(MinNetSize), ActNetSize)
    {
      assert SegmentAt(k);
      p.OwnUnits();
      SumUpdate(sizes, k, 0);
      FreeUnits(p);
      sizes := sizes[k := 0];
      OneChanged(p, k);
    }

    /** alloc_FinishSegment */
    method FinishSegment(p: Segment, ghost k: nat)
      requires Valid() && k < |segments| && segments[k] == p
      modifies this, p, p.units
      ensures Valid() && segments == old(segments)[..k] + old(segments)[k + 1..]
      ensures ActNetSize == old(ActNetSize) - old(p.CurrentSize) && forall u :: u in old(p.units) ==> u.owner == null
      ensures MaxNetSize == old(MaxNetSize) && MinNetSize == Min(old(MinNetSize), ActNetSize)
    {
      FreeSegment(p, k);
      Forget(k);
    }

    ghost method Forget(k: nat)
      requires Valid() && k < |segments| && segments[k].CurrentSize == 0
      modifies `segments, `sizes
      ensures Valid() && segments == old(segments)[..k] + old(segments)[k + 1..]
    {
      assert SegmentAt(k);
      SumWithout(sizes, k);
      segments, sizes := segments[..k] + segments[k + 1..], sizes[..k] + sizes[k + 1..];
      forall i | 0 <= i < |segments| ensures SegmentAt(i) {
        assert old(SegmentAt(if i < k then i else i + 1));
        assert forall j :: 0 <= j < i ==> segments[j] == old(segments)[if j < k then j else j + 1];
      }
    }

    method FreeUnits(p: Segment)
      requires p.ListInv() && ActNetSize >= Total(p.units) && MinNetSize <= ActNetSize <= MaxNetSize
      modifies `ActNetSize, `MaxNetSize, `MinNetSize, p, p.units`owner
      ensures p.Valid() && p.units == [] && p.CurrentSize == 0
      ensures p.MaxSize == old(p.MaxSize) && p.MaxNetSize == old(p.MaxNetSize) && p.MinNetSize == 0
      ensures MaxNetSize == old(MaxNetSize) && MinNetSize == Min(old(MinNetSize), ActNetSize)
      ensures ActNetSize == old(ActNetSize) - Total(old(p.units)) && forall u :: u in old(p.units) ==> u.owner == null
    {
      ReleaseUnits(p);
      p.FirstUnit := null;
      p.CurrentSize := 0;
      p.MinNetSize := 0;
      p.units := [];
    }

    /** The loop of alloc_FreeSegment: each block is taken off the statistics and given back. */
    method ReleaseUnits(p: Segment)
      requires p.ListInv() && ActNetSize >= Total(p.units) && MinNetSize <= ActNetSize <= MaxNetSize
      modifies `ActNetSize, `MaxNetSize, `MinNetSize, p.units`owner
      ensures MaxNetSize == old(MaxNetSize) && MinNetSize == Min(old(MinNetSize), ActNetSize)
      ensures ActNetSize == old(ActNetSize) - Total(p.units) && forall u :: u in p.units ==> u.owner == null
    {
      var pAllU := p.FirstUnit;
      ghost var i := 0;
      while pAllU != null
        invariant 0 <= i <= |p.units| && pAllU == (if i < |p.units| then p.units[i] else null)
        invariant ActNetSize == old(ActNetSize) - Total(p.units) + Total(p.units[i..])
        invariant ActNetSize <= MaxNetSize == old(MaxNetSize) && MinNetSize == Min(old(MinNetSize), ActNetSize)
        invariant forall j :: 0 <= j < i ==> p.units[j].owner == null
        decreases |p.units| - i
      {
        assert old(p.UnitAt(i));
        assert p.units[i..][1..] == p.units[i + 1..];
        var pNext := pAllU.next;
        StatChange(ActNetSize - pAllU.Size);
        pAllU.owner := null;
        pAllU := pNext;
        i := i + 1;
      }
    }

    /** alloc_Merge; the second segment keeps its size, so that it is not well formed again until it is freed. */
    method Merge(p1: Segment, p2: Segment)
      requires p1 != p2 && p1.Valid() && p2.Valid()
      modifies p1`FirstUnit, p1`units, p1`CurrentSize, p2`FirstUnit, p2`units, p1.units, p2.units
      ensures p1.Valid() && p1.units == old(p1.units) + old(p2.units) && p1.CurrentSize == old(p1.CurrentSize) + old(p2.CurrentSize)
      ensures p2.ListInv() && p2.units == [] && p2.CurrentSize == old(p2.CurrentSize)
      ensures p2.Valid() <==> old(p2.CurrentSize) == 0
      ensures p1.MaxNetSize == old(p1.MaxNetSize)
      ensures p1.CurrentSize <= p1.MaxNetSize <==> old(p1.CurrentSize) + old(p2.CurrentSize) <= old(p1.MaxNetSize)
    {
      TotalOfConcat(p1.units, p2.units);
      p1.Append(p2);
      p1.CurrentSize := p1.CurrentSize + p2.CurrentSize;
    }

    /** alloc_MergeAndFinish: the first segment has the blocks of both, the second is gone, and no block is
        counted or forgotten twice. */
    method MergeAndFinish(p1: Segment, p2: Segment, ghost k1: nat, ghost k2: nat)
      requires Valid() && k1 < |segments| && k2 < |segments| && segments[k1] == p1 && segments[k2] == p2 && p1 != p2
      modifies this, p1, p2, p1.units, p2.units
      ensures Valid() && segments == old(segments)[..k2] + old(segments)[k2 + 1..]
      ensures p1.units == old(p1.units) + old(p2.units) && p1.CurrentSize == old(p1.CurrentSize) + old(p2.CurrentSize)
      ensures ActNetSize == old(ActNetSize) && MaxNetSize == old(MaxNetSize) && MinNetSize == old(MinNetSize)
    {
      assert SegmentAt(k1) && SegmentAt(k2);
      p1.OwnUnits();
      p2.OwnUnits();
      Merge(p1, p2);
      FreeUnits(p2);
      ghost var all := sizes[k1 := p1.CurrentSize][k2 := 0];
      SumUpdate(sizes, k1, p1.CurrentSize);
      SumUpdate(sizes[k1 := p1.CurrentSize], k2, 0);
      SumWithout(all, k2);
      segments, sizes := segments[..k2] + segments[k2 + 1..], all[..k2] + all[k2 + 1..];
      TwoChanged(p1, k1, k2);
    }

    /** The segment at `k1` has changed, that at `k2` is gone, and the others have not changed. */
    twostate lemma TwoChanged(p1: Segment, new k1: nat, new k2: nat)
      requires old(Valid()) && k1 < |old(segments)| && k2 < |old(segments)| && k1 != k2 && old(segments)[k1] == p1
      requires segments == old(segments)[..k2] + old(segments)[k2 + 1..]
      requires var all := old(sizes)[k1 := p1.CurrentSize][k2 := 0]; sizes == all[..k2] + all[k2 + 1..]
      requires p1.Valid() && (forall j :: 0 <= j < |p1.units| ==> p1.units[j] in blocks) && old(blocks) <= blocks
      requires forall s :: s in old(segments) && s != p1 && s != old(segments)[k2] ==> unchanged(s)
      requires forall u :: u in old(blocks) && old(u.owner) != null && old(u.owner) != p1 && old(u.owner) != old(segments)[k2] ==> unchanged(u)
      ensures forall i :: 0 <= i < |segments| ==> SegmentAt(i)
    {
      assert old(SegmentAt(k1)) && old(SegmentAt(k2));
      forall i | 0 <= i < |segments| ensures SegmentAt(i) {
        var m := if i < k2 then i else i + 1;
        assert segments[i] == old(segments)[m] && old(SegmentAt(m));
        assert forall j :: 0 <= j < i ==> segments[j] == old(segments)[if j < k2 then j else j + 1];
        assert m != k2 ==> segments[i] != old(segments)[k2];
        if m != k1 {
          var s := segments[i];
          assert s != p1 by {
            assert old(segments)[k1] == p1;
          }
          assert s in old(segments) && s.units == old(s.units);
          forall j | 0 <= j < |s.units| ensures s.UnitAt(j) {
            assert old(s.UnitAt(j));
          }
        }
      }
    }

    /** The blocks of the first `k` segments. */
    ghost function Live(k: nat): seq<Unit>
      requires k <= |segments|
      reads `segments, segments
    {
      if k == 0 then [] else Live(k - 1) + segments[k - 1].units
    }

    /** The net size is the sum over all blocks that are in use. */
    lemma {:induction false} NetSizeIsLive(k: nat)
      requires Valid() && k <= |segments|
      ensures Total(Live(k)) == Sum(sizes[..k])
      ensures k == |segments| ==> ActNetSize == Total(Live(k))
    {
      if k > 0 {
        NetSizeIsLive(k - 1);
        assert SegmentAt(k - 1);
        TotalOfConcat(Live(k - 1), segments[k - 1].units);
        assert sizes[..k] == sizes[..k - 1] + [sizes[k - 1]];
        SumOfConcat(sizes[..k - 1], [sizes[k - 1]]);
        assert Sum([sizes[k - 1]]) == sizes[k - 1];
      }
      assert sizes[..|segments|] == sizes;
    }
  }
}
