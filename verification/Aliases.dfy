/** Alias classes as a value: each slot of a class knows the whole class and its own position in it. The first
    slot of a class holds the value; the others refer to it. */
module Aliases {
  import opened Wrappers

  datatype Place<S> = Place(cls: seq<S>, pos: nat)

  type Classes<S> = map<S, Place<S>>

  /** Every slot is where it says, and so is every other slot of its class: a class is a sequence of
      different slots, and two classes share none. */
  ghost predicate Partition<S>(at: Classes<S>) {
    forall s {:trigger InPlace(at, s)} :: s in at ==> InPlace(at, s)
  }

  ghost predicate InPlace<S>(at: Classes<S>, s: S)
    requires s in at
  {
    && at[s].pos < |at[s].cls| && at[s].cls[at[s].pos] == s
    && forall j :: 0 <= j < |at[s].cls| ==> at[s].cls[j] in at && at[at[s].cls[j]] == Place(at[s].cls, j)
  }

  function Lead<S>(at: Classes<S>, s: S): S
    requires s in at
  {
    if at[s].cls == [] then s else at[s].cls[0]
  }

  function Last<S>(at: Classes<S>, s: S): S
    requires s in at
  {
    if at[s].cls == [] then s else at[s].cls[|at[s].cls| - 1]
  }

  function Pred<S>(at: Classes<S>, s: S): Option<S>
    requires s in at
  {
    if 0 < at[s].pos <= |at[s].cls| then Some(at[s].cls[at[s].pos - 1]) else None
  }

  function Succ<S>(at: Classes<S>, s: S): Option<S>
    requires s in at
  {
    if at[s].pos + 1 < |at[s].cls| then Some(at[s].cls[at[s].pos + 1]) else None
  }

  /** A slot in a class of its own. */
  function Alone<S>(at: Classes<S>, s: S): Classes<S> {
    at[s := Place([s], 0)]
  }

  /** `s` has a class, if need be of its own. */
  function With<S>(at: Classes<S>, s: S): (r: Classes<S>)
    ensures s in r
  {
    if s in at then at else Alone(at, s)
  }

  /** The class of `v` behind the class of `h`. */
  ghost function Join<S>(at: Classes<S>, h: S, v: S): Classes<S>
    requires h in at && v in at
  {
    var c, d := at[h].cls, at[v].cls;
    map s | s in at ::
      if at[s].cls == c then Place(c + d, at[s].pos)
      else if at[s].cls == d then Place(c + d, |c| + at[s].pos)
      else at[s]
  }

  /** The slot `v` leaves its class. */
  ghost function Drop<S>(at: Classes<S>, v: S): Classes<S>
    requires v in at
  {
    var c, i := at[v].cls, at[v].pos;
    map s | s in at && s != v ::
      if at[s].cls == c then Place(Without(c, i), if at[s].pos > i then at[s].pos - 1 else at[s].pos)
      else at[s]
  }

  lemma LeadOfClass<S>(at: Classes<S>, s: S, v: S)
    requires Partition(at) && s in at && v in at && at[v].pos == 0
    ensures Lead(at, s) == v <==> at[s].cls == at[v].cls
  {
    assert InPlace(at, s) && InPlace(at, v);
    assert at[at[s].cls[0]] == Place(at[s].cls, 0);
  }

  lemma LastOfClass<S>(at: Classes<S>, s: S)
    requires Partition(at) && s in at
    ensures Last(at, s) in at && at[Last(at, s)].cls == at[s].cls
  {
    assert InPlace(at, s);
  }

  /** Neighbours see each other, and the first of a class is the one without a neighbour before it. */
  lemma Neighbours<S>(at: Classes<S>, s: S, t: S)
    requires Partition(at) && s in at && t in at
    ensures Succ(at, s) == Some(t) <==> Pred(at, t) == Some(s)
    ensures Succ(at, s) == Some(t) ==> Lead(at, s) == Lead(at, t) && s != t
    ensures Pred(at, s) == None <==> Lead(at, s) == s
  {
    assert InPlace(at, s) && InPlace(at, t);
  }

  lemma LeadLeads<S>(at: Classes<S>, s: S)
    requires Partition(at) && s in at
    ensures var h := Lead(at, s);
      && h in at && at[h] == Place(at[s].cls, 0) && Lead(at, h) == h && Pred(at, h) == None
      && (Succ(at, h) == None ==> s == h)
  {
    assert InPlace(at, s);
  }

  lemma JoinAnyMember<S>(at: Classes<S>, g: S, h: S, v: S)
    requires g in at && h in at && v in at && at[g].cls == at[h].cls
    ensures Join(at, g, v) == Join(at, h, v)
  {
  }

  lemma JoinKeepsPartition<S>(at: Classes<S>, h: S, v: S)
    requires Partition(at) && h in at && v in at && at[h].cls != at[v].cls
    ensures Partition(Join(at, h, v)) && Join(at, h, v).Keys == at.Keys
  {
    assert InPlace(at, h) && InPlace(at, v);
    forall s | s in at ensures InPlace(Join(at, h, v), s) {
      assert InPlace(at, s);
      JoinInPlace(at, h, v, s);
    }
  }

  lemma JoinInPlace<S>(at: Classes<S>, h: S, v: S, s: S)
    requires h in at && v in at && s in at && at[h].cls != at[v].cls
    requires InPlace(at, h) && InPlace(at, v) && InPlace(at, s)
    ensures s in Join(at, h, v) && InPlace(Join(at, h, v), s)
  {
    var c, d, b := at[h].cls, at[v].cls, Join(at, h, v);
    if at[s].cls == c || at[s].cls == d {
      forall j | 0 <= j < |c + d| ensures (c + d)[j] in b && b[(c + d)[j]] == Place(c + d, j) {
        if j < |c| {
          assert at[c[j]] == Place(c, j);
        } else {
          assert at[d[j - |c|]] == Place(d, j - |c|);
        }
      }
    } else {
      forall j | 0 <= j < |at[s].cls| ensures at[s].cls[j] in b && b[at[s].cls[j]] == Place(at[s].cls, j) {
        assert at[at[s].cls[j]] == Place(at[s].cls, j);
      }
    }
  }

  lemma DropKeepsPartition<S>(at: Classes<S>, v: S)
    requires Partition(at) && v in at
    ensures InPlace(at, v) && Partition(Drop(at, v)) && Drop(at, v).Keys == at.Keys - {v}
  {
    assert InPlace(at, v);
    var c, i, b := at[v].cls, at[v].pos, Drop(at, v);
    forall s | s in b ensures InPlace(b, s) {
      assert InPlace(at, s);
      if at[s].cls == c {
        forall j | 0 <= j < |c| - 1 ensures Without(c, i)[j] in b && b[Without(c, i)[j]] == Place(Without(c, i), j) {
          var k := if j < i then j else j + 1;
          assert at[c[k]] == Place(c, k);
        }
      } else {
        forall j | 0 <= j < |at[s].cls| ensures at[s].cls[j] in b && b[at[s].cls[j]] == Place(at[s].cls, j) {
          assert at[at[s].cls[j]] == Place(at[s].cls, j);
        }
      }
    }
  }

  lemma AloneKeepsPartition<S>(at: Classes<S>, s: S)
    requires Partition(at) && s !in at
    ensures Partition(Alone(at, s))
  {
    var b := Alone(at, s);
    forall r | r in b ensures InPlace(b, r) {
      if r != s {
        assert InPlace(at, r);
      }
    }
  }

  lemma JoinAt<S>(at: Classes<S>, h: S, v: S, s: S)
    requires Partition(at) && h in at && v in at && s in at && at[h].cls != at[v].cls && at[h].pos == at[v].pos == 0
    ensures InPlace(at, h) && s in Join(at, h, v)
    ensures var b, last := Join(at, h, v), Last(at, h);
      && Succ(b, s) == (if s == last then Some(v) else Succ(at, s))
      && Pred(b, s) == (if s == v then Some(last) else Pred(at, s))
      && Lead(b, s) == (if Lead(at, s) == v then h else Lead(at, s))
  {
    assert InPlace(at, h) && InPlace(at, v) && InPlace(at, s);
    var c, d, t, i := at[h].cls, at[v].cls, at[s].cls, at[s].pos;
    assert at[c[|c| - 1]] == Place(c, |c| - 1);
    assert at[t[0]] == Place(t, 0);
    if t == c {
      assert Join(at, h, v)[s] == Place(c + d, i);
    } else if t == d {
      assert Join(at, h, v)[s] == Place(c + d, |c| + i);
    }
  }

  /** `b` arises from `at` when the class of `v` is put behind the class that `h` leads. */
  ghost predicate Joins<S>(at: Classes<S>, b: Classes<S>, h: S, v: S) {
    && Partition(b) && b.Keys == at.Keys && h in at && v in at && Lead(at, v) == v && Lead(b, v) == h && Last(at, h) in at
    && (forall s :: s in at ==> Succ(b, s) == if s == Last(at, h) then Some(v) else Succ(at, s))
    && (forall s :: s in at ==> Pred(b, s) == if s == v then Some(Last(at, h)) else Pred(at, s))
    && (forall s :: s in at ==> Lead(b, s) == if Lead(at, s) == v then h else Lead(at, s))
  }

  lemma JoinNeighbours<S>(at: Classes<S>, h: S, v: S)
    requires Partition(at) && h in at && v in at && at[h].cls != at[v].cls && at[h].pos == at[v].pos == 0
    ensures Joins(at, Join(at, h, v), h, v)
  {
    assert InPlace(at, h) && InPlace(at, v);
    JoinKeepsPartition(at, h, v);
    forall s | s in at
      ensures Succ(Join(at, h, v), s) == if s == Last(at, h) then Some(v) else Succ(at, s)
      ensures Pred(Join(at, h, v), s) == if s == v then Some(Last(at, h)) else Pred(at, s)
      ensures Lead(Join(at, h, v), s) == if Lead(at, s) == v then h else Lead(at, s)
    {
      JoinAt(at, h, v, s);
    }
  }

  lemma DropAt<S>(at: Classes<S>, v: S, s: S)
    requires Partition(at) && v in at && s in at && s != v
    ensures InPlace(at, v) && s in Drop(at, v)
    ensures var b, p, n := Drop(at, v), Pred(at, v), Succ(at, v);
      && Succ(b, s) == (if Some(s) == p then n else Succ(at, s))
      && Pred(b, s) == (if Some(s) == n then p else Pred(at, s))
      && Lead(b, s) == (if Lead(at, s) == v && n.Some? then n.value else Lead(at, s))
  {
    assert InPlace(at, v) && InPlace(at, s);
    if at[s].cls == at[v].cls {
      DropAtSame(at, v, s);
    } else {
      DropAtOther(at, v, s);
    }
  }

  lemma DropAtOther<S>(at: Classes<S>, v: S, s: S)
    requires v in at && s in at && InPlace(at, v) && InPlace(at, s) && at[s].cls != at[v].cls
    ensures Drop(at, v)[s] == at[s]
    ensures Some(s) != Pred(at, v) && Some(s) != Succ(at, v) && Lead(at, s) != v
  {
    assert at[at[s].cls[0]] == Place(at[s].cls, 0);
    var i, c := at[v].pos, at[v].cls;
    assert i > 0 ==> at[c[i - 1]].cls == c;
    assert i + 1 < |c| ==> at[c[i + 1]].cls == c;
  }

  lemma DropAtSame<S>(at: Classes<S>, v: S, s: S)
    requires v in at && s in at && InPlace(at, v) && InPlace(at, s) && at[s].cls == at[v].cls && s != v
    ensures var b, p, n := Drop(at, v), Pred(at, v), Succ(at, v);
      && s in b
      && Succ(b, s) == (if Some(s) == p then n else Succ(at, s))
      && Pred(b, s) == (if Some(s) == n then p else Pred(at, s))
      && Lead(b, s) == (if Lead(at, s) == v && n.Some? then n.value else Lead(at, s))
  {
    var c, i, k := at[v].cls, at[v].pos, at[s].pos;
    assert forall j :: 0 <= j < |c| ==> at[c[j]].pos == j;
    assert Some(s) == Pred(at, v) <==> k + 1 == i;
    assert Some(s) == Succ(at, v) <==> k == i + 1;
    assert Lead(at, s) == v <==> i == 0;
    var l := if k > i then k - 1 else k;
    assert Drop(at, v)[s] == Place(Without(c, i), l);
    NeighboursWithout(c, i, k);
  }

  lemma NeighboursWithout<S>(c: seq<S>, i: nat, k: nat)
    requires i < |c| && k < |c| && k != i
    ensures var d, l := Without(c, i), if k > i then k - 1 else k;
      && l < |d| == |c| - 1
      && (l + 1 < |d| ==> d[l + 1] == if k + 1 == i then c[i + 1] else c[k + 1])
      && (l + 1 == |d| <==> if k + 1 == i then i + 1 == |c| else k + 1 == |c|)
      && (l > 0 ==> d[l - 1] == if k == i + 1 then c[i - 1] else c[k - 1])
      && (l == 0 <==> if k == i + 1 then i == 0 else k == 0)
      && d[0] == if i == 0 then c[1] else c[0]
  {
    WithoutAt(c, i);
  }

  /** `b` arises from `at` when `v` leaves its class. */
  ghost predicate Drops<S>(at: Classes<S>, b: Classes<S>, v: S) {
    && Partition(b) && v in at && b.Keys == at.Keys - {v}
    && (forall s :: s in b ==> Succ(b, s) == if Some(s) == Pred(at, v) then Succ(at, v) else Succ(at, s))
    && (forall s :: s in b ==> Pred(b, s) == if Some(s) == Succ(at, v) then Pred(at, v) else Pred(at, s))
    && (forall s :: s in b ==> Lead(b, s) == if Lead(at, s) == v && Succ(at, v).Some? then Succ(at, v).value else Lead(at, s))
  }

  lemma DropNeighbours<S>(at: Classes<S>, v: S)
    requires Partition(at) && v in at
    ensures InPlace(at, v) && Drops(at, Drop(at, v), v)
  {
    DropKeepsPartition(at, v);
    forall s | s in at && s != v
      ensures Succ(Drop(at, v), s) == if Some(s) == Pred(at, v) then Succ(at, v) else Succ(at, s)
      ensures Pred(Drop(at, v), s) == if Some(s) == Succ(at, v) then Pred(at, v) else Pred(at, s)
      ensures Lead(Drop(at, v), s) == if Lead(at, s) == v && Succ(at, v).Some? then Succ(at, v).value else Lead(at, s)
    {
      DropAt(at, v, s);
    }
  }

  /** Leaving a class of one's own and founding it again. */
  lemma DropAlone<S>(at: Classes<S>, s: S)
    requires Partition(at) && s in at && |at[s].cls| == 1
    ensures Alone(Drop(at, s), s) == at
  {
    var b := Alone(Drop(at, s), s);
    assert InPlace(at, s);
    forall t | t in at ensures b[t] == at[t] {
      assert InPlace(at, t);
    }
    assert b.Keys == at.Keys;
  }

  /** A new class changes nothing for another slot. */
  lemma AloneApart<S>(at: Classes<S>, s: S, t: S)
    requires Partition(at) && s !in at && s != t
    ensures Alone(at, s)[s] == Place([s], 0) && With(Alone(at, s), t)[t] == With(at, t)[t]
    ensures t in at <==> t in Alone(at, s)
    ensures t in at ==> Alone(at, s)[t].cls != [s]
    ensures forall r :: r in at ==> Alone(at, s)[r] == at[r] && at[r].cls != [s]
  {
    forall r | r in at ensures at[r].cls != [s] {
      assert InPlace(at, r);
    }
  }
}
