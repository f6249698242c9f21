/** RemoveNil (confpile.c) on the cons cells themselves: it takes pairs out of a list by rewiring the cell before
    them, and what is left is what Config.RemoveNil says of the values. */
module Cells {
  import opened Lisp
  import Config

  /** LVAL as a pointer: none, an atom, or a cons cell. */
  datatype LVal = NIL | Atom(v: Val) | Ref(c: Cell)

  class Cell {
    var car: LVal
    var cdr: LVal

    constructor (car: LVal, cdr: LVal)
      ensures this.car == car && this.cdr == cdr
    {
      this.car, this.cdr := car, cdr;
    }
  }

  /** A value, and the cells that it is made of. */
  datatype Tree = Leaf(v: Val) | Pair(cell: Cell, car: Tree, cdr: Tree)

  /** What one cell holds. */
  datatype Link = Link(cell: Cell, car: LVal, cdr: LVal)

  ghost function Cells(t: Tree): set<Cell> {
    if t.Leaf? then {} else {t.cell} + Cells(t.car) + Cells(t.cdr)
  }

  /** No cell is used twice, and a leaf is an atom. */
  ghost predicate Proper(t: Tree) {
    match t
    case Leaf(v) => !v.Cons?
    case Pair(c, a, d) => c !in Cells(a) && c !in Cells(d) && Cells(a) !! Cells(d) && Proper(a) && Proper(d)
  }

  /** The value that a tree shows. */
  ghost function ValueOf(t: Tree): Val {
    match t
    case Leaf(v) => v
    case Pair(_, a, d) => Cons(ValueOf(a), ValueOf(d))
  }

  ghost function Pointer(t: Tree): LVal {
    match t
    case Leaf(v) => if v == Nil then NIL else Atom(v)
    case Pair(c, _, _) => Ref(c)
  }

  /** What the cells of a tree have to hold. */
  ghost function Links(t: Tree): set<Link> {
    match t
    case Leaf(_) => {}
    case Pair(c, a, d) => {Link(c, Pointer(a), Pointer(d))} + Links(a) + Links(d)
  }

  ghost predicate Holds(links: set<Link>)
    reads set k | k in links :: k.cell
  {
    forall k :: k in links ==> k.cell.car == k.car && k.cell.cdr == k.cdr
  }

  /** The tree without the pairs that RemoveNil takes out; the cells that stay keep their places. */
  ghost function Pruned(t: Tree): Tree {
    match t
    case Pair(key, k, Pair(cell, r, rest)) =>
      if r == Leaf(Nil) then Pruned(rest)
      else Pair(key, k, Pair(cell, if r.Pair? then Pruned(r) else r, Pruned(rest)))
    case _ => Leaf(Nil)
  }

  lemma {:induction false} LinksAreOfCells(t: Tree)
    ensures forall k :: k in Links(t) ==> k.cell in Cells(t)
  {
    if t.Pair? {
      LinksAreOfCells(t.car);
      LinksAreOfCells(t.cdr);
    }
  }

  lemma {:induction false} PrunedIsProper(t: Tree)
    requires Proper(t)
    ensures Proper(Pruned(t)) && Cells(Pruned(t)) <= Cells(t)
  {
    match t
    case Pair(key, k, Pair(cell, r, rest)) =>
      PrunedIsProper(rest);
      PrunedIsProper(r);
    case _ =>
  }

  /** The cells that are left show the value that Config.RemoveNil leaves. */
  lemma {:induction false} PrunedShows(t: Tree)
    requires Proper(t)
    ensures ValueOf(Pruned(t)) == Config.RemoveNil(ValueOf(t))
  {
    match t
    case Pair(key, k, Pair(cell, r, rest)) =>
      PrunedShows(rest);
      PrunedShows(r);
    case _ =>
  }

  // ---------------------------------------------------------------- the loop

  function Car(l: LVal): LVal
    reads if l.Ref? then {l.c} else {}
  {
    if l.Ref? then l.c.car else NIL
  }

  function Cdr(l: LVal): LVal
    reads if l.Ref? then {l.c} else {}
  {
    if l.Ref? then l.c.cdr else NIL
  }

  /** What the first two cells of a list hold. */
  lemma FirstPair(t: Tree)
    requires Holds(Links(t))
    ensures t.Pair? ==> t.cell.car == Pointer(t.car) && t.cell.cdr == Pointer(t.cdr)
    ensures t.Pair? && t.cdr.Pair? ==>
              t.cdr.cell.car == Pointer(t.cdr.car) && t.cdr.cell.cdr == Pointer(t.cdr.cdr)
              && Holds(Links(t.cdr.car)) && Holds(Links(t.cdr.cdr))
  {
    if t.Pair? {
      assert Link(t.cell, Pointer(t.car), Pointer(t.cdr)) in Links(t);
      if t.cdr.Pair? {
        assert Link(t.cdr.cell, Pointer(t.cdr.car), Pointer(t.cdr.cdr)) in Links(t.cdr);
        assert Links(t.cdr.car) <= Links(t) && Links(t.cdr.cdr) <= Links(t);
      }
    }
  }

  /** The place `*q`: the caller's variable while no pair was kept, else the `cdr` of the last cell kept. */
  ghost predicate SlotHolds(last: LVal, head: LVal, car: LVal, l: LVal)
    reads if last.Ref? then {last.c} else {}
  {
    if last.Ref? then last.c.car == car && last.c.cdr == l else head == l
  }

  /** The link `k` is there already, or it is the one that leads to the rest, or it is in the rest. */
  ghost predicate Settled(k: Link, t: Tree, cur: Tree, last: LVal, lastCar: LVal)
    reads k.cell
  {
    || k in Links(Pruned(cur))
    || (last.Ref? && k == Link(last.c, lastCar, Pointer(Pruned(cur))))
    || (&& k.cell in Cells(t) && k.cell !in Cells(cur) && Ref(k.cell) != last
        && k.cell.car == k.car && k.cell.cdr == k.cdr)
  }

  /** The parts of a list whose first pair stays do not meet. */
  lemma Apart(t: Tree)
    requires Proper(t) && t.Pair? && t.cdr.Pair?
    ensures forall c :: c in Cells(t.car) ==>
              && c in Cells(t) && c != t.cell && c != t.cdr.cell
              && c !in Cells(t.cdr.car) && c !in Cells(t.cdr.cdr)
    ensures forall c :: c in Cells(t.cdr.car) ==> c in Cells(t) && c != t.cell && c != t.cdr.cell && c !in Cells(t.cdr.cdr)
    ensures forall c :: c in Cells(t.cdr.cdr) ==> c in Cells(t) && c != t.cell && c != t.cdr.cell
    ensures t.cell in Cells(t) && t.cdr.cell in Cells(t) && t.cell != t.cdr.cell
  {
  }

  /** The links of a list whose first pair stays. */
  lemma PrunedLinks(t: Tree, k: Link)
    requires t.Pair? && t.cdr.Pair? && t.cdr.car != Leaf(Nil) && k in Links(Pruned(t))
    ensures
      var inner := if t.cdr.car.Pair? then Pruned(t.cdr.car) else t.cdr.car;
      || k == Link(t.cell, Pointer(t.car), Ref(t.cdr.cell))
      || k == Link(t.cdr.cell, Pointer(inner), Pointer(Pruned(t.cdr.cdr)))
      || k in Links(t.car) || k in Links(inner) || k in Links(Pruned(t.cdr.cdr))
  {
  }

  /** The link `k` is there, or it is the one from the first pair to the rest, or it is in the rest. */
  ghost predicate Done(k: Link, t: Tree)
    requires t.Pair? && t.cdr.Pair?
    reads k.cell, t.cdr.cell
  {
    || k in Links(Pruned(t.cdr.cdr))
    || k == Link(t.cdr.cell, t.cdr.cell.car, Pointer(Pruned(t.cdr.cdr)))
    || (&& k.cell in Cells(t) && k.cell !in Cells(t.cdr.cdr) && k.cell != t.cdr.cell
        && k.cell.car == k.car && k.cell.cdr == k.cdr)
  }

  /** A first pair that stays is done when its value is. */
  lemma FirstPairDone(t: Tree)
    requires Proper(t) && t.Pair? && t.cdr.Pair? && t.cdr.car != Leaf(Nil)
    requires forall k :: k in Links(t) && k.cell !in Cells(t.cdr.car) && k.cell != t.cdr.cell ==>
               k.cell.car == k.car && k.cell.cdr == k.cdr
    requires var inner := if t.cdr.car.Pair? then Pruned(t.cdr.car) else t.cdr.car;
             t.cdr.cell.car == Pointer(inner) && Holds(Links(inner))
    ensures Holds(Links(t.cdr.cdr))
    ensures forall k :: k in Links(Pruned(t)) ==> Done(k, t)
  {
    var inner := if t.cdr.car.Pair? then Pruned(t.cdr.car) else t.cdr.car;
    Apart(t);
    PrunedIsProper(t.cdr.car);
    LinksAreOfCells(t.car);
    LinksAreOfCells(inner);
    LinksAreOfCells(t.cdr.cdr);
    forall k | k in Links(t.cdr.cdr)
      ensures k.cell.car == k.car && k.cell.cdr == k.cdr
    {
      assert k in Links(t);
    }
    forall k | k in Links(Pruned(t))
      ensures Done(k, t)
    {
      PrunedLinks(t, k);
      if k == Link(t.cell, Pointer(t.car), Ref(t.cdr.cell)) || k in Links(t.car) {
        assert k in Links(t);
      }
    }
  }

  /** Rewires the cells of the list `q`: pairs whose value is nothing are taken out, in the lists inside it as well. */
  method RemoveNil(q: LVal, ghost t: Tree) returns (head: LVal)
    requires Proper(t) && q == Pointer(t) && Holds(Links(t))
    modifies Cells(t)
    ensures head == Pointer(Pruned(t)) && Holds(Links(Pruned(t))) && Proper(Pruned(t))
    ensures ValueOf(Pruned(t)) == Config.RemoveNil(ValueOf(t))
    decreases t
  {
    PrunedIsProper(t);
    PrunedShows(t);
    head := q;
    var last := NIL;
    var at := q;
    ghost var cur, lastCar := t, NIL;
    while at != NIL
      invariant Proper(cur) && Cells(cur) <= Cells(t)
      invariant at == Pointer(cur) && Holds(Links(cur))
      invariant last == NIL || (last.Ref? && last.c in Cells(t) && last.c !in Cells(cur))
      invariant SlotHolds(last, head, lastCar, at)
      invariant if last == NIL then Pruned(t) == Pruned(cur) else head == Pointer(Pruned(t))
      invariant forall k :: k in Links(Pruned(t)) ==> Settled(k, t, cur, last, lastCar)
      decreases at != NIL, cur
    {
      LinksAreOfCells(cur);
      FirstPair(cur);
      assert allocated(Cells(cur)) && allocated(Cells(t));
      var r := Car(Cdr(at));
      if r == NIL {
        ghost var before := cur;
        at := Cdr(Cdr(at));
        cur := if cur.Pair? && cur.cdr.Pair? then cur.cdr.cdr else Leaf(Nil);
        assert cur == Leaf(Nil) || Links(cur) <= Links(before);
        if last.Ref? { last.c.cdr := at; } else { head := at; }
        assert Holds(Links(cur)) by {
          forall k | k in Links(cur)
            ensures k.cell.car == k.car && k.cell.cdr == k.cdr
          {
            assert k.cell in Cells(before);
          }
        }
        forall k | k in Links(Pruned(t))
          ensures Settled(k, t, cur, last, lastCar)
        {
        }
      } else {
        ghost var inner, rest := cur.cdr.car, cur.cdr.cdr;
        var value := at.c.cdr.c;
        ghost var inner' := if inner.Pair? then Pruned(inner) else inner;
        Apart(cur);
        if r.Ref? {
          PrunedIsProper(inner);
          LinksAreOfCells(inner');
          value.car := RemoveNil(r, inner);
        }
        assert value.car == Pointer(inner') && Holds(Links(inner'));
        forall k | k in Links(cur) && k.cell !in Cells(inner) && k.cell != value
          ensures k.cell.car == k.car && k.cell.cdr == k.cdr
        {
          assert k.cell in Cells(cur);
        }
        FirstPairDone(cur);
        forall k | k in Links(Pruned(t))
          ensures Settled(k, t, rest, Ref(value), value.car)
        {
        }
        last, lastCar, at, cur := Ref(value), value.car, value.cdr, rest;
      }
    }
  }

  // ---------------------------------------------------------------- from values to cells and back

  /** The cells of a list that was read: one for each pair. */
  method FromValue(v: Val) returns (l: LVal, ghost t: Tree)
    ensures Proper(t) && ValueOf(t) == v && l == Pointer(t) && Holds(Links(t)) && fresh(Cells(t))
    decreases v
  {
    if v.Cons? {
      var a, d;
      ghost var ta, td;
      a, ta := FromValue(v.car);
      LinksAreOfCells(ta);
      assert allocated(Cells(ta)) && allocated(Links(ta));
      d, td := FromValue(v.cdr);
      LinksAreOfCells(td);
      assert allocated(Cells(td)) && allocated(Links(td));
      assert Cells(ta) !! Cells(td);
      assert Holds(Links(ta));
      var c := new Cell(a, d);
      assert c !in Cells(ta) && c !in Cells(td);
      l, t := Ref(c), Pair(c, ta, td);
    } else {
      l, t := if v == Nil then NIL else Atom(v), Leaf(v);
    }
  }

  /** The value that the cells show. */
  function ToValue(l: LVal, ghost t: Tree): (v: Val)
    requires Proper(t) && l == Pointer(t) && Holds(Links(t))
    reads Cells(t), set k | k in Links(t) :: k.cell
    ensures v == ValueOf(t)
    decreases t
  {
    if l.Ref? then
      assert Link(l.c, Pointer(t.car), Pointer(t.cdr)) in Links(t);
      assert Links(t.car) <= Links(t) && Links(t.cdr) <= Links(t);
      Cons(ToValue(l.c.car, t.car), ToValue(l.c.cdr, t.cdr))
    else if l.Atom? then l.v
    else Nil
  }
}
