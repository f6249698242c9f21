/** The variables of a program and the memory that holds their values (memory.c). */
module Memory {
  import opened Wrappers
  import opened Aliases

  const MAX_NUMBER_OF_FIX_TYPES := 254
  const LARGE_BLOCK_TYPE := 255
  const MAX_FIX_TYPE := 3
  const FIX_TYPE_LONG := 0
  const FIX_TYPE_DOUBLE := 1
  const FIX_TYPE_CSTRING := 2
  const FIX_TYPE_ALLOC := FIX_TYPE_LONG

  datatype VType = VTYPE_LONG | VTYPE_DOUBLE | VTYPE_STRING | VTYPE_REF | VTYPE_UNDEF

  datatype State = Unknown | Free | Mortal | Immortal

  /** The union of prev and rprev. */
  datatype Link = NoLink | Prev(prev: Obj) | RPrev(rprev: Slot)

  /** The union of the values; pValue is the block it points to. */
  datatype Data = NoData | LongData(lValue: int) | DoubleData(dValue: real) | Block(pValue: string) | Target(aValue: Slot)

  datatype Error = Success | Circular

  /** A variable: the place that points to its object. */
  class Slot {
    var obj: Obj?

    constructor ()
      ensures obj == null
    {
      obj := null;
    }
  }

  /** FixSizeMemoryObject */
  class Obj {
    var sType: nat
    var vType: VType
    var State: State
    var next: Obj?
    var link: Link
    var Value: Data
    var Size: nat
    /** The variable whose object this is. */
    ghost var home: Slot?
    /** The mortal list this is on. */
    ghost var on: MortalList?

    constructor (sType: nat, Value: Data, Size: nat)
      ensures this.sType == sType && this.Value == Value && this.Size == Size
      ensures State == Unknown && next == null && link == NoLink && home == null && on == null
    {
      this.sType, this.Value, this.Size := sType, Value, Size;
      vType, State, next, link := VTYPE_LONG, Unknown, null, NoLink;
      home, on := null, null;
    }

    /** The value that the object shows: of a string the characters that it holds. */
    ghost function Seen(): Content
      reads this
    {
      if vType == VTYPE_UNDEF then UNDEF
      else if vType != VTYPE_STRING then Content(vType, Value, 0)
      else Content(vType, if Value.Block? && Size <= |Value.pValue| then Block(Value.pValue[..Size]) else Value, Size)
    }
  }

  /** The part of an object that is the value of a variable. */
  datatype Content = Content(vType: VType, Value: Data, Size: nat)

  const UNDEF := Content(VTYPE_UNDEF, NoData, 0)

  /** A mortal list; the ghost list has the first object last. */
  class MortalList {
    var first: Obj?
    ghost var list: seq<Obj>

    constructor ()
      ensures first == null && list == []
    {
      first := null;
      list := [];
    }
  }

  function AType(sType: nat): nat {
    if sType < MAX_FIX_TYPE then FIX_TYPE_ALLOC else sType
  }

  ghost function Top(f: seq<Obj>): Obj? {
    if f == [] then null else f[|f| - 1]
  }

  /** `f[i]` is linked to its neighbours in the list whose first object is the last of `f`. */
  ghost predicate InList(f: seq<Obj>, i: nat)
    requires i < |f|
    reads f[i]
  {
    && f[i].next == (if i == 0 then null else f[i - 1])
    && f[i].link == (if i == |f| - 1 then NoLink else Prev(f[i + 1]))
    && forall j :: 0 <= j < i ==> f[j] != f[i]
  }

  class Memory {
    const SizeOfType: seq<nat>
    const FirstStringIndex: nat
    const LastStringIndex: nat
    const MemoryObjectsFreeList: array<Obj?>
    const maxderef: nat

    /** Every object that was allocated and not given back to the system. */
    ghost var Objs: set<Obj>
    ghost var free: seq<seq<Obj>>
    ghost var lists: set<MortalList>
    /** The objects of a mortal list that is just being released. */
    ghost var limbo: set<Obj>
    /** The variables that have an object, with their alias classes. */
    ghost var at: Classes<Slot>
    /** The first slot of a class that has no value yet. */
    ghost var loose: Slot?

    // -------------------------------------------------------------- invariants

    ghost predicate Shape()
      reads `free
    {
      && |SizeOfType| == |free| == MemoryObjectsFreeList.Length == MAX_NUMBER_OF_FIX_TYPES
      && (forall t :: 0 <= t < MAX_FIX_TYPE ==> SizeOfType[t] == 0)
      && MAX_FIX_TYPE <= FirstStringIndex <= LastStringIndex < MAX_NUMBER_OF_FIX_TYPES
      && (forall t :: FirstStringIndex <= t <= LastStringIndex ==> SizeOfType[t] > 0)
    }

    /** The block of an object is as large as its type says. */
    ghost predicate Sized(o: Obj)
      requires Shape()
      reads `free, o
    {
      && (o.sType < MAX_NUMBER_OF_FIX_TYPES || o.sType == LARGE_BLOCK_TYPE)
      && (o.sType < MAX_NUMBER_OF_FIX_TYPES && SizeOfType[o.sType] > 0 ==>
            o.Value.Block? && |o.Value.pValue| == SizeOfType[o.sType])
    }

    ghost predicate OnFree(t: nat, i: nat)
      requires Shape() && t < MAX_NUMBER_OF_FIX_TYPES && i < |free[t]|
      reads `free, `Objs, Objs
    {
      && free[t][i] in Objs && free[t][i].State == Free && free[t][i].sType < MAX_NUMBER_OF_FIX_TYPES
      && AType(free[t][i].sType) == t && free[t][i].home == null && free[t][i].on == null && InList(free[t], i)
    }

    /** Each free object is on the free list of its own type, once, and nothing else is. */
    ghost predicate FreeInv()
      reads `free, `Objs, MemoryObjectsFreeList, Objs
    {
      && Shape()
      && (forall t :: 0 <= t < MAX_NUMBER_OF_FIX_TYPES ==> MemoryObjectsFreeList[t] == Top(free[t]))
      && (forall t, i {:trigger OnFree(t, i)} :: 0 <= t < MAX_NUMBER_OF_FIX_TYPES && 0 <= i < |free[t]| ==> OnFree(t, i))
      && (forall o :: o in Objs && o.State == Free ==>
            o.sType < MAX_NUMBER_OF_FIX_TYPES && o in free[AType(o.sType)] && o.home == null && o.on == null)
      && (forall o :: o in Objs ==> Sized(o))
    }

    ghost predicate OnMortal(m: MortalList, i: nat)
      requires i < |m.list|
      reads `Objs, `limbo, m, Objs
    {
      && m.list[i] in Objs && m.list[i] !in limbo && m.list[i].State == Mortal && m.list[i].on == m
      && InList(m.list, i)
    }

    /** `m` is a well-formed list of mortal objects that know it. */
    ghost predicate MortalListInv(m: MortalList)
      reads `Objs, `limbo, m, Objs
    {
      m.first == Top(m.list) && forall i {:trigger OnMortal(m, i)} :: 0 <= i < |m.list| ==> OnMortal(m, i)
    }

    /** Each mortal object is on the mortal list that it knows, and on no other. */
    ghost predicate MortalInv()
      reads `Objs, `limbo, `lists, lists, Objs
    {
      && (forall m :: m in lists ==> MortalListInv(m))
      && (forall o :: o in Objs && o.on != null ==> o.on in lists && o in o.on.list && o.home == null && o.State == Mortal)
      && (forall o :: o in limbo ==> o in Objs && o.State == Mortal)
      && (forall o :: o in Objs && o.State == Mortal ==> o.home == null && (o !in limbo ==> o.on != null))
    }

    /** The type and the size of an object go with its block. */
    ghost predicate WellTyped(o: Obj)
      reads o
    {
      && (o.vType == VTYPE_STRING ==>
            && o.Value.Block? && o.Size <= |o.Value.pValue|
            && (o.sType == FIX_TYPE_CSTRING || o.sType == LARGE_BLOCK_TYPE || (o.sType < |SizeOfType| && SizeOfType[o.sType] > 0)))
      && (o.vType != VTYPE_STRING ==> o.sType < MAX_FIX_TYPE)
    }

    /** The object of `s` is its own. */
    ghost predicate Owns(s: Slot)
      reads `Objs, s, Objs
    {
      s.obj != null && s.obj in Objs && s.obj.home == s && s.obj.State == Immortal && s.obj.on == null
    }

    /** The object of `s` leads to the slot behind `s`, and back to the object of the slot before. The first
        slot of a class has a value and the others refer to the first; only `l` is first without one. */
    ghost predicate Linked(b: Classes<Slot>, s: Slot, l: Slot?)
      requires s in b
      reads `Objs, b.Keys, Objs
    {
      && Owns(s) && WellTyped(s.obj)
      && s.obj.link == (match Succ(b, s) case Some(r) => RPrev(r) case None => NoLink)
      && (match Pred(b, s)
          case Some(r) =>
            && r in b && s.obj.next == r.obj
            && s.obj.vType == VTYPE_REF && s.obj.Value == Target(Lead(b, s))
          case None => s.obj.next == null && (s.obj.vType == VTYPE_REF <==> s == l))
    }

    /** Every variable of `b` is well linked in its class; only the class of `l`, if it is not null, has no
        value. */
    ghost predicate Links(b: Classes<Slot>, l: Slot?)
      reads `Objs, b.Keys, Objs
    {
      && Partition(b)
      && (forall s {:trigger Linked(b, s, l)} :: s in b ==> Linked(b, s, l))
      && (forall o :: o in Objs && o.home != null ==> o.home in b && o.home.obj == o)
      && (l == null || l in b)
    }

    ghost predicate AliasInv()
      reads `at, `loose, `Objs, at.Keys, Objs
    {
      Links(at, loose)
    }

    ghost predicate Inv()
      reads `free, `Objs, `limbo, `lists, `at, `loose, MemoryObjectsFreeList, Objs, lists, at.Keys
    {
      FreeInv() && MortalInv() && AliasInv()
    }

    /** What holds between any two calls. */
    ghost predicate Valid()
      reads `free, `Objs, `limbo, `lists, `at, `loose, MemoryObjectsFreeList, Objs, lists, at.Keys
    {
      Inv() && limbo == {} && loose == null
    }

    /** What the variable `s` reads with the classes `b`: the value of its class. */
    ghost function ReadsIn(b: Classes<Slot>, s: Slot): Option<Content>
      requires s in b
      reads `Objs, b.Keys, Objs
    {
      var h := Lead(b, s);
      if h in b && h.obj != null && h.obj in Objs then Some(h.obj.Seen()) else None
    }

    ghost function Reads(s: Slot): Option<Content>
      requires s in at
      reads `at, `Objs, at.Keys, Objs
    {
      ReadsIn(at, s)
    }

    /** The code reads a variable by following its reference, if it is one. */
    lemma ReadsThroughReference(s: Slot)
      requires Inv() && loose == null && s in at
      ensures s.obj != null && s.obj in Objs
      ensures s.obj.vType == VTYPE_REF ==>
                && s.obj.Value.Target? && s.obj.Value.aValue.obj != null && s.obj.Value.aValue.obj.vType != VTYPE_REF
                && Reads(s) == Some(s.obj.Value.aValue.obj.Seen())
      ensures s.obj.vType != VTYPE_REF ==> Reads(s) == Some(s.obj.Seen())
    {
      LeadLeads(at, s);
      Neighbours(at, s, s);
      assert Linked(at, s, loose) && Linked(at, Lead(at, s), loose);
    }

    /** memory_InitStructure and memory_RegisterTypes, for any ascending or other sizes of string types. */
    constructor (SizeOfType: seq<nat>, FirstStringIndex: nat, LastStringIndex: nat, maxderef: nat)
      requires |SizeOfType| == MAX_NUMBER_OF_FIX_TYPES && forall t :: 0 <= t < MAX_FIX_TYPE ==> SizeOfType[t] == 0
      requires MAX_FIX_TYPE <= FirstStringIndex <= LastStringIndex < MAX_NUMBER_OF_FIX_TYPES
      requires forall t :: FirstStringIndex <= t <= LastStringIndex ==> SizeOfType[t] > 0
      ensures Valid() && fresh(MemoryObjectsFreeList) && Objs == {} && at == map[] && lists == {}
      ensures this.SizeOfType == SizeOfType && this.maxderef == maxderef
      ensures this.FirstStringIndex == FirstStringIndex && this.LastStringIndex == LastStringIndex
    {
      this.SizeOfType, this.maxderef := SizeOfType, maxderef;
      this.FirstStringIndex, this.LastStringIndex := FirstStringIndex, LastStringIndex;
      MemoryObjectsFreeList := new Obj?[MAX_NUMBER_OF_FIX_TYPES](_ => null);
      Objs, lists, limbo, at, loose := {}, {}, {}, map[], null;
      free := seq(MAX_NUMBER_OF_FIX_TYPES, _ => []);
    }

    /** An empty mortal list. */
    method NewList() returns (m: MortalList)
      requires Inv()
      modifies `lists
      ensures Inv() && fresh(m) && m.list == [] && lists == old(lists) + {m}
    {
      m := new MortalList();
      assert m !in lists;
      Restore(m);
    }

    // -------------------------------------------------------------- what a change leaves as it was

    /** All but the links of `o` stay. */
    twostate predicate Steady(o: Obj)
      reads o
    {
      && o.sType == old(o.sType) && o.vType == old(o.vType) && o.State == old(o.State)
      && o.Value == old(o.Value) && o.Size == old(o.Size) && o.home == old(o.home) && o.on == old(o.on)
    }

    /** `o` stays where it is. */
    twostate predicate SamePlace(o: Obj)
      reads o
    {
      o.State == old(o.State) && o.next == old(o.next) && o.link == old(o.link) && o.home == old(o.home) && o.on == old(o.on)
    }

    twostate predicate Same(o: Obj)
      reads o
    {
      && o.sType == old(o.sType) && o.vType == old(o.vType) && o.State == old(o.State) && o.next == old(o.next)
      && o.link == old(o.link) && o.Value == old(o.Value) && o.Size == old(o.Size) && o.home == old(o.home) && o.on == old(o.on)
    }

    twostate lemma AliasKept()
      requires old(AliasInv()) && at == old(at) && loose == old(loose)
      requires forall s :: s in at ==> unchanged(s)
      requires forall o :: o in old(Objs) && old(o.home) != null ==> o in Objs && Same(o)
      requires forall o :: o in Objs && o.home != null ==> o in old(Objs) && old(o.home) == o.home
      ensures AliasInv()
    {
      forall s | s in at ensures Linked(at, s, loose) {
        assert old(Linked(at, s, loose));
      }
    }

    twostate lemma FreeKept()
      requires old(FreeInv()) && free == old(free)
      requires forall t :: 0 <= t < MAX_NUMBER_OF_FIX_TYPES ==> MemoryObjectsFreeList[t] == old(MemoryObjectsFreeList[t])
      requires forall o :: o in old(Objs) && old(o.State) == Free ==> o in Objs && Same(o)
      requires forall o :: o in Objs && o.State == Free ==> o in old(Objs) && old(o.State) == Free
      requires forall o :: o in Objs ==> Sized(o)
      ensures FreeInv()
    {
      forall t, i | 0 <= t < MAX_NUMBER_OF_FIX_TYPES && 0 <= i < |free[t]| ensures OnFree(t, i) {
        assert old(OnFree(t, i));
      }
    }

    twostate lemma MortalKept()
      requires old(MortalInv()) && lists == old(lists) && limbo <= old(limbo)
      requires forall o :: o in limbo ==> o in Objs && o.State == Mortal
      requires forall m :: m in lists ==> unchanged(m)
      requires forall o :: o in old(Objs) && old(o.on) != null ==> o in Objs && SamePlace(o)
      requires forall o :: o in Objs && (o.State == Mortal || o.on != null) ==>
                 o in old(Objs) && SamePlace(o) && (o in old(limbo) ==> o in limbo)
      ensures MortalInv()
    {
      forall m, i | m in lists && 0 <= i < |m.list| ensures OnMortal(m, i) {
        assert old(OnMortal(m, i));
      }
    }

    /** The variables keep their objects and read what they read. */
    twostate predicate VariablesKept()
      reads this, Objs, at.Keys
    {
      at == old(at) && forall s :: s in at ==> Reads(s) == old(Reads(s)) && s.obj == old(s.obj)
    }

    /** Everything that was not free stays. */
    twostate predicate HeldKept()
      reads this, Objs
    {
      && (forall o :: o in old(Objs) && old(o.State) != Free ==> o in Objs && Same(o))
      && (forall o :: o in Objs ==> o in old(Objs) || fresh(o))
    }

    twostate lemma ReadsKept()
      requires old(AliasInv()) && at == old(at)
      requires forall s :: s in at ==> unchanged(s)
      requires forall o :: o in old(Objs) && old(o.home) != null ==> o in Objs && Same(o)
      ensures forall s :: s in at ==> Reads(s) == old(Reads(s))
    {
      forall s | s in at ensures Reads(s) == old(Reads(s)) {
        LeadLeads(at, s);
        assert old(Linked(at, Lead(at, s), loose));
      }
    }

    // -------------------------------------------------------------- allocating

    /** Objects that can take each other's place: those without a block, and those with blocks of one size. */
    predicate SameKind(a: nat, b: nat) {
      a == b || (a < 3 && b < 3)
    }

    ghost predicate NoneIsFree(sType: nat)
      reads `Objs, Objs
    {
      forall o :: o in Objs && o.State == Free ==> !SameKind(o.sType, sType)
    }

    lemma FreeOfKind(sType: nat)
      requires FreeInv() && sType < MAX_NUMBER_OF_FIX_TYPES
      ensures MemoryObjectsFreeList[AType(sType)] == null <==> NoneIsFree(sType)
      ensures var o := MemoryObjectsFreeList[AType(sType)]; o != null ==> o in Objs && SameKind(o.sType, sType)
    {
      var t := AType(sType);
      if free[t] != [] {
        assert OnFree(t, |free[t]| - 1);
      }
    }

    /** memory_NewVariable, with memory that never runs out: a free object of the same kind if there is one, else a
        new one. */
    method NewVariable(sType: nat, LargeBlockSize: nat) returns (p: Obj?)
      requires Inv()
      modifies `Objs, `free, MemoryObjectsFreeList, Objs
      ensures Inv()
      ensures p == null <==> MAX_NUMBER_OF_FIX_TYPES <= sType != LARGE_BLOCK_TYPE
      ensures p == null ==> Objs == old(Objs)
      ensures p != null ==>
                && (if fresh(p) then Objs == old(Objs) + {p} else p in old(Objs) && old(p.State) == Free && Objs == old(Objs))
                && Blank(p, sType) && (sType == LARGE_BLOCK_TYPE ==> p.Value.Block? && |p.Value.pValue| == LargeBlockSize)
      ensures OnlyFreeChanged(p) && VariablesKept()
      ensures p != null ==> (fresh(p) <==> sType == LARGE_BLOCK_TYPE || old(NoneIsFree(sType)))
      ensures p != null && !fresh(p) ==> old(SameKind(p.sType, sType))
    {
      if sType < MAX_NUMBER_OF_FIX_TYPES {
        FreeOfKind(sType);
      }
      if sType == LARGE_BLOCK_TYPE {
        p := FromSystem(sType, LargeBlockSize, LargeBlockSize);
      } else if sType >= MAX_NUMBER_OF_FIX_TYPES {
        p := null;
      } else if MemoryObjectsFreeList[AType(sType)] == null {
        p := FromSystem(sType, SizeOfType[sType], 0);
      } else {
        p := PopFree(sType);
      }
    }

    /** Only free objects change, and only `p` gets another state. */
    twostate predicate OnlyFreeChanged(new p: Obj?)
      reads this, Objs
    {
      && (forall o :: o in old(Objs) && old(o.State) != Free ==> o in Objs && Same(o))
      && (forall o :: o in old(Objs) && old(o.State) == Free && o != p ==> o in Objs && o.State == Free && o.home == old(o.home) && o.on == old(o.on))
    }

    method FromSystem(sType: nat, blockSize: nat, Size: nat) returns (p: Obj)
      requires Inv() && ((sType < MAX_NUMBER_OF_FIX_TYPES && blockSize == SizeOfType[sType]) || sType == LARGE_BLOCK_TYPE)
      modifies `Objs
      ensures Inv() && fresh(p) && Objs == old(Objs) + {p} && Blank(p, sType) && VariablesKept()
      ensures blockSize > 0 || sType == LARGE_BLOCK_TYPE ==> p.Value.Block? && |p.Value.pValue| == blockSize
    {
      var value := NoData;
      if blockSize != 0 || sType == LARGE_BLOCK_TYPE {
        var block := new char[blockSize];
        value := Block(block[..]);
      }
      p := new Obj(sType, value, Size);
      Objs := Objs + {p};
      FreeKept();
      AliasKept();
      MortalKept();
      ReadsKept();
    }

    method PopFree(sType: nat) returns (p: Obj)
      requires Inv() && sType < MAX_NUMBER_OF_FIX_TYPES && MemoryObjectsFreeList[AType(sType)] != null
      modifies `free, MemoryObjectsFreeList, Objs
      ensures Inv() && p in Objs && old(p.State) == Free && Blank(p, sType) && p == old(MemoryObjectsFreeList[AType(sType)])
      ensures OnlyFreeChanged(p) && VariablesKept()
    {
      var atype := AType(sType);
      p := MemoryObjectsFreeList[atype];
      assert OnFree(atype, |free[atype]| - 1);
      MemoryObjectsFreeList[atype] := p.next;
      if MemoryObjectsFreeList[atype] != null {
        assert OnFree(atype, |free[atype]| - 2);
        MemoryObjectsFreeList[atype].link := NoLink;
      }
      p.sType := sType;
      p.next := null;
      p.link := NoLink;
      p.State := Unknown;
      free := free[atype := free[atype][..|free[atype]| - 1]];
      Popped(atype);
      AliasKept();
      MortalKept();
      ReadsKept();
    }

    /** Taking the first object off a free list. */
    twostate lemma Popped(t: nat)
      requires old(FreeInv()) && t < MAX_NUMBER_OF_FIX_TYPES && old(free[t]) != []
      requires free == old(free)[t := old(free[t])[..|old(free[t])| - 1]] && Shape() && Objs == old(Objs)
      requires forall u :: 0 <= u < MAX_NUMBER_OF_FIX_TYPES && u != t ==> MemoryObjectsFreeList[u] == old(MemoryObjectsFreeList[u])
      requires MemoryObjectsFreeList[t] == old(Top(free[t]).next)
      requires old(Top(free[t])) in Objs && old(Top(free[t])).State != Free && Sized(old(Top(free[t])))
      requires old(Top(free[t]).next) != null ==> OnlyLinkCut(old(Top(free[t]).next))
      requires forall o :: o in Objs && o != old(Top(free[t])) && o != old(Top(free[t]).next) ==> Same(o)
      ensures FreeInv()
    {
      var f, g, p := old(free[t]), free[t], old(Top(free[t]));
      assert old(OnFree(t, |f| - 1));
      assert |f| >= 2 ==> old(OnFree(t, |f| - 2));
      forall u, i | 0 <= u < MAX_NUMBER_OF_FIX_TYPES && 0 <= i < |free[u]| ensures OnFree(u, i) {
        assert old(OnFree(u, i));
      }
      forall o | o in Objs && o.State == Free ensures o.sType < MAX_NUMBER_OF_FIX_TYPES && o in free[AType(o.sType)] && o.home == null && o.on == null {
        assert o in old(free[AType(o.sType)]);
      }
    }

    twostate predicate OnlyLinkCut(o: Obj)
      reads o
    {
      && o.link == NoLink && o.sType == old(o.sType) && o.State == old(o.State) && o.next == old(o.next) && o.Value == old(o.Value)
      && o.home == old(o.home) && o.on == old(o.on)
    }

    ghost predicate Blank(p: Obj, sType: nat)
      requires Shape()
      reads `free, `Objs, p
    {
      p in Objs && Sized(p) && p.sType == sType && p.State == Unknown && p.next == null && p.link == NoLink && p.home == null && p.on == null
    }

    /** What memory_NewRef, memory_NewUndef, memory_NewLong and memory_NewDouble do alike. */
    method NewFixed(sType: nat, vType: VType) returns (p: Obj)
      requires Inv() && sType < MAX_FIX_TYPE
      modifies `Objs, `free, MemoryObjectsFreeList, Objs
      ensures Inv() && OnlyFreeChanged(p) && VariablesKept() && Fixed(p, sType, vType) && p in Objs
      ensures if fresh(p) then Objs == old(Objs) + {p} else p in old(Objs) && old(p.State) == Free && Objs == old(Objs)
    {
      p := NewVariable(sType, 0);
      Immortal0(p, vType);
    }

    ghost predicate Fixed(p: Obj, sType: nat, vType: VType)
      reads p
    {
      && p.sType == sType && p.vType == vType && p.State == Immortal && p.Value == NoData
      && p.next == null && p.link == NoLink && p.home == null && p.on == null
    }

    method Immortal0(p: Obj, vType: VType)
      requires Inv() && p in Objs && p.State == Unknown && p.sType < MAX_FIX_TYPE && p.home == null && p.on == null
      modifies p
      ensures Inv() && VariablesKept() && Fixed(p, old(p.sType), vType)
    {
      p.vType := vType;
      p.State := Immortal;
      p.next := null;
      p.link := NoLink;
      p.Value := NoData;
      FreeKept();
      AliasKept();
      MortalKept();
      ReadsKept();
    }

    // -------------------------------------------------------------- releasing

    /** The end of memory_ReleaseVariable: the object, which is in no variable and on no list, is given
        back to the system or put on its free list. */
    method Discard(p: Obj)
      requires Inv()
      requires p in Objs && p.State != Free && p.home == null && p.on == null
      modifies `Objs, `free, `limbo, MemoryObjectsFreeList, Objs
      ensures Inv() && limbo == old(limbo) - {p}
      ensures forall s :: s in at ==> Reads(s) == old(Reads(s))
      ensures (p !in Objs || p.State == Free) && Objs <= old(Objs)
      ensures if old(p.sType) == LARGE_BLOCK_TYPE then Objs == old(Objs) - {p} else Objs == old(Objs) && p.State == Free
      ensures forall o :: o in old(Objs) && o != p && old(o.State) != Free ==> Same(o)
      ensures forall o :: o in old(Objs) && old(o.State) == Free ==> o in Objs && Steady(o)
    {
      GiveBack(p);
      limbo := limbo - {p};
      AliasKept();
      MortalKept();
      ReadsKept();
    }

    method GiveBack(p: Obj)
      requires FreeInv() && p in Objs && p.State != Free && p.home == null && p.on == null
      modifies `Objs, `free, MemoryObjectsFreeList, Objs
      ensures FreeInv() && (p !in Objs || p.State == Free) && Objs <= old(Objs)
      ensures if old(p.sType) == LARGE_BLOCK_TYPE then Objs == old(Objs) - {p} else Objs == old(Objs) && p.State == Free
      ensures forall o :: o in old(Objs) && o != p && old(o.State) != Free ==> Same(o)
      ensures forall o :: o in old(Objs) && old(o.State) == Free ==> o in Objs && Steady(o)
    {
      assert Sized(p);
      if p.sType == LARGE_BLOCK_TYPE {
        Objs := Objs - {p};
        FreeKept();
      } else {
        PushFree(p);
      }
    }

    method PushFree(p: Obj)
      requires FreeInv()
      requires p in Objs && p.State != Free && p.home == null && p.on == null && p.sType != LARGE_BLOCK_TYPE
      modifies `free, MemoryObjectsFreeList, Objs
      ensures FreeInv() && p.State == Free
      ensures forall o :: o in old(Objs) && o != p && old(o.State) != Free ==> Same(o)
      ensures forall o :: o in old(Objs) && old(o.State) == Free ==> o in Objs && Steady(o)
    {
      var atype := AType(p.sType);
      assert free[atype] != [] ==> OnFree(atype, |free[atype]| - 1);
      p.next := MemoryObjectsFreeList[atype];
      p.link := NoLink;
      if p.next != null {
        p.next.link := Prev(p);
      }
      p.State := Free;
      MemoryObjectsFreeList[atype] := p;
      free := free[atype := free[atype] + [p]];
      Pushed(p);
    }

    /** Putting an object on its free list. */
    twostate lemma Pushed(p: Obj)
      requires old(FreeInv()) && Shape() && Objs == old(Objs) && p in Objs && Sized(p)
      requires old(p.State) != Free && p.State == Free && p.home == null && p.on == null
      requires p.sType < MAX_NUMBER_OF_FIX_TYPES && PushedTo(p, AType(p.sType))
      requires forall u :: 0 <= u < MAX_NUMBER_OF_FIX_TYPES && u != AType(p.sType) ==> MemoryObjectsFreeList[u] == old(MemoryObjectsFreeList[u])
      requires forall o :: o in Objs && o != p && o != p.next ==> Same(o)
      ensures FreeInv()
    {
      var t := AType(p.sType);
      var f := old(free[t]);
      assert |f| >= 1 ==> old(OnFree(t, |f| - 1));
      assert free[t] == f + [p] && Top(f) == p.next;
      forall u, i | 0 <= u < MAX_NUMBER_OF_FIX_TYPES && 0 <= i < |free[u]| ensures OnFree(u, i) {
        if u != t || i < |f| {
          assert old(OnFree(u, i));
        }
        if u == t && i == |f| {
          forall j | 0 <= j < i ensures f[j] != p {
            assert old(OnFree(t, j));
          }
        }
      }
      forall o | o in Objs && o.State == Free ensures o.sType < MAX_NUMBER_OF_FIX_TYPES && o in free[AType(o.sType)] && o.home == null && o.on == null {
        assert o != p ==> o in old(free[AType(o.sType)]);
      }
    }

    twostate predicate PushedTo(p: Obj, t: nat)
      requires old(Shape()) && Shape() && t < MAX_NUMBER_OF_FIX_TYPES
      reads this, MemoryObjectsFreeList, p, p.next
    {
      && free == old(free)[t := old(free)[t] + [p]]
      && MemoryObjectsFreeList[t] == p && p.next == old(Top(free[t])) && p.link == NoLink
      && (p.next != null ==> OnlyLinkSet(p.next, p))
    }

    twostate predicate OnlyLinkSet(o: Obj, new p: Obj)
      reads o
    {
      && o.link == Prev(p) && o.sType == old(o.sType) && o.State == old(o.State) && o.next == old(o.next) && o.Value == old(o.Value)
      && o.home == old(o.home) && o.on == old(o.on)
    }

    // -------------------------------------------------------------- references

    /** The variables keep their objects, and the objects everything but their links and values. */
    twostate predicate LinksChange()
      reads this, at.Keys, Objs
    {
      && Objs == old(Objs)
      && at.Keys == old(at.Keys) && (forall s :: s in at ==> unchanged(s))
      && (forall o :: o in Objs ==> OnlyLinks(o) && SameValue(o) && (o.Value == old(o.Value) || o.sType < MAX_FIX_TYPE))
      && (forall o :: o in Objs && o.home == null ==> Same(o))
    }

    /** `o` is still the same kind of object. */
    twostate predicate Stays(o: Obj)
      reads o
    {
      o.sType == old(o.sType) && o.vType == old(o.vType) && o.State == old(o.State) && o.on == old(o.on)
    }

    twostate predicate OnlyLinks(o: Obj)
      reads o
    {
      Stays(o) && o.Size == old(o.Size) && o.home == old(o.home)
    }

    /** What is not a reference keeps its value. */
    twostate predicate SameValue(o: Obj)
      reads o
    {
      o.vType == old(o.vType) && o.Size == old(o.Size) && (o.vType != VTYPE_REF ==> o.Value == old(o.Value))
    }

    twostate lemma ListsKept()
      requires old(Inv()) && Objs == old(Objs)
      requires forall o :: o in Objs ==> Stays(o) && (o.Value == old(o.Value) || o.sType < MAX_FIX_TYPE)
      requires forall o :: o in Objs && old(o.home) == null && old(o.State) != Immortal ==> Same(o)
      requires forall o :: o in Objs ==> o.home == null || o.home == old(o.home) || old(o.State) == Immortal
      requires free == old(free) && lists == old(lists) && limbo == old(limbo)
      requires forall t :: 0 <= t < MAX_NUMBER_OF_FIX_TYPES ==> MemoryObjectsFreeList[t] == old(MemoryObjectsFreeList[t])
      requires forall m :: m in lists ==> unchanged(m)
      ensures FreeInv() && MortalInv()
    {
      forall o | o in Objs && old(o.home) != null ensures old(o.State) == Immortal {
        assert old(Linked(at, o.home, loose));
      }
      FreeKept();
      MortalKept();
    }

    /** `v` hangs behind `last`, and its class refers to `h`, as far as `maxderef` allows. */
    twostate predicate Rehung(v: Slot, last: Slot, h: Slot)
      requires LinksChange()
      reads this, at.Keys, Objs
    {
      && last in at
      && forall s {:trigger s.obj} :: s in at && Owns(s) ==>
           && s.obj.link == (if s == last then RPrev(v) else old(s.obj.link))
           && s.obj.next == (if s == v then last.obj else old(s.obj.next))
           && s.obj.Value == (if Lead(old(at), s) == v && old(at)[s].pos <= maxderef then Target(h) else old(s.obj.Value))
    }

    /** The class that had no value is linked behind another class, and refers to its first slot. */
    twostate lemma Joined(new b: Classes<Slot>)
      requires old(AliasInv()) && loose == old(loose) && at == old(at)
      requires loose != null && loose in at && loose in b && Joins(at, b, Lead(b, loose), loose)
      requires LinksChange() && Rehung(loose, Last(at, Lead(b, loose)), Lead(b, loose))
      requires at[loose].pos == 0 && |at[loose].cls| - 1 <= maxderef
      ensures Links(b, null)
    {
      forall s | s in b ensures Linked(b, s, null) {
        LeadOfClass(at, s, loose);
        assert InPlace(at, s);
        assert old(Linked(at, s, loose));
      }
    }

    twostate lemma JoinedReads(new b: Classes<Slot>)
      requires old(AliasInv()) && loose == old(loose) && at == old(at)
      requires loose != null && loose in at && loose in b && Joins(at, b, Lead(b, loose), loose) && Lead(at, Lead(b, loose)) == Lead(b, loose)
      requires LinksChange() && Lead(b, loose) != loose && forall o :: o in Objs ==> SameValue(o)
      ensures Lead(b, loose) in at
      ensures var h := Lead(b, loose); forall s :: s in at ==> ReadsIn(b, s) == if Lead(at, s) == loose then old(Reads(h)) else old(Reads(s))
    {
      var h := Lead(b, loose);
      Neighbours(at, h, h);
      forall s | s in at ensures ReadsIn(b, s) == if Lead(at, s) == loose then old(Reads(h)) else old(Reads(s)) {
        LeadLeads(at, s);
        Neighbours(at, Lead(at, s), Lead(at, s));
        assert old(Linked(at, h, loose)) && old(Linked(at, Lead(at, s), loose));
      }
    }

    twostate lemma JoinedClasses(h: Slot)
      requires old(AliasInv()) && loose == old(loose) && at == old(at) && loose != null && loose in at && h in at
      requires at[h].pos == at[loose].pos == 0 && at[h].cls != at[loose].cls
      requires LinksChange() && Rehung(loose, Last(at, h), h) && |at[loose].cls| - 1 <= maxderef
      ensures Links(Join(at, h, loose), null)
      ensures forall s :: s in at ==>
                ReadsIn(Join(at, h, loose), s) == if at[s].cls == at[loose].cls then old(Reads(h)) else old(Reads(s))
    {
      JoinNeighbours(at, h, loose);
      assert InPlace(at, h);
      Joined(Join(at, h, loose));
      JoinedReads(Join(at, h, loose));
      forall s | s in at ensures Lead(at, s) == loose <==> at[s].cls == at[loose].cls {
        LeadOfClass(at, s, loose);
      }
    }

    /** The first loop of memory_SetRef: the last variable of the class that `ppVAL` leads. */
    method FindLast(ppVAL: Slot) returns (error: Error, ppVal: Slot)
      requires Inv() && ppVAL in at && at[ppVAL].pos == 0
      ensures error == if |at[ppVAL].cls| - 1 <= maxderef then Success else Circular
      ensures error == Success ==> ppVal == Last(at, ppVAL)
    {
      ghost var c := at[ppVAL].cls;
      ppVal := ppVAL;
      var refcount := maxderef;
      ghost var i := 0;
      assert InPlace(at, ppVAL) && Linked(at, ppVAL, loose);
      while ppVal.obj.link.RPrev?
        invariant i < |c| && ppVal == c[i] && ppVal in at && at[ppVal] == Place(c, i) && Linked(at, ppVal, loose)
        invariant refcount == maxderef - i
        decreases |c| - i
      {
        ppVal := ppVal.obj.link.rprev;
        i := i + 1;
        assert Linked(at, ppVal, loose);
        if refcount == 0 {
          return Circular, ppVal;
        }
        refcount := refcount - 1;
      }
      return Success, ppVal;
    }

    ghost predicate ThreadedAt(d: seq<Slot>, j: nat)
      requires j < |d|
      reads `at, `Objs, Objs, d
    {
      && d[j] in at && at[d[j]] == Place(d, j) && Owns(d[j])
      && d[j].obj.link == if j + 1 < |d| then RPrev(d[j + 1]) else NoLink
    }

    /** The class `d` is linked from object to slot. */
    ghost predicate Threaded(d: seq<Slot>)
      reads `at, `Objs, Objs, d
    {
      forall j {:trigger ThreadedAt(d, j)} :: 0 <= j < |d| ==> ThreadedAt(d, j)
    }

    lemma ClassIsThreaded(s: Slot)
      requires Inv() && s in at
      ensures Threaded(at[s].cls)
    {
      assert InPlace(at, s);
      var d := at[s].cls;
      forall j | 0 <= j < |d| ensures ThreadedAt(d, j) {
        assert Linked(at, d[j], loose);
      }
    }

    /** The last loop of memory_SetRef: the variables of the class `d` refer to `ppVAL`, as far as `maxderef` allows. */
    method ReferTo(first: Slot, ppVAL: Slot, ghost d: seq<Slot>) returns (error: Error)
      requires d != [] && d[0] == first && Threaded(d)
      modifies Objs`Value
      ensures error == if |d| - 1 <= maxderef then Success else Circular
      ensures forall o :: o in Objs && (o.home !in at || at[o.home].cls != d) ==> o.Value == old(o.Value)
      ensures forall j :: 0 <= j < |d| ==>
                d[j].obj != null && d[j].obj.Value == if j <= maxderef then Target(ppVAL) else old(d[j].obj.Value)
    {
      var ppVar := first;
      var refcount := maxderef;
      ghost var i := 0;
      ThreadedObjects(d);
      assert ThreadedAt(d, 0);
      while ppVar.obj.link.RPrev?
        invariant i < |d| && ppVar == d[i] && old(ThreadedAt(d, i))
        invariant refcount == maxderef - i
        invariant forall j :: 0 <= j < |d| ==> ReferredAt(d, j, i, ppVAL, old(d[j].obj), old(d[j].obj.Value))
        invariant forall o :: o in Objs && (o.home !in at || at[o.home].cls != d) ==> o.Value == old(o.Value)
        decreases |d| - i
      {
        assert ReferredAt(d, i, i, ppVAL, old(d[i].obj), old(d[i].obj.Value));
        ppVar.obj.Value := Target(ppVAL);
        ppVar := ppVar.obj.link.rprev;
        i := i + 1;
        assert old(ThreadedAt(d, i));
        if refcount == 0 {
          return Circular;
        }
        refcount := refcount - 1;
      }
      ppVar.obj.Value := Target(ppVAL);
      return Success;
    }

    lemma ThreadedObjects(d: seq<Slot>)
      requires Threaded(d)
      ensures forall j :: 0 <= j < |d| ==> d[j].obj != null && d[j].obj in Objs && d[j].obj.home == d[j] && d[j] in at && at[d[j]] == Place(d, j)
    {
      forall j | 0 <= j < |d| ensures d[j].obj != null && d[j].obj in Objs && d[j].obj.home == d[j] && d[j] in at && at[d[j]] == Place(d, j) {
        assert ThreadedAt(d, j);
      }
    }

    /** The object `o` is in the slot `d[j]`, and refers to `h` if it is one of the first `i`; else its value is `x`. */
    ghost predicate ReferredAt(d: seq<Slot>, j: nat, i: nat, h: Slot, o: Obj?, x: Data)
      requires j < |d|
      reads d[j], o
    {
      d[j].obj == o && o != null && o.home == d[j] && o.Value == if j < i then Target(h) else x
    }

    /** The object in `first` and the one in `last` get to know each other. */
    method Hook(first: Slot, last: Slot)
      requires Inv() && first in at && last in at && first != last
      modifies Objs`link, Objs`next
      ensures forall s :: s in at && Owns(s) ==>
        && s.obj.link == (if s == last then RPrev(first) else old(s.obj.link))
        && s.obj.next == (if s == first then last.obj else old(s.obj.next))
      ensures forall o :: o in Objs && o.home == null ==> o.link == old(o.link) && o.next == old(o.next)
    {
      assert Linked(at, first, loose) && Linked(at, last, loose);
      last.obj.link := RPrev(first);
      first.obj.next := last.obj;
    }

    /** The last part of memory_SetRef: `first` is hung behind `ppVal`, and its class refers to `ppVAL`. */
    method HangOn(first: Slot, ppVal: Slot, ppVAL: Slot) returns (error: Error)
      requires Inv() && loose == first && first in at && at[first].pos == 0
      requires ppVal in at && at[ppVal].cls != at[first].cls
      modifies Objs`link, Objs`next, Objs`Value
      ensures error == if |at[first].cls| - 1 <= maxderef then Success else Circular
      ensures LinksChange() && Rehung(first, ppVal, ppVAL)
    {
      ghost var d := at[first].cls;
      assert InPlace(at, first);
      ClassIsThreaded(first);
      Hook(first, ppVal);
      forall j | 0 <= j < |d| ensures ThreadedAt(d, j) {
        assert old(ThreadedAt(d, j));
      }
      error := ReferTo(first, ppVAL, d);
      forall o | o in Objs ensures SameValue(o) && (o.Value == old(o.Value) || o.sType < MAX_FIX_TYPE) {
        if o.home in at && at[o.home].cls == d {
          LeadOfClass(at, o.home, first);
          assert old(Linked(at, o.home, loose)) && InPlace(at, o.home);
        }
      }
      forall s | s in at && Owns(s)
        ensures s.obj.Value == if Lead(at, s) == first && at[s].pos <= maxderef then Target(ppVAL) else old(s.obj.Value)
      {
        LeadOfClass(at, s, first);
        assert InPlace(at, s);
        assert at[s].cls == d ==> d[at[s].pos] == s;
      }
    }

    /** The splice of memory_SetRef: `ppVar` leads a class without a value, `ppVAL` one with a value. */
    method Splice(ppVar: Slot, ppVAL: Slot) returns (error: Error)
      requires Inv() && loose == ppVar && ppVar in at && ppVAL in at && at[ppVar].cls != at[ppVAL].cls
      requires at[ppVar].pos == at[ppVAL].pos == 0
      modifies `at, `loose, Objs
      ensures error == if |old(at)[ppVAL].cls| - 1 <= maxderef && |old(at)[ppVar].cls| - 1 <= maxderef then Success else Circular
      ensures error == Success ==> Inv() && loose == null && at == Join(old(at), ppVAL, ppVar)
      ensures error == Success ==> forall s :: s in at ==>
                Reads(s) == if old(at)[s].cls == old(at)[ppVar].cls then old(Reads(ppVAL)) else old(Reads(s))
      ensures |old(at)[ppVAL].cls| - 1 > maxderef ==> Inv() && Untouched()
      ensures error == Circular && |old(at)[ppVAL].cls| - 1 <= maxderef ==>
                at == old(at) && loose == ppVar && FreeInv() && MortalInv() && LinksChange() && Rehung(ppVar, Last(at, ppVAL), ppVAL)
    {
      var ppVal;
      error, ppVal := FindLast(ppVAL);
      if error == Success {
        error := SpliceBehind(ppVar, ppVal, ppVAL);
      }
    }

    method SpliceBehind(ppVar: Slot, ppVal: Slot, ppVAL: Slot) returns (error: Error)
      requires Inv() && loose == ppVar && ppVar in at && ppVAL in at && at[ppVar].cls != at[ppVAL].cls
      requires at[ppVar].pos == at[ppVAL].pos == 0 && ppVal == Last(at, ppVAL)
      modifies `at, `loose, Objs
      ensures error == if |old(at)[ppVar].cls| - 1 <= maxderef then Success else Circular
      ensures error == Success ==> Inv() && loose == null && at == Join(old(at), ppVAL, ppVar)
      ensures error == Success ==> forall s :: s in at ==>
                Reads(s) == if old(at)[s].cls == old(at)[ppVar].cls then old(Reads(ppVAL)) else old(Reads(s))
      ensures error == Circular ==> at == old(at) && loose == ppVar && FreeInv() && MortalInv() && LinksChange() && Rehung(ppVar, ppVal, ppVAL)
    {
      LastOfClass(at, ppVAL);
      error := HangOn(ppVar, ppVal, ppVAL);
      ListsKept();
      if error == Success {
        JoinedClasses(ppVAL);
        Reclass(Join(at, ppVAL, ppVar), null);
      }
    }

    /** An object that is in no variable becomes the value of `s`; a reference leaves `s` loose. */
    method Assign(s: Slot, p: Obj)
      requires Inv() && s !in at && p in Objs && p.State == Immortal && p.home == null && p.on == null
      requires p.next == null && p.link == NoLink
      requires WellTyped(p) && (p.vType == VTYPE_REF ==> loose == null)
      modifies s`obj, `at, `loose, p`home
      ensures Inv() && s.obj == p && p.home == s && at == Alone(old(at), s)
      ensures loose == if p.vType == VTYPE_REF then s else old(loose)
      ensures forall r :: r in at ==> Reads(r) == if r == s then Some(p.Seen()) else old(Reads(r))
    {
      s.obj := p;
      p.home := s;
      AssignedAll(p);
      Reclass(Alone(at, s), if p.vType == VTYPE_REF then s else loose);
    }

    /** All but the variable of `o` stays. */
    twostate predicate SameButHome(o: Obj)
      reads o
    {
      && o.sType == old(o.sType) && o.vType == old(o.vType) && o.State == old(o.State) && o.next == old(o.next)
      && o.link == old(o.link) && o.Value == old(o.Value) && o.Size == old(o.Size) && o.on == old(o.on)
    }

    twostate lemma AssignedAll(p: Obj)
      requires old(Inv()) && at == old(at) && loose == old(loose) && Objs == old(Objs) && p in Objs
      requires free == old(free) && lists == old(lists) && limbo == old(limbo)
      requires forall t :: 0 <= t < MAX_NUMBER_OF_FIX_TYPES ==> MemoryObjectsFreeList[t] == old(MemoryObjectsFreeList[t])
      requires old(p.home) == null && old(p.State) == Immortal && old(p.on) == null && SameButHome(p)
      requires p.home != null && p.home !in at && p.home.obj == p && p.next == null && p.link == NoLink
      requires WellTyped(p) && (p.vType == VTYPE_REF ==> loose == null)
      requires forall r :: r in at ==> unchanged(r)
      requires forall m :: m in lists ==> unchanged(m)
      requires forall o :: o in Objs && o != p ==> Same(o)
      ensures FreeInv() && MortalInv()
      ensures Links(Alone(at, p.home), if p.vType == VTYPE_REF then p.home else loose)
      ensures forall r :: r in Alone(at, p.home) ==> ReadsIn(Alone(at, p.home), r) == if r == p.home then Some(p.Seen()) else old(Reads(r))
    {
      FreeKept();
      MortalKept();
      AloneKeepsPartition(at, p.home);
      Assigned(p);
      ReadsAssigned(p);
    }

    /** `p` has become the object of its home, and nothing else has changed. */
    twostate lemma Assigned(p: Obj)
      requires old(AliasInv()) && at == old(at) && loose == old(loose) && Objs == old(Objs)
      requires old(p.home) == null && p.home != null && p.home !in at && p.home.obj == p && Owns(p.home)
      requires p.next == null && p.link == NoLink
      requires WellTyped(p) && (p.vType == VTYPE_REF ==> loose == null)
      requires forall r :: r in at ==> unchanged(r)
      requires forall o :: o in Objs && o != p ==> Same(o)
      requires Partition(Alone(at, p.home))
      ensures Links(Alone(at, p.home), if p.vType == VTYPE_REF then p.home else loose)
    {
      var s := p.home;
      var b, l := Alone(at, s), if p.vType == VTYPE_REF then s else loose;
      forall r | r in b ensures Linked(b, r, l) {
        if r != s {
          assert old(Linked(at, r, loose));
          assert r.obj != p;
        }
      }
    }

    twostate lemma ReadsAssigned(p: Obj)
      requires old(AliasInv()) && at == old(at) && Objs == old(Objs) && p in Objs && old(p.home) == null
      requires p.home != null && p.home !in at && p.home.obj == p
      requires forall r :: r in at ==> unchanged(r)
      requires forall o :: o in Objs && o != p ==> Same(o)
      ensures forall r :: r in Alone(at, p.home) ==> ReadsIn(Alone(at, p.home), r) == if r == p.home then Some(p.Seen()) else old(Reads(r))
    {
      forall r | r in at ensures ReadsIn(Alone(at, p.home), r) == old(Reads(r)) {
        LeadLeads(at, r);
        assert old(Linked(at, Lead(at, r), loose));
      }
    }

    ghost method Reclass(b: Classes<Slot>, l: Slot?)
      requires FreeInv() && MortalInv() && Links(b, l)
      modifies `at, `loose
      ensures at == b && loose == l && Inv()
    {
      at := b;
      loose := l;
    }

    twostate predicate Untouched()
      reads this, Objs
    {
      Objs == old(Objs) && at == old(at) && loose == old(loose) && forall o :: o in Objs ==> Same(o)
    }

    /** What memory_SetRef leaves when its last loop runs out of `maxderef`: the class of `v` hangs behind the class
        of `h`, but only its first references lead to `h`. */
    twostate predicate HalfSpliced(new v: Slot, new h: Slot)
      reads this, at.Keys, Objs
    {
      h in at && Last(at, h) in at && forall s {:trigger HalfSplicedAt(s, v, h)} :: s in old(at) ==> s in at && HalfSplicedAt(s, v, h)
    }

    twostate predicate HalfSplicedAt(s: Slot, new v: Slot, new h: Slot)
      requires s in at && h in at && Last(at, h) in at
      reads this, at.Keys, Objs
    {
      && s.obj != null && old(s.obj) == s.obj && s.obj in Objs && s.obj in old(Objs)
      && s.obj.link == (if s == Last(at, h) then RPrev(v) else old(s.obj.link))
      && s.obj.next == (if s == v then Last(at, h).obj else old(s.obj.next))
      && s.obj.Value == (if Lead(at, s) == v && at[s].pos <= maxderef then Target(h) else old(s.obj.Value))
    }

    /** memory_SetRef: the variable `ppVar0`, whose object is a reference that refers to nothing yet, and the
        variables that refer to it, become references to the variable that `ppVal0` is or refers to. */
    method SetRef(ppVar0: Slot, ppVal0: Slot) returns (error: Error)
      requires Inv() && loose == ppVar0 && ppVar0 in at && at[ppVar0].pos == 0
      requires ppVal0.obj == null || (ppVal0 in at && at[ppVal0].cls != at[ppVar0].cls)
      modifies `Objs, `free, `at, `loose, MemoryObjectsFreeList, Objs, ppVal0`obj, at.Keys`obj
      ensures var b := With(old(at), ppVal0);
        && error == (if (b[ppVal0].pos != 0 && maxderef == 0) || |b[ppVal0].cls| - 1 > maxderef || |old(at)[ppVar0].cls| - 1 > maxderef
                     then Circular else Success)
        && (error == Success ==> Inv() && loose == null && at == Join(b, ppVal0, ppVar0))
      ensures var b := With(old(at), ppVal0);
        (b[ppVal0].pos != 0 && maxderef == 0) || |b[ppVal0].cls| - 1 > maxderef ==> Inv() && Untouched()
      ensures var b := With(old(at), ppVal0);
        error == Circular && |b[ppVal0].cls| - 1 <= maxderef && (b[ppVal0].pos == 0 || maxderef > 0) ==>
          at == b && loose == ppVar0 && FreeInv() && MortalInv() && HalfSpliced(ppVar0, Lead(b, ppVal0))
      ensures forall s :: s in old(at) ==> s.obj == old(s.obj)
      ensures error == Success ==> forall s :: s in at ==>
                Reads(s) == if s == ppVal0 || (s in old(at) && old(at)[s].cls == old(at)[ppVar0].cls)
                            then old(if ppVal0 in at then Reads(ppVal0) else Some(UNDEF)) else old(Reads(s))
      ensures forall o :: o in Objs ==> o in old(Objs) || fresh(o)
    {
      BeforeSetRef(ppVar0, ppVal0);
      var ppVal := Dereference(ppVal0);
      if ppVal.obj != null && ppVal.obj.vType == VTYPE_REF {
        return Circular;
      }
      ghost var b := With(at, ppVal0);
      label dereferenced:
      error := SetRefTo(ppVar0, ppVal, ppVal0);
      if error == Circular && |b[ppVal0].cls| - 1 <= maxderef {
        forall s | s in old(at) ensures s in at && HalfSplicedAt(s, ppVar0, Lead(at, ppVal0)) {
          assert HalfSplicedAt@dereferenced(s, ppVar0, Lead(at, ppVal0));
        }
      }
    }

    /** The rest of memory_SetRef, when `ppVal0` is or refers to `ppVal`. */
    method SetRefTo(ppVar: Slot, ppVal: Slot, ghost ppVal0: Slot) returns (error: Error)
      requires Inv() && loose == ppVar && ppVar in at && at[ppVar].pos == 0
      requires if ppVal0 in at then ppVal in at && ppVal.obj != null && at[ppVal] == Place(at[ppVal0].cls, 0) && at[ppVal0].cls != at[ppVar].cls
               else ppVal == ppVal0 && ppVal.obj == null
      modifies `Objs, `free, `at, `loose, MemoryObjectsFreeList, Objs, ppVal`obj
      ensures var b := With(old(at), ppVal0);
        && error == (if |b[ppVal0].cls| - 1 > maxderef || |old(at)[ppVar].cls| - 1 > maxderef then Circular else Success)
        && (error == Success ==> Inv() && loose == null && at == Join(b, ppVal0, ppVar))
      ensures |With(old(at), ppVal0)[ppVal0].cls| - 1 > maxderef ==> Inv() && Untouched()
      ensures var b := With(old(at), ppVal0);
        error == Circular && |b[ppVal0].cls| - 1 <= maxderef ==>
          at == b && loose == ppVar && FreeInv() && MortalInv() && HalfSpliced(ppVar, Lead(b, ppVal0))
      ensures old(ppVal.obj) != null ==> ppVal.obj == old(ppVal.obj)
      ensures error == Success ==> forall s :: s in at ==>
                Reads(s) == if s == ppVal0 || (s in old(at) && old(at)[s].cls == old(at)[ppVar].cls)
                            then old(if ppVal0 in at then Reads(ppVal0) else Some(UNDEF)) else old(Reads(s))
      ensures forall o :: o in Objs ==> o in old(Objs) || fresh(o)
    {
      JoinAnyMember(With(at, ppVal), ppVal0, ppVal, ppVar);
      assert ppVal0 in at ==> InPlace(at, ppVal0);
      assert Lead(With(at, ppVal), ppVal) == Lead(With(at, ppVal0), ppVal0);
      if ppVal0 in at {
        ClassReadsTheSame(ppVal0, ppVal);
      }
      error := SpliceStored(ppVar, ppVal);
    }

    /** The rest of memory_SetRef: `ppVal` is no reference. */
    method SpliceStored(ppVar: Slot, ppVal: Slot) returns (error: Error)
      requires Inv() && loose == ppVar && ppVar in at && at[ppVar].pos == 0
      requires (ppVal.obj == null <==> ppVal !in at) && (ppVal in at ==> at[ppVal].pos == 0 && at[ppVal].cls != at[ppVar].cls)
      modifies `Objs, `free, `at, `loose, MemoryObjectsFreeList, Objs, ppVal`obj
      ensures var b := With(old(at), ppVal);
        && error == (if |b[ppVal].cls| - 1 > maxderef || |old(at)[ppVar].cls| - 1 > maxderef then Circular else Success)
        && (error == Success ==> Inv() && loose == null && at == Join(b, ppVal, ppVar))
      ensures |With(old(at), ppVal)[ppVal].cls| - 1 > maxderef ==> Inv() && Untouched()
      ensures var b := With(old(at), ppVal);
        error == Circular && |b[ppVal].cls| - 1 <= maxderef ==>
          at == b && loose == ppVar && FreeInv() && MortalInv() && HalfSpliced(ppVar, Lead(b, ppVal))
      ensures old(ppVal.obj) != null ==> ppVal.obj == old(ppVal.obj)
      ensures error == Success ==> forall s :: s in at ==>
                Reads(s) == if s == ppVal || (s in old(at) && old(at)[s].cls == old(at)[ppVar].cls)
                            then old(if ppVal in at then Reads(ppVal) else Some(UNDEF)) else old(Reads(s))
      ensures forall o :: o in Objs ==> o in old(Objs) || fresh(o)
    {
      assert InPlace(at, ppVar);
      if ppVal.obj == null {
        StoreUndef(ppVal);
      }
      assert InPlace(at, ppVal) && Lead(at, ppVal) == ppVal;
      label stored:
      error := Splice(ppVar, ppVal);
      if error == Circular && |at[ppVal].cls| - 1 <= maxderef {
        Halfway@stored(ppVar, ppVal);
        forall s | s in old(at) ensures HalfSplicedAt(s, ppVar, Lead(at, ppVal)) {
          assert old(Linked(at, s, loose)) && HalfSplicedAt@stored(s, ppVar, ppVal);
        }
      }
    }

    twostate lemma Halfway(new v: Slot, new h: Slot)
      requires old(Inv()) && at == old(at) && v in at && h in at && at[h].pos == 0
      requires LinksChange() && Rehung(v, Last(at, h), h)
      ensures HalfSpliced(v, h)
    {
      LastOfClass(at, h);
      forall s | s in at ensures HalfSplicedAt(s, v, h) {
        assert old(Linked(at, s, loose));
      }
    }

    lemma BeforeSetRef(ppVar0: Slot, ppVal0: Slot)
      requires Inv() && loose == ppVar0 && ppVar0 in at && at[ppVar0].pos == 0
      requires ppVal0.obj == null || (ppVal0 in at && at[ppVal0].cls != at[ppVar0].cls)
      ensures ppVal0.obj == null <==> ppVal0 !in at
      ensures ppVal0 in at ==> Lead(at, ppVal0) != loose
    {
      assert InPlace(at, ppVar0);
      if ppVal0 in at {
        assert InPlace(at, ppVal0) && Linked(at, ppVal0, loose) && Linked(at, Lead(at, ppVal0), loose);
        LeadOfClass(at, ppVal0, ppVar0);
      }
    }

    method Dereference(ppVal0: Slot) returns (ppVal: Slot)
      requires Inv() && (ppVal0.obj == null || (ppVal0 in at && Lead(at, ppVal0) != loose))
      ensures ppVal0.obj == null ==> ppVal == ppVal0
      ensures ppVal0.obj != null ==> ppVal.obj != null
      ensures ppVal0.obj != null && (at[ppVal0].pos == 0 || maxderef == 0) ==> ppVal == ppVal0
      ensures ppVal0.obj != null && maxderef > 0 ==> ppVal == Lead(at, ppVal0) && ppVal in at && at[ppVal] == Place(at[ppVal0].cls, 0) && ppVal.obj != null
      ensures ppVal0.obj != null && ppVal.obj.vType == VTYPE_REF ==> at[ppVal0].pos != 0 && maxderef == 0
      ensures ppVal0.obj != null && ppVal.obj.vType != VTYPE_REF ==>
                ppVal in at && ppVal.obj != null && at[ppVal] == Place(at[ppVal0].cls, 0) && (at[ppVal0].pos == 0 || maxderef > 0)
    {
      ppVal := ppVal0;
      var refcount := maxderef;
      if ppVal0 in at {
        assert InPlace(at, ppVal0) && Linked(at, ppVal0, loose) && Linked(at, Lead(at, ppVal0), loose);
      }
      while ppVal.obj != null && ppVal.obj.vType == VTYPE_REF && refcount > 0
        invariant ppVal == ppVal0 || (ppVal0 in at && ppVal == Lead(at, ppVal0) && at[ppVal0].pos > 0 && maxderef > 0)
        invariant ppVal == ppVal0 ==> refcount == maxderef
        decreases refcount
      {
        ppVal := ppVal.obj.Value.aValue;
        refcount := refcount - 1;
      }
    }

    /** An undefined value that is represented by a null pointer gets an object. */
    method StoreUndef(s: Slot)
      requires Inv() && s.obj == null && s !in at
      modifies `Objs, `free, `at, `loose, MemoryObjectsFreeList, Objs, s`obj
      ensures Inv() && at == Alone(old(at), s) && loose == old(loose)
      ensures s.obj != null && forall r :: r in at ==> Reads(r) == if r == s then Some(UNDEF) else old(Reads(r))
      ensures forall o :: o in old(Objs) && old(o.State) != Free ==> o in Objs && Same(o)
      ensures forall o :: o in Objs ==> o in old(Objs) || fresh(o)
    {
      var p := NewFixed(FIX_TYPE_LONG, VTYPE_UNDEF);
      Assign(s, p);
    }

    // -------------------------------------------------------------- releasing the object of a variable

    ghost predicate ThreadedFrom(c: seq<Slot>, k: nat)
      reads `at, `Objs, Objs, c
    {
      forall j {:trigger ThreadedAt(c, j)} :: k <= j < |c| && 0 <= j ==> ThreadedAt(c, j)
    }

    /** The references of the class `c` from the position `k` on are altered to refer to `h`. */
    method ReferRest(pRef0: Link, h: Slot, ghost c: seq<Slot>, ghost k: nat)
      requires k <= |c| && ThreadedFrom(c, k) && pRef0 == if k < |c| then RPrev(c[k]) else NoLink
      modifies Objs`Value
      ensures forall o :: o in Objs && (o.home !in at || at[o.home].cls != c || at[o.home].pos < k) ==> o.Value == old(o.Value)
      ensures forall j :: k <= j < |c| ==> c[j].obj != null && c[j].obj.Value == Target(h)
    {
      var pRef := pRef0;
      ghost var i := k;
      while pRef.RPrev?
        invariant k <= i <= |c| && pRef == if i < |c| then RPrev(c[i]) else NoLink
        invariant forall j :: k <= j < i ==> c[j].obj != null && c[j].obj.Value == Target(h)
        invariant forall o :: o in Objs && (o.home !in at || at[o.home].cls != c || at[o.home].pos < k) ==> o.Value == old(o.Value)
        decreases |c| - i
      {
        assert old(ThreadedAt(c, i));
        pRef.rprev.obj.Value := Target(h);
        pRef := pRef.rprev.obj.link;
        i := i + 1;
      }
    }

    /** `p` has moved from its variable to the next one, `r`, of the class, and `q` is in no variable. */
    twostate predicate Swapped(p: Obj, new r: Slot, new q: Obj)
      reads this, at.Keys, Objs
    {
      && at == old(at) && Objs == old(Objs) && p in Objs && q in Objs && p != q
      && old(p.home) != null && old(p.home) in at && Succ(at, old(p.home)) == Some(r) && r in at
      && p.home == r && r.obj == p && q.home == null && p.next == null
      && (forall t :: t in at && t != r ==> unchanged(t))
      && (forall o :: o in Objs && o != p && o != q ==> o.home == old(o.home) && o.link == old(o.link))
      && (forall o :: o in Objs && o != p && o != q ==>
            o.next == if o.home in at && Succ(at, r) == Some(o.home) then p else old(o.next))
    }

    /** The swap in memory_ReleaseVariable: the value moves to the first variable that refers to it, whose
        reference is released instead. */
    method Swap(p: Obj) returns (pRefHead: Slot, pRef: Link, q: Obj)
      requires Inv() && loose == null && p in Objs && p.home != null && p.link.RPrev? && p.vType != VTYPE_REF
      modifies at.Keys`obj, Objs`link, Objs`next, Objs`home
      ensures pRefHead in at && Swapped(p, pRefHead, q) && q == old(pRefHead.obj) && p.link == pRef == old(q.link)
      ensures old(q.home) == pRefHead && q.State == Immortal && q.on == null
    {
      ghost var v := p.home;
      assert InPlace(at, v) && Linked(at, v, loose);
      pRefHead := p.link.rprev;
      assert Linked(at, pRefHead, loose);
      pRef := pRefHead.obj.link;
      assert pRef.RPrev? ==> InPlace(at, pRefHead) && pRef.rprev in at && Linked(at, pRef.rprev, loose);
      q := pRefHead.obj;
      pRefHead.obj := p;
      p.home := pRefHead;
      q.home := null;
      p.link := pRef;
      p.next := null;
      if pRef.RPrev? {
        pRef.rprev.obj.next := p;
      }
    }

    /** What the promotion of `p` leaves: its old variable is out of the class, and the others refer to `r`. */
    twostate lemma Promoted(p: Obj, new r: Slot, new q: Obj, new b: Classes<Slot>)
      requires old(AliasInv()) && loose == old(loose) == null && Swapped(p, r, q) && old(p.vType) != VTYPE_REF
      requires q == old(r.obj) && p.link == old(q.link)
      requires Drops(at, b, old(p.home))
      requires OthersRefer(old(p.home), r)
      ensures Links(b, null)
    {
      var v := old(p.home);
      assert old(Linked(at, v, loose)) && old(Linked(at, r, loose));
      Neighbours(at, v, r);
      forall t | t in b ensures Linked(b, t, null) {
        assert old(Linked(at, t, loose));
        Neighbours(at, r, t);
        Neighbours(at, v, t);
        Neighbours(at, t, v);
        Neighbours(at, t, t);
      }
    }

    /** `p` is taken out of the links of its class. */
    twostate predicate Unlinked(p: Obj)
      reads this, at.Keys, Objs
    {
      && at == old(at) && Objs == old(Objs) && p in Objs && old(p.home) != null && old(p.home) in at && p.home == null
      && (forall t :: t in at ==> unchanged(t))
      && (forall o :: o in Objs && o != p ==>
            && o.home == old(o.home) && o.Value == old(o.Value)
            && o.link == (if o.home in at && Some(o.home) == Pred(at, old(p.home)) then old(p.link) else old(o.link))
            && o.next == (if o.home in at && Some(o.home) == Succ(at, old(p.home)) then old(p.next) else old(o.next)))
    }

    twostate lemma Parted(p: Obj, new b: Classes<Slot>)
      requires old(AliasInv()) && loose == old(loose) == null && Unlinked(p)
      requires Drops(at, b, old(p.home)) && (Lead(at, old(p.home)) != old(p.home) || Succ(at, old(p.home)) == None)
      requires forall o :: o in Objs ==> Stays(o) && SameValue(o)
      ensures Links(b, null)
    {
      var v := old(p.home);
      assert old(Linked(at, v, loose));
      forall t | t in b ensures Linked(b, t, null) {
        assert old(Linked(at, t, loose));
        Neighbours(at, v, t);
        Neighbours(at, t, v);
        Neighbours(at, v, v);
        LeadLeads(at, t);
        if Pred(at, v).Some? {
          assert old(Linked(at, Pred(at, v).value, loose));
        }
      }
    }

    twostate lemma PartedReads(p: Obj, new b: Classes<Slot>)
      requires old(AliasInv()) && loose == old(loose) == null && Unlinked(p)
      requires Drops(at, b, old(p.home)) && (Lead(at, old(p.home)) != old(p.home) || Succ(at, old(p.home)) == None)
      requires forall o :: o in Objs ==> SameValue(o)
      ensures forall s :: s in b ==> ReadsIn(b, s) == old(Reads(s))
    {
      forall s | s in b ensures ReadsIn(b, s) == old(Reads(s)) {
        LeadLeads(at, s);
        assert old(Linked(at, Lead(at, s), loose));
      }
    }

    twostate lemma PartedLinks(p: Obj)
      requires old(AliasInv()) && loose == old(loose) == null && Unlinked(p) && old(p.vType == VTYPE_REF || !p.link.RPrev?)
      requires forall o :: o in Objs ==> SameValue(o) && Stays(o)
      ensures Links(Drop(at, old(p.home)), null)
      ensures forall s :: s in Drop(at, old(p.home)) ==> ReadsIn(Drop(at, old(p.home)), s) == old(Reads(s))
    {
      var v := old(p.home);
      assert old(Linked(at, v, loose));
      Neighbours(at, v, v);
      DropNeighbours(at, v);
      Parted(p, Drop(at, v));
      PartedReads(p, Drop(at, v));
    }

    /** A reference, or a value that nothing refers to, leaves its class, if it is in one. */
    method Unlink(p: Obj)
      requires Inv() && loose == null && p in Objs && (p.vType == VTYPE_REF || !p.link.RPrev?)
      requires p.home == null && p.State == Immortal ==> p.link == NoLink && p.next == null
      modifies Objs`link, Objs`next, Objs`home
      ensures if old(p.home) == null then forall o :: o in Objs ==> Same(o) else Unlinked(p)
    {
      if p.home != null {
        assert Linked(at, p.home, loose) && InPlace(at, p.home);
        assert p.link.RPrev? ==> Linked(at, p.link.rprev, loose);
        assert p.next != null ==> Linked(at, Pred(at, p.home).value, loose);
      }
      if p.State == Immortal && p.vType == VTYPE_REF {
        if p.next != null {
          p.next.link := p.link;
        }
        if p.link.RPrev? {
          p.link.rprev.obj.next := p.next;
        }
        p.link := NoLink;
        p.next := null;
      }
      p.home := null;
    }

    /** After the swap the rest of the class is still threaded. */
    twostate lemma RestIsThreaded(p: Obj, new r: Slot, new q: Obj)
      requires old(Inv()) && loose == old(loose) == null && Swapped(p, r, q) && old(p.vType) != VTYPE_REF && q == old(r.obj)
      requires p.link == old(q.link) && forall o :: o in Objs ==> Stays(o)
      ensures var c := at[old(p.home)].cls; ThreadedFrom(c, 2) && |c| >= 2 && p.link == if 2 < |c| then RPrev(c[2]) else NoLink
    {
      var v := old(p.home);
      var c := at[v].cls;
      assert InPlace(at, v) && old(Linked(at, v, loose)) && old(Linked(at, r, loose));
      assert at[v].pos == 0 && at[r] == Place(c, 1);
      forall j | 2 <= j < |c| ensures ThreadedAt(c, j) {
        assert old(Linked(at, c[j], loose));
      }
    }

    method MoveValue(p: Obj) returns (pRefHead: Slot, q: Obj)
      requires Inv() && loose == null && p in Objs && p.home != null && p.link.RPrev? && p.vType != VTYPE_REF
      modifies at.Keys`obj, Objs`link, Objs`next, Objs`home, Objs`Value
      ensures pRefHead in at && Swapped(p, pRefHead, q) && q == old(pRefHead.obj) && p.link == old(q.link)
      ensures OthersRefer(old(p.home), pRefHead) && q.State == Immortal && q.on == null && old(q.home) == pRefHead
    {
      ghost var c := at[p.home].cls;
      var pRef;
      pRefHead, pRef, q := Swap(p);
      RestIsThreaded(p, pRefHead, q);
      ReferRest(pRef, pRefHead, c, 2);
      NowRefer(p, pRefHead, q);
    }

    /** The variables of the class of `v` but `r` refer to `r`, and other values are what they were. */
    twostate predicate OthersRefer(v: Slot, new r: Slot)
      reads this, Objs
    {
      && Objs == old(Objs)
      && forall o :: o in Objs ==>
        && (o.home in at && o.home != r ==> o.Value == if Lead(at, o.home) == v then Target(r) else old(o.Value))
        && Stays(o) && SameValue(o) && (o.Value == old(o.Value) || o.sType < MAX_FIX_TYPE)
        && (old(o.home) == null ==> Same(o))
    }

    twostate lemma NowRefer(p: Obj, new r: Slot, new q: Obj)
      requires old(Inv()) && loose == old(loose) == null && Swapped(p, r, q) && old(p.vType) != VTYPE_REF && q == old(r.obj)
      requires forall o :: o in Objs ==> Stays(o) && o.Size == old(o.Size) && (old(o.home) == null ==> o.link == old(o.link) && o.next == old(o.next))
      requires var c := at[old(p.home)].cls;
        && (forall o :: o in Objs && (o.home !in at || at[o.home].cls != c || at[o.home].pos < 2) ==> o.Value == old(o.Value))
        && (forall j :: 2 <= j < |c| ==> c[j].obj != null && c[j].obj.Value == Target(r))
      ensures OthersRefer(old(p.home), r)
    {
      var v := old(p.home);
      var c := at[v].cls;
      assert InPlace(at, v) && old(Linked(at, v, loose)) && old(Linked(at, r, loose));
      forall o | o in Objs
        ensures o.home in at && o.home != r ==> o.Value == if Lead(at, o.home) == v then Target(r) else old(o.Value)
        ensures SameValue(o) && (o.Value == old(o.Value) || o.sType < MAX_FIX_TYPE)
        ensures old(o.home) == null ==> Same(o)
      {
        if o.home in at {
          assert InPlace(at, o.home) && old(Linked(at, o.home, loose));
          LeadOfClass(at, o.home, v);
        }
        if old(o.home) == null {
          assert o.home == null && o.home !in at;
        }
      }
    }

    twostate lemma PromotedReads(p: Obj, new r: Slot, new q: Obj, new b: Classes<Slot>)
      requires old(AliasInv()) && loose == old(loose) == null && Swapped(p, r, q) && old(p.vType) != VTYPE_REF
      requires q == old(r.obj) && OthersRefer(old(p.home), r) && Drops(at, b, old(p.home))
      ensures forall s :: s in b ==> ReadsIn(b, s) == old(Reads(s))
    {
      var v := old(p.home);
      assert old(Linked(at, v, loose)) && old(Linked(at, r, loose));
      Neighbours(at, v, v);
      Neighbours(at, v, r);
      forall s | s in b ensures ReadsIn(b, s) == old(Reads(s)) {
        LeadLeads(at, s);
        assert old(Linked(at, Lead(at, s), loose));
      }
    }

    twostate lemma PromotedLinks(p: Obj, new r: Slot, new q: Obj)
      requires old(AliasInv()) && loose == old(loose) == null && Swapped(p, r, q) && old(p.vType) != VTYPE_REF
      requires q == old(r.obj) && p.link == old(q.link) && OthersRefer(old(p.home), r)
      ensures Links(Drop(at, old(p.home)), null)
      ensures forall s :: s in Drop(at, old(p.home)) ==> ReadsIn(Drop(at, old(p.home)), s) == old(Reads(s))
    {
      DropNeighbours(at, old(p.home));
      Promoted(p, r, q, Drop(at, old(p.home)));
      PromotedReads(p, r, q, Drop(at, old(p.home)));
    }

    /** The value moves on, and its reference is left in no variable. */
    method Promote(p: Obj, ghost v: Slot) returns (q: Obj)
      requires Inv() && loose == null && v in at && v == p.home && p in Objs && p.link.RPrev? && p.vType != VTYPE_REF
      modifies `at, `loose, at.Keys`obj, Objs`link, Objs`next, Objs`home, Objs`Value
      ensures Inv() && loose == null && at == Drop(old(at), v)
      ensures q in Objs && q.State == Immortal && q.home == null && q.on == null && old(q.home) != null
      ensures forall s :: s in at ==> Reads(s) == old(Reads(s))
      ensures forall o :: o in Objs ==> SameValue(o)
      ensures forall o :: o in Objs && old(o.home) == null ==> Same(o)
      ensures forall t :: t in old(at) ==> t.obj == if Some(t) == Succ(old(at), v) then p else old(t.obj)
    {
      assert Linked(at, v, loose);
      var pRefHead;
      pRefHead, q := MoveValue(p);
      ListsKept();
      PromotedLinks(p, pRefHead, q);
      Reclass(Drop(at, v), null);
    }

    /** `p` is in no variable any more. */
    method Part(p: Obj, ghost v: Slot?)
      requires Inv() && loose == null && p in Objs && v == p.home && (p.vType == VTYPE_REF || !p.link.RPrev?)
      requires v == null && p.State == Immortal ==> p.link == NoLink && p.next == null
      modifies `at, `loose, Objs`link, Objs`next, Objs`home
      ensures Inv() && loose == null && p.home == null && at == DropIf(old(at), v)
      ensures forall s :: s in at ==> Reads(s) == old(Reads(s))
      ensures forall o :: o in Objs && old(o.home) == null && o != p ==> Same(o)
    {
      Unlink(p);
      ListsKept();
      if v == null {
        AliasKept();
      } else {
        PartedLinks(p);
        Reclass(Drop(at, v), null);
      }
    }

    ghost function DropIf(b: Classes<Slot>, v: Slot?): Classes<Slot> {
      if v != null && v in b then Drop(b, v) else b
    }

    /** The first part of memory_ReleaseVariable: the object `p` to be given back is `p0`, or the first
        reference to it, which it replaces. */
    method Unhook(p0: Obj, ghost v: Slot?) returns (p: Obj)
      requires Inv() && loose == null && Releasable(p0) && v == p0.home
      modifies `at, `loose, Objs`link, Objs`next, Objs`home, Objs`Value, at.Keys`obj
      ensures Inv() && loose == null && at == DropIf(old(at), v)
      ensures p in Objs && p.State != Free && p.home == null && p.on == null && (p == p0 || (p !in limbo && p0 !in limbo && old(p.home) != null && v != null))
      ensures forall s :: s in at ==> Reads(s) == old(Reads(s))
      ensures forall s :: s in at ==> s.obj == if v != null && v in old(at) && Some(s) == Succ(old(at), v) && old(p0.vType) != VTYPE_REF then p0 else old(s.obj)
      ensures forall o :: o in Objs && old(o.home) == null && o != p0 ==> Same(o)
    {
      p := p0;
      if v != null {
        assert Linked(at, v, loose);
      }
      if p.State == Immortal && p.link.RPrev? && p.vType != VTYPE_REF {
        p := Promote(p0, v);
      } else {
        Part(p, v);
      }
    }

    /** An object that may be released: in a variable, or in none and linked to nothing. */
    ghost predicate Releasable(p: Obj)
      reads `Objs, Objs
    {
      && p in Objs && p.State != Free && p.on == null
      && (p.home == null ==> !p.link.RPrev? && (p.State == Immortal ==> p.link == NoLink && p.next == null))
    }

    /** memory_ReleaseVariable, but for arrays. */
    method ReleaseVariable(p0: Obj?)
      requires Inv() && loose == null && (p0 != null ==> Releasable(p0))
      modifies `Objs, `free, `limbo, `at, `loose, MemoryObjectsFreeList, Objs, at.Keys`obj
      ensures Inv() && loose == null
      ensures p0 == null ==> at == old(at) && limbo == old(limbo)
      ensures p0 != null ==> limbo == old(limbo) - {p0} && at == DropIf(old(at), old(p0.home))
      ensures forall s :: s in at ==> Reads(s) == old(Reads(s))
      ensures forall s :: s in at ==>
                s.obj == if old(p0 != null && p0.home != null && p0.home in at && p0.vType != VTYPE_REF)
                            && Some(s) == Succ(old(at), old(p0.home)) then p0 else old(s.obj)
      ensures forall o :: o in old(Objs) && old(o.home) == null && o != p0 ==>
                o in Objs && Steady(o) && (old(o.State) != Free ==> Same(o))
      ensures p0 != null && old(p0.home) == null ==> p0 !in Objs || p0.State == Free
      ensures Objs <= old(Objs)
    {
      if p0 != null {
        var p := Unhook(p0, p0.home);
        label unhooked:
        Discard(p);
        forall o | o in old(Objs) && old(o.home) == null && o != p0
          ensures o in Objs && Steady(o) && (old(o.State) != Free ==> Same(o))
        {
          assert old@unhooked(o.State) == old(o.State);
        }
      }
    }

    // -------------------------------------------------------------- mortal lists

    /** memory_Mortalize, for an object that is on no list and in no variable. */
    method Mortalize(p: Obj, m: MortalList)
      requires Inv() && m in lists && p in Objs && p.home == null && p.on == null && p.State != Free && p.State != Mortal
      modifies m, Objs`next, Objs`link, Objs`State, Objs`on
      ensures Inv() && m.list == old(m.list) + [p] && p.State == Mortal && p.on == m
      ensures forall o :: o in Objs && o != p ==> Steady(o) && (o.on != m ==> Same(o))
      ensures VariablesKept() && p.Value == old(p.Value) && p.sType == old(p.sType)
    {
      forall i | 0 <= i < |m.list| ensures m.list[i] != p && m.list[i] in Objs && m.list[i].on == m {
        assert OnMortal(m, i);
      }
      p.next := m.first;
      if p.next != null {
        p.next.link := Prev(p);
      }
      p.link := NoLink;
      p.State := Mortal;
      m.first := p;
      p.on := m;
      m.list := m.list + [p];
      FreeKept();
      AliasKept();
      ReadsKept();
      Mortalized(m);
    }

    /** An object has been put on the list `m`. */
    twostate lemma Mortalized(m: MortalList)
      requires old(MortalInv()) && Objs == old(Objs) && lists == old(lists) && limbo == old(limbo) && m in lists
      requires m.first != null && m.first in Objs && m.list == old(m.list) + [m.first]
      requires var p := m.first;
        && old(allocated(p)) && old(p.on) == null && p.home == null && p.State == Mortal && p.on == m && p.link == NoLink && p.next == old(m.first)
        && (forall o :: o in Objs && o != p && o != p.next ==> Same(o))
        && (p.next != null ==> OnlyLinkSet(p.next, p))
      requires old(m.first) != m.first && forall i :: 0 <= i < |old(m.list)| ==> old(m.list)[i] != m.first
      requires forall r :: r in lists && r != m ==> unchanged(r)
      requires m.first !in limbo
      ensures MortalInv()
    {
      var n, f := |old(m.list)|, old(m.list);
      assert old(MortalListInv(m));
      assert n > 0 ==> old(OnMortal(m, n - 1));
      forall r, i | r in lists && 0 <= i < |r.list| ensures OnMortal(r, i) {
        if r != m {
          assert old(MortalListInv(r)) && old(OnMortal(r, i));
        } else if i < n {
          assert old(OnMortal(m, i));
        }
      }
      forall r | r in lists ensures MortalListInv(r) {
        assert r != m ==> old(MortalListInv(r));
      }
      forall o | o in Objs && o.on != null ensures o.on in lists && o in o.on.list && o.home == null && o.State == Mortal {
        if o.on == m && o != m.first {
          assert o in old(m.list);
        }
      }
    }

    /** memory_Immortalize, for an object that is on the list `m` if it is mortal. */
    method Immortalize(p: Obj?, m: MortalList)
      requires Inv() && m in lists && (p != null ==> p in Objs && (p.State == Immortal || p.on == m))
      modifies m, Objs`next, Objs`link, Objs`State, Objs`on
      ensures Inv() && VariablesKept() && (p != null ==> p.State == Immortal)
      ensures p == null || old(p.State) == Immortal ==> m.list == old(m.list) && forall o :: o in Objs ==> Same(o)
      ensures p != null && old(p.State) != Immortal ==>
                && p.link == NoLink && p.next == null && p.on == null && p.home == null
                && exists k :: 0 <= k < |old(m.list)| && old(m.list)[k] == p && m.list == Without(old(m.list), k)
      ensures forall o :: o in Objs && o != p && old(o.on) != m ==> Same(o)
    {
      if p == null || p.State == Immortal {
        return;
      }
      ghost var k :| 0 <= k < |m.list| && m.list[k] == p;
      TakeOff(p, m, k);
      FreeKept();
      AliasKept();
      ReadsKept();
      Immortalized(p, k);
    }

    method TakeOff(p: Obj, m: MortalList, ghost k: nat)
      requires Inv() && m in lists && k < |m.list| && m.list[k] == p
      modifies m, Objs`next, Objs`link, Objs`State, Objs`on
      ensures TakenOut(m, k) && p in Objs && old(p.on) == m
      ensures p.State == Immortal && p.link == NoLink && p.next == null && p.on == null && p.home == null
      ensures forall o :: o in Objs && o != p && old(o.on) != m ==> Same(o)
    {
      ghost var f := m.list;
      assert OnMortal(m, k);
      assert k > 0 ==> OnMortal(m, k - 1);
      assert k + 1 < |f| ==> OnMortal(m, k + 1);
      if p.link.Prev? {
        p.link.prev.next := p.next;
      } else {
        m.first := p.next;
      }
      if p.next != null {
        p.next.link := p.link;
      }
      p.link := NoLink;
      p.next := null;
      p.State := Immortal;
      p.on := null;
      m.list := Without(f, k);
    }

    /** `p` has been taken from the place `k` of its list. */
    twostate lemma Immortalized(p: Obj, new k: nat)
      requires old(MortalInv()) && Objs == old(Objs) && lists == old(lists) && limbo == old(limbo) && p in Objs
      requires old(p.on) != null && k < |old(p.on.list)| && old(p.on.list)[k] == p
      requires p.State != Mortal && p.on == null && TakenOut(old(p.on), k)
      requires forall r :: r in lists && r != old(p.on) ==> unchanged(r)
      ensures MortalInv()
    {
      var m := old(p.on);
      var f := old(m.list);
      assert old(MortalListInv(m)) && old(OnMortal(m, k));
      assert k > 0 ==> old(OnMortal(m, k - 1));
      assert k + 1 < |f| ==> old(OnMortal(m, k + 1));
      WithoutAt(f, k);
      forall r, i | r in lists && 0 <= i < |r.list| ensures OnMortal(r, i) {
        if r != m {
          assert old(MortalListInv(r)) && old(OnMortal(r, i));
        } else {
          assert old(OnMortal(m, if i < k then i else i + 1));
        }
      }
      forall r | r in lists ensures MortalListInv(r) {
        assert r != m ==> old(MortalListInv(r));
      }
      forall o | o in Objs && o.on != null ensures o.on in lists && o in o.on.list && o.home == null && o.State == Mortal {
        if o.on == m {
          assert o in f;
        }
      }
    }

    twostate predicate TakenOut(m: MortalList, new k: nat)
      requires k < |old(m.list)|
      reads this, m, Objs
    {
      var f := old(m.list);
      && Objs == old(Objs) && m.list == Without(f, k)
      && m.first == Top(m.list)
      && forall o :: o in Objs && o != f[k] ==> 
           && Stays(o) && o.home == old(o.home) && o.Value == old(o.Value) && o.Size == old(o.Size)
           && o.next == (if k + 1 < |f| && o == f[k + 1] then (if k > 0 then f[k - 1] else null) else old(o.next))
           && o.link == (if k > 0 && o == f[k - 1] then (if k + 1 < |f| then Prev(f[k + 1]) else NoLink) else old(o.link))
    }

    ghost predicate DoomedAt(rest: seq<Obj>, j: nat)
      requires j < |rest|
      reads `Objs, `limbo, Objs
    {
      && rest[j] in Objs && rest[j] in limbo && rest[j].State == Mortal && rest[j].on == null && rest[j].home == null
      && rest[j].next == (if j == 0 then null else rest[j - 1]) && !rest[j].link.RPrev?
      && forall i :: 0 <= i < j ==> rest[i] != rest[j]
    }

    /** The objects `rest` of a list that is being released: the next one to go is the last. */
    ghost predicate Doomed(rest: seq<Obj>)
      reads `Objs, `limbo, Objs
    {
      forall j {:trigger DoomedAt(rest, j)} :: 0 <= j < |rest| ==> DoomedAt(rest, j)
    }

    /** The list `m` stops being one, and its objects are about to be released. */
    ghost method Condemn(m: MortalList)
      requires Inv() && loose == null && limbo == {} && m in lists
      modifies `lists, `limbo, m`list, Objs`on
      ensures Inv() && lists == old(lists) - {m} && m.list == [] && Doomed(old(m.list)) && limbo == AllOf(old(m.list))
      ensures forall s :: s in at ==> Reads(s) == old(Reads(s))
      ensures forall o :: o in Objs && o !in old(m.list) ==> Same(o)
    {
      ghost var f := m.list;
      ListFacts(m);
      ListsApart(m);
      Strike(m, f);
      Struck(f);
    }

    /** `f[i]` is a mortal object of the list `f`. */
    ghost predicate ListedAt(f: seq<Obj>, i: nat)
      requires i < |f|
      reads `Objs, Objs
    {
      f[i] in Objs && f[i].State == Mortal && f[i].home == null && InList(f, i)
    }

    ghost predicate Listed(f: seq<Obj>)
      reads `Objs, Objs
    {
      forall i {:trigger ListedAt(f, i)} :: 0 <= i < |f| ==> ListedAt(f, i)
    }

    /** The other lists have none of the objects `f`. */
    ghost predicate Apart(m: MortalList, f: seq<Obj>)
      reads `lists, lists
    {
      forall r :: r in lists && r != m ==> forall i :: 0 <= i < |r.list| ==> r.list[i] !in f
    }

    lemma ListFacts(m: MortalList)
      requires MortalInv() && m in lists
      ensures Listed(m.list) && forall i :: 0 <= i < |m.list| ==> m.list[i] in Objs && m.list[i].on == m
    {
      assert MortalListInv(m);
      forall i | 0 <= i < |m.list| ensures ListedAt(m.list, i) && m.list[i].on == m {
        assert OnMortal(m, i);
      }
    }

    lemma ListsApart(m: MortalList)
      requires MortalInv() && m in lists
      ensures Apart(m, m.list)
    {
      ListFacts(m);
      forall r, i | r in lists && r != m && 0 <= i < |r.list| ensures r.list[i] !in m.list {
        assert MortalListInv(r) && OnMortal(r, i);
      }
    }

    twostate predicate SameButOn(o: Obj)
      reads o
    {
      && o.sType == old(o.sType) && o.vType == old(o.vType) && o.State == old(o.State) && o.next == old(o.next)
      && o.link == old(o.link) && o.Value == old(o.Value) && o.Size == old(o.Size) && o.home == old(o.home)
    }

    /** The objects `f` of a list have been struck from it. */
    twostate lemma Struck(f: seq<Obj>)
      requires old(Inv()) && old(limbo) == {} && loose == old(loose) && at == old(at) && free == old(free)
      requires Objs == old(Objs) && lists < old(lists) && limbo == AllOf(f)
      requires forall t :: 0 <= t < MAX_NUMBER_OF_FIX_TYPES ==> MemoryObjectsFreeList[t] == old(MemoryObjectsFreeList[t])
      requires forall s :: s in at ==> unchanged(s)
      requires forall o :: o in Objs ==> SameButOn(o) && if o in f then o.on == null else o.on == old(o.on)
      requires old(Listed(f)) && forall r :: r in lists ==> unchanged(r) && forall i :: 0 <= i < |r.list| ==> r.list[i] !in f
      requires forall r :: r in old(lists) && r !in lists ==> old(r.list) == f
      ensures Inv() && Doomed(f) && forall s :: s in at ==> Reads(s) == old(Reads(s))
    {
      forall i | 0 <= i < |f| ensures f[i] in Objs && f[i].State == Mortal && f[i].on == null && f[i].home == null && old(InList(f, i)) {
        assert old(ListedAt(f, i));
      }
      forall o | o in Objs && o !in f && o.on != null ensures o.on in lists {
        assert old(o.on.list) == f ==> o in f;
      }
      FreeKept();
      AliasKept();
      ReadsKept();
      Condemned(f);
      forall j | 0 <= j < |f| ensures DoomedAt(f, j) {
        assert old(InList(f, j)) && f[j] in AllOf(f);
      }
    }

    ghost method Strike(m: MortalList, f: seq<Obj>)
      requires m in lists && f == m.list && forall i :: 0 <= i < |f| ==> f[i] in Objs
      modifies `lists, `limbo, m`list, Objs`on
      ensures lists == old(lists) - {m} && m.list == [] && limbo == AllOf(f)
      ensures forall o :: o in Objs ==> if o in f then o.on == null else o.on == old(o.on)
    {
      lists := lists - {m};
      limbo := AllOf(f);
      forall o | o in Objs && o in f {
        o.on := null;
      }
      m.list := [];
    }

    twostate lemma Condemned(new f: seq<Obj>)
      requires old(MortalInv()) && Objs == old(Objs)
      requires forall o :: o in Objs && o !in f ==> Same(o)
      requires forall i :: 0 <= i < |f| ==> f[i] in Objs && f[i].State == Mortal && f[i].on == null && f[i].home == null
      requires limbo == AllOf(f) && lists <= old(lists)
      requires forall r :: r in lists ==> unchanged(r) && forall i :: 0 <= i < |r.list| ==> r.list[i] !in f
      requires forall o :: o in Objs && o !in f && o.on != null ==> o.on in lists
      requires old(limbo) == {}
      ensures MortalInv()
    {
      forall r, i | r in lists && 0 <= i < |r.list| ensures OnMortal(r, i) {
        assert old(MortalListInv(r)) && old(OnMortal(r, i));
      }
      forall r | r in lists ensures MortalListInv(r) {
        assert old(MortalListInv(r));
      }
    }

    ghost function AllOf(f: seq<Obj>): set<Obj> {
      set o | o in f
    }

    /** Only objects in `gone` are given back; the others that are in no variable stay what they are. */
    twostate predicate OthersKept(new gone: set<Obj>)
      reads this, Objs
    {
      && Objs <= old(Objs)
      && forall o :: o in old(Objs) && old(o.home) == null && o !in gone ==> o in Objs && Steady(o)
    }

    /** The objects have been put on their free lists or given back to the system. */
    ghost predicate Released(gone: set<Obj>)
      reads `Objs, Objs
    {
      forall o :: o in gone ==> o !in Objs || o.State == Free
    }

    /** One round of memory_ReleaseMortals. */
    method ReleaseFirst(m: MortalList, ghost rest: seq<Obj>)
      requires Inv() && loose == null && m !in lists && m.list == [] && rest != [] && m.first == Top(rest)
      requires Doomed(rest) && limbo == AllOf(rest)
      modifies `Objs, `free, `limbo, `at, `loose, MemoryObjectsFreeList, Objs, at.Keys`obj, m`first
      ensures Inv() && loose == null && at == old(at)
      ensures var less := rest[..|rest| - 1]; m.first == Top(less) && Doomed(less) && limbo == AllOf(less)
      ensures forall s :: s in at ==> Reads(s) == old(Reads(s)) && s.obj == old(s.obj)
      ensures OthersKept({rest[|rest| - 1]}) && Released({rest[|rest| - 1]})
    {
      var p := m.first;
      ghost var less := rest[..|rest| - 1];
      assert DoomedAt(rest, |less|) && (|less| > 0 ==> DoomedAt(rest, |less| - 1));
      m.first := p.next;
      ReleaseVariable(p);
      forall j | 0 <= j < |less| ensures DoomedAt(less, j) {
        assert old(DoomedAt(rest, j));
      }
    }

    /** The loop of memory_ReleaseMortals. */
    method ReleaseAll(m: MortalList, ghost f: seq<Obj>)
      requires Inv() && loose == null && m !in lists && m.list == [] && m.first == Top(f)
      requires Doomed(f) && limbo == AllOf(f)
      modifies `Objs, `free, `limbo, `at, `loose, MemoryObjectsFreeList, Objs, at.Keys`obj, m`first
      ensures Inv() && loose == null && limbo == {} && m.first == null
      ensures VariablesKept() && OthersKept(AllOf(f)) && Released(AllOf(f))
    {
      ghost var rest := f;
      while m.first != null
        invariant Inv() && loose == null
        invariant m.first == Top(rest) && Doomed(rest) && limbo == AllOf(rest)
        invariant rest == f[..|rest|] && |rest| <= |f|
        invariant VariablesKept() && OthersKept(AllOf(f)) && Released(AllOf(f[|rest|..]))
        decreases |rest|
      {
        label round:
        ReleaseFirst(m, rest);
        forall o | o in old(Objs) && old(o.home) == null && o !in AllOf(f) ensures o in Objs && Steady(o) {
          assert old@round(o.home) == null && o != rest[|rest| - 1];
        }
        forall o | o in AllOf(f[|rest| - 1..]) ensures o !in Objs || o.State == Free {
          if o != rest[|rest| - 1] {
            assert o in AllOf(f[|rest|..]);
            assert old@round(o !in Objs || o.State == Free);
          }
        }
        rest := rest[..|rest| - 1];
      }
      assert f[0..] == f;
    }

    /** memory_ReleaseMortals */
    method ReleaseMortals(m: MortalList)
      requires Valid() && m in lists
      modifies `Objs, `free, `limbo, `lists, `at, `loose, MemoryObjectsFreeList, Objs, at.Keys`obj, m
      ensures Valid() && lists == old(lists) && m.list == []
      ensures VariablesKept() && OthersKept(AllOf(old(m.list))) && Released(AllOf(old(m.list)))
    {
      ghost var f := m.list;
      Condemn(m);
      label condemned:
      ReleaseAndRestore(m, f);
      forall o | o in old(Objs) && old(o.home) == null && o !in AllOf(f) ensures o in Objs && Steady(o) {
        assert old@condemned(o.home) == null;
      }
    }

    method ReleaseAndRestore(m: MortalList, ghost f: seq<Obj>)
      requires Inv() && loose == null && m !in lists && m.list == [] && m.first == Top(f)
      requires Doomed(f) && limbo == AllOf(f)
      modifies `Objs, `free, `limbo, `lists, `at, `loose, MemoryObjectsFreeList, Objs, at.Keys`obj, m`first
      ensures Valid() && lists == old(lists) + {m}
      ensures VariablesKept() && OthersKept(AllOf(f)) && Released(AllOf(f))
    {
      ReleaseAll(m, f);
      m.first := null;
      Restore(m);
    }

    ghost method Restore(m: MortalList)
      requires Inv() && m !in lists && m.first == null && m.list == []
      modifies `lists
      ensures Inv() && lists == old(lists) + {m}
    {
      lists := lists + {m};
      forall r | r in lists ensures MortalListInv(r) {
        if r != m {
          assert old(MortalListInv(r));
          forall i | 0 <= i < |r.list| ensures OnMortal(r, i) {
            assert old(OnMortal(r, i));
          }
        }
      }
    }

    // -------------------------------------------------------------- strings and copies

    /** memory_NewString: an object whose block has room for `StringSize` characters, of the smallest fix size
        that does if there is one. */
    method NewString(StringSize: nat) returns (p: Obj)
      requires Inv()
      modifies `Objs, `free, MemoryObjectsFreeList, Objs
      ensures Inv() && HeldKept() && VariablesKept() && p in Objs && p.home == null && p.on == null
      ensures p.State == Unknown && (p !in old(Objs) || old(p.State) == Free)
      ensures p.vType == VTYPE_STRING && p.Size == StringSize && p.Value.Block? && |p.Value.pValue| >= StringSize
      ensures if p.sType == LARGE_BLOCK_TYPE then
                |p.Value.pValue| == StringSize && forall t :: FirstStringIndex <= t <= LastStringIndex ==> SizeOfType[t] < StringSize
              else FirstStringIndex <= p.sType <= LastStringIndex
                   && forall t :: FirstStringIndex <= t < p.sType ==> SizeOfType[t] < StringSize
    {
      var sType := StringType(StringSize);
      p := NewVariable(sType, StringSize);
      SetType(p, VTYPE_STRING, StringSize);
    }

    /** The loop of memory_NewString. */
    method StringType(StringSize: nat) returns (sType: nat)
      requires Shape()
      ensures if sType == LARGE_BLOCK_TYPE then forall t :: FirstStringIndex <= t <= LastStringIndex ==> SizeOfType[t] < StringSize
              else FirstStringIndex <= sType <= LastStringIndex && StringSize <= SizeOfType[sType]
                   && forall t :: FirstStringIndex <= t < sType ==> SizeOfType[t] < StringSize
    {
      var i := FirstStringIndex;
      while i <= LastStringIndex
        invariant FirstStringIndex <= i <= LastStringIndex + 1
        invariant forall t :: FirstStringIndex <= t < i ==> SizeOfType[t] < StringSize
      {
        if StringSize <= SizeOfType[i] {
          return i;
        }
        i := i + 1;
      }
      return LARGE_BLOCK_TYPE;
    }

    method SetType(p: Obj, vType: VType, Size: nat)
      requires Inv() && p in Objs && p.home == null && p.on == null && p.State == Unknown
      modifies p`vType, p`Size
      ensures Inv() && VariablesKept() && p.vType == vType && p.Size == Size
    {
      p.vType := vType;
      p.Size := Size;
      FreeKept();
      AliasKept();
      MortalKept();
      ReadsKept();
    }

    /** memory_NewMortal */
    method NewMortal(sType: nat, LargeBlockSize: nat, m: MortalList) returns (p: Obj)
      requires Inv() && m in lists && (sType < MAX_NUMBER_OF_FIX_TYPES || sType == LARGE_BLOCK_TYPE)
      modifies `Objs, `free, MemoryObjectsFreeList, Objs, m
      ensures Inv() && VariablesKept() && p in Objs && p.State == Mortal && p.on == m && p.home == null
      ensures m.list == old(m.list) + [p] && p.sType == sType
      ensures sType == LARGE_BLOCK_TYPE ==> p.Value.Block? && |p.Value.pValue| == LargeBlockSize
      ensures forall o :: o in old(Objs) && old(o.State) != Free ==> o in Objs && o != p && Steady(o)
      ensures forall o :: o in Objs ==> o in old(Objs) || fresh(o)
    {
      p := NewVariable(sType, LargeBlockSize);
      label made:
      Mortalize(p, m);
      forall o | o in old(Objs) && old(o.State) != Free ensures Steady(o) {
        assert Steady@made(o);
      }
    }

    /** memory_NewMortalString */
    method NewMortalString(StringSize: nat, m: MortalList) returns (p: Obj)
      requires Inv() && m in lists
      modifies `Objs, `free, MemoryObjectsFreeList, Objs, m
      ensures Inv() && VariablesKept() && p in Objs && p.State == Mortal && p.on == m && p.home == null
      ensures m.list == old(m.list) + [p] && WellTyped(p) && p.vType == VTYPE_STRING && p.sType != FIX_TYPE_CSTRING
      ensures p.Value.Block? && |p.Value.pValue| >= StringSize == p.Size
      ensures forall o :: o in old(Objs) && old(o.State) != Free ==> o in Objs && o != p && Steady(o)
      ensures forall o :: o in Objs ==> o in old(Objs) || fresh(o)
    {
      p := NewString(StringSize);
      label made:
      Mortalize(p, m);
      forall o | o in old(Objs) && old(o.State) != Free ensures Steady(o) {
        assert Steady@made(o);
      }
    }

    /** memory_DupVar, but for arrays: a mortal copy. */
    method DupVar(pVar: Obj?, m: MortalList) returns (p: Obj?)
      requires Inv() && m in lists && (pVar != null ==> pVar in Objs && pVar.State != Free && WellTyped(pVar))
      modifies `Objs, `free, MemoryObjectsFreeList, Objs, m
      ensures Inv() && VariablesKept()
      ensures pVar == null ==> p == null && m.list == old(m.list)
      ensures pVar != null ==>
                && p != null && p in Objs && p.State == Mortal && p.on == m && p.home == null && WellTyped(p) && p.vType == old(pVar.vType)
                && p.Seen() == old(pVar.Seen()) && m.list == old(m.list) + [p] && (p !in old(Objs) || old(p.State) == Free)
      ensures forall o :: o in old(Objs) && old(o.State) != Free ==> o in Objs && Steady(o)
      ensures forall o :: o in Objs ==> o in old(Objs) || fresh(o)
    {
      if pVar == null {
        return null;
      }
      assert Sized(pVar);
      p := NewMortal(pVar.sType, pVar.Size, m);
      assert Sized(p);
      var Value := pVar.Value;
      if p.sType == LARGE_BLOCK_TYPE || (pVar.vType == VTYPE_STRING && p.sType != FIX_TYPE_CSTRING) {
        Value := Block(pVar.Value.pValue[..pVar.Size] + p.Value.pValue[pVar.Size..]);
      }
      label made:
      Fill(p, pVar.vType, pVar.Size, Value);
      forall o | o in old(Objs) && old(o.State) != Free ensures Steady(o) {
        assert Steady@made(o);
      }
    }

    method Fill(p: Obj, vType: VType, Size: nat, Value: Data)
      requires Inv() && p in Objs && p.home == null && p.State != Free
      requires p.sType < MAX_NUMBER_OF_FIX_TYPES && SizeOfType[p.sType] > 0 ==> Value.Block? && |Value.pValue| == SizeOfType[p.sType]
      modifies p`vType, p`Size, p`Value
      ensures Inv() && VariablesKept() && p.vType == vType && p.Size == Size && p.Value == Value
    {
      p.vType := vType;
      p.Size := Size;
      p.Value := Value;
      FreeKept();
      AliasKept();
      MortalKept();
      ReadsKept();
    }

    /** memory_DupMortalize: a copy, unless the value is mortal already. */
    method DupMortalize(pVar: Obj?, m: MortalList) returns (p: Obj?)
      requires Inv() && m in lists && (pVar != null ==> pVar in Objs && pVar.State != Free && WellTyped(pVar))
      requires pVar != null && pVar.State == Mortal ==> pVar.on == m
      modifies `Objs, `free, MemoryObjectsFreeList, Objs, m
      ensures Inv() && VariablesKept() && (pVar == null <==> p == null)
      ensures pVar != null ==>
                && p in Objs && p.State == Mortal && p.on == m && p.home == null && WellTyped(p) && p.vType == old(pVar.vType)
                && p.Seen() == old(pVar.Seen()) && (if old(pVar.State) == Mortal then p == pVar else p !in old(Objs) || old(p.State) == Free)
      ensures forall o :: o in old(Objs) && old(o.State) != Free ==> o in Objs && Steady(o)
      ensures forall o :: o in Objs ==> o in old(Objs) || fresh(o)
    {
      if pVar != null && pVar.State == Mortal {
        p := pVar;
      } else {
        p := DupVar(pVar, m);
      }
    }

    // -------------------------------------------------------------- assignment

    /** An object that can become a value: in no variable and on no list. */
    ghost predicate Fresh(p: Obj)
      reads `Objs, Objs
    {
      && p in Objs && p.State == Immortal && p.home == null && p.on == null && p.link == NoLink && p.next == null
      && p.vType != VTYPE_REF && WellTyped(p)
    }

    /** The hooking in memory_ReplaceVariable: the new value takes over the references to the old one. The
        variable gets the new value here, which memory_ReplaceVariable does after it has released the old one. */
    method TakeOver(Lval: Slot, NewValue: Obj) returns (was: Obj)
      requires Inv() && loose == null && Lval in at && at[Lval].pos == 0 && Lval.obj != null && Fresh(NewValue)
      modifies Lval`obj, Objs`link, Objs`next, Objs`home
      ensures Inv() && Lval.obj == NewValue && was == old(Lval.obj) && was in Objs
      ensures was.home == null && was.on == null && was.link == NoLink && was.next == null && was.State == Immortal
      ensures forall s :: s in at ==> Reads(s) == if at[s].cls == at[Lval].cls then Some(old(NewValue.Seen())) else old(Reads(s))
      ensures forall o :: o in Objs && old(o.home) == null && o != NewValue ==> Same(o)
    {
      assert InPlace(at, Lval);
      was := Replug(Lval, NewValue);
      ListsKept();
      TookOver(NewValue);
      ReadsTakenOver(NewValue);
      forall o | o in Objs && old(o.home) == null && o != NewValue ensures Same(o) {
        assert o != was && o.home == null && o.home !in at;
      }
    }

    method Replug(Lval: Slot, NewValue: Obj) returns (was: Obj)
      requires Inv() && loose == null && Lval in at && at[Lval].pos == 0 && Lval.obj != null && Fresh(NewValue)
      modifies Lval`obj, Objs`link, Objs`next, Objs`home
      ensures NewValue.home == Lval && TakenOver(NewValue) && was == old(Lval.obj) && old(was.home) == Lval
      ensures was.link == NoLink && was.next == null && was.State == Immortal && was.on == null
    {
      assert InPlace(at, Lval) && Linked(at, Lval, loose);
      was := Lval.obj;
      assert was.link.RPrev? ==> Linked(at, was.link.rprev, loose);
      Neighbours(at, Lval, Lval);
      NewValue.link := was.link;
      if NewValue.link.RPrev? {
        NewValue.link.rprev.obj.next := NewValue;
      }
      was.link := NoLink;
      NewValue.next := was.next;
      was.next := null;
      Lval.obj := NewValue;
      was.home := null;
      NewValue.home := Lval;
    }

    twostate lemma TookOver(n: Obj)
      requires old(AliasInv()) && loose == old(loose) == null && old(Fresh(n)) && TakenOver(n) && Lead(at, n.home) == n.home
      ensures AliasInv()
    {
      var s := n.home;
      assert old(Linked(at, s, loose));
      forall t | t in at ensures Linked(at, t, loose) {
        assert old(Linked(at, t, loose));
        Neighbours(at, s, t);
        Neighbours(at, s, s);
      }
    }

    /** `n` is in the place of the object that was in its variable. */
    twostate predicate TakenOver(n: Obj)
      reads this, at.Keys, Objs, n
    {
      var s := n.home;
      && s != null && s in old(at) && at == old(at) && Objs == old(Objs) && n in Objs && s.obj == n
      && var was := old(s.obj);
      && was != null && was in Objs && was.home == null && n != was && n.link == old(was.link) && n.next == null
      && (forall t :: t in at && t != s ==> unchanged(t))
      && (forall o :: o in Objs ==> Stays(o) && o.Value == old(o.Value) && o.Size == old(o.Size))
      && (forall o :: o in Objs && o != n && o != was ==>
            && o.home == old(o.home) && o.link == old(o.link)
            && o.next == (if o.home in at && Succ(at, s) == Some(o.home) then n else old(o.next)))
    }

    twostate lemma ReadsTakenOver(n: Obj)
      requires old(AliasInv()) && loose == old(loose) == null && old(Fresh(n)) && TakenOver(n) && Lead(at, n.home) == n.home
      ensures forall s :: s in at ==> Reads(s) == if at[s].cls == at[n.home].cls then Some(old(n.Seen())) else old(Reads(s))
    {
      LeadLeads(at, n.home);
      forall s | s in at ensures Reads(s) == if at[s].cls == at[n.home].cls then Some(old(n.Seen())) else old(Reads(s)) {
        LeadOfClass(at, s, n.home);
        LeadLeads(at, s);
        assert old(Linked(at, Lead(at, s), loose));
      }
    }

    /** The value to be stored: a copy of its own if asked for, and immortal. */
    method Prepare(NewValue: Obj?, pMortal: MortalList, iDupFlag: bool) returns (N: Obj?)
      requires Inv() && pMortal in lists
      requires NewValue != null ==> NewValue in Objs && NewValue.State != Free && NewValue.vType != VTYPE_REF && WellTyped(NewValue)
      requires NewValue != null && NewValue.State == Mortal ==> NewValue.on == pMortal
      requires NewValue != null && NewValue.State != Mortal ==> iDupFlag || Fresh(NewValue)
      modifies `Objs, `free, MemoryObjectsFreeList, Objs, pMortal
      ensures Inv() && VariablesKept() && (N == null <==> NewValue == null)
      ensures N != null ==> Fresh(N) && N.Seen() == old(NewValue.Seen())
      ensures forall o :: o in Objs ==> o in old(Objs) || fresh(o)
    {
      N := NewValue;
      if N != null && iDupFlag {
        N := DupMortalize(N, pMortal);
      }
      Immortalize(N, pMortal);
    }

    /** memory_ReplaceVariable: the variable `Lval`, which is no reference, gets the value `NewValue`, and with
        it every variable of its class. */
    method ReplaceVariable(Lval: Slot, NewValue: Obj?, pMortal: MortalList, iDupFlag: bool)
      requires Valid() && pMortal in lists && (Lval.obj == null || (Lval in at && at[Lval].pos == 0))
      requires NewValue != null ==> NewValue in Objs && NewValue.State != Free && NewValue.vType != VTYPE_REF && WellTyped(NewValue)
      requires NewValue != null && NewValue.State == Mortal ==> NewValue.on == pMortal
      requires NewValue != null && NewValue.State != Mortal ==> iDupFlag || Fresh(NewValue)
      modifies `Objs, `free, `limbo, `at, `loose, MemoryObjectsFreeList, Objs, at.Keys`obj, pMortal, Lval`obj
      ensures Valid() && (Lval !in at ==> Lval.obj == null) && pMortal in lists
      ensures at == if old(IsUndef(NewValue)) && Lval !in old(at) then old(at)
                    else if NewValue == null && old(!IsUndef(Lval.obj)) && Lval in old(at) && |old(at)[Lval].cls| == 1 then Drop(old(at), Lval)
                    else With(old(at), Lval)
      ensures forall s :: s in at ==>
                if Lval in at && at[s].cls == at[Lval].cls then Reads(s) == Some(if NewValue == null then UNDEF else old(NewValue.Seen()))
                else s in old(at) && Reads(s) == old(Reads(s))
      ensures forall o :: o in Objs ==> o in old(Objs) || fresh(o)
    {
      assert Lval.obj != null ==> Linked(at, Lval, loose);
      assert Lval in at ==> Linked(at, Lval, loose);
      if Lval in at {
        ReadsOfClass(Lval);
      }
      if IsUndef(Lval.obj) && IsUndef(NewValue) {
        return;
      }
      if Lval.obj != null && NewValue != null && NewValue.vType == Lval.obj.vType
         && (NewValue.vType == VTYPE_LONG || NewValue.vType == VTYPE_DOUBLE) {
        Overwrite(Lval, NewValue);
        return;
      }
      var N := Prepare(NewValue, pMortal, iDupFlag);
      Store(Lval, N);
    }

    /** The rest of memory_ReplaceVariable: the new value takes over the references, the old one is released. */
    method Store(Lval: Slot, NewValue: Obj?)
      requires Inv() && loose == null && (Lval.obj == null <==> Lval !in at) && (Lval in at ==> at[Lval].pos == 0)
      requires NewValue != null ==> Fresh(NewValue)
      modifies `Objs, `free, `limbo, `at, `loose, MemoryObjectsFreeList, Objs, at.Keys`obj, Lval`obj
      ensures Inv() && loose == null && limbo == old(limbo) && (Lval !in at ==> Lval.obj == null)
      ensures at == if NewValue != null then With(old(at), Lval)
                    else if Lval in old(at) && |old(at)[Lval].cls| > 1 then old(at)
                    else DropIf(old(at), Lval)
      ensures forall s :: s in at ==>
                if Lval in at && at[s].cls == at[Lval].cls then Reads(s) == Some(if NewValue == null then UNDEF else old(NewValue.Seen()))
                else s in old(at) && Reads(s) == old(Reads(s))
      ensures forall o :: o in Objs ==> o in old(Objs) || fresh(o)
    {
      if Lval in at {
        ReadsOfClass(Lval);
      }
      if Lval.obj != null && Lval.obj.link.RPrev? {
        StoreShared(Lval, NewValue);
      } else {
        StoreAlone(Lval, NewValue);
        if Lval in at {
          assert InPlace(at, Lval);
          forall s | s in at && at[s].cls == at[Lval].cls ensures s == Lval {
            assert InPlace(at, s);
          }
        }
      }
    }

    lemma BoundHaveObjects()
      requires Inv()
      ensures forall s :: s in at ==> s.obj != null
    {
      forall s | s in at ensures s.obj != null {
        assert Linked(at, s, loose);
      }
    }

    lemma ReadsOfClass(h: Slot)
      requires Inv() && h in at && at[h].pos == 0
      ensures h.obj != null && Lead(at, h) == h && |at[h].cls| >= 1 && (h.obj.link.RPrev? <==> |at[h].cls| > 1)
      ensures forall s :: s in at && at[s].cls == at[h].cls ==> Reads(s) == Some(h.obj.Seen())
    {
      assert Linked(at, h, loose) && InPlace(at, h);
      forall s | s in at && at[s].cls == at[h].cls ensures Reads(s) == Some(h.obj.Seen()) {
        LeadOfClass(at, s, h);
      }
    }

    function IsUndef(p: Obj?): bool
      reads p
    {
      p == null || p.vType == VTYPE_UNDEF
    }

    /** A number is stored in the object that holds a number of the same type. */
    method Overwrite(Lval: Slot, NewValue: Obj)
      requires Inv() && loose == null && Lval in at && at[Lval].pos == 0 && Lval.obj != null
      requires Lval.obj.vType == NewValue.vType && (NewValue.vType == VTYPE_LONG || NewValue.vType == VTYPE_DOUBLE)
      modifies Lval.obj`Value
      ensures Inv()
      ensures forall s :: s in at ==> Reads(s) == if at[s].cls == at[Lval].cls then Some(old(NewValue.Seen())) else old(Reads(s))
    {
      assert InPlace(at, Lval) && Linked(at, Lval, loose);
      Lval.obj.Value := NewValue.Value;
      ListsKept();
      Overwritten(Lval.obj);
    }

    /** The value of `n`, which is no reference, has changed. */
    twostate lemma Overwritten(n: Obj)
      requires old(AliasInv()) && loose == old(loose) == null && at == old(at) && Objs == old(Objs)
      requires n in Objs && n.home != null && n.home in at && Lead(at, n.home) == n.home && n.home.obj == n && n.vType != VTYPE_STRING
      requires (forall t :: t in at ==> unchanged(t)) && forall o :: o in Objs ==> SamePlace(o) && Stays(o)
      requires forall o :: o in Objs && o != n ==> Same(o)
      ensures AliasInv()
      ensures forall s :: s in at ==> Reads(s) == if at[s].cls == at[n.home].cls then Some(n.Seen()) else old(Reads(s))
    {
      LeadLeads(at, n.home);
      forall s | s in at
        ensures Linked(at, s, loose)
        ensures Reads(s) == if at[s].cls == at[n.home].cls then Some(n.Seen()) else old(Reads(s))
      {
        LeadOfClass(at, s, n.home);
        LeadLeads(at, s);
        Neighbours(at, s, s);
        assert old(Linked(at, s, loose)) && old(Linked(at, Lead(at, s), loose));
      }
    }

    /** The rest of memory_ReplaceVariable for a variable that others refer to: without a value it gets a stored
        undefined one. */
    method StoreShared(Lval: Slot, NewValue: Obj?)
      requires Inv() && loose == null && Lval in at && at[Lval].pos == 0 && Lval.obj != null
      requires NewValue != null ==> Fresh(NewValue)
      modifies `Objs, `free, `limbo, `at, `loose, MemoryObjectsFreeList, Objs, at.Keys`obj
      ensures Inv() && loose == null && at == old(at) && limbo == old(limbo)
      ensures forall s :: s in at ==>
                Reads(s) == if at[s].cls == at[Lval].cls then Some(if NewValue == null then UNDEF else old(NewValue.Seen())) else old(Reads(s))
      ensures forall o :: o in Objs ==> o in old(Objs) || fresh(o)
    {
      var N := NewValue;
      if N == null {
        N := NewFixed(FIX_TYPE_LONG, VTYPE_UNDEF);
      }
      TakeOverAndRelease(Lval, N);
    }

    method TakeOverAndRelease(Lval: Slot, N: Obj)
      requires Inv() && loose == null && Lval in at && at[Lval].pos == 0 && Lval.obj != null && Fresh(N)
      modifies `Objs, `free, `limbo, `at, `loose, MemoryObjectsFreeList, Objs, at.Keys`obj
      ensures Inv() && loose == null && at == old(at) && limbo == old(limbo) && Objs <= old(Objs)
      ensures forall s :: s in at ==> Reads(s) == if at[s].cls == at[Lval].cls then Some(old(N.Seen())) else old(Reads(s))
    {
      var was := TakeOver(Lval, N);
      ReleaseVariable(was);
    }

    lemma AloneUnlessLinked(s: Slot)
      requires Inv() && s in at && at[s].pos == 0 && s.obj != null && !s.obj.link.RPrev?
      ensures s.obj.home == s && at[s].cls == [s] && Releasable(s.obj) && Alone(Drop(at, s), s) == at
    {
      assert InPlace(at, s) && Linked(at, s, loose);
      DropAlone(at, s);
    }

    /** The rest of memory_ReplaceVariable for a variable that none refers to. */
    method StoreAlone(Lval: Slot, NewValue: Obj?)
      requires Inv() && loose == null && (Lval.obj == null || (Lval in at && at[Lval].pos == 0 && !Lval.obj.link.RPrev?))
      requires NewValue != null ==> Fresh(NewValue)
      modifies `Objs, `free, `limbo, `at, `loose, MemoryObjectsFreeList, Objs, at.Keys`obj, Lval`obj
      ensures Inv() && loose == null && limbo == old(limbo) && Lval.obj == NewValue
      ensures at == if NewValue != null then With(old(at), Lval) else DropIf(old(at), Lval)
      ensures forall s :: s in at && s != Lval ==> Reads(s) == old(Reads(s))
      ensures NewValue != null ==> Reads(Lval) == Some(old(NewValue.Seen()))
      ensures forall o :: o in Objs ==> o in old(Objs) || fresh(o)
    {
      if Lval.obj != null {
        AloneUnlessLinked(Lval);
      } else {
        assert Lval in at ==> Linked(at, Lval, loose);
      }
      ReleaseVariable(Lval.obj);
      if NewValue != null {
        Assign(Lval, NewValue);
      } else {
        SetNull(Lval);
      }
    }

    /** The pointer in a variable without an object is nobody's concern. */
    method SetNull(s: Slot)
      requires Inv() && s !in at
      modifies s`obj
      ensures Inv() && s.obj == null && VariablesKept()
    {
      s.obj := null;
      FreeKept();
      AliasKept();
      MortalKept();
      ReadsKept();
    }

    // -------------------------------------------------------------- making references

    /** A parameter passed by reference (commands/function.c): the local variable `s`, which has no value, gets
        a reference to the variable `t`. */
    method PassByReference(s: Slot, t: Slot) returns (error: Error)
      requires Valid() && s.obj == null && (t.obj == null || t in at) && s != t
      modifies `Objs, `free, `at, `loose, MemoryObjectsFreeList, Objs, at.Keys`obj, s`obj, t`obj
      ensures var b := With(old(at), t);
        && error == (if (b[t].pos != 0 && maxderef == 0) || |b[t].cls| - 1 > maxderef then Circular else Success)
        && (error == Success ==> Valid() && at == Join(With(Alone(old(at), s), t), t, s))
      ensures error == Success ==> forall r :: r in at ==>
                Reads(r) == if r == s || r == t then old(if t in at then Reads(t) else Some(UNDEF)) else old(Reads(r))
      ensures forall o :: o in Objs ==> o in old(Objs) || fresh(o)
    {
      ghost var was := at;
      StoreRef(s);
      AloneApart(was, s, t);
      label stored:
      error := SetRef(s, t);
      if error == Success {
        forall r | r in at
          ensures Reads(r) == if r == s || r == t then old(if t in at then Reads(t) else Some(UNDEF)) else old(Reads(r))
        {
          if r != s && r != t {
            assert r in was && old@stored(Reads(r)) == old(Reads(r));
          }
        }
      }
    }

    /** A variable without an object gets a reference that refers to nothing yet. */
    method StoreRef(s: Slot)
      requires Valid() && s.obj == null
      modifies `Objs, `free, `at, `loose, MemoryObjectsFreeList, Objs, s`obj
      ensures Inv() && loose == s && limbo == {} && s !in old(at) && at == Alone(old(at), s)
      ensures forall r :: r in old(at) ==> Reads(r) == old(Reads(r))
      ensures forall o :: o in Objs ==> o in old(Objs) || fresh(o)
    {
      assert s in at ==> Linked(at, s, loose);
      var p := NewFixed(FIX_TYPE_LONG, VTYPE_REF);
      Assign(s, p);
    }

    /** The part of COMMAND(REF) before memory_SetRef (commands/let.c): `v1` gets a reference, which takes over
        the references to `v1`. Their links are right afterwards if and only if there were none: the first of
        them still leads back to the object that `v1` had, which has been released. */
    method PrepareRef(v1: Slot)
      requires Valid() && (v1.obj == null || (v1 in at && at[v1].pos == 0))
      modifies `Objs, `free, `limbo, `at, `loose, MemoryObjectsFreeList, Objs, at.Keys`obj, v1`obj
      ensures FreeInv() && v1.obj != null && v1.obj.vType == VTYPE_REF && loose == v1
      ensures at == With(old(at), v1)
      ensures AliasInv() <==> old(v1 in at ==> |at[v1].cls| == 1)
      ensures old(v1 in at ==> |at[v1].cls| == 1) ==>
                Inv() && forall s :: s in at && s != v1 ==> Reads(s) == old(Reads(s))
      ensures old(v1 in at && |at[v1].cls| > 1) ==>
                var r := old(at)[v1].cls[1]; r in at && r.obj != null && v1.obj != old(v1.obj) && r.obj.next == old(v1.obj)
    {
      assert v1 in at ==> Linked(at, v1, loose);
      if v1 in at {
        ReadsOfClass(v1);
      }
      var NewValue := NewFixed(FIX_TYPE_LONG, VTYPE_REF);
      if v1.obj != null && v1.obj.link.RPrev? {
        TakeReferences(v1, NewValue);
      } else {
        if v1.obj != null {
          AloneUnlessLinked(v1);
        }
        ReleaseVariable(v1.obj);
        Assign(v1, NewValue);
      }
    }

    method TakeReferences(v1: Slot, NewValue: Obj)
      requires Inv() && loose == null && v1 in at && at[v1].pos == 0 && v1.obj != null && v1.obj.link.RPrev?
      requires Fixed(NewValue, FIX_TYPE_LONG, VTYPE_REF) && NewValue in Objs
      modifies `Objs, `free, `loose, MemoryObjectsFreeList, Objs, v1`obj
      ensures FreeInv() && v1.obj == NewValue && NewValue.vType == VTYPE_REF && loose == v1 && !AliasInv()
      ensures |at[v1].cls| > 1 && var r := at[v1].cls[1];
        r in at && r.obj != null && v1.obj != old(v1.obj) && r.obj.next == old(v1.obj)
    {
      assert InPlace(at, v1) && Linked(at, v1, loose);
      ghost var r := at[v1].cls[1];
      assert Linked(at, r, loose);
      var p := v1.obj;
      NewValue.link := p.link;
      p.link := NoLink;
      p.home := null;
      FreeKept();
      GiveBack(p);
      v1.obj := NewValue;
      loose := v1;
      assert r.obj.next == p;
      assert !Linked(at, r, loose);
    }

    // -------------------------------------------------------------- what the invariant says

    /** The slot that is reached from `s` over `n` rprev links, or null behind the last. */
    ghost function Follow(s: Slot, n: nat): Slot?
      requires Inv() && s in at
      reads `free, `Objs, `limbo, `lists, `at, `loose, MemoryObjectsFreeList, Objs, lists, at.Keys
    {
      if n == 0 then s
      else
        var r := Follow(s, n - 1);
        if r != null && r in at && r.obj != null && r.obj in Objs && r.obj.link.RPrev? then r.obj.link.rprev else null
    }

    /** From its first slot a chain visits each slot of the class, in order, and ends. */
    lemma {:induction false} ChainVisitsClass(h: Slot, n: nat)
      requires Inv() && h in at && at[h].pos == 0
      ensures InPlace(at, h)
      ensures if n < |at[h].cls| then Follow(h, n) == at[h].cls[n] else Follow(h, n) == null
    {
      assert InPlace(at, h);
      if n > 0 {
        ChainVisitsClass(h, n - 1);
        if n <= |at[h].cls| {
          assert Linked(at, at[h].cls[n - 1], loose);
        }
      }
    }

    /** In a class with a value each reference refers to its first slot, which holds the value, and leads back to
        the object of the slot before; no slot occurs twice. */
    lemma ChainIsWellFormed(h: Slot, i: nat)
      requires Inv() && loose == null && h in at && at[h].pos == 0 && 0 < i < |at[h].cls|
      ensures var c := at[h].cls;
        && c[0] == h && h.obj != null && h.obj.vType != VTYPE_REF && h.obj.next == null
        && c[i].obj != null && c[i].obj.vType == VTYPE_REF && c[i].obj.Value == Target(h) && c[i].obj.next == c[i - 1].obj
        && forall j :: 0 <= j < i ==> c[j] != c[i] && c[j].obj != c[i].obj
    {
      assert InPlace(at, h);
      var c := at[h].cls;
      assert Linked(at, h, loose) && Linked(at, c[i], loose);
      forall j | 0 <= j < i ensures c[j] != c[i] && c[j].obj != c[i].obj {
        assert at[c[j]].pos == j && at[c[i]].pos == i;
        assert Linked(at, c[j], loose);
      }
    }

    /** All variables of a class read the same. */
    lemma ClassReadsTheSame(s: Slot, t: Slot)
      requires Inv() && s in at && t in at && at[s].cls == at[t].cls
      ensures Reads(s) == Reads(t)
    {
      assert InPlace(at, s) && InPlace(at, t);
    }

    /** An object is at one place: on the free list of its own type, or on one mortal list, or held. */
    lemma Conservation(o: Obj)
      requires Valid() && o in Objs
      ensures o.State == Free <==> exists t, i :: 0 <= t < MAX_NUMBER_OF_FIX_TYPES && 0 <= i < |free[t]| && free[t][i] == o
      ensures forall t, i :: 0 <= t < MAX_NUMBER_OF_FIX_TYPES && 0 <= i < |free[t]| && free[t][i] == o ==>
                t == AType(o.sType) && forall j :: 0 <= j < |free[t]| && j != i ==> free[t][j] != o
      ensures o.State == Mortal <==> o.on != null
      ensures forall m, i :: m in lists && 0 <= i < |m.list| && m.list[i] == o ==>
                o.State == Mortal && o.on == m && o.home == null && forall j :: 0 <= j < |m.list| && j != i ==> m.list[j] != o
      ensures o.State == Mortal ==> o.on in lists && o in o.on.list
      ensures o.home != null ==> o.State == Immortal && o.home in at && o.home.obj == o
    {
      forall t, i | 0 <= t < MAX_NUMBER_OF_FIX_TYPES && 0 <= i < |free[t]| && free[t][i] == o
        ensures o.State == Free && t == AType(o.sType) && forall j :: 0 <= j < |free[t]| && j != i ==> free[t][j] != o
      {
        assert OnFree(t, i);
        forall j | i < j < |free[t]| ensures free[t][j] != o {
          assert OnFree(t, j);
        }
      }
      if o.State == Free {
        var i :| 0 <= i < |free[AType(o.sType)]| && free[AType(o.sType)][i] == o;
      }
      forall m, i | m in lists && 0 <= i < |m.list| && m.list[i] == o
        ensures o.State == Mortal && o.on == m && o.home == null && forall j :: 0 <= j < |m.list| && j != i ==> m.list[j] != o
      {
        assert OnMortal(m, i);
        forall j | i < j < |m.list| ensures m.list[j] != o {
          assert OnMortal(m, j);
        }
      }
      if o.home != null {
        assert Linked(at, o.home, loose);
      }
    }
  }
}
