/** Whole runs on the variables of a program: what assigning, referring and undefining do to the heap of memory.c
    is what they do to a table of classes and values. */
module Variables {
  import opened Wrappers
  import opened Aliases
  import opened Memory

  // ---------------------------------------------------------------- the simple store

  /** Each variable has a class, and each class has a value, which may be undefined. Classes that no variable
      has any more do no harm. */
  datatype Store = Store(cls: seq<nat>, val: seq<Content>)

  /** What a program assigns: nothing, a number, a string of the program text, or a string that it made. */
  datatype Constant = Nothing | Long(n: int) | Double(x: real) | CString(s: string) | String(s: string)

  /** What a program does: v = constant, v = w, undef v, and ref v = w. */
  datatype Command = Let(v: nat, c: Constant) | Copy(v: nat, w: nat) | Undef(v: nat) | Refer(v: nat, w: nat)

  predicate IsStore(st: Store, count: nat) {
    |st.cls| == count && forall i :: 0 <= i < count ==> st.cls[i] < |st.val|
  }

  predicate IsCommand(c: Command, count: nat) {
    match c
    case Let(v, _) => v < count
    case Copy(v, w) => v < count && w < count
    case Undef(v) => v < count
    case Refer(v, w) => v < count && w < count && v != w
  }

  /** What a command does to the simple store: it changes the value of one class, or the class of one variable. */
  function Exec(st: Store, c: Command): (r: Store)
    requires IsStore(st, |st.cls|) && IsCommand(c, |st.cls|)
    ensures IsStore(r, |st.cls|)
  {
    match c
    case Let(v, x) => SetValue(st, v, Shown(x))
    case Copy(v, w) => SetValue(st, v, ReadOf(st, w))
    case Undef(v) => Store(st.cls[v := |st.val|], st.val + [UNDEF])
    case Refer(v, w) => st.(cls := st.cls[v := st.cls[w]])
  }

  function SetValue(st: Store, v: nat, x: Content): (r: Store)
    requires IsStore(st, |st.cls|) && v < |st.cls|
    ensures IsStore(r, |st.cls|)
  {
    st.(val := st.val[st.cls[v] := x])
  }

  function Run(st: Store, cs: seq<Command>): (r: Store)
    requires IsStore(st, |st.cls|) && forall i :: 0 <= i < |cs| ==> IsCommand(cs[i], |st.cls|)
    ensures IsStore(r, |st.cls|)
  {
    if cs == [] then st else Exec(Run(st, cs[..|cs| - 1]), cs[|cs| - 1])
  }

  function ReadOf(st: Store, v: nat): Content
    requires IsStore(st, |st.cls|) && v < |st.cls|
  {
    st.val[st.cls[v]]
  }

  /** Nothing is defined, and nothing is shared. */
  function Empty(count: nat): Store {
    Store(seq(count, i => i), seq(count, _ => UNDEF))
  }

  function Shown(c: Constant): Content {
    match c
    case Nothing => UNDEF
    case Long(n) => Content(VTYPE_LONG, LongData(n), 0)
    case Double(x) => Content(VTYPE_DOUBLE, DoubleData(x), 0)
    case CString(s) => Content(VTYPE_STRING, Block(s), |s|)
    case String(s) => Content(VTYPE_STRING, Block(s), |s|)
  }

  // ---------------------------------------------------------------- classes of slots

  /** The slots are in the same class. */
  ghost predicate Together<S>(at: Classes<S>, s: S, t: S) {
    s in at && t in at && at[s].cls == at[t].cls
  }

  lemma TogetherIfIn<S>(at: Classes<S>, s: S, t: S)
    requires Partition(at) && s in at
    ensures t in at[s].cls <==> Together(at, s, t)
  {
    assert InPlace(at, s);
    if t in at {
      assert InPlace(at, t);
    }
  }

  lemma TogetherAfterDrop<S>(at: Classes<S>, v: S, s: S, t: S)
    requires Partition(at) && v in at && s in at && t in at && s != v && t != v
    ensures Together(Drop(at, v), s, t) <==> Together(at, s, t)
  {
    DropKeepsPartition(at, v);
    var b, c, i := Drop(at, v), at[v].cls, at[v].pos;
    assert InPlace(at, v) && InPlace(at, s) && InPlace(at, t);
    TogetherIfIn(at, s, t);
    TogetherIfIn(b, s, t);
    TogetherIfIn(b, t, s);
    InWithout(c, i, s);
    InWithout(c, i, t);
  }

  lemma InWithout<S>(c: seq<S>, i: nat, t: S)
    ensures t in Without(c, i) ==> t in c
  {
  }

  lemma TogetherAfterJoin<S>(at: Classes<S>, h: S, v: S, s: S, t: S)
    requires Partition(at) && h in at && v in at && s in at && t in at && at[h].cls != at[v].cls
    ensures Together(Join(at, h, v), s, t) <==>
              Together(at, s, t) || (Together(at, s, h) && Together(at, t, v)) || (Together(at, s, v) && Together(at, t, h))
  {
    JoinKeepsPartition(at, h, v);
    var b, c, d := Join(at, h, v), at[h].cls, at[v].cls;
    assert InPlace(at, h) && InPlace(at, v) && InPlace(at, s) && InPlace(at, t);
    TogetherIfIn(b, s, t);
    TogetherIfIn(b, t, s);
    TogetherIfIn(at, h, t);
    TogetherIfIn(at, v, t);
    TogetherIfIn(at, h, s);
    TogetherIfIn(at, v, s);
  }

  /** A class has at most as many slots as there are. */
  lemma {:induction false} ClassSize<S>(c: seq<S>, all: seq<S>)
    requires (forall i, j :: 0 <= i < j < |c| ==> c[i] != c[j]) && forall i :: 0 <= i < |c| ==> c[i] in all
    ensures |c| <= |all|
    decreases |c|
  {
    if c != [] {
      var last := c[|c| - 1];
      var k :| 0 <= k < |all| && all[k] == last;
      var less := all[..k] + all[k + 1..];
      var front := c[..|c| - 1];
      forall i | 0 <= i < |front| ensures front[i] in less {
        var m :| 0 <= m < |all| && all[m] == c[i];
        assert m < k ==> less[m] == c[i];
        assert m > k ==> less[m - 1] == c[i];
      }
      ClassSize(front, less);
    }
  }

  // ---------------------------------------------------------------- the two stores

  predicate Different(slots: seq<Slot>) {
    forall i, j :: 0 <= i < j < |slots| ==> slots[i] != slots[j]
  }

  /** Variables read what the simple store says, and two are aliases when they have one class there. A variable
      without an object is undefined and nobody's alias. */
  ghost predicate Matches(slots: seq<Slot>, at: Classes<Slot>, seen: map<Slot, Option<Content>>, st: Store) {
    && IsStore(st, |slots|) && Partition(at) && seen.Keys == at.Keys
    && (forall i :: 0 <= i < |slots| ==> ReadingIs(slots[i], seen, ReadOf(st, i)))
    && (forall i, j {:trigger Together(at, slots[i], slots[j])} :: 0 <= i < |slots| && 0 <= j < |slots| && i != j ==>
          (Together(at, slots[i], slots[j]) <==> st.cls[i] == st.cls[j]))
  }

  ghost predicate ReadingIs(s: Slot, seen: map<Slot, Option<Content>>, x: Content) {
    if s in seen then seen[s] == Some(x) else x == UNDEF
  }

  lemma UndefMatches(slots: seq<Slot>, at: Classes<Slot>, seen: map<Slot, Option<Content>>, st: Store, v: nat,
                     at': Classes<Slot>, seen': map<Slot, Option<Content>>)
    requires Matches(slots, at, seen, st) && Different(slots) && v < |slots|
    requires at' == if slots[v] in at then Drop(at, slots[v]) else at
    requires seen' == map s | s in at && s != slots[v] :: seen[s]
    ensures Matches(slots, at', seen', Exec(st, Undef(v)))
  {
    var st' := Exec(st, Undef(v));
    if slots[v] in at {
      DropKeepsPartition(at, slots[v]);
    }
    forall i, j | 0 <= i < |slots| && 0 <= j < |slots| && i != j
      ensures Together(at', slots[i], slots[j]) <==> st'.cls[i] == st'.cls[j]
    {
      assert Together(at, slots[i], slots[j]) <==> st.cls[i] == st.cls[j];
      if slots[v] in at && i != v && j != v && slots[i] in at && slots[j] in at {
        TogetherAfterDrop(at, slots[v], slots[i], slots[j]);
      }
    }
  }

  /** The variable `s` may have got an object, or lost it if nobody shares it. */
  ghost predicate KeepsClasses(at: Classes<Slot>, s: Slot, at': Classes<Slot>) {
    at' == at || at' == With(at, s) || (s in at && |at[s].cls| == 1 && at' == Drop(at, s))
  }

  ghost predicate SameSlots(keys: set<Slot>, s: Slot, keys': set<Slot>) {
    keys' <= keys + {s} && keys <= keys' + {s}
  }

  /** Assigning to the first variable of a class is assigning to any of them. */
  lemma SameClasses(at: Classes<Slot>, s: Slot, h: Slot, at': Classes<Slot>)
    requires Partition(at) && if s in at then h in at && at[h] == Place(at[s].cls, 0) else h == s
    requires KeepsClasses(at, h, at')
    ensures KeepsClasses(at, s, at') && (h in at' <==> s in at') && SameSlots(at.Keys, s, at'.Keys)
    ensures forall t :: t in at' && h in at' ==> (at'[t].cls == at'[h].cls <==> Together(at', t, s))
  {
    if s in at {
      assert InPlace(at, s) && InPlace(at, h);
    }
  }

  /** The class of `s` has got the value `x`. */
  ghost predicate Assigned(at: Classes<Slot>, seen: map<Slot, Option<Content>>, s: Slot, x: Content,
                           at': Classes<Slot>, seen': map<Slot, Option<Content>>)
  {
    && KeepsClasses(at, s, at') && (s !in at' ==> x == UNDEF)
    && seen.Keys == at.Keys && seen'.Keys == at'.Keys
    && forall t :: t in at' ==>
         if Together(at', t, s) then seen'[t] == Some(x) else t in seen && seen'[t] == seen[t]
  }

  /** An assignment shares nothing that was not shared, and the other way round. */
  lemma AssignedTogether(at: Classes<Slot>, seen: map<Slot, Option<Content>>, s: Slot, x: Content,
                         at': Classes<Slot>, seen': map<Slot, Option<Content>>, t: Slot, u: Slot)
    requires Partition(at) && Assigned(at, seen, s, x, at', seen') && t != u
    ensures Partition(at') && (Together(at', t, u) <==> Together(at, t, u))
    ensures t != s && t in at ==> t in at'
  {
    if s in at {
      assert InPlace(at, s);
      DropKeepsPartition(at, s);
      if t != s && u != s && t in at && u in at {
        TogetherAfterDrop(at, s, t, u);
      }
      if t in at && u in at {
        assert InPlace(at, t) && InPlace(at, u);
      }
    } else {
      AloneKeepsPartition(at, s);
      if t in at && u in at {
        assert InPlace(at, t) && InPlace(at, u);
      }
      if t in at {
        assert InPlace(at, t);
      }
      if u in at {
        assert InPlace(at, u);
      }
    }
  }

  /** Assigning to the class of a variable is assigning to its class in the simple store. */
  lemma LetMatches(slots: seq<Slot>, at: Classes<Slot>, seen: map<Slot, Option<Content>>, st: Store, v: nat, x: Content,
                   at': Classes<Slot>, seen': map<Slot, Option<Content>>)
    requires Matches(slots, at, seen, st) && Different(slots) && v < |slots|
    requires Assigned(at, seen, slots[v], x, at', seen')
    ensures Matches(slots, at', seen', SetValue(st, v, x))
  {
    var st' := SetValue(st, v, x);
    AssignedPartition(at, seen, slots[v], x, at', seen');
    forall i, j | 0 <= i < |slots| && 0 <= j < |slots| && i != j
      ensures Together(at', slots[i], slots[j]) <==> st'.cls[i] == st'.cls[j]
    {
      AssignedTogether(at, seen, slots[v], x, at', seen', slots[i], slots[j]);
    }
    forall i | 0 <= i < |slots| ensures ReadingIs(slots[i], seen', ReadOf(st', i)) {
      assert ReadingIs(slots[i], seen, ReadOf(st, i));
      if i != v {
        AssignedTogether(at, seen, slots[v], x, at', seen', slots[i], slots[v]);
        assert Together(at, slots[i], slots[v]) <==> st.cls[i] == st.cls[v];
      }
    }
  }

  lemma AssignedPartition(at: Classes<Slot>, seen: map<Slot, Option<Content>>, s: Slot, x: Content,
                          at': Classes<Slot>, seen': map<Slot, Option<Content>>)
    requires Partition(at) && Assigned(at, seen, s, x, at', seen')
    ensures Partition(at')
  {
    if s in at {
      DropKeepsPartition(at, s);
    } else {
      AloneKeepsPartition(at, s);
    }
  }

  /** A variable without an object joins the class of another. */
  lemma ReferMatches(slots: seq<Slot>, at: Classes<Slot>, seen: map<Slot, Option<Content>>, st: Store, v: nat, w: nat,
                     seen': map<Slot, Option<Content>>)
    requires IsStore(st, |slots|) && Different(slots) && v < |slots| && w < |slots| && v != w && slots[v] !in at
    requires Matches(slots, at, seen, Exec(st, Undef(v)))
    requires seen' == AliasReadings(at, seen, slots[v], slots[w])
    ensures Matches(slots, Join(With(Alone(at, slots[v]), slots[w]), slots[w], slots[v]), seen', Exec(st, Refer(v, w)))
  {
    var s, t, st1, st' := slots[v], slots[w], Exec(st, Undef(v)), Exec(st, Refer(v, w));
    var a := With(Alone(at, s), t);
    var b := Join(a, t, s);
    AliasKeys(at, s, t);
    forall i, j | 0 <= i < |slots| && 0 <= j < |slots| && i != j
      ensures Together(b, slots[i], slots[j]) <==> st'.cls[i] == st'.cls[j]
    {
      assert Together(at, slots[i], slots[j]) <==> st1.cls[i] == st1.cls[j];
      assert i != w ==> (Together(at, slots[i], t) <==> st1.cls[i] == st1.cls[w]);
      assert j != w ==> (Together(at, slots[j], t) <==> st1.cls[j] == st1.cls[w]);
      AliasTogether(at, s, t, slots[i], slots[j]);
    }
    forall i | 0 <= i < |slots| ensures ReadingIs(slots[i], seen', ReadOf(st', i)) {
      assert ReadingIs(slots[i], seen, ReadOf(st1, i)) && ReadingIs(t, seen, ReadOf(st1, w));
    }
  }

  /** Who is together when `s`, which had no object, has become a reference to `t`. */
  lemma AliasTogether(at: Classes<Slot>, s: Slot, t: Slot, x: Slot, y: Slot)
    requires Partition(at) && s !in at && s != t && x != y
    ensures Together(Join(With(Alone(at, s), t), t, s), x, y) <==>
              Together(at, x, y) || (x == s && (y == t || Together(at, y, t))) || (y == s && (x == t || Together(at, x, t)))
  {
    var a := With(Alone(at, s), t);
    AliasKeys(at, s, t);
    if x in a && y in a {
      TogetherAfterJoin(a, t, s, x, y);
      AliasOld(at, s, t, x, y);
      AliasOld(at, s, t, x, t);
      AliasOld(at, s, t, y, t);
      AliasOld(at, s, t, x, s);
      AliasOld(at, s, t, y, s);
    }
  }

  /** Getting an object of its own makes nobody an alias. */
  lemma AliasOld(at: Classes<Slot>, s: Slot, t: Slot, x: Slot, y: Slot)
    requires Partition(at) && s !in at && s != t
    requires x in at.Keys + {s, t} && y in at.Keys + {s, t}
    ensures Together(With(Alone(at, s), t), x, y) <==> x == y || Together(at, x, y)
  {
    if x in at {
      assert InPlace(at, x);
    }
    if y in at {
      assert InPlace(at, y);
    }
  }

  /** What variables read when `s` has become a reference to `t`. */
  function AliasReadings(at: Classes<Slot>, seen: map<Slot, Option<Content>>, s: Slot, t: Slot): (r: map<Slot, Option<Content>>)
    ensures r.Keys == seen.Keys + {s, t}
  {
    var x := if t in seen then seen[t] else Some(UNDEF);
    seen[t := x][s := x]
  }

  lemma AliasKeys(at: Classes<Slot>, s: Slot, t: Slot)
    requires Partition(at) && s !in at && s != t
    ensures var a := With(Alone(at, s), t);
      Partition(a) && a.Keys == at.Keys + {s, t} && a[t].cls != a[s].cls
    ensures Partition(Join(With(Alone(at, s), t), t, s))
    ensures Join(With(Alone(at, s), t), t, s).Keys == at.Keys + {s, t}
  {
    var a := With(Alone(at, s), t);
    AloneKeepsPartition(at, s);
    if t !in at {
      AloneKeepsPartition(Alone(at, s), t);
    }
    if t in at {
      assert InPlace(at, t);
    }
    assert a[t].cls != a[s].cls;
    JoinKeepsPartition(a, t, s);
  }

  // ---------------------------------------------------------------- the variables of a program

  class Program {
    const memory: Memory
    const slots: seq<Slot>
    const mortals: MortalList

    /** What holds between two commands. */
    ghost predicate Valid()
      reads memory, memory.MemoryObjectsFreeList, memory.Objs, memory.lists, memory.at.Keys, slots, mortals
    {
      Running() && mortals.list == []
    }

    /** What holds during a command, whose mortal objects are on the list. */
    ghost predicate Running()
      reads memory, memory.MemoryObjectsFreeList, memory.Objs, memory.lists, memory.at.Keys, slots, mortals
    {
      && memory.Valid() && mortals in memory.lists && Different(slots) && memory.maxderef >= |slots|
      && (forall s :: s in memory.at ==> s in slots)
      && (forall i :: 0 <= i < |slots| ==> (slots[i].obj == null <==> slots[i] !in memory.at))
    }

    /** What each variable that has an object reads. */
    ghost function Contents(): (r: map<Slot, Option<Content>>)
      reads memory, memory.Objs, memory.at.Keys
      ensures r.Keys == memory.at.Keys
    {
      map s | s in memory.at :: memory.Reads(s)
    }

    ghost predicate Refines(st: Store)
      reads memory, memory.Objs, memory.at.Keys
    {
      Matches(slots, memory.at, Contents(), st)
    }

    constructor (slots: seq<Slot>, memory: Memory, mortals: MortalList)
      requires memory.Valid() && memory.at == map[] && mortals in memory.lists && mortals.list == [] && memory.maxderef >= |slots|
      requires Different(slots) && forall i :: 0 <= i < |slots| ==> slots[i].obj == null
      ensures Valid() && Refines(Empty(|slots|)) && this.slots == slots && this.memory == memory && this.mortals == mortals
    {
      this.slots, this.memory, this.mortals := slots, memory, mortals;
    }

    /** No object comes from elsewhere. */
    twostate predicate NothingElse()
      reads memory
    {
      memory.lists == old(memory.lists) && forall o :: o in memory.Objs ==> o in old(memory.Objs) || fresh(o)
    }

    /** What UNDEF does to the heap. */
    method Forget(s: Slot)
      requires Valid() && s in slots
      modifies memory, memory.MemoryObjectsFreeList, memory.Objs, memory.at.Keys, slots
      ensures Valid() && memory.at == (if s in old(memory.at) then Drop(old(memory.at), s) else old(memory.at)) && s !in memory.at
      ensures forall t :: t in memory.at ==> memory.Reads(t) == old(memory.Reads(t))
      ensures NothingElse()
    {
      if s.obj != null {
        assert memory.Linked(memory.at, s, null);
        memory.ReleaseVariable(s.obj);
        memory.SetNull(s);
      }
    }

    method UndefVariable(v: nat, ghost st: Store)
      requires Valid() && v < |slots| && Refines(st)
      modifies memory, memory.MemoryObjectsFreeList, memory.Objs, memory.at.Keys, slots
      ensures Valid() && Refines(Exec(st, Undef(v))) && slots[v] !in memory.at
      ensures NothingElse()
    {
      ghost var at, seen := memory.at, Contents();
      ReadsAreContents();
      Forget(slots[v]);
      AfterForget(at, seen, st, v);
    }

    lemma ReadsAreContents()
      ensures forall s :: s in memory.at ==> Contents()[s] == memory.Reads(s)
    {
    }

    lemma AfterForget(at: Classes<Slot>, seen: map<Slot, Option<Content>>, st: Store, v: nat)
      requires Matches(slots, at, seen, st) && Different(slots) && v < |slots|
      requires memory.at == if slots[v] in at then Drop(at, slots[v]) else at
      requires forall t :: t in memory.at ==> t in seen && memory.Reads(t) == seen[t]
      ensures Refines(Exec(st, Undef(v)))
    {
      if slots[v] in at {
        DropKeepsPartition(at, slots[v]);
      }
      UndefMatches(slots, at, seen, st, v, memory.at, Contents());
    }

    // -------------------------------------------------------------- values

    /** An object that ReplaceVariable can be given, or none. */
    ghost predicate IsValue(p: Obj?)
      reads memory, memory.Objs
    {
      p != null ==>
        && p in memory.Objs && p.State != Free && p.vType != VTYPE_REF && memory.WellTyped(p)
        && (p.State == Mortal ==> p.on == mortals)
    }

    ghost function SeenOf(p: Obj?): Content
      reads p
    {
      if p == null then UNDEF else p.Seen()
    }

    /** The variables read what they read. */
    twostate predicate Unseen()
      reads memory, memory.Objs, memory.at.Keys
    {
      memory.at == old(memory.at) && Contents() == old(Contents())
    }

    /** A constant in a new mortal object. */
    method NewValue(c: Constant) returns (p: Obj?)
      requires Valid()
      modifies memory, memory.MemoryObjectsFreeList, memory.Objs, mortals
      ensures Running() && Unseen() && NothingElse() && IsValue(p) && SeenOf(p) == Shown(c)
    {
      match c {
        case Nothing => p := null;
        case Long(n) => p := NewFixedValue(FIX_TYPE_LONG, VTYPE_LONG, 0, LongData(n));
        case Double(x) => p := NewFixedValue(FIX_TYPE_DOUBLE, VTYPE_DOUBLE, 0, DoubleData(x));
        case CString(s) => p := NewFixedValue(FIX_TYPE_CSTRING, VTYPE_STRING, |s|, Block(s));
        case String(s) => p := NewStringValue(s);
      }
    }

    /** memory_NewMortalLong, memory_NewMortalDouble and memory_NewMortalCString, and storing the value. */
    method NewFixedValue(sType: nat, vType: VType, Size: nat, Value: Data) returns (p: Obj)
      requires Valid() && sType < MAX_FIX_TYPE && vType != VTYPE_REF
      requires vType == VTYPE_STRING ==> sType == FIX_TYPE_CSTRING && Value.Block? && Size == |Value.pValue|
      modifies memory, memory.MemoryObjectsFreeList, memory.Objs, mortals
      ensures Running() && Unseen() && NothingElse() && IsValue(p)
      ensures p.vType == vType && p.Value == Value && p.Size == Size
    {
      p := memory.NewMortal(sType, 0, mortals);
      memory.Fill(p, vType, Size, Value);
    }

    /** memory_NewMortalString, and copying the characters. */
    method NewStringValue(s: string) returns (p: Obj)
      requires Valid()
      modifies memory, memory.MemoryObjectsFreeList, memory.Objs, mortals
      ensures Running() && Unseen() && NothingElse() && IsValue(p)
      ensures p.Seen() == Shown(String(s))
    {
      p := memory.NewMortalString(|s|, mortals);
      var block := s + p.Value.pValue[|s|..];
      FillString(p, s, block);
    }

    method FillString(p: Obj, s: string, block: string)
      requires Running() && IsValue(p) && p.home == null && p.on == mortals && p.vType == VTYPE_STRING && p.Value.Block?
      requires |s| <= |block| == |p.Value.pValue| && block[..|s|] == s
      modifies p`vType, p`Size, p`Value
      ensures Running() && Unseen() && IsValue(p) && p.Seen() == Shown(String(s))
    {
      assert memory.Sized(p);
      memory.Fill(p, VTYPE_STRING, |s|, Block(block));
    }

    /** What the evaluation of a variable gives: no object if it is undefined. */
    method Evaluate(s: Slot) returns (p: Obj?)
      requires Valid() && s in slots
      ensures IsValue(p) && if s in memory.at then memory.Reads(s) == Some(SeenOf(p)) else p == null
    {
      var h := memory.Dereference(s);
      if s in memory.at {
        memory.ReadsThroughReference(s);
        assert memory.Linked(memory.at, h, null);
      }
      p := if h.obj != null && h.obj.vType == VTYPE_UNDEF then null else h.obj;
    }

    method EvaluateVariable(w: nat, ghost st: Store) returns (p: Obj?)
      requires Valid() && w < |slots| && Refines(st)
      ensures Running() && Refines(st) && NothingElse() && IsValue(p) && SeenOf(p) == ReadOf(st, w)
    {
      assert ReadingIs(slots[w], Contents(), ReadOf(st, w));
      p := Evaluate(slots[w]);
    }

    /** What assigning does to the heap: the class of the variable reads the value, and nothing else changes. */
    method Assign(s: Slot, p: Obj?, ghost x: Content)
      requires memory.Valid() && mortals in memory.lists && memory.maxderef > 0 && (s.obj == null <==> s !in memory.at)
      requires IsValue(p) && x == SeenOf(p)
      modifies memory, memory.MemoryObjectsFreeList, memory.Objs, memory.at.Keys, s, mortals
      ensures memory.Valid() && NothingElse() && (s !in memory.at ==> s.obj == null && x == UNDEF)
      ensures (forall t :: t in memory.at ==> t.obj != null) && SameSlots(old(memory.at.Keys), s, memory.at.Keys)
      ensures KeepsClasses(old(memory.at), s, memory.at)
      ensures forall t :: t in memory.at ==>
                if Together(memory.at, t, s) then memory.Reads(t) == Some(x)
                else t in old(memory.at) && memory.Reads(t) == old(memory.Reads(t))
    {
      ghost var at := memory.at;
      var Lval := memory.Dereference(s);
      memory.ReplaceVariable(Lval, p, mortals, true);
      memory.BoundHaveObjects();
      SameClasses(at, s, Lval, memory.at);
    }

    lemma AfterAssign(at: Classes<Slot>, seen: map<Slot, Option<Content>>, st: Store, v: nat, x: Content)
      requires Matches(slots, at, seen, st) && Different(slots) && v < |slots|
      requires KeepsClasses(at, slots[v], memory.at) && (slots[v] !in memory.at ==> x == UNDEF)
      requires forall t :: t in memory.at ==>
                 if Together(memory.at, t, slots[v]) then memory.Reads(t) == Some(x)
                 else t in seen && memory.Reads(t) == seen[t]
      ensures Refines(SetValue(st, v, x))
    {
      LetMatches(slots, at, seen, st, v, x, memory.at, Contents());
    }

    /** The end of an assignment command: the value is stored, and the mortal objects are released. */
    method AssignVariable(v: nat, p: Obj?, ghost st: Store, ghost x: Content)
      requires Running() && v < |slots| && Refines(st) && IsValue(p) && x == SeenOf(p)
      modifies memory, memory.MemoryObjectsFreeList, memory.Objs, memory.at.Keys, slots, mortals
      ensures Valid() && Refines(SetValue(st, v, x)) && NothingElse()
    {
      AssignObject(v, p, st, x);
      ReleaseList();
    }

    method AssignObject(v: nat, p: Obj?, ghost st: Store, ghost x: Content)
      requires Running() && v < |slots| && Refines(st) && IsValue(p) && x == SeenOf(p)
      modifies memory, memory.MemoryObjectsFreeList, memory.Objs, memory.at.Keys, slots, mortals
      ensures Running() && Refines(SetValue(st, v, x)) && NothingElse()
    {
      ghost var at, seen := memory.at, Contents();
      AssignIn(v, p, x, at, seen);
      AfterAssign(at, seen, st, v, x);
    }

    method AssignIn(v: nat, p: Obj?, ghost x: Content, ghost at: Classes<Slot>, ghost seen: map<Slot, Option<Content>>)
      requires Running() && v < |slots| && IsValue(p) && x == SeenOf(p) && at == memory.at && seen == Contents()
      modifies memory, memory.MemoryObjectsFreeList, memory.Objs, memory.at.Keys, slots, mortals
      ensures Running() && NothingElse() && KeepsClasses(at, slots[v], memory.at) && (slots[v] !in memory.at ==> x == UNDEF)
      ensures forall t :: t in memory.at ==>
                if Together(memory.at, t, slots[v]) then memory.Reads(t) == Some(x)
                else t in seen && memory.Reads(t) == seen[t]
    {
      ReadsAreContents();
      Assign(slots[v], p, x);
    }

    method ReleaseList()
      requires Running()
      modifies memory, memory.MemoryObjectsFreeList, memory.Objs, memory.at.Keys, mortals
      ensures Valid() && Unseen() && NothingElse()
    {
      memory.ReleaseMortals(mortals);
    }

    method LetVariable(v: nat, c: Constant, ghost st: Store)
      requires Valid() && v < |slots| && Refines(st)
      modifies memory, memory.MemoryObjectsFreeList, memory.Objs, memory.at.Keys, slots, mortals
      ensures Valid() && Refines(Exec(st, Let(v, c))) && NothingElse()
    {
      var p := NewValue(c);
      AssignVariable(v, p, st, Shown(c));
    }

    /** The value of a variable is copied; the object of the other variable stays its own. */
    method CopyVariable(v: nat, w: nat, ghost st: Store)
      requires Valid() && v < |slots| && w < |slots| && Refines(st)
      modifies memory, memory.MemoryObjectsFreeList, memory.Objs, memory.at.Keys, slots, mortals
      ensures Valid() && Refines(Exec(st, Copy(v, w))) && NothingElse()
    {
      var p := EvaluateVariable(w, st);
      AssignVariable(v, p, st, ReadOf(st, w));
    }

    /** What a reference to another variable does to the heap, where `seen` is what the variables read. */
    method Alias(s: Slot, t: Slot, ghost at: Classes<Slot>, ghost seen: map<Slot, Option<Content>>)
      requires Valid() && s in slots && t in slots && s != t && s !in memory.at && at == memory.at && seen == Contents()
      modifies memory, memory.MemoryObjectsFreeList, memory.Objs, memory.at.Keys, slots
      ensures Valid() && memory.at == Join(With(Alone(at, s), t), t, s) && NothingElse()
      ensures ReadsLike(AliasReadings(at, seen, s, t))
    {
      ClassesAreShort(t);
      AliasKeys(at, s, t);
      AloneKeepsPartition(at, s);
      var error := memory.PassByReference(s, t);
      memory.BoundHaveObjects();
      AliasReads(at, seen, s, t);
    }

    /** Each variable reads what the map says. */
    ghost predicate ReadsLike(seen: map<Slot, Option<Content>>)
      reads memory, memory.Objs, memory.at.Keys
    {
      seen.Keys == memory.at.Keys && forall r :: r in memory.at ==> memory.Reads(r) == seen[r]
    }

    twostate lemma AliasReads(new at: Classes<Slot>, new seen: map<Slot, Option<Content>>, new s: Slot, new t: Slot)
      requires at == old(memory.at) && seen == old(Contents()) && s !in at && memory.at.Keys == at.Keys + {s, t}
      requires forall r :: r in memory.at ==>
                 memory.Reads(r) == if r == s || r == t then old(if t in memory.at then memory.Reads(t) else Some(UNDEF))
                                    else old(memory.Reads(r))
      ensures ReadsLike(AliasReadings(at, seen, s, t))
    {
    }

    lemma ClassesAreShort(t: Slot)
      requires Valid() && t in slots
      ensures |With(memory.at, t)[t].cls| <= |slots| <= memory.maxderef && 0 < |slots|
    {
      if t in memory.at {
        assert InPlace(memory.at, t);
        ClassSize(memory.at[t].cls, slots);
      }
    }

    method ReferVariable(v: nat, w: nat, ghost st: Store)
      requires Valid() && v < |slots| && w < |slots| && v != w && Refines(st)
      modifies memory, memory.MemoryObjectsFreeList, memory.Objs, memory.at.Keys, slots
      ensures Valid() && Refines(Exec(st, Refer(v, w)))
      ensures NothingElse()
    {
      UndefVariable(v, st);
      AliasVariable(v, w, st);
    }

    method AliasVariable(v: nat, w: nat, ghost st: Store)
      requires Valid() && v < |slots| && w < |slots| && v != w && slots[v] !in memory.at
      requires IsStore(st, |slots|) && Refines(Exec(st, Undef(v)))
      modifies memory, memory.MemoryObjectsFreeList, memory.Objs, memory.at.Keys, slots
      ensures Valid() && Refines(Exec(st, Refer(v, w))) && NothingElse()
    {
      ghost var at, seen := memory.at, Contents();
      Alias(slots[v], slots[w], at, seen);
      AfterAlias(at, seen, st, v, w);
    }

    lemma AfterAlias(at: Classes<Slot>, seen: map<Slot, Option<Content>>, st: Store, v: nat, w: nat)
      requires IsStore(st, |slots|) && Different(slots) && v < |slots| && w < |slots| && v != w && slots[v] !in at
      requires Matches(slots, at, seen, Exec(st, Undef(v)))
      requires memory.at == Join(With(Alone(at, slots[v]), slots[w]), slots[w], slots[v])
      requires ReadsLike(AliasReadings(at, seen, slots[v], slots[w]))
      ensures Refines(Exec(st, Refer(v, w)))
    {
      assert Contents() == AliasReadings(at, seen, slots[v], slots[w]);
      ReferMatches(slots, at, seen, st, v, w, Contents());
    }

    method Execute(c: Command, ghost st: Store)
      requires Valid() && Refines(st) && IsCommand(c, |slots|)
      modifies memory, memory.MemoryObjectsFreeList, memory.Objs, memory.at.Keys, slots, mortals
      ensures Valid() && Refines(Exec(st, c)) && NothingElse()
    {
      match c {
        case Let(v, x) => LetVariable(v, x, st);
        case Copy(v, w) => CopyVariable(v, w, st);
        case Undef(v) => UndefVariable(v, st);
        case Refer(v, w) => ReferVariable(v, w, st);
      }
    }

    /** For every run of commands each variable reads what the simple store says, and two are aliases when it
        says so. */
    method RunProgram(cs: seq<Command>, ghost st: Store)
      requires Valid() && Refines(st) && forall i :: 0 <= i < |cs| ==> IsCommand(cs[i], |slots|)
      modifies memory, memory.MemoryObjectsFreeList, memory.Objs, memory.at.Keys, slots, mortals
      ensures Valid() && Refines(Run(st, cs)) && NothingElse()
      decreases |cs|
    {
      if cs == [] {
        return;
      }
      RunProgram(cs[..|cs| - 1], st);
      Execute(cs[|cs| - 1], Run(st, cs[..|cs| - 1]));
    }

    /** Two commands lead to the state in which REF spoils the links: the second variable refers to the first, and
        then the first is to become a reference. */
    method ReferThenPrepare()
      requires Valid() && |slots| >= 2 && memory.at == map[]
      modifies memory, memory.MemoryObjectsFreeList, memory.Objs, memory.at.Keys, slots
      ensures !memory.AliasInv()
      ensures slots[1].obj != null && slots[0].obj != null && slots[1].obj.next != slots[0].obj
    {
      assert slots[0] != slots[1];
      Alias(slots[1], slots[0], map[], Contents());
      assert memory.at[slots[0]] == Place([slots[0], slots[1]], 0);
      memory.PrepareRef(slots[0]);
    }
  }
}
