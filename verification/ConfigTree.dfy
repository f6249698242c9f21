/** The compiled configuration (conftree.c, confpile.c): an array of nodes that are linked by index, and
    a table of zero-terminated strings. */
module ConfigTree {
  import opened Wrappers
  import opened Lisp
  import opened Config

  /** fFlag: a branch, or a leaf of one of three types. */
  datatype Flag = BranchNode | StringLeaf | IntegerLeaf | RealLeaf

  /** The union of a long and a double. */
  datatype Cell = Long(lVal: int) | Double(digits: string)

  /** tConfigNode. Node numbers start at 1, and 0 is no node. */
  datatype Node = Node(lKey: nat, lNext: nat, val: Cell, fFlag: Flag)

  datatype Error = Success | SyntaxError | Empty

  // ---------------------------------------------------------------- sizes

  function NodeCount(f: Forest): nat
    decreases f
  {
    if f == [] then 0 else EntryNodes(f[0]) + NodeCount(f[1..])
  }

  function EntryNodes(e: Entry): nat
    decreases e
  {
    match e
    case Leaf(_, _) => 1
    case Branch(_, sub) => 1 + NodeCount(sub)
  }

  function CharCount(f: Forest): nat
    decreases f
  {
    if f == [] then 0 else EntryChars(f[0]) + CharCount(f[1..])
  }

  function EntryChars(e: Entry): nat
    decreases e
  {
    |e.key| + 1 +
    match e
    case Leaf(_, Text(text)) => |text| + 1
    case Leaf(_, _) => 0
    case Branch(_, sub) => CharCount(sub)
  }

  lemma {:induction false} CountsOfSnoc(f: Forest, e: Entry)
    ensures NodeCount(f + [e]) == NodeCount(f) + EntryNodes(e)
    ensures CharCount(f + [e]) == CharCount(f) + EntryChars(e)
    decreases f
  {
    if f != [] {
      CountsOfSnoc(f[1..], e);
      assert (f + [e])[1..] == f[1..] + [e];
    }
  }

  // ---------------------------------------------------------------- what the arrays hold

  /** `s` stands in the table at `at`, terminated. */
  predicate HasString(table: string, at: nat, s: string) {
    at + |s| < |table| && table[at..at + |s|] == s && table[at + |s|] == NUL
  }

  /** The arrays hold the level `f`: its nodes in preorder from node `n` on, its strings from `s` on,
      and `end` as the successor of its last key. */
  predicate Stores(root: seq<Node>, table: string, f: Forest, n: nat, s: nat, end: nat)
    decreases f, 1
  {
    f == [] || (
      && StoresEntry(root, table, f[0], n, s, if |f| == 1 then end else n + EntryNodes(f[0]))
      && Stores(root, table, f[1..], n + EntryNodes(f[0]), s + EntryChars(f[0]), end))
  }

  predicate StoresEntry(root: seq<Node>, table: string, e: Entry, n: nat, s: nat, next: nat)
    decreases e, 0
  {
    && 1 <= n <= |root| && root[n - 1].lKey == s && root[n - 1].lNext == next && HasString(table, s, e.key)
    && var v, after := root[n - 1].val, s + |e.key| + 1;
       match e
       case Leaf(_, Text(text)) => root[n - 1].fFlag == StringLeaf && v == Long(after) && HasString(table, after, text)
       case Leaf(_, Number(k)) => root[n - 1].fFlag == IntegerLeaf && v == Long(k)
       case Leaf(_, Real(digits)) => root[n - 1].fFlag == RealLeaf && v == Double(digits)
       case Branch(_, sub) =>
         root[n - 1].fFlag == BranchNode && v == Long(n + 1) && Stores(root, table, sub, n + 1, after, 0)
  }

  /** The arrays agree from `from` to `to`. */
  ghost predicate Agree<T>(a: seq<T>, b: seq<T>, from: int, to: int) {
    |a| == |b| && forall i :: from <= i < to && 0 <= i < |a| ==> a[i] == b[i]
  }

  lemma StringStays(table: string, table': string, at: nat, s: string)
    requires HasString(table, at, s) && Agree(table, table', at, at + |s| + 1)
    ensures HasString(table', at, s)
  {
    assert table'[at..at + |s|] == table[at..at + |s|];
  }

  /** What the arrays hold depends only on the nodes and characters of the level. */
  lemma {:induction false} StoresStays(root: seq<Node>, table: string, root': seq<Node>, table': string, f: Forest, n: nat, s: nat, end: nat)
    requires Stores(root, table, f, n, s, end)
    requires Agree(root, root', n - 1, n - 1 + NodeCount(f)) && Agree(table, table', s, s + CharCount(f))
    ensures Stores(root', table', f, n, s, end)
    decreases f, 1
  {
    if f != [] {
      EntryStays(root, table, root', table', f[0], n, s, if |f| == 1 then end else n + EntryNodes(f[0]));
      StoresStays(root, table, root', table', f[1..], n + EntryNodes(f[0]), s + EntryChars(f[0]), end);
    }
  }

  lemma {:induction false} EntryStays(root: seq<Node>, table: string, root': seq<Node>, table': string, e: Entry, n: nat, s: nat, next: nat)
    requires StoresEntry(root, table, e, n, s, next)
    requires Agree(root, root', n - 1, n - 1 + EntryNodes(e)) && Agree(table, table', s, s + EntryChars(e))
    ensures StoresEntry(root', table', e, n, s, next)
    decreases e, 0
  {
    StringStays(table, table', s, e.key);
    match e
    case Leaf(_, Text(text)) => StringStays(table, table', s + |e.key| + 1, text);
    case Branch(_, sub) => StoresStays(root, table, root', table', sub, n + 1, s + |e.key| + 1, 0);
    case _ =>
  }

  /** The node of the last key of a level. */
  function LastNode(f: Forest, n: nat): nat
    requires f != []
    decreases |f|
  {
    if |f| == 1 then n else LastNode(f[1..], n + EntryNodes(f[0]))
  }

  /** Changing the successor of the last key. */
  lemma {:induction false} Relink(root: seq<Node>, table: string, f: Forest, n: nat, s: nat, end: nat, end': nat)
    requires f != [] && Stores(root, table, f, n, s, end)
    ensures n <= LastNode(f, n) < n + NodeCount(f) && 1 <= LastNode(f, n) <= |root|
    ensures var at := LastNode(f, n) - 1; Stores(root[at := root[at].(lNext := end')], table, f, n, s, end')
    decreases |f|
  {
    var m, t := n + EntryNodes(f[0]), s + EntryChars(f[0]);
    if |f| == 1 {
      var root' := root[n - 1 := root[n - 1].(lNext := end')];
      match f[0] {
        case Branch(_, sub) => StoresStays(root, table, root', table, sub, n + 1, s + |f[0].key| + 1, 0);
        case _ =>
      }
    } else {
      Relink(root, table, f[1..], m, t, end, end');
      var at := LastNode(f[1..], m) - 1;
      EntryStays(root, table, root[at := root[at].(lNext := end')], table, f[0], n, s, m);
    }
  }

  lemma {:induction false} StoresSnoc(root: seq<Node>, table: string, f: Forest, e: Entry, n: nat, s: nat, end: nat)
    requires Stores(root, table, f, n, s, n + NodeCount(f))
    requires StoresEntry(root, table, e, n + NodeCount(f), s + CharCount(f), end)
    ensures Stores(root, table, f + [e], n, s, end)
    decreases f
  {
    if f == [] {
      assert [] + [e] == [e];
    } else {
      StoresSnoc(root, table, f[1..], e, n + EntryNodes(f[0]), s + EntryChars(f[0]), end);
      assert (f + [e])[1..] == f[1..] + [e];
    }
  }

  lemma {:induction false} LastNodeOfSnoc(f: Forest, e: Entry, n: nat)
    ensures LastNode(f + [e], n) == n + NodeCount(f)
    decreases f
  {
    if f != [] {
      LastNodeOfSnoc(f[1..], e, n + EntryNodes(f[0]));
      assert (f + [e])[1..] == f[1..] + [e];
    }
  }

  /** Both sequences reach `to` and agree from `from` on. */
  ghost predicate Same<T>(a: seq<T>, b: seq<T>, from: nat, to: nat) {
    from < to ==> to <= |a| && to <= |b| && forall i :: from <= i < to ==> a[i] == b[i]
  }

  /** The arrays that hold a tree are determined by it. */
  lemma {:induction false} StoresIsUnique(root: seq<Node>, table: string, root': seq<Node>, table': string, f: Forest, n: nat, s: nat, end: nat)
    requires Stores(root, table, f, n, s, end) && Stores(root', table', f, n, s, end) && n > 0
    ensures Same(root, root', n - 1, n - 1 + NodeCount(f))
    ensures Same(table, table', s, s + CharCount(f))
    decreases f, 1
  {
    if f != [] {
      EntryIsUnique(root, table, root', table', f[0], n, s, if |f| == 1 then end else n + EntryNodes(f[0]));
      StoresIsUnique(root, table, root', table', f[1..], n + EntryNodes(f[0]), s + EntryChars(f[0]), end);
    }
  }

  lemma StringIsUnique(table: string, table': string, at: nat, s: string)
    requires HasString(table, at, s) && HasString(table', at, s)
    ensures Same(table, table', at, at + |s| + 1)
  {
    forall i | at <= i < at + |s|
      ensures table[i] == table'[i]
    {
      assert table[i] == table[at..at + |s|][i - at] && table'[i] == table'[at..at + |s|][i - at];
    }
  }

  lemma {:induction false} EntryIsUnique(root: seq<Node>, table: string, root': seq<Node>, table': string, e: Entry, n: nat, s: nat, next: nat)
    requires StoresEntry(root, table, e, n, s, next) && StoresEntry(root', table', e, n, s, next)
    ensures Same(root, root', n - 1, n - 1 + EntryNodes(e))
    ensures Same(table, table', s, s + EntryChars(e))
    decreases e, 0
  {
    StringIsUnique(table, table', s, e.key);
    match e
    case Leaf(_, Text(text)) => StringIsUnique(table, table', s + |e.key| + 1, text);
    case Branch(_, sub) => StoresIsUnique(root, table, root', table', sub, n + 1, s + |e.key| + 1, 0);
    case _ =>
  }

  // ---------------------------------------------------------------- building

  /** A loop over the list `q0` has come to `q`, past the keys `done`. */
  ghost predicate Walked(q0: Val, q: Val, done: Forest) {
    && WellRead(q) && (q == q0 || (q.Nil? && q0.Cons?) || q < q0)
    && ToForest(q0) == if ToForest(q).Some? then Some(done + ToForest(q).value) else None
  }

  lemma WalkStart(q: Val)
    requires WellRead(q)
    ensures Walked(q, q, [])
  {
    if ToForest(q).Some? {
      assert [] + ToForest(q).value == ToForest(q).value;
    }
  }

  lemma WalkEnd(q0: Val, q: Val, done: Forest)
    requires Walked(q0, q, done) && !q.Cons?
    ensures ToForest(q0) == Some(done)
  {
    assert done + [] == done;
  }

  lemma WalkStep(q0: Val, q: Val, done: Forest)
    requires Walked(q0, q, done) && q.Cons?
    ensures WellRead(Car(q.cdr)) && Car(q.cdr) < q0
    ensures var r := Car(q.cdr);
      if q.car.Sym? && ToEntry(q.car.sym, r).Some?
      then Walked(q0, Cdr(q.cdr), done + [ToEntry(q.car.sym, r).value])
      else ToForest(q0).None?
  {
    var r, rest := Car(q.cdr), Cdr(q.cdr);
    assert WellRead(q.cdr);
    if q.car.Sym? && ToEntry(q.car.sym, r).Some? && ToForest(rest).Some? {
      var e := ToEntry(q.car.sym, r).value;
      assert done + ([e] + ToForest(rest).value) == (done + [e]) + ToForest(rest).value;
    }
  }

  lemma {:induction false} CountsOfConcat(f: Forest, g: Forest)
    ensures NodeCount(f + g) == NodeCount(f) + NodeCount(g)
    ensures CharCount(f + g) == CharCount(f) + CharCount(g)
    decreases f
  {
    if f == [] {
      assert f + g == g;
    } else {
      CountsOfConcat(f[1..], g);
      assert (f + g)[1..] == f[1..] + g;
    }
  }

  /** There is room for the next key. */
  lemma WalkFits(q0: Val, q: Val, done: Forest)
    requires Walked(q0, q, done) && q.Cons? && ToForest(q0).Some?
    ensures q.car.Sym? && ToEntry(q.car.sym, Car(q.cdr)).Some?
    ensures var f, e := ToForest(q0).value, ToEntry(q.car.sym, Car(q.cdr)).value;
      && NodeCount(done) + EntryNodes(e) <= NodeCount(f)
      && CharCount(done) + EntryChars(e) <= CharCount(f)
  {
    WalkStep(q0, q, done);
    var g := ToForest(q).value;
    CountsOfConcat(done, g);
  }

  /** The arrays after one more key: `root` and `table` held `done`, whose last key now points to the new node. */
  lemma BuildStep(root: seq<Node>, table: string, root': seq<Node>, table': string, done: Forest, e: Entry, n0: nat, s0: nat)
    requires Stores(root, table, done, n0, s0, n0 + NodeCount(done))
    requires Agree(root, root', 0, n0 - 1 + NodeCount(done)) && Agree(table, table', 0, s0 + CharCount(done)) && n0 >= 1
    requires StoresEntry(root', table', e, n0 + NodeCount(done), s0 + CharCount(done), 0)
    ensures Stores(root', table', done + [e], n0, s0, 0)
    ensures LastNode(done + [e], n0) == n0 + NodeCount(done)
    ensures NodeCount(done + [e]) == NodeCount(done) + EntryNodes(e)
    ensures CharCount(done + [e]) == CharCount(done) + EntryChars(e)
  {
    StoresStays(root, table, root', table', done, n0, s0, n0 + NodeCount(done));
    StoresSnoc(root', table', done, e, n0, s0, 0);
    LastNodeOfSnoc(done, e, n0);
    CountsOfSnoc(done, e);
  }

  class Tree {
    const TC: char
    var Root: array<Node>
    var cNode: nat
    var StringTable: array<char>
    var cbStringTable: nat

    /** CountSubTree adds up the nodes and the characters of a list, and finds its syntax errors. */
    method CountSubTree(q0: Val) returns (error: Error)
      requires WellRead(q0)
      modifies `cNode, `cbStringTable
      ensures error == if ToForest(q0).Some? then Success else SyntaxError
      ensures error == Success ==>
                && cNode == old(cNode) + NodeCount(ToForest(q0).value)
                && cbStringTable == old(cbStringTable) + CharCount(ToForest(q0).value)
      decreases q0, 1
    {
      var q := q0;
      ghost var done: Forest := [];
      WalkStart(q0);
      while q.Cons?
        invariant Walked(q0, q, done)
        invariant cNode == old(cNode) + NodeCount(done) && cbStringTable == old(cbStringTable) + CharCount(done)
        decreases q
      {
        WalkStep(q0, q, done);
        cNode := cNode + 1;
        if !q.car.Sym? {
          return SyntaxError;
        }
        error := CountValue(q.car.sym, Car(q.cdr));
        if error != Success {
          return;
        }
        ghost var e := ToEntry(q.car.sym, Car(q.cdr)).value;
        CountsOfSnoc(done, e);
        done := done + [e];
        q := Cdr(q.cdr);
      }
      WalkEnd(q0, q, done);
      return Success;
    }

    /** The part of CountSubTree for one key, whose node has been counted, and its value. */
    method CountValue(key: string, r: Val) returns (error: Error)
      requires WellRead(r)
      modifies `cNode, `cbStringTable
      ensures error == if ToEntry(key, r).Some? then Success else SyntaxError
      ensures error == Success ==>
                && cNode == old(cNode) + EntryNodes(ToEntry(key, r).value) - 1
                && cbStringTable == old(cbStringTable) + EntryChars(ToEntry(key, r).value)
      decreases r, 2
    {
      cbStringTable := cbStringTable + |key| + 1;
      error := Success;
      match r {
        case Cons(_, _) => error := CountSubTree(r);
        case Str(text) => cbStringTable := cbStringTable + |text| + 1;
        case Sym(text) => cbStringTable := cbStringTable + |text| + 1;
        case Flo(_) =>
        case Int(_) =>
        case Nil => error := SyntaxError;
      }
    }

    /** strcpy to position `at` of the string table. */
    method StrCpy(at: nat, s: string)
      requires at + |s| < StringTable.Length
      modifies StringTable
      ensures HasString(StringTable[..], at, s)
      ensures Agree(old(StringTable[..]), StringTable[..], 0, at)
    {
      for i := 0 to |s|
        invariant StringTable[at..at + i] == s[..i]
        invariant Agree(old(StringTable[..]), StringTable[..], 0, at)
      {
        StringTable[at + i] := s[i];
      }
      StringTable[at + |s|] := NUL;
    }

    /** BuildSubTree fills in the nodes of a level from node `n0` and its strings from `s0` on. */
    method BuildSubTree(q0: Val, n0: nat, s0: nat) returns (n: nat, s: nat)
      requires WellRead(q0) && ToForest(q0).Some? && n0 >= 1
      requires n0 - 1 + NodeCount(ToForest(q0).value) <= Root.Length
      requires s0 + CharCount(ToForest(q0).value) <= StringTable.Length
      modifies Root, StringTable
      ensures n == n0 + NodeCount(ToForest(q0).value) && s == s0 + CharCount(ToForest(q0).value)
      ensures Stores(Root[..], StringTable[..], ToForest(q0).value, n0, s0, 0)
      ensures Agree(old(Root[..]), Root[..], 0, n0 - 1) && Agree(old(StringTable[..]), StringTable[..], 0, s0)
      decreases q0, 1
    {
      n, s := n0, s0;
      var q, prev := q0, 0;
      ghost var done: Forest := [];
      WalkStart(q0);
      while q.Cons?
        invariant Walked(q0, q, done)
        invariant n == n0 + NodeCount(done) && s == s0 + CharCount(done)
        invariant prev == if done == [] then 0 else LastNode(done, n0)
        invariant Stores(Root[..], StringTable[..], done, n0, s0, 0)
        invariant Agree(old(Root[..]), Root[..], 0, n0 - 1) && Agree(old(StringTable[..]), StringTable[..], 0, s0)
        decreases q
      {
        WalkStep(q0, q, done);
        WalkFits(q0, q, done);
        LinkTo(prev, n, done, n0, s0);
        ghost var e := ToEntry(q.car.sym, Car(q.cdr)).value;
        prev := n;
        n, s := BuildNext(q.car.sym, Car(q.cdr), n, s, done, n0, s0);
        done := done + [e];
        q := Cdr(q.cdr);
      }
      WalkEnd(q0, q, done);
    }

    /** BuildEntry, behind a level whose last key points to the new node. */
    method BuildNext(key: string, r: Val, n1: nat, s1: nat, ghost done: Forest, ghost n0: nat, ghost s0: nat) returns (n: nat, s: nat)
      requires WellRead(r) && ToEntry(key, r).Some? && n0 >= 1
      requires n1 == n0 + NodeCount(done) && s1 == s0 + CharCount(done)
      requires n1 - 1 + EntryNodes(ToEntry(key, r).value) <= Root.Length
      requires s1 + EntryChars(ToEntry(key, r).value) <= StringTable.Length
      requires Stores(Root[..], StringTable[..], done, n0, s0, n1)
      modifies Root, StringTable
      ensures var f := done + [ToEntry(key, r).value];
        && n == n0 + NodeCount(f) && s == s0 + CharCount(f) && n1 == LastNode(f, n0)
        && Stores(Root[..], StringTable[..], f, n0, s0, 0)
      ensures Agree(old(Root[..]), Root[..], 0, n1 - 1) && Agree(old(StringTable[..]), StringTable[..], 0, s1)
      decreases r, 3
    {
      ghost var root, table := Root[..], StringTable[..];
      n, s := BuildEntry(key, r, n1, s1);
      BuildStep(root, table, Root[..], StringTable[..], done, ToEntry(key, r).value, n0, s0);
    }

    /** If there is a previous node, then node `n` is its successor. */
    method LinkTo(prev: nat, n: nat, ghost done: Forest, ghost n0: nat, ghost s0: nat)
      requires n0 >= 1 && prev == if done == [] then 0 else LastNode(done, n0)
      requires Stores(Root[..], StringTable[..], done, n0, s0, 0)
      modifies Root
      ensures Stores(Root[..], StringTable[..], done, n0, s0, n)
      ensures Agree(old(Root[..]), Root[..], 0, n0 - 1)
    {
      ghost var root := Root[..];
      if done != [] {
        Relink(root, StringTable[..], done, n0, s0, 0, n);
      }
      if prev != 0 {
        Root[prev - 1] := Root[prev - 1].(lNext := n);
        assert Root[..] == root[prev - 1 := root[prev - 1].(lNext := n)];
      }
    }

    /** One round of BuildSubTree: the node of a key, without a successor so far, and its value. */
    method BuildEntry(key: string, r: Val, n0: nat, s0: nat) returns (n: nat, s: nat)
      requires WellRead(r) && ToEntry(key, r).Some? && n0 >= 1
      requires n0 - 1 + EntryNodes(ToEntry(key, r).value) <= Root.Length
      requires s0 + EntryChars(ToEntry(key, r).value) <= StringTable.Length
      modifies Root, StringTable
      ensures n == n0 + EntryNodes(ToEntry(key, r).value) && s == s0 + EntryChars(ToEntry(key, r).value)
      ensures StoresEntry(Root[..], StringTable[..], ToEntry(key, r).value, n0, s0, 0)
      ensures Agree(old(Root[..]), Root[..], 0, n0 - 1) && Agree(old(StringTable[..]), StringTable[..], 0, s0)
      decreases r, 2
    {
      StrCpy(s0, key);
      s := s0 + |key| + 1;
      ghost var table := StringTable[..];
      match r {
        case Cons(_, _) =>
          Root[n0 - 1] := Node(s0, 0, Long(n0 + 1), BranchNode);
          n, s := BuildSubTree(r, n0 + 1, s);
        case Str(text) =>
          Root[n0 - 1] := Node(s0, 0, Long(s), StringLeaf);
          StrCpy(s, text);
          n, s := n0 + 1, s + |text| + 1;
        case Sym(text) =>
          Root[n0 - 1] := Node(s0, 0, Long(s), StringLeaf);
          StrCpy(s, text);
          n, s := n0 + 1, s + |text| + 1;
        case Flo(digits) =>
          Root[n0 - 1] := Node(s0, 0, Double(digits), RealLeaf);
          n := n0 + 1;
        case Int(k) =>
          Root[n0 - 1] := Node(s0, 0, Long(k), IntegerLeaf);
          n := n0 + 1;
      }
      StringStays(table, StringTable[..], s0, key);
    }

    // -------------------------------------------------------------- looking up

    function EnumFirst(id: nat): nat
      requires id <= Root.Length
      reads this, Root
    {
      if id == 0 then 1
      else if Root[id - 1].fFlag != BranchNode then 0
      else if Root[id - 1].val.Long? && Root[id - 1].val.lVal >= 0 then Root[id - 1].val.lVal else 0
    }

    function EnumNext(id: nat): nat
      requires 1 <= id <= Root.Length
      reads this, Root
    {
      Root[id - 1].lNext
    }

    /** strmyeq: the first part of `key` against the first part of the stored string `stored`. */
    method StrMyEq(key: string, at: nat, ghost stored: string) returns (r: bool)
      requires HasString(StringTable[..], at, stored) && NoNul(key) && NoNul(stored) && TC != NUL
      ensures r <==> FirstPart(key, TC) == FirstPart(stored, TC)
    {
      ghost var table := StringTable[..];
      var i := 0;
      while i < |key| && key[i] != TC && StringTable[at + i] != NUL && StringTable[at + i] != TC
        invariant i <= |key| && i <= |stored| && key[..i] == stored[..i]
        invariant forall j :: 0 <= j < i ==> key[j] != TC
      {
        StoredChar(table, at, stored, i);
        if key[i] != StringTable[at + i] {
          FirstPartsDiffer(key, stored, i, TC);
          return false;
        }
        i := i + 1;
      }
      StoredChar(table, at, stored, i);
      var a, b := if i < |key| then key[i] else NUL, StringTable[at + i];
      r := a == b || (a == TC && b == NUL) || (b == TC && a == NUL);
      FirstPartsEnd(key, stored, i, TC);
    }

    /** cft_FindNode. The restart with the first node of a branch is one more round of the same loop. */
    method FindNode(start: nat, key0: string, ghost f: Forest, ghost s0: nat) returns (id: nat)
      requires f != [] && Stores(Root[..], StringTable[..], f, start, s0, 0) && Tidy(f) && start >= 1
      requires NoNul(key0) && TC != NUL
      ensures id == FindIn(f, start, key0, TC)
    {
      var i: nat, key := start, key0;
      ghost var g, s: nat := f, s0;
      while i != 0
        invariant g != [] <==> i != 0
        invariant Stores(Root[..], StringTable[..], g, i, s, 0) && Tidy(g) && NoNul(key)
        invariant FindIn(f, start, key0, TC) == FindIn(g, i, key, TC)
        decreases |key|, |g|
      {
        ghost var e := g[0];
        var equal := StrMyEq(key, Root[i - 1].lKey, e.key);
        if equal {
          var k := Span(ch => ch != TC, key);
          if k == |key| {
            return i;
          }
          key := key[k + 1..];
          if Root[i - 1].fFlag != BranchNode {
            return 0;
          }
          g, s := e.sub, s + |e.key| + 1;
          i := Root[i - 1].val.lVal;
        } else {
          g, s := g[1..], s + EntryChars(e);
          i := EnumNext(i);
        }
      }
      return 0;
    }

    // -------------------------------------------------------------- printing

    /** The characters from `at` up to the zero. */
    method CString(at: nat, ghost stored: string) returns (r: string)
      requires HasString(StringTable[..], at, stored) && NoNul(stored)
      ensures r == stored
    {
      r := [];
      var i := 0;
      ghost var table := StringTable[..];
      StoredChar(table, at, stored, 0);
      while StringTable[at + i] != NUL
        invariant i <= |stored| && r == stored[..i]
        invariant StringTable[at + i] == if i < |stored| then stored[i] else NUL
        decreases |stored| - i
      {
        r := r + [StringTable[at + i]];
        i := i + 1;
        StoredChar(table, at, stored, i);
      }
    }

    /** The quoted form of the string at `at`: three quotes if it holds a line break, else one. */
    method ShowString(at: nat, ghost stored: string) returns (r: string)
      requires HasString(StringTable[..], at, stored) && NoNul(stored)
      ensures r == ShowValue(Text(stored))
    {
      var text := CString(at, stored);
      var t := "\"";
      var i := 0;
      while i < |text|
        invariant i <= |text| && !HasLineBreak(text[..i]) && t == "\""
      {
        if text[i] == '\n' || text[i] == '\r' {
          t := "\"\"\"";
          break;
        }
        assert text[..i + 1] == text[..i] + [text[i]];
        i := i + 1;
      }
      assert t == QuoteFor(text) by {
        if i < |text| {
          assert HasLineBreak(text);
        } else {
          assert text[..i] == text;
        }
      }
      r := t;
      for j := 0 to |text|
        invariant r == t + Escape(text[..j])
      {
        EscapeSnoc(text[..j], text[j]);
        assert text[..j + 1] == text[..j] + [text[j]];
        if text[j] == '"' {
          r := r + "\\\"";
        } else if text[j] == '\\' {
          r := r + "\\\\";
        } else {
          r := r + [text[j]];
        }
      }
      assert text[..|text|] == text;
      r := r + t;
    }

    /** DumpTree prints a level, indented by `offset`. */
    method DumpTree(hNode: nat, offset: nat, ghost f: Forest, ghost s0: nat) returns (out: string)
      requires Stores(Root[..], StringTable[..], f, hNode, s0, 0) && Tidy(f) && Terminated(f) && (f != [] <==> hNode != 0)
      ensures out == Show(f, offset)
      decreases f, 1
    {
      out := [];
      var h: nat := hNode;
      ghost var done: Forest, g, s: nat := [], f, s0;
      while h != 0
        invariant g != [] <==> h != 0
        invariant f == done + g
        invariant Stores(Root[..], StringTable[..], g, h, s, 0) && Tidy(g) && Terminated(g)
        invariant out == Show(done, offset)
        decreases |g|
      {
        assert g[0] == f[|done|];
        var line := DumpEntry(h, offset, g[0], s, if |g| == 1 then 0 else h + EntryNodes(g[0]));
        ShowSnoc(done, g[0], offset);
        assert done + g == (done + [g[0]]) + g[1..];
        out := out + line;
        h := EnumNext(h);
        done, g, s := done + [g[0]], g[1..], s + EntryChars(g[0]);
      }
      assert done + [] == done;
    }

    method DumpEntry(h: nat, offset: nat, ghost e: Entry, ghost s: nat, ghost next: nat) returns (out: string)
      requires StoresEntry(Root[..], StringTable[..], e, h, s, next) && TidyEntry(e) && TerminatedEntry(e)
      ensures out == ShowEntry(e, offset)
      decreases e, 0
    {
      var node := Root[h - 1];
      var key := CString(node.lKey, e.key);
      match node.fFlag
      case BranchNode =>
        var inner := DumpTree(EnumFirst(h), offset + 2, e.sub, s + |e.key| + 1);
        out := Spaces(offset) + key + " (\n" + inner + Spaces(offset) + " )\n";
      case StringLeaf =>
        var shown := ShowString(node.val.lVal, e.value.text);
        out := Spaces(offset) + key + " " + shown + "\n";
      case IntegerLeaf =>
        out := Spaces(offset) + key + " " + ShowInt(node.val.lVal) + "\n";
      case RealLeaf =>
        out := Spaces(offset) + key + " " + node.val.digits + "\n";
    }
  }

  // ---------------------------------------------------------------- keys with parts

  /** The part of a key before the separator. */
  function FirstPart(key: string, tc: char): string {
    key[..Span(ch => ch != tc, key)]
  }

  lemma StoredChar(table: string, at: nat, s: string, i: nat)
    requires HasString(table, at, s) && NoNul(s) && i <= |s|
    ensures at + i < |table| && table[at + i] == if i < |s| then s[i] else NUL
  {
    if i < |s| {
      assert table[at + i] == table[at..at + |s|][i];
    }
  }

  lemma FirstPartsDiffer(a: string, b: string, i: nat, tc: char)
    requires i < |a| && i < |b| && a[..i] == b[..i] && a[i] != b[i] && a[i] != tc && b[i] != tc
    requires forall j :: 0 <= j < i ==> a[j] != tc
    ensures FirstPart(a, tc) != FirstPart(b, tc)
  {
    var k, l := Span(ch => ch != tc, a), Span(ch => ch != tc, b);
    assert forall j :: 0 <= j < i ==> b[j] == b[..i][j] == a[..i][j];
    assert k > i && l > i;
    assert FirstPart(a, tc)[i] == a[i] && FirstPart(b, tc)[i] == b[i];
  }

  lemma FirstPartsEnd(a: string, b: string, i: nat, tc: char)
    requires i <= |a| && i <= |b| && a[..i] == b[..i] && NoNul(a) && NoNul(b) && tc != NUL
    requires forall j :: 0 <= j < i ==> a[j] != tc
    requires i == |a| || a[i] == tc || i == |b| || b[i] == tc
    ensures var x, y := if i < |a| then a[i] else NUL, if i < |b| then b[i] else NUL;
      (x == y || (x == tc && y == NUL) || (y == tc && x == NUL)) <==> FirstPart(a, tc) == FirstPart(b, tc)
  {
    assert forall j :: 0 <= j < i ==> b[j] == b[..i][j] == a[..i][j];
    var k, l := Span(ch => ch != tc, a), Span(ch => ch != tc, b);
    assert k >= i && l >= i;
    assert (k == i <==> i == |a| || a[i] == tc) && (l == i <==> i == |b| || b[i] == tc);
    assert |FirstPart(a, tc)| == k && |FirstPart(b, tc)| == l;
    if k == i && l == i {
      assert FirstPart(a, tc) == FirstPart(b, tc);
    }
  }

  /** Every branch has keys below it. */
  predicate Tidy(f: Forest)
    decreases f, 1
  {
    f == [] || (TidyEntry(f[0]) && Tidy(f[1..]))
  }

  predicate TidyEntry(e: Entry)
    decreases e, 0
  {
    NoNul(e.key) && (e.Branch? ==> e.sub != [] && Tidy(e.sub))
  }

  /** No text holds a zero character. */
  predicate Terminated(f: Forest)
    decreases f, 1
  {
    f == [] || (TerminatedEntry(f[0]) && Terminated(f[1..]))
  }

  predicate TerminatedEntry(e: Entry)
    decreases e, 0
  {
    match e
    case Leaf(_, Text(text)) => NoNul(text)
    case Leaf(_, _) => true
    case Branch(_, sub) => Terminated(sub)
  }

  lemma {:induction false} EscapeSnoc(s: string, ch: char)
    ensures Escape(s + [ch]) == Escape(s) + (if ch == '"' || ch == '\\' then ['\\', ch] else [ch])
  {
    if s != [] {
      EscapeSnoc(s[1..], ch);
      assert (s + [ch])[1..] == s[1..] + [ch];
    }
  }

  lemma {:induction false} ShowSnoc(f: Forest, e: Entry, offset: nat)
    ensures Show(f + [e], offset) == Show(f, offset) + ShowEntry(e, offset)
    decreases f
  {
    if f != [] {
      ShowSnoc(f[1..], e, offset);
      assert (f + [e])[1..] == f[1..] + [e];
    }
  }

  /** The node that the key leads to from the level `f`, whose first node is `n`: at each level the first
      key that equals the next part, and never another one. */
  function FindIn(f: Forest, n: nat, key: string, tc: char): nat
    decreases |key|, |f|
  {
    if f == [] then 0
    else if FirstPart(key, tc) == FirstPart(f[0].key, tc) then
      var k := Span(ch => ch != tc, key);
      if k == |key| then n
      else if f[0].Branch? then FindIn(f[0].sub, n + 1, key[k + 1..], tc)
      else 0
    else FindIn(f[1..], n + EntryNodes(f[0]), key, tc)
  }

  /** The parts of a key: one more than it has separators. */
  function Split(key: string, tc: char): (parts: seq<string>)
    ensures parts != [] && parts[0] == FirstPart(key, tc)
    decreases |key|
  {
    var k := Span(ch => ch != tc, key);
    if k == |key| then [key] else [key[..k]] + Split(key[k + 1..], tc)
  }

  /** Key `i` is the first of its level whose name is `part`. */
  predicate IsFirst(f: Forest, i: nat, part: string, tc: char) {
    i < |f| && FirstPart(f[i].key, tc) == part && forall j :: 0 <= j < i ==> FirstPart(f[j].key, tc) != part
  }

  /** `path` goes down the tree by first keys with the names `parts`. */
  predicate Leads(f: Forest, parts: seq<string>, path: seq<nat>, tc: char)
    decreases |parts|
  {
    && |path| == |parts| && parts != [] && IsFirst(f, path[0], parts[0], tc)
    && (|parts| > 1 ==> f[path[0]].Branch? && Leads(f[path[0]].sub, parts[1..], path[1..], tc))
  }

  /** The node at the end of a path. */
  function NodeAt(f: Forest, n: nat, path: seq<nat>): nat
    decreases |path|
  {
    if path == [] || path[0] >= |f| then 0
    else
      var m := n + NodeCount(f[..path[0]]);
      if |path| == 1 then m
      else if f[path[0]].Branch? then NodeAt(f[path[0]].sub, m + 1, path[1..])
      else 0
  }

  /** The search in the level from key `i` on, when no earlier key has the name of the next part. */
  lemma {:induction false} FindFrom(f: Forest, n: nat, key: string, tc: char, i: nat)
    requires i <= |f| && forall j :: 0 <= j < i ==> FirstPart(f[j].key, tc) != FirstPart(key, tc)
    ensures FindIn(f, n, key, tc) == FindIn(f[i..], n + NodeCount(f[..i]), key, tc)
    decreases |f|
  {
    if i == 0 {
      assert f[..0] == [] && f[0..] == f;
    } else {
      FindFrom(f[1..], n + EntryNodes(f[0]), key, tc, i - 1);
      assert f[1..][i - 1..] == f[i..] && f[..i][1..] == f[1..][..i - 1];
    }
  }

  lemma FindAtFirst(f: Forest, n: nat, key: string, tc: char, i: nat)
    requires IsFirst(f, i, FirstPart(key, tc), tc)
    ensures var k, m := Span(ch => ch != tc, key), n + NodeCount(f[..i]);
      FindIn(f, n, key, tc) ==
        if k == |key| then m else if f[i].Branch? then FindIn(f[i].sub, m + 1, key[k + 1..], tc) else 0
  {
    FindFrom(f, n, key, tc, i);
    assert f[i..][0] == f[i];
  }

  /** If the parts of the key lead down the tree, the search returns the node at the end of the path. */
  lemma {:induction false} FindFollows(f: Forest, n: nat, key: string, tc: char, path: seq<nat>)
    requires Leads(f, Split(key, tc), path, tc)
    ensures FindIn(f, n, key, tc) == NodeAt(f, n, path)
    decreases |key|
  {
    var k := Span(ch => ch != tc, key);
    FindAtFirst(f, n, key, tc, path[0]);
    if k < |key| {
      assert Split(key, tc)[1..] == Split(key[k + 1..], tc);
      FindFollows(f[path[0]].sub, n + NodeCount(f[..path[0]]) + 1, key[k + 1..], tc, path[1..]);
    }
  }

  /** If the search returns a node, the parts of the key lead down the tree. */
  lemma {:induction false} FoundLeads(f: Forest, n: nat, key: string, tc: char) returns (path: seq<nat>)
    requires FindIn(f, n, key, tc) != 0
    ensures Leads(f, Split(key, tc), path, tc)
    decreases |key|
  {
    var i := FirstWithPart(f, n, key, tc);
    var k := Span(ch => ch != tc, key);
    FindAtFirst(f, n, key, tc, i);
    path := [i];
    if k < |key| {
      var below := FoundLeads(f[i].sub, n + NodeCount(f[..i]) + 1, key[k + 1..], tc);
      path := [i] + below;
      assert Split(key, tc)[1..] == Split(key[k + 1..], tc) && path[1..] == below;
    }
  }

  lemma {:induction false} FirstWithPart(f: Forest, n: nat, key: string, tc: char) returns (i: nat)
    requires FindIn(f, n, key, tc) != 0
    ensures IsFirst(f, i, FirstPart(key, tc), tc)
    decreases |f|
  {
    if FirstPart(key, tc) == FirstPart(f[0].key, tc) {
      i := 0;
    } else {
      i := FirstWithPart(f[1..], n + EntryNodes(f[0]), key, tc);
      i := i + 1;
    }
  }

  /** Some path of first keys has these names. */
  ghost predicate PathExists(f: Forest, parts: seq<string>, tc: char) {
    exists path :: Leads(f, parts, path, tc)
  }

  /** cft_FindNode returns zero exactly when no path of first keys has the parts of the key as names. */
  lemma FindDecides(f: Forest, n: nat, key: string, tc: char)
    requires n >= 1
    ensures FindIn(f, n, key, tc) != 0 <==> PathExists(f, Split(key, tc), tc)
  {
    if FindIn(f, n, key, tc) != 0 {
      var path := FoundLeads(f, n, key, tc);
      assert PathExists(f, Split(key, tc), tc);
    }
    if PathExists(f, Split(key, tc), tc) {
      var path :| Leads(f, Split(key, tc), path, tc);
      FindFollows(f, n, key, tc, path);
      LeadsToNode(f, n, Split(key, tc), path, tc);
    }
  }

  lemma {:induction false} LeadsToNode(f: Forest, n: nat, parts: seq<string>, path: seq<nat>, tc: char)
    requires n >= 1 && Leads(f, parts, path, tc)
    ensures NodeAt(f, n, path) >= n
    decreases |parts|
  {
    if |parts| > 1 {
      LeadsToNode(f[path[0]].sub, n + NodeCount(f[..path[0]]) + 1, parts[1..], path[1..], tc);
    }
  }

  // ---------------------------------------------------------------- paths as they are written

  function JoinParts(parts: seq<string>, tc: char): string {
    if parts == [] then "" else if |parts| == 1 then parts[0] else parts[0] + ([tc] + JoinParts(parts[1..], tc))
  }

  /** The parts of a key are those that were written with separators between them. */
  lemma {:induction false} SplitJoined(parts: seq<string>, tc: char)
    requires parts != [] && forall i :: 0 <= i < |parts| ==> tc !in parts[i]
    ensures Split(JoinParts(parts, tc), tc) == parts
    decreases |parts|
  {
    var key, first := JoinParts(parts, tc), parts[0];
    var rest := if |parts| == 1 then "" else [tc] + JoinParts(parts[1..], tc);
    assert key == first + rest;
    SpanOf(ch => ch != tc, key, |first|);
    assert key[..|first|] == first && key[|first|..] == rest;
    if |parts| > 1 {
      SplitJoined(parts[1..], tc);
      assert key[|first| + 1..] == rest[1..] == JoinParts(parts[1..], tc);
      assert parts == [first] + parts[1..];
    }
  }

  /** The entry at the end of a path. */
  function EntryAt(f: Forest, parts: seq<string>, path: seq<nat>, tc: char): Entry
    requires Leads(f, parts, path, tc)
    decreases |path|
  {
    if |path| == 1 then f[path[0]] else EntryAt(f[path[0]].sub, parts[1..], path[1..], tc)
  }

  /** The node `n` holds the entry. */
  ghost predicate NodeHolds(root: seq<Node>, table: string, e: Entry, n: nat) {
    exists s, next :: StoresEntry(root, table, e, n, s, next)
  }

  lemma {:induction false} StoresAt(root: seq<Node>, table: string, f: Forest, n: nat, s: nat, end: nat, i: nat) returns (s': nat, next: nat)
    requires Stores(root, table, f, n, s, end) && i < |f|
    ensures StoresEntry(root, table, f[i], n + NodeCount(f[..i]), s', next)
    decreases i
  {
    if i == 0 {
      s', next := s, if |f| == 1 then end else n + EntryNodes(f[0]);
      assert f[..0] == [];
    } else {
      s', next := StoresAt(root, table, f[1..], n + EntryNodes(f[0]), s + EntryChars(f[0]), end, i - 1);
      assert f[..i][1..] == f[1..][..i - 1] && f[1..][i - 1] == f[i];
    }
  }

  /** The node that is found holds the entry at the end of the path: its key, and its value or what is below it. */
  lemma {:induction false} FoundIsEntry(root: seq<Node>, table: string, f: Forest, n: nat, s: nat, end: nat, key: string, path: seq<nat>, tc: char)
    requires Stores(root, table, f, n, s, end) && Leads(f, Split(key, tc), path, tc)
    ensures NodeHolds(root, table, EntryAt(f, Split(key, tc), path, tc), FindIn(f, n, key, tc))
  {
    FindFollows(f, n, key, tc, path);
    PathIsStored(root, table, f, n, s, end, Split(key, tc), path, tc);
  }

  lemma {:induction false} PathIsStored(root: seq<Node>, table: string, f: Forest, n: nat, s: nat, end: nat, parts: seq<string>, path: seq<nat>, tc: char)
    requires Stores(root, table, f, n, s, end) && Leads(f, parts, path, tc)
    ensures NodeHolds(root, table, EntryAt(f, parts, path, tc), NodeAt(f, n, path))
    decreases |path|
  {
    var i := path[0];
    var s', next := StoresAt(root, table, f, n, s, end, i);
    var m := n + NodeCount(f[..i]);
    if |path| > 1 {
      PathIsStored(root, table, f[i].sub, m + 1, s' + |f[i].key| + 1, 0, parts[1..], path[1..], tc);
    }
  }
}
