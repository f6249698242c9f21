/** Loading a configuration (cft_ReadTextConfig): the two passes over the list allocate what is needed and
    fill all of it, and what is dumped loads again to the same two arrays. */
module ConfigLoad {
  import opened Lisp
  import opened Config
  import opened ConfigTree
  import LispReader
  import Cells

  /** The arrays are exactly the tree `f`, node 1 first. */
  ghost predicate Holds(root: seq<Node>, table: string, f: Forest) {
    |root| == NodeCount(f) && |table| == CharCount(f) && Stores(root, table, f, 1, 0, 0)
  }

  lemma {:induction false} AcceptedIsTidy(q: Val)
    requires WellRead(q) && ToForest(q).Some?
    ensures Tidy(ToForest(q).value) && Terminated(ToForest(q).value)
    ensures q.Cons? ==> ToForest(q).value != []
    decreases q
  {
    match q
    case Cons(Sym(key), Cons(r, rest)) =>
      var f := ToForest(q).value;
      assert f[1..] == ToForest(rest).value;
      AcceptedIsTidy(rest);
      if r.Cons? {
        AcceptedIsTidy(r);
      } else {
        SimpleIsTidy(key, r);
      }
    case _ =>
  }

  lemma SimpleIsTidy(key: string, r: Val)
    requires WellRead(r) && !r.Cons? && ToEntry(key, r).Some?
    ensures TerminatedEntry(ToEntry(key, r).value)
  {
    if r.Sym? {
      assert forall i :: 0 <= i < |r.sym| ==> IsConst(r.sym[i]);
    }
  }

  lemma CompiledIsTidy(text: string)
    ensures WellRead(RemoveNil(ReadList(text).0))
    ensures Compile(text).Some? ==> Tidy(Compile(text).value) && Terminated(Compile(text).value)
  {
    ReadIsWellRead(text);
    RemoveNilIsWellRead(ReadList(text).0);
    if Compile(text).Some? {
      AcceptedIsTidy(RemoveNil(ReadList(text).0));
    }
  }

  lemma CountIsZero(f: Forest)
    ensures NodeCount(f) == 0 <==> f == []
  {
  }

  /** The removal on the cells of the list. */
  method WithoutNil(read: Val) returns (q: Val)
    ensures q == RemoveNil(read)
  {
    var l;
    ghost var t;
    l, t := Cells.FromValue(read);
    l := Cells.RemoveNil(l, t);
    q := Cells.ToValue(l, Cells.Pruned(t));
  }

  /** cft_ReadTextConfig, for a file that can be opened and memory that can be had. */
  method ReadTextConfig(pCT: Tree, text: string) returns (error: Error)
    modifies pCT
    ensures error == match Compile(text)
                     case None => SyntaxError
                     case Some(f) => if f == [] then Empty else Success
    ensures error == Success ==>
              && fresh(pCT.Root) && fresh(pCT.StringTable)
              && Holds(pCT.Root[..], pCT.StringTable[..], Compile(text).value)
  {
    var reader := new LispReader.Reader(text);
    var read := reader.ReadLst();
    CompiledIsTidy(text);
    var q := WithoutNil(read);
    pCT.cNode, pCT.cbStringTable := 0, 0;
    error := pCT.CountSubTree(q);
    if error != Success {
      return;
    }
    CountIsZero(Compile(text).value);
    if pCT.cNode == 0 {
      return Empty;
    }
    pCT.Root := new Node[pCT.cNode](_ => Node(0, 0, Long(0), StringLeaf));
    pCT.StringTable := new char[pCT.cbStringTable];
    var lNindex, lSindex := pCT.BuildSubTree(q, 1, 0);
  }

  /** A tree has one pair of arrays, and a pair of arrays shows one text. */
  lemma ArraysAreDetermined(root: seq<Node>, table: string, root': seq<Node>, table': string, f: Forest)
    requires Holds(root, table, f) && Holds(root', table', f)
    ensures root == root' && table == table'
  {
    StoresIsUnique(root, table, root', table', f, 1, 0, 0);
  }

  /** Loading a text, dumping it and loading what was dumped: if it has no reals, the second load succeeds and
      gives the same node array and the same string table. */
  method DumpAndReload(pCT: Tree, again: Tree, text: string) returns (error: Error, dumped: string)
    requires pCT != again
    modifies pCT, again
    ensures Compile(text).Some? && Compile(text).value != [] && NoReals(Compile(text).value) ==>
              error == Success && pCT.Root[..] == again.Root[..] && pCT.StringTable[..] == again.StringTable[..]
  {
    dumped := "";
    error := ReadTextConfig(pCT, text);
    if error == Success {
      ghost var f := Compile(text).value;
      CompiledIsTidy(text);
      dumped := pCT.DumpTree(1, 0, f, 0);
      ghost var root, table := pCT.Root[..], pCT.StringTable[..];
      error := ReadTextConfig(again, dumped);
      if NoReals(f) {
        RoundTrip(text);
        ArraysAreDetermined(root, table, again.Root[..], again.StringTable[..], f);
      }
    }
  }
}
