/** Cleaning a name path (ex_CleanNamePath, expression.c): package::_::v is v, by pulling the end of the name down
    in place and starting over, against one pass over the components with a stack. */
module NamePath {
  import opened Wrappers

  const ZCHAR: char := '\0'

  // ---------------------------------------------------------------- on strings

  /** The character at `i`, as C reads a string. */
  function At(s: string, i: nat): char {
    if i < |s| then s[i] else ZCHAR
  }

  predicate IsUp(s: string, i: nat) {
    At(s, i) == ':' && At(s, i + 1) == ':' && At(s, i + 2) == '_' && At(s, i + 3) == ':' && At(s, i + 4) == ':'
  }

  predicate IsSeparator(s: string, i: nat) {
    At(s, i) == ':' && At(s, i + 1) == ':'
  }

  datatype Found = Found(from: nat, to: nat)

  /** The first up-reference from `i` on: it starts at the component `j` before it, and `to` is behind it. */
  function Scan(s: string, i: nat, j: nat): (r: Option<Found>)
    requires j <= i
    ensures r.Some? ==> j <= r.value.from && r.value.from + 5 <= r.value.to <= |s|
    decreases |s| - i
  {
    if i >= |s| then None
    else if IsUp(s, i) then Some(Found(j, i + 5))
    else if IsSeparator(s, i) then Scan(s, i + 2, i + 2)
    else Scan(s, i + 1, j)
  }

  /** What the loop makes of a name. */
  function Clean(s: string): (r: string)
    ensures |r| <= |s| && Scan(r, 0, 0) == None
    decreases |s|
  {
    match Scan(s, 0, 0)
    case None => s
    case Some(f) => Clean(s[..f.from] + s[f.to..])
  }

  /** A name is clean after one cleaning. */
  lemma CleanTwice(s: string)
    ensures Clean(Clean(s)) == Clean(s)
  {
  }

  // ---------------------------------------------------------------- on components

  predicate IsComponent(c: string) {
    forall i :: 0 <= i < |c| ==> c[i] != ':' && c[i] != ZCHAR
  }

  predicate AreComponents(cs: seq<string>) {
    cs != [] && forall k :: 0 <= k < |cs| ==> IsComponent(cs[k])
  }

  function Join(cs: seq<string>): string
    requires cs != []
  {
    if |cs| == 1 then cs[0] else cs[0] + ("::" + Join(cs[1..]))
  }

  /** One pass: a component is pushed, but an underscore that is not the last component takes the one before
      it away, if there is one. */
  function Fold(stack: seq<string>, cs: seq<string>): (r: seq<string>)
    requires cs != []
    ensures r != []
    decreases |cs|
  {
    if |cs| == 1 then stack + cs
    else if cs[0] == "_" && stack != [] then Fold(stack[..|stack| - 1], cs[1..])
    else Fold(stack + [cs[0]], cs[1..])
  }

  /** Behind the first component the next that goes up. */
  function FirstUp(cs: seq<string>): (r: Option<nat>)
    requires cs != []
    ensures r.Some? ==> 1 <= r.value < |cs| - 1 && cs[r.value] == "_"
    decreases |cs|
  {
    if |cs| <= 2 then None
    else if cs[1] == "_" then Some(1)
    else
      var r := FirstUp(cs[1..]);
      if r.Some? then Some(r.value + 1) else None
  }

  function Removed(cs: seq<string>, k: nat): seq<string>
    requires 1 <= k < |cs| - 1
  {
    cs[..k - 1] + cs[k + 1..]
  }

  /** Up to the first component that goes up everything is pushed. */
  lemma {:induction false} FoldPushes(stack: seq<string>, cs: seq<string>)
    requires cs != [] && (stack == [] || cs[0] != "_" || |cs| == 1)
    ensures match FirstUp(cs)
            case None => Fold(stack, cs) == stack + cs
            case Some(k) => Fold(stack, cs) == Fold(stack + cs[..k - 1], cs[k + 1..])
    decreases |cs|
  {
    if |cs| > 1 {
      var stack' := stack + [cs[0]];
      if |cs| > 2 && cs[1] == "_" {
        assert stack'[..|stack'| - 1] == stack + cs[..0];
        assert cs[1..][1..] == cs[2..];
      } else {
        FoldPushes(stack', cs[1..]);
        match FirstUp(cs) {
          case None => assert stack' + cs[1..] == stack + cs;
          case Some(k) =>
            assert stack' + cs[1..][..k - 2] == stack + cs[..k - 1];
            assert cs[1..][k..] == cs[k + 1..];
        }
      }
    }
  }

  /** Taking an up-reference away does not change what the pass gives. */
  lemma FoldOfRemoved(cs: seq<string>, k: nat)
    requires cs != [] && FirstUp(cs) == Some(k)
    ensures Fold([], Removed(cs, k)) == Fold([], cs)
  {
    FoldPushes([], cs);
    FoldPrefix([], cs[..k - 1], cs[k + 1..]) by {
      NoUpBefore(cs, k);
    }
    assert [] + cs[..k - 1] == cs[..k - 1];
  }

  lemma {:induction false} NoUpBefore(cs: seq<string>, k: nat)
    requires cs != [] && FirstUp(cs) == Some(k)
    ensures forall i :: 1 <= i < k ==> cs[i] != "_"
    decreases |cs|
  {
    if k > 1 {
      NoUpBefore(cs[1..], k - 1);
      forall i | 1 <= i < k ensures cs[i] != "_" {
        assert i > 1 ==> cs[i] == cs[1..][i - 1];
      }
    }
  }

  lemma {:induction false} FoldPrefix(stack: seq<string>, a: seq<string>, b: seq<string>)
    requires b != [] && (forall i :: 1 <= i < |a| ==> a[i] != "_") && (stack == [] || a == [] || a[0] != "_")
    ensures Fold(stack, a + b) == Fold(stack + a, b)
    decreases |a|
  {
    if a == [] {
      assert a + b == b && stack + a == stack;
    } else {
      assert (a + b)[1..] == a[1..] + b;
      FoldPrefix(stack + [a[0]], a[1..], b);
      assert stack + [a[0]] + a[1..] == stack + a;
    }
  }

  // ---------------------------------------------------------------- strings against components

  /** The components before `k`, each with the separator behind it. */
  function Lead(cs: seq<string>, k: nat): string
    requires k <= |cs|
  {
    if k == 0 then [] else cs[0] + ("::" + Lead(cs[1..], k - 1))
  }

  lemma {:induction false} SkipComponent(s: string, i: nat, j: nat, c: string, rest: string)
    requires j <= i <= |s| && s[i..] == c + rest && IsComponent(c)
    ensures Scan(s, i, j) == Scan(s, i + |c|, j)
    decreases |c|
  {
    if c != [] {
      assert s[i] == (c + rest)[0] == c[0];
      assert s[i + 1..] == s[i..][1..] == c[1..] + rest;
      SkipComponent(s, i + 1, j, c[1..], rest);
    }
  }

  lemma CharsBehind(s: string, q: nat, rest: string)
    requires q <= |s| && s[q..] == "::" + rest
    ensures At(s, q) == ':' && At(s, q + 1) == ':' && q + 2 <= |s| && s[q + 2..] == rest
    ensures At(s, q + 2) == At(rest, 0) && At(s, q + 3) == At(rest, 1) && At(s, q + 4) == At(rest, 2)
  {
    var t := s[q..];
    assert |t| == 2 + |rest| && s[q] == t[0] && s[q + 1] == t[1];
    assert s[q + 2..] == t[2..] == rest;
    assert forall i :: 0 <= i < |rest| ==> s[q + 2 + i] == rest[i];
  }

  /** Whether the separator in front of the rest of a name starts an up-reference. */
  lemma UpIsUnderscore(cs: seq<string>)
    requires AreComponents(cs)
    ensures At(Join(cs), 0) == '_' && At(Join(cs), 1) == ':' && At(Join(cs), 2) == ':' <==> cs[0] == "_" && |cs| > 1
  {
    var c := cs[0];
    if |cs| > 1 {
      var rest := "::" + Join(cs[1..]);
      assert Join(cs) == c + rest;
      assert |c| == 1 ==> At(Join(cs), 1) == rest[0] && At(Join(cs), 2) == rest[1];
      assert |c| == 0 ==> At(Join(cs), 0) == rest[0];
      assert |c| >= 2 ==> At(Join(cs), 1) == c[1];
    }
  }

  /** The scan from the start of a component, which is behind `before`. */
  lemma {:induction false} ScanComponents(before: string, cs: seq<string>, s: string)
    requires AreComponents(cs) && s == before + Join(cs)
    ensures var p := |before|;
      match FirstUp(cs)
      case None => Scan(s, p, p) == None
      case Some(k) => Scan(s, p, p) == Some(Found(p + |Lead(cs, k - 1)|, p + |Lead(cs, k + 1)|))
    decreases |cs|
  {
    var p, c, q := |before|, cs[0], |before| + |cs[0]|;
    assert s[p..] == Join(cs);
    if |cs| == 1 {
      assert c + [] == c;
      SkipComponent(s, p, p, c, []);
    } else {
      var rest := Join(cs[1..]);
      SkipComponent(s, p, p, c, "::" + rest);
      assert s[q..] == s[p..][|c|..] == "::" + rest;
      CharsBehind(s, q, rest);
      UpIsUnderscore(cs[1..]);
      if cs[1] == "_" && |cs| > 2 {
        assert Lead(cs, 2) == c + ("::" + ("_" + ("::" + Lead(cs[1..][1..], 0))));
        assert |Lead(cs, 2)| == |c| + 5;
      } else {
        var before' := before + (c + "::");
        assert s == before' + rest;
        assert |before'| == q + 2;
        ScanComponents(before', cs[1..], s);
        ScanNext(cs);
      }
    }
  }

  lemma ScanNext(cs: seq<string>)
    requires cs != [] && |cs| > 1 && !(cs[1] == "_" && |cs| > 2)
    ensures match FirstUp(cs)
            case None => FirstUp(cs[1..]) == None
            case Some(k) =>
              && k >= 2 && FirstUp(cs[1..]) == Some(k - 1)
              && |Lead(cs, k - 1)| == |cs[0]| + 2 + |Lead(cs[1..], k - 2)|
              && |Lead(cs, k + 1)| == |cs[0]| + 2 + |Lead(cs[1..], k)|
  {
  }

  lemma {:induction false} JoinAt(cs: seq<string>, k: nat)
    requires k < |cs|
    ensures Join(cs) == Lead(cs, k) + Join(cs[k..])
    decreases |cs|
  {
    if k > 0 {
      JoinAt(cs[1..], k - 1);
      assert cs[1..][k - 1..] == cs[k..];
      var x, y, z := cs[0], Lead(cs[1..], k - 1), Join(cs[k..]);
      assert x + ("::" + (y + z)) == x + ("::" + y) + z;
    } else {
      assert cs[0..] == cs;
    }
  }

  lemma {:induction false} JoinOfConcat(a: seq<string>, b: seq<string>)
    requires b != []
    ensures Join(a + b) == Lead(a + b, |a|) + Join(b)
  {
    JoinAt(a + b, |a|);
    assert (a + b)[|a|..] == b;
  }

  lemma {:induction false} LeadOfPrefix(a: seq<string>, b: seq<string>, b': seq<string>)
    ensures Lead(a + b, |a|) == Lead(a + b', |a|)
  {
    if a != [] {
      LeadOfPrefix(a[1..], b, b');
      assert (a + b)[1..] == a[1..] + b && (a + b')[1..] == a[1..] + b';
    }
  }

  /** Pulling the end of a name down takes a component and the underscore behind it away. */
  lemma PullDown(cs: seq<string>, k: nat)
    requires AreComponents(cs) && FirstUp(cs) == Some(k)
    ensures var s := Join(cs);
      |Lead(cs, k - 1)| <= |Lead(cs, k + 1)| <= |s|
      && s[..|Lead(cs, k - 1)|] + s[|Lead(cs, k + 1)|..] == Join(Removed(cs, k))
    ensures AreComponents(Removed(cs, k))
  {
    var s, a, b := Join(cs), cs[..k - 1], cs[k + 1..];
    JoinAt(cs, k - 1);
    JoinAt(cs, k + 1);
    ScanComponents([], cs, s);
    assert [] + s == s;
    assert cs == a + cs[k - 1..];
    LeadOfPrefix(a, cs[k - 1..], b);
    JoinOfConcat(a, b);
    assert s[..|Lead(cs, k - 1)|] == Lead(cs, k - 1);
    assert s[|Lead(cs, k + 1)|..] == Join(b);
    forall i | 0 <= i < |Removed(cs, k)| ensures IsComponent(Removed(cs, k)[i]) {
      assert Removed(cs, k)[i] == cs[if i < k - 1 then i else i + 2];
    }
  }

  /** For a name that is made of components the loop gives what the single pass gives. */
  lemma {:induction false} CleanIsFold(cs: seq<string>)
    requires AreComponents(cs)
    ensures Clean(Join(cs)) == Join(Fold([], cs))
    decreases |cs|
  {
    var s := Join(cs);
    ScanComponents([], cs, s);
    assert [] + s == s;
    match FirstUp(cs)
    case None =>
      FoldPushes([], cs);
      assert [] + cs == cs;
    case Some(k) =>
      PullDown(cs, k);
      FoldOfRemoved(cs, k);
      CleanIsFold(Removed(cs, k));
  }

  /** One step up from a package; and an underscore with nothing before it stays. */
  lemma OneStepUp(a: string, b: string)
    requires IsComponent(a) && IsComponent(b)
    ensures Clean(a + "::_::" + b) == b && Clean("_::" + b) == "_::" + b
  {
    var two, cs := ["_", b], [a, "_", b];
    assert two[1..] == [b] && cs[1..] == two;
    assert Join(two) == "_" + ("::" + b) == "_::" + b;
    assert Join(cs) == a + ("::" + Join(two));
    assert a + ("::" + ("_::" + b)) == a + "::_::" + b;
    assert [] + [a] == [a] && [a][..0] == [] && [] + [b] == [b] && [] + ["_"] == ["_"] && ["_"] + [b] == two;
    assert Fold([a], two) == Fold([], [b]) == [b];
    assert Fold([], cs) == [b];
    CleanIsFold(cs);
    assert Fold([], two) == Fold(["_"], [b]) == two;
    CleanIsFold(two);
  }

  // ---------------------------------------------------------------- in place

  /** The zero-terminated name in a buffer. */
  ghost predicate HasName(a: array<char>, s: string)
    reads a
  {
    |s| < a.Length && a[..|s|] == s && a[|s|] == ZCHAR && forall i :: 0 <= i < |s| ==> s[i] != ZCHAR
  }

  /** ex_CleanNamePath */
  method CleanNamePath(s: array<char>, ghost name: string)
    requires HasName(s, name)
    modifies s
    ensures HasName(s, Clean(name))
  {
    ghost var now := name;
    while true
      invariant HasName(s, now) && Clean(now) == Clean(name)
      decreases |now|
    {
      var f := FindUp(s, now);
      if f == None {
        return;
      }
      PullEnd(s, f.value.from, f.value.to, now);
      now := now[..f.value.from] + now[f.value.to..];
    }
  }

  /** The for loop: the place of an up-reference and of the component before it. */
  method FindUp(s: array<char>, ghost name: string) returns (f: Option<Found>)
    requires HasName(s, name)
    ensures f == Scan(name, 0, 0)
  {
    var i, j := 0, 0;
    while s[i] != ZCHAR
      invariant j <= i <= |name| && Scan(name, 0, 0) == Scan(name, i, j)
      decreases |name| - i
    {
      InBuffer(s, name, i);
      if s[i] == ':' && s[i + 1] == ':' && s[i + 2] == '_' && s[i + 3] == ':' && s[i + 4] == ':' {
        return Some(Found(j, i + 5));
      }
      if s[i] == ':' && s[i + 1] == ':' {
        j := i + 2;
        i := i + 1;
      }
      i := i + 1;
    }
    InBuffer(s, name, i);
    f := None;
  }

  /** Reading on while the characters are not zero stays in the buffer. */
  lemma InBuffer(s: array<char>, name: string, i: nat)
    requires HasName(s, name) && i <= |name|
    ensures s[i] == At(name, i)
    ensures s[i] != ZCHAR ==> i + 1 < s.Length && s[i + 1] == At(name, i + 1)
    ensures s[i] != ZCHAR && s[i + 1] != ZCHAR ==> i + 2 < s.Length && s[i + 2] == At(name, i + 2)
    ensures s[i] != ZCHAR && s[i + 1] != ZCHAR && s[i + 2] != ZCHAR ==> i + 3 < s.Length && s[i + 3] == At(name, i + 3)
    ensures s[i] != ZCHAR && s[i + 1] != ZCHAR && s[i + 2] != ZCHAR && s[i + 3] != ZCHAR ==> i + 4 < s.Length && s[i + 4] == At(name, i + 4)
  {
    assert forall k :: 0 <= k < |name| ==> s[k] == s[..|name|][k];
  }

  /** while( s[j]=s[i] )i++,j++; */
  method PullEnd(s: array<char>, from: nat, to: nat, ghost name: string)
    requires HasName(s, name) && from < to <= |name|
    modifies s
    ensures HasName(s, name[..from] + name[to..])
  {
    ghost var was := s[..];
    assert forall k :: 0 <= k < |name| ==> was[k] == s[..|name|][k];
    var i, j := to, from;
    s[j] := s[i];
    while s[j] != ZCHAR
      invariant to <= i <= |name| && j == from + (i - to) && s[j] == was[i]
      invariant forall k :: 0 <= k < from ==> s[k] == was[k]
      invariant forall k :: from <= k <= j ==> s[k] == was[k + (to - from)]
      invariant forall k :: j < k < s.Length ==> s[k] == was[k]
      decreases |name| - i
    {
      i, j := i + 1, j + 1;
      s[j] := s[i];
    }
    ghost var now := name[..from] + name[to..];
    assert forall k :: 0 <= k < |now| ==> s[k] == now[k];
    assert s[..|now|] == now;
  }

  /** Cleaning the name in a buffer never lengthens it; a name made of components becomes what one pass with a
      stack gives. */
  method CleanComponents(s: array<char>, ghost cs: seq<string>)
    requires AreComponents(cs) && HasName(s, Join(cs))
    modifies s
    ensures HasName(s, Join(Fold([], cs))) && |Join(Fold([], cs))| <= |Join(cs)|
  {
    CleanNamePath(s, Join(cs));
    CleanIsFold(cs);
  }
}
