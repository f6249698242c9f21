/** Simple pattern matching (match.c): a backtracking matcher that writes what each joker matched
    into a caller's buffer. Characters are bytes; those of the C locale decide case and white space. */
module Match {
  /** Reading position past the end of a pattern gives the terminating zero. */
  const NUL: char := '\0'

  /** The characters that can be jokers. */
  const JOKERS := "*#$@?&%!+/|<>"

  datatype Kind = NoJoker | SingleJoker | MultiJoker

  /** The kind of a joker character, and 32 bytes that say which characters it matches. */
  datatype Joker = Joker(kind: Kind, bits: seq<nat>)

  /** tMatchSets: one entry for each joker character. */
  type MatchSets = map<char, Joker>

  /** All that the matcher needs to know: the escape character, the space and NUL are no jokers. */
  predicate Proper(ms: MatchSets) {
    '~' !in ms && ' ' !in ms && NUL !in ms
  }

  datatype Error = Success | ArrayShort | BufferShort | SyntaxError

  // ---------------------------------------------------------------- single characters

  /** Position of `ch` among the joker characters counted from 1, or 0. */
  function JokerIndex(ch: char, from: nat := 0): (i: nat)
    requires from <= |JOKERS|
    ensures i <= |JOKERS|
    ensures i == 0 ==> ch !in JOKERS[from..]
    ensures i > 0 ==> i > from && JOKERS[i - 1] == ch && ch !in JOKERS[from..i - 1]
    decreases |JOKERS| - from
  {
    if from == |JOKERS| then 0
    else if JOKERS[from] == ch then from + 1
    else JokerIndex(ch, from + 1)
  }

  method MatchIndex(ch: char) returns (r: nat)
    ensures r == JokerIndex(ch)
  {
    var i := 0;
    while i < |JOKERS|
      invariant i <= |JOKERS|
      invariant JokerIndex(ch) == JokerIndex(ch, i)
    {
      if JOKERS[i] == ch {
        return i + 1;
      }
      i := i + 1;
    }
    return 0;
  }

  predicate IsMulti(ms: MatchSets, ch: char) {
    ch in ms && ms[ch].kind == MultiJoker
  }

  predicate IsSingle(ms: MatchSets, ch: char) {
    ch in ms && ms[ch].kind == SingleJoker
  }

  function Power2(n: nat): (p: nat)
    ensures p > 0
  {
    if n == 0 then 1 else 2 * Power2(n - 1)
  }

  /** JokerMatch as written: the byte is shifted down but not masked, so a character also matches
      when a later character of the same eight is in the set. */
  predicate JokerMatch(bits: seq<nat>, ch: char) {
    ch as int / 8 < |bits| && bits[ch as int / 8] / Power2(ch as int % 8) != 0
  }

  function Upper(ch: char): char {
    if 'a' <= ch <= 'z' then ch - 'a' + 'A' else ch
  }

  predicate IsSpace(ch: char) {
    ch == ' ' || ('\t' <= ch <= '\r')
  }

  /** `joker` accepts `ch`. */
  predicate Accepts(ms: MatchSets, fCase: bool, joker: char, ch: char) {
    joker in ms && JokerMatch(ms[joker].bits, if fCase then ch else Upper(ch))
  }

  predicate SameChar(fCase: bool, a: char, b: char) {
    if fCase then a == b else Upper(a) == Upper(b)
  }

  /** The length of the longest run of white space that `s` starts with. */
  function SpaceRun(s: string): (n: nat)
    ensures n <= |s|
    ensures forall i :: 0 <= i < n ==> IsSpace(s[i])
    ensures n < |s| ==> !IsSpace(s[n])
  {
    if s == [] || !IsSpace(s[0]) then 0 else 1 + SpaceRun(s[1..])
  }

  // ---------------------------------------------------------------- what a match is

  predicate Escaped(p: string) {
    |p| >= 2 && p[0] == '~'
  }

  /** One step of a pattern that has no choice in it: how much of the string it takes, 0 if it does not fit. */
  function Takes(ms: MatchSets, fCase: bool, p: string, s: string): (n: nat)
    requires p != [] && !IsMulti(ms, p[0])
    ensures n <= |s|
  {
    if s == [] then 0
    else if p[0] == '~' then (if |p| >= 2 && SameChar(fCase, p[1], s[0]) then 1 else 0)
    else if IsSingle(ms, p[0]) then (if Accepts(ms, fCase, p[0], s[0]) then 1 else 0)
    else if p[0] == ' ' then SpaceRun(s)
    else if SameChar(fCase, p[0], s[0]) then 1 else 0
  }

  /** What is left of a nonempty pattern after its first step. */
  function Next(p: string): (r: string)
    requires p != []
    ensures |r| < |p|
  {
    if Escaped(p) then p[2..] else p[1..]
  }

  /** What a step without choice captures: a single joker its character, everything else nothing. */
  function StepCapture(ms: MatchSets, p: string, s: string): seq<string>
    requires p != [] && s != []
  {
    if IsSingle(ms, p[0]) then [s[..1]] else []
  }

  /** `s` fits `p` when the multi-jokers, from left to right, take the given numbers of characters,
      at least one each. A space takes the longest run of white space. */
  ghost predicate Fits(ms: MatchSets, fCase: bool, p: string, s: string, lens: seq<nat>)
    decreases |p|
  {
    if p == [] then s == [] && lens == []
    else if IsMulti(ms, p[0]) then
      && lens != [] && 1 <= lens[0] <= |s|
      && (forall i :: 0 <= i < lens[0] ==> Accepts(ms, fCase, p[0], s[i]))
      && Fits(ms, fCase, p[1..], s[lens[0]..], lens[1..])
    else
      var n := Takes(ms, fCase, p, s);
      n > 0 && Fits(ms, fCase, Next(p), s[n..], lens)
  }

  /** What the jokers matched, in pattern order; spaces and ordinary characters leave nothing. */
  ghost function Captures(ms: MatchSets, fCase: bool, p: string, s: string, lens: seq<nat>): seq<string>
    requires Fits(ms, fCase, p, s, lens)
    decreases |p|
  {
    if p == [] then []
    else if IsMulti(ms, p[0]) then
      [s[..lens[0]]] + Captures(ms, fCase, p[1..], s[lens[0]..], lens[1..])
    else
      var n := Takes(ms, fCase, p, s);
      StepCapture(ms, p, s) + Captures(ms, fCase, Next(p), s[n..], lens)
  }

  /** Dictionary order on assignments of the same length. */
  ghost predicate NotAfter(a: seq<nat>, b: seq<nat>) {
    a == [] || b == [] || a[0] < b[0] || (a[0] == b[0] && NotAfter(a[1..], b[1..]))
  }

  /** The pattern ends in an escape character that escapes nothing. */
  predicate Dangling(p: string)
    decreases |p|
  {
    p != [] && (p == "~" || Dangling(Next(p)))
  }

  function Multis(ms: MatchSets, p: string): nat
    decreases |p|
  {
    if p == [] then 0 else (if IsMulti(ms, p[0]) then 1 else 0) + Multis(ms, Next(p))
  }

  function Jokers(ms: MatchSets, p: string): nat
    decreases |p|
  {
    if p == [] then 0 else (if IsMulti(ms, p[0]) || IsSingle(ms, p[0]) then 1 else 0) + Jokers(ms, Next(p))
  }

  lemma NextHasFewer(ms: MatchSets, p: string)
    requires p != []
    ensures Jokers(ms, p) == Jokers(ms, Next(p)) + (if IsMulti(ms, p[0]) || IsSingle(ms, p[0]) then 1 else 0)
    ensures Multis(ms, p) == Multis(ms, Next(p)) + (if IsMulti(ms, p[0]) then 1 else 0)
  {
  }

  // ---------------------------------------------------------------- what the search finds

  /** What a call comes to: no match; a match with these lengths for the multi-jokers; an error; or
      a match claimed only because a multi-joker took an error in the rest of the pattern for success. */
  datatype Verdict = Fails | Found(lens: seq<nat>) | Stops(error: Error) | Claims

  /** The search of match_match with room for `a` array entries and `b` characters. */
  function Outcome(ms: MatchSets, fCase: bool, p: string, s: string, a: int, b: int): Verdict
    decreases |p|, |s| + 1
  {
    if s == [] then (if p == [] then Found([]) else Fails)
    else if p == [] then Fails
    else if IsMulti(ms, p[0]) then
      if a == 0 then Stops(ArrayShort)
      else if b < 1 then Stops(BufferShort)
      else if !Accepts(ms, fCase, p[0], s[0]) then Fails
      else Grow(ms, fCase, p, s, a, b, 1)
    else if p == "~" then Stops(SyntaxError)
    else
      var n := Takes(ms, fCase, p, s);
      if n == 0 then Fails else Outcome(ms, fCase, Next(p), s[n..], a, b - |StepCapture(ms, p, s)|)
  }

  /** The search when the first multi-joker has taken `k` characters. */
  function Grow(ms: MatchSets, fCase: bool, p: string, s: string, a: int, b: int, k: nat): (v: Verdict)
    requires p != [] && 1 <= k <= |s|
    ensures v.Found? ==> v.lens != [] && k <= v.lens[0] <= |s|
    decreases |p|, |s| - k
  {
    match Outcome(ms, fCase, p[1..], s[k..], a - 1, b - k)
    case Fails =>
      if k == |s| || !Accepts(ms, fCase, p[0], s[k]) then Fails
      else if b - (k + 1) == 0 then Stops(BufferShort)
      else Grow(ms, fCase, p, s, a, b, k + 1)
    case Found(l) => Found([k] + l)
    case _ => Claims
  }

  // ---------------------------------------------------------------- the search against the definition

  /** What the search finds fits, whatever the sizes. */
  lemma {:induction false} SearchIsSound(ms: MatchSets, fCase: bool, p: string, s: string, a: int, b: int)
    requires Outcome(ms, fCase, p, s, a, b).Found?
    ensures Fits(ms, fCase, p, s, Outcome(ms, fCase, p, s, a, b).lens)
    decreases |p|, |s| + 1
  {
    if p != [] && s != [] {
      if IsMulti(ms, p[0]) {
        GrowIsSound(ms, fCase, p, s, a, b, 1);
      } else {
        SearchIsSound(ms, fCase, Next(p), s[Takes(ms, fCase, p, s)..], a, b - |StepCapture(ms, p, s)|);
      }
    }
  }

  lemma {:induction false} GrowIsSound(ms: MatchSets, fCase: bool, p: string, s: string, a: int, b: int, k: nat)
    requires p != [] && IsMulti(ms, p[0]) && 1 <= k <= |s|
    requires forall i :: 0 <= i < k ==> Accepts(ms, fCase, p[0], s[i])
    requires Grow(ms, fCase, p, s, a, b, k).Found?
    ensures Fits(ms, fCase, p, s, Grow(ms, fCase, p, s, a, b, k).lens)
    decreases |p|, |s| - k
  {
    var v := Outcome(ms, fCase, p[1..], s[k..], a - 1, b - k);
    if v.Found? {
      SearchIsSound(ms, fCase, p[1..], s[k..], a - 1, b - k);
      assert ([k] + v.lens)[1..] == v.lens;
    } else {
      GrowIsSound(ms, fCase, p, s, a, b, k + 1);
    }
  }

  /** If an assignment fits, the search does not fail; and what it finds does not come after it. */
  lemma {:induction false} SearchIsComplete(ms: MatchSets, fCase: bool, p: string, s: string, a: int, b: int, lens: seq<nat>)
    requires Fits(ms, fCase, p, s, lens)
    ensures var v := Outcome(ms, fCase, p, s, a, b);
      !v.Fails? && (v.Found? ==> NotAfter(v.lens, lens))
    decreases |p|, |s| + 1
  {
    if p != [] {
      if IsMulti(ms, p[0]) {
        if a != 0 && b >= 1 {
          GrowIsComplete(ms, fCase, p, s, a, b, 1, lens);
        }
      } else {
        SearchIsComplete(ms, fCase, Next(p), s[Takes(ms, fCase, p, s)..], a, b - |StepCapture(ms, p, s)|, lens);
      }
    }
  }

  lemma {:induction false} GrowIsComplete(ms: MatchSets, fCase: bool, p: string, s: string, a: int, b: int, k: nat, lens: seq<nat>)
    requires p != [] && IsMulti(ms, p[0])
    requires Fits(ms, fCase, p, s, lens) && 1 <= k <= lens[0]
    ensures var v := Grow(ms, fCase, p, s, a, b, k);
      !v.Fails? && (v.Found? ==> NotAfter(v.lens, lens))
    decreases |p|, |s| - k
  {
    var v := Outcome(ms, fCase, p[1..], s[k..], a - 1, b - k);
    if k == lens[0] {
      SearchIsComplete(ms, fCase, p[1..], s[k..], a - 1, b - k, lens[1..]);
      assert v.Found? ==> ([k] + v.lens)[1..] == v.lens;
    } else if v.Fails? {
      assert Accepts(ms, fCase, p[0], s[k]);
      if b - (k + 1) != 0 {
        GrowIsComplete(ms, fCase, p, s, a, b, k + 1, lens);
      }
    }
  }

  /** Room for every multi-joker, and for one character more than the string has. */
  predicate Ample(ms: MatchSets, p: string, s: string, a: int, b: int) {
    Multis(ms, p) <= a && |s| < b
  }

  /** With ample room and no dangling escape, there are no errors and no unfounded claims. */
  lemma {:induction false} SearchDecides(ms: MatchSets, fCase: bool, p: string, s: string, a: int, b: int)
    requires Proper(ms) && Ample(ms, p, s, a, b) && !Dangling(p)
    ensures var v := Outcome(ms, fCase, p, s, a, b); v.Fails? || v.Found?
    decreases |p|, |s| + 1
  {
    if p != [] && s != [] {
      NextHasFewer(ms, p);
      if !IsMulti(ms, p[0]) {
        if Takes(ms, fCase, p, s) > 0 {
          SearchDecides(ms, fCase, Next(p), s[Takes(ms, fCase, p, s)..], a, b - |StepCapture(ms, p, s)|);
        }
      } else if Accepts(ms, fCase, p[0], s[0]) {
        GrowDecides(ms, fCase, p, s, a, b, 1);
      }
    }
  }

  lemma {:induction false} GrowDecides(ms: MatchSets, fCase: bool, p: string, s: string, a: int, b: int, k: nat)
    requires Proper(ms) && Ample(ms, p, s, a, b) && !Dangling(p)
    requires p != [] && IsMulti(ms, p[0]) && 1 <= k <= |s|
    ensures var v := Grow(ms, fCase, p, s, a, b, k); v.Fails? || v.Found?
    decreases |p|, |s| - k
  {
    NextHasFewer(ms, p);
    SearchDecides(ms, fCase, p[1..], s[k..], a - 1, b - k);
    if k < |s| && Accepts(ms, fCase, p[0], s[k]) {
      GrowDecides(ms, fCase, p, s, a, b, k + 1);
    }
  }

  lemma {:induction false} DanglingNeverFits(ms: MatchSets, fCase: bool, p: string, s: string, lens: seq<nat>)
    requires Proper(ms) && Dangling(p)
    ensures !Fits(ms, fCase, p, s, lens)
    decreases |p|
  {
    if p != "~" {
      if IsMulti(ms, p[0]) {
        if lens != [] && 1 <= lens[0] <= |s| {
          DanglingNeverFits(ms, fCase, p[1..], s[lens[0]..], lens[1..]);
        }
      } else {
        DanglingNeverFits(ms, fCase, Next(p), s[Takes(ms, fCase, p, s)..], lens);
      }
    }
  }

  /** Like Fits, up to a dangling escape, or to a multi-joker for which none of `a` array entries is left, and with
      string left. */
  ghost predicate RunsInto(ms: MatchSets, fCase: bool, p: string, s: string, a: int, lens: seq<nat>)
    decreases |p|
  {
    if p == "~" then s != [] && lens == []
    else if p == [] then false
    else if IsMulti(ms, p[0]) && a == 0 then s != [] && lens == []
    else if IsMulti(ms, p[0]) then
      && lens != [] && 1 <= lens[0] <= |s|
      && (forall i :: 0 <= i < lens[0] ==> Accepts(ms, fCase, p[0], s[i]))
      && RunsInto(ms, fCase, p[1..], s[lens[0]..], a - 1, lens[1..])
    else
      var n := Takes(ms, fCase, p, s);
      n > 0 && RunsInto(ms, fCase, Next(p), s[n..], a, lens)
  }

  /** Some lengths lead to such a place before the string is used up. */
  ghost predicate Reaches(ms: MatchSets, fCase: bool, p: string, s: string, a: int) {
    exists lens :: RunsInto(ms, fCase, p, s, a, lens)
  }

  /** The first multi-joker can take `k` characters or more on a way to such a place. */
  ghost predicate ReachesFrom(ms: MatchSets, fCase: bool, p: string, s: string, a: int, k: nat)
    requires p != []
  {
    exists l :: k <= l <= |s| && AcceptsAll(ms, fCase, p[0], s[..l]) && Reaches(ms, fCase, p[1..], s[l..], a - 1)
  }

  predicate AcceptsAll(ms: MatchSets, fCase: bool, joker: char, taken: string) {
    forall i :: 0 <= i < |taken| ==> Accepts(ms, fCase, joker, taken[i])
  }

  lemma ReachesStep(ms: MatchSets, fCase: bool, p: string, s: string, a: int)
    requires p != [] && p != "~"
    ensures IsMulti(ms, p[0]) && a != 0 ==> (Reaches(ms, fCase, p, s, a) <==> ReachesFrom(ms, fCase, p, s, a, 1))
    ensures !IsMulti(ms, p[0]) ==>
      var n := Takes(ms, fCase, p, s);
      Reaches(ms, fCase, p, s, a) <==> n > 0 && Reaches(ms, fCase, Next(p), s[n..], a)
    ensures IsMulti(ms, p[0]) && a == 0 ==> (Reaches(ms, fCase, p, s, a) <==> s != [])
  {
    if IsMulti(ms, p[0]) && a == 0 {
      assert s != [] ==> RunsInto(ms, fCase, p, s, a, []);
    } else if IsMulti(ms, p[0]) {
      if Reaches(ms, fCase, p, s, a) {
        var lens :| RunsInto(ms, fCase, p, s, a, lens);
        assert RunsInto(ms, fCase, p[1..], s[lens[0]..], a - 1, lens[1..]);
        assert AcceptsAll(ms, fCase, p[0], s[..lens[0]]) && Reaches(ms, fCase, p[1..], s[lens[0]..], a - 1);
      }
      if ReachesFrom(ms, fCase, p, s, a, 1) {
        var l :| 1 <= l <= |s| && AcceptsAll(ms, fCase, p[0], s[..l]) && Reaches(ms, fCase, p[1..], s[l..], a - 1);
        var lens :| RunsInto(ms, fCase, p[1..], s[l..], a - 1, lens);
        assert ([l] + lens)[1..] == lens;
        forall i | 0 <= i < l ensures Accepts(ms, fCase, p[0], s[i]) {
          assert s[..l][i] == s[i];
        }
        assert RunsInto(ms, fCase, p, s, a, [l] + lens);
      }
    } else {
      var n := Takes(ms, fCase, p, s);
      assert forall lens :: RunsInto(ms, fCase, p, s, a, lens) <==> n > 0 && RunsInto(ms, fCase, Next(p), s[n..], a, lens);
    }
  }

  /** The pattern has a dangling escape, or more multi-jokers than there are array entries. */
  predicate Faulty(ms: MatchSets, p: string, a: int) {
    Dangling(p) || Multis(ms, p) > a
  }

  /** A multi-joker takes any error in the rest of the pattern for success. So with a buffer that is large enough a
      faulty pattern fails exactly on the strings on which nothing leads to the place of the error; on the others
      it claims a match if a multi-joker comes before that place, and reports the error if not. */
  lemma {:induction false} FaultsAreClaimed(ms: MatchSets, fCase: bool, p: string, s: string, a: int, b: int)
    requires Proper(ms) && 0 <= a && |s| < b && Faulty(ms, p, a)
    ensures Outcome(ms, fCase, p, s, a, b) ==
              if !Reaches(ms, fCase, p, s, a) then Fails
              else if Multis(ms, p) == 0 then Stops(SyntaxError)
              else if a == 0 then Stops(ArrayShort)
              else Claims
    decreases |p|, |s| + 1
  {
    if p == "~" {
      assert Next(p) == [];
      assert s != [] ==> RunsInto(ms, fCase, p, s, a, []);
    } else {
      NextHasFewer(ms, p);
      ReachesStep(ms, fCase, p, s, a);
      if s != [] && IsMulti(ms, p[0]) {
        if a == 0 {
        } else if Accepts(ms, fCase, p[0], s[0]) {
          assert AcceptsAll(ms, fCase, p[0], s[..1]);
          GrowClaims(ms, fCase, p, s, a, b, 1);
        } else {
          NothingToReach(ms, fCase, p, s, a, 0);
        }
      } else if s != [] && Takes(ms, fCase, p, s) > 0 {
        FaultsAreClaimed(ms, fCase, Next(p), s[Takes(ms, fCase, p, s)..], a, b - |StepCapture(ms, p, s)|);
      }
    }
  }

  lemma ReachesFromNext(ms: MatchSets, fCase: bool, p: string, s: string, a: int, k: nat)
    requires p != [] && k <= |s|
    ensures ReachesFrom(ms, fCase, p, s, a, k) <==>
              (AcceptsAll(ms, fCase, p[0], s[..k]) && Reaches(ms, fCase, p[1..], s[k..], a - 1)) || ReachesFrom(ms, fCase, p, s, a, k + 1)
  {
  }

  lemma AcceptsOneMore(ms: MatchSets, fCase: bool, joker: char, s: string, k: nat)
    requires k < |s| && AcceptsAll(ms, fCase, joker, s[..k]) && Accepts(ms, fCase, joker, s[k])
    ensures AcceptsAll(ms, fCase, joker, s[..k + 1])
  {
    assert s[..k + 1] == s[..k] + [s[k]];
  }

  lemma GrowStep(ms: MatchSets, fCase: bool, p: string, s: string, a: int, b: int, k: nat)
    requires p != [] && 1 <= k <= |s|
    ensures
      var v, more := Outcome(ms, fCase, p[1..], s[k..], a - 1, b - k), k < |s| && Accepts(ms, fCase, p[0], s[k]);
      && (v.Claims? || v.Stops? ==> Grow(ms, fCase, p, s, a, b, k) == Claims)
      && (v.Fails? && !more ==> Grow(ms, fCase, p, s, a, b, k) == Fails)
      && (v.Fails? && more && b != k + 1 ==> Grow(ms, fCase, p, s, a, b, k) == Grow(ms, fCase, p, s, a, b, k + 1))
  {
  }

  lemma NothingToReach(ms: MatchSets, fCase: bool, p: string, s: string, a: int, k: nat)
    requires p != [] && k <= |s| && (k == |s| || !Accepts(ms, fCase, p[0], s[k]))
    ensures !ReachesFrom(ms, fCase, p, s, a, k + 1)
  {
    forall l | k + 1 <= l <= |s| ensures !AcceptsAll(ms, fCase, p[0], s[..l]) {
      assert s[..l][k] == s[k];
    }
  }

  lemma {:induction false} GrowClaims(ms: MatchSets, fCase: bool, p: string, s: string, a: int, b: int, k: nat)
    requires Proper(ms) && 0 < a && |s| < b && Faulty(ms, p, a)
    requires p != [] && IsMulti(ms, p[0]) && 1 <= k <= |s| && AcceptsAll(ms, fCase, p[0], s[..k])
    ensures Grow(ms, fCase, p, s, a, b, k) == if ReachesFrom(ms, fCase, p, s, a, k) then Claims else Fails
    decreases |p|, |s| - k
  {
    NextHasFewer(ms, p);
    FaultsAreClaimed(ms, fCase, p[1..], s[k..], a - 1, b - k);
    GrowStep(ms, fCase, p, s, a, b, k);
    ReachesFromNext(ms, fCase, p, s, a, k);
    if Reaches(ms, fCase, p[1..], s[k..], a - 1) {
    } else if k < |s| && Accepts(ms, fCase, p[0], s[k]) {
      AcceptsOneMore(ms, fCase, p[0], s, k);
      GrowClaims(ms, fCase, p, s, a, b, k + 1);
    } else {
      NothingToReach(ms, fCase, p, s, a, k);
    }
  }

  /** Too few array entries are reported for a first multi-joker without any entry, and never otherwise. */
  lemma {:induction false} ShortArrayIsReported(ms: MatchSets, fCase: bool, p: string, s: string, a: int, b: int)
    requires Outcome(ms, fCase, p, s, a, b) == Stops(ArrayShort)
    ensures a == 0 && Multis(ms, p) > 0
    decreases |p|
  {
    NextHasFewer(ms, p);
    if IsMulti(ms, p[0]) {
      if a != 0 {
        GrowReports(ms, fCase, p, s, a, b, 1);
      }
    } else {
      ShortArrayIsReported(ms, fCase, Next(p), s[Takes(ms, fCase, p, s)..], a, b - |StepCapture(ms, p, s)|);
    }
  }

  lemma {:induction false} GrowReports(ms: MatchSets, fCase: bool, p: string, s: string, a: int, b: int, k: nat)
    requires p != [] && 1 <= k <= |s|
    ensures Grow(ms, fCase, p, s, a, b, k) != Stops(ArrayShort)
    decreases |s| - k
  {
    if k < |s| {
      GrowReports(ms, fCase, p, s, a, b, k + 1);
    }
  }

  // ---------------------------------------------------------------- any sizes

  /** Where the search comes to when the multi-jokers take the given numbers of characters, without any other
      choice: to a match, to the place of an error, or to nothing. An error is reported if no multi-joker comes
      before its place, and otherwise a match is claimed. A multi-joker cannot take a second or later character
      that is the last one the buffer has room for; room for one character is not told from ample room. */
  ghost function Along(ms: MatchSets, fCase: bool, p: string, s: string, a: int, b: int, lens: seq<nat>): Verdict
    decreases |p|
  {
    if s == [] then (if p == [] && lens == [] then Found([]) else Fails)
    else if p == [] then Fails
    else if IsMulti(ms, p[0]) then
      if a == 0 || b < 1 then
        if lens != [] then Fails else Stops(if a == 0 then ArrayShort else BufferShort)
      else if lens == [] || !(1 <= lens[0] <= |s|) || !AcceptsAll(ms, fCase, p[0], s[..lens[0]]) then Fails
      else if 2 <= b <= lens[0] then
        if lens == [b] then Stops(BufferShort) else Fails
      else
        match Along(ms, fCase, p[1..], s[lens[0]..], a - 1, b - lens[0], lens[1..])
        case Fails => Fails
        case Found(l) => Found([lens[0]] + l)
        case _ => Claims
    else if p == "~" then (if lens == [] then Stops(SyntaxError) else Fails)
    else
      var n := Takes(ms, fCase, p, s);
      if n == 0 then Fails else Along(ms, fCase, Next(p), s[n..], a, b - |StepCapture(ms, p, s)|, lens)
  }

  /** `first` leads to `v`, and no lengths that lead anywhere come before it; or no lengths lead anywhere. */
  ghost predicate IsFirstWay(ms: MatchSets, fCase: bool, p: string, s: string, a: int, b: int, v: Verdict, first: seq<nat>) {
    if v.Fails? then forall lens :: Along(ms, fCase, p, s, a, b, lens).Fails?
    else
      && Along(ms, fCase, p, s, a, b, first) == v
      && forall lens :: !Along(ms, fCase, p, s, a, b, lens).Fails? ==> NotAfter(first, lens)
  }

  /** For all patterns, strings and sizes the search comes to what the first lengths that lead anywhere come to. */
  lemma {:induction false} SearchTakesFirstWay(ms: MatchSets, fCase: bool, p: string, s: string, a: int, b: int)
    returns (first: seq<nat>)
    ensures IsFirstWay(ms, fCase, p, s, a, b, Outcome(ms, fCase, p, s, a, b), first)
    decreases |p|, |s| + 1
  {
    first := [];
    if s != [] && p != [] {
      if IsMulti(ms, p[0]) {
        if a != 0 && b >= 1 {
          if Accepts(ms, fCase, p[0], s[0]) {
            first := GrowTakesFirstWay(ms, fCase, p, s, a, b, 1);
            forall lens | !Along(ms, fCase, p, s, a, b, lens).Fails? ensures LeadsFrom(ms, fCase, p, s, a, b, 1, lens) {
            }
          } else {
            forall lens ensures Along(ms, fCase, p, s, a, b, lens).Fails? {
              NoLongerWay(ms, fCase, p, s, a, b, 0, lens);
            }
          }
        }
      } else if p != "~" && Takes(ms, fCase, p, s) > 0 {
        first := SearchTakesFirstWay(ms, fCase, Next(p), s[Takes(ms, fCase, p, s)..], a, b - |StepCapture(ms, p, s)|);
      }
    }
  }

  /** The lengths lead somewhere, and the first joker takes `k` characters or more. */
  ghost predicate LeadsFrom(ms: MatchSets, fCase: bool, p: string, s: string, a: int, b: int, k: nat, lens: seq<nat>) {
    lens != [] && lens[0] >= k && !Along(ms, fCase, p, s, a, b, lens).Fails?
  }

  lemma {:induction false} GrowTakesFirstWay(ms: MatchSets, fCase: bool, p: string, s: string, a: int, b: int, k: nat)
    returns (first: seq<nat>)
    requires p != [] && IsMulti(ms, p[0]) && 1 <= k <= |s| && AcceptsAll(ms, fCase, p[0], s[..k])
    requires a != 0 && b >= 1 && (b == 1 || k < b)
    ensures IsFirstFrom(ms, fCase, p, s, a, b, k, Grow(ms, fCase, p, s, a, b, k), first)
    decreases |p|, |s| - k
  {
    var rest := SearchTakesFirstWay(ms, fCase, p[1..], s[k..], a - 1, b - k);
    var v := Outcome(ms, fCase, p[1..], s[k..], a - 1, b - k);
    if !v.Fails? {
      first := [k] + rest;
      FoundHere(ms, fCase, p, s, a, b, k, rest);
    } else if k == |s| || !Accepts(ms, fCase, p[0], s[k]) {
      first := [];
      forall lens ensures !LeadsFrom(ms, fCase, p, s, a, b, k, lens) {
        NotHere(ms, fCase, p, s, a, b, k, rest, lens);
        NoLongerWay(ms, fCase, p, s, a, b, k, lens);
      }
    } else {
      AcceptsOneMore(ms, fCase, p[0], s, k);
      if b == k + 1 {
        first := [k + 1];
        assert Along(ms, fCase, p, s, a, b, first) == Stops(BufferShort);
      } else {
        first := GrowTakesFirstWay(ms, fCase, p, s, a, b, k + 1);
      }
      forall lens | LeadsFrom(ms, fCase, p, s, a, b, k, lens) ensures LeadsFrom(ms, fCase, p, s, a, b, k + 1, lens) {
        NotHere(ms, fCase, p, s, a, b, k, rest, lens);
      }
      GrowGoesOn(ms, fCase, p, s, a, b, k);
    }
  }

  /** Of the lengths with `k` characters or more for the first joker, `first` leads to `v` and comes first. */
  ghost predicate IsFirstFrom(ms: MatchSets, fCase: bool, p: string, s: string, a: int, b: int, k: nat, v: Verdict, first: seq<nat>) {
    if v.Fails? then forall lens {:trigger LeadsFrom(ms, fCase, p, s, a, b, k, lens)} :: !LeadsFrom(ms, fCase, p, s, a, b, k, lens)
    else
      && LeadsFrom(ms, fCase, p, s, a, b, k, first) && Along(ms, fCase, p, s, a, b, first) == v
      && forall lens {:trigger LeadsFrom(ms, fCase, p, s, a, b, k, lens)} ::
           LeadsFrom(ms, fCase, p, s, a, b, k, lens) ==> NotAfter(first, lens)
  }

  lemma GrowGoesOn(ms: MatchSets, fCase: bool, p: string, s: string, a: int, b: int, k: nat)
    requires p != [] && 1 <= k < |s| && Accepts(ms, fCase, p[0], s[k])
    requires Outcome(ms, fCase, p[1..], s[k..], a - 1, b - k).Fails?
    ensures Grow(ms, fCase, p, s, a, b, k) == if b == k + 1 then Stops(BufferShort) else Grow(ms, fCase, p, s, a, b, k + 1)
  {
  }

  /** Nothing leads anywhere when the first joker takes `k` characters. */
  lemma NotHere(ms: MatchSets, fCase: bool, p: string, s: string, a: int, b: int, k: nat, rest: seq<nat>, lens: seq<nat>)
    requires p != [] && IsMulti(ms, p[0]) && 1 <= k <= |s| && AcceptsAll(ms, fCase, p[0], s[..k])
    requires a != 0 && b >= 1 && (b == 1 || k < b)
    requires IsFirstWay(ms, fCase, p[1..], s[k..], a - 1, b - k, Fails, rest)
    ensures LeadsFrom(ms, fCase, p, s, a, b, k, lens) ==> LeadsFrom(ms, fCase, p, s, a, b, k + 1, lens)
  {
    if lens != [] && lens[0] == k {
      AlongRest(ms, fCase, p, s, a, b, k, lens[1..]);
      assert lens == [k] + lens[1..];
    }
  }

  /** The first joker takes `k` characters. */
  lemma FoundHere(ms: MatchSets, fCase: bool, p: string, s: string, a: int, b: int, k: nat, rest: seq<nat>)
    requires p != [] && IsMulti(ms, p[0]) && 1 <= k <= |s| && AcceptsAll(ms, fCase, p[0], s[..k])
    requires a != 0 && b >= 1 && (b == 1 || k < b)
    requires var v := Outcome(ms, fCase, p[1..], s[k..], a - 1, b - k);
      !v.Fails? && IsFirstWay(ms, fCase, p[1..], s[k..], a - 1, b - k, v, rest)
    ensures IsFirstFrom(ms, fCase, p, s, a, b, k, Grow(ms, fCase, p, s, a, b, k), [k] + rest)
  {
    AlongRest(ms, fCase, p, s, a, b, k, rest);
    GrowStep(ms, fCase, p, s, a, b, k);
    forall lens | LeadsFrom(ms, fCase, p, s, a, b, k, lens) ensures NotAfter([k] + rest, lens) {
      assert ([k] + rest)[1..] == rest;
      if lens[0] == k {
        AlongRest(ms, fCase, p, s, a, b, k, lens[1..]);
        assert lens == [k] + lens[1..];
      }
    }
  }

  lemma NoLongerWay(ms: MatchSets, fCase: bool, p: string, s: string, a: int, b: int, k: nat, lens: seq<nat>)
    requires s != [] && p != [] && IsMulti(ms, p[0]) && k <= |s| && (k == |s| || !Accepts(ms, fCase, p[0], s[k])) && a != 0 && b >= 1
    ensures !LeadsFrom(ms, fCase, p, s, a, b, k + 1, lens)
    ensures k == 0 ==> Along(ms, fCase, p, s, a, b, lens).Fails?
  {
    if lens != [] && k + 1 <= lens[0] <= |s| {
      assert s[..lens[0]][k] == s[k];
    }
  }

  /** Ways on which the first joker takes `k` characters. */
  lemma AlongRest(ms: MatchSets, fCase: bool, p: string, s: string, a: int, b: int, k: nat, rest: seq<nat>)
    requires p != [] && IsMulti(ms, p[0]) && 1 <= k <= |s| && AcceptsAll(ms, fCase, p[0], s[..k])
    requires a != 0 && b >= 1 && (b == 1 || k < b)
    ensures Along(ms, fCase, p, s, a, b, [k] + rest) ==
              match Along(ms, fCase, p[1..], s[k..], a - 1, b - k, rest)
              case Fails => Fails
              case Found(l) => Found([k] + l)
              case _ => Claims
  {
    assert ([k] + rest)[1..] == rest;
  }

  /** Different lengths that lead somewhere do not come before each other both. */
  lemma {:induction false} WaysDiffer(ms: MatchSets, fCase: bool, p: string, s: string, a: int, b: int, f: seq<nat>, g: seq<nat>)
    requires !Along(ms, fCase, p, s, a, b, f).Fails? && !Along(ms, fCase, p, s, a, b, g).Fails?
    requires NotAfter(f, g) && NotAfter(g, f)
    ensures f == g
    decreases |p|
  {
    if s != [] && IsMulti(ms, p[0]) {
      if a != 0 && b >= 1 && !(2 <= b <= f[0]) {
        WaysDiffer(ms, fCase, p[1..], s[f[0]..], a - 1, b - f[0], f[1..], g[1..]);
        assert f == [f[0]] + f[1..] && g == [g[0]] + g[1..];
      }
    } else if s != [] && p != "~" {
      WaysDiffer(ms, fCase, Next(p), s[Takes(ms, fCase, p, s)..], a, b - |StepCapture(ms, p, s)|, f, g);
    }
  }

  /** The first way decides what a call comes to, whatever the sizes. So a match is claimed for an error exactly when
      the first lengths that lead anywhere lead to an error behind a multi-joker. */
  lemma OutcomeIsFirstWay(ms: MatchSets, fCase: bool, p: string, s: string, a: int, b: int, v: Verdict)
    ensures Outcome(ms, fCase, p, s, a, b) == v <==> exists first :: IsFirstWay(ms, fCase, p, s, a, b, v, first)
  {
    var w := Outcome(ms, fCase, p, s, a, b);
    var first := SearchTakesFirstWay(ms, fCase, p, s, a, b);
    forall other | IsFirstWay(ms, fCase, p, s, a, b, v, other) ensures v == w {
      if !v.Fails? && !w.Fails? {
        WaysDiffer(ms, fCase, p, s, a, b, first, other);
      }
    }
  }

  // ---------------------------------------------------------------- letters, escapes and spaces

  /** The same character, or the same letter of the other case. */
  predicate SameLetter(a: char, b: char) {
    a == b || ('a' <= a <= 'z' && a as int == b as int + 32) || ('a' <= b <= 'z' && b as int == a as int + 32)
  }

  /** The strings differ in nothing but the case of letters. */
  predicate Variants(s: string, s': string) {
    |s| == |s'| && forall i :: 0 <= i < |s| ==> SameLetter(s[i], s'[i])
  }

  /** Only joker characters are jokers. */
  predicate OverJokers(ms: MatchSets) {
    forall ch :: ch in ms ==> ch in JOKERS
  }

  lemma VariantsTail(s: string, s': string, n: nat)
    requires Variants(s, s') && n <= |s|
    ensures Variants(s[n..], s'[n..])
  {
  }

  /** A character that can have a meaning in a pattern has no other case. */
  lemma MeaningIsNoLetter(ms: MatchSets, a: char, b: char)
    requires OverJokers(ms) && SameLetter(a, b)
    ensures a in ms || a == '~' || a == ' ' || b in ms || b == '~' || b == ' ' ==> a == b
    ensures Upper(a) == Upper(b) && (IsSpace(a) <==> IsSpace(b))
  {
    assert forall ch :: ch in JOKERS ==> !IsAlpha(ch);
  }

  lemma {:induction false} VariantSpaces(s: string, s': string)
    requires Variants(s, s')
    ensures SpaceRun(s) == SpaceRun(s')
  {
    if s != [] {
      MeaningIsNoLetter(map[], s[0], s'[0]);
      VariantsTail(s, s', 1);
      VariantSpaces(s[1..], s'[1..]);
    }
  }

  /** What one step of a pattern takes does not depend on the case of letters. */
  lemma VariantStep(ms: MatchSets, p: string, s: string, p': string, s': string)
    requires OverJokers(ms) && Variants(p, p') && Variants(s, s') && p != []
    ensures (IsMulti(ms, p[0]) <==> IsMulti(ms, p'[0])) && (p == "~" <==> p' == "~")
    ensures Variants(Next(p), Next(p'))
    ensures !IsMulti(ms, p[0]) ==> Takes(ms, false, p', s') == Takes(ms, false, p, s)
    ensures s != [] ==> |StepCapture(ms, p', s')| == |StepCapture(ms, p, s)|
    ensures s != [] ==> (Accepts(ms, false, p'[0], s'[0]) <==> Accepts(ms, false, p[0], s[0]))
  {
    MeaningIsNoLetter(ms, p[0], p'[0]);
    if s != [] {
      MeaningIsNoLetter(ms, s[0], s'[0]);
    }
    if |p| >= 2 {
      MeaningIsNoLetter(ms, p[1], p'[1]);
    }
    VariantSpaces(s, s');
    VariantsTail(p, p', if Escaped(p) then 2 else 1);
  }

  /** With `fCase` false the case of letters, in the pattern and in the string, makes no difference to anything. */
  lemma {:induction false} CaseIsIgnored(ms: MatchSets, p: string, s: string, p': string, s': string, a: int, b: int)
    requires OverJokers(ms) && Variants(p, p') && Variants(s, s')
    ensures Outcome(ms, false, p', s', a, b) == Outcome(ms, false, p, s, a, b)
    decreases |p|, |s| + 2
  {
    if p != [] && s != [] {
      VariantStep(ms, p, s, p', s');
      OutcomeStep(ms, false, p, s, a, b);
      OutcomeStep(ms, false, p', s', a, b);
      if IsMulti(ms, p[0]) {
        if Accepts(ms, false, p[0], s[0]) {
          CaseIsIgnoredGrowing(ms, p, s, p', s', a, b, 1);
        }
      } else if p != "~" && Takes(ms, false, p, s) > 0 {
        var n := Takes(ms, false, p, s);
        VariantsTail(s, s', n);
        CaseIsIgnored(ms, Next(p), s[n..], Next(p'), s'[n..], a, b - |StepCapture(ms, p, s)|);
      }
    }
  }

  lemma OutcomeStep(ms: MatchSets, fCase: bool, p: string, s: string, a: int, b: int)
    requires p != [] && s != []
    ensures Outcome(ms, fCase, p, s, a, b) ==
              if IsMulti(ms, p[0]) then
                if a == 0 then Stops(ArrayShort)
                else if b < 1 then Stops(BufferShort)
                else if !Accepts(ms, fCase, p[0], s[0]) then Fails
                else Grow(ms, fCase, p, s, a, b, 1)
              else if p == "~" then Stops(SyntaxError)
              else if Takes(ms, fCase, p, s) == 0 then Fails
              else Outcome(ms, fCase, Next(p), s[Takes(ms, fCase, p, s)..], a, b - |StepCapture(ms, p, s)|)
  {
  }

  lemma {:induction false} CaseIsIgnoredGrowing(ms: MatchSets, p: string, s: string, p': string, s': string, a: int, b: int, k: nat)
    requires OverJokers(ms) && Variants(p, p') && Variants(s, s') && p != [] && IsMulti(ms, p[0]) && 1 <= k <= |s|
    ensures Grow(ms, false, p', s', a, b, k) == Grow(ms, false, p, s, a, b, k)
    decreases |p|, |s| - k + 1
  {
    CaseIsIgnoredBehind(ms, p, s, p', s', a, b, k);
    GrowUnfolds(ms, false, p, s, a, b, k);
    GrowUnfolds(ms, false, p', s', a, b, k);
    if k < |s| {
      AcceptsVariant(ms, p[0], s[k], p'[0], s'[k]);
      if Accepts(ms, false, p[0], s[k]) {
        CaseIsIgnoredGrowing(ms, p, s, p', s', a, b, k + 1);
      }
    }
  }

  lemma {:induction false} CaseIsIgnoredBehind(ms: MatchSets, p: string, s: string, p': string, s': string, a: int, b: int, k: nat)
    requires OverJokers(ms) && Variants(p, p') && Variants(s, s') && p != [] && 1 <= k <= |s|
    ensures Outcome(ms, false, p'[1..], s'[k..], a - 1, b - k) == Outcome(ms, false, p[1..], s[k..], a - 1, b - k)
    decreases |p|, 0
  {
    VariantsTail(p, p', 1);
    VariantsTail(s, s', k);
    CaseIsIgnored(ms, p[1..], s[k..], p'[1..], s'[k..], a - 1, b - k);
  }

  lemma AcceptsVariant(ms: MatchSets, joker: char, ch: char, joker': char, ch': char)
    requires OverJokers(ms) && SameLetter(joker, joker') && SameLetter(ch, ch')
    ensures Accepts(ms, false, joker', ch') <==> Accepts(ms, false, joker, ch)
  {
    MeaningIsNoLetter(ms, joker, joker');
    MeaningIsNoLetter(ms, ch, ch');
  }

  lemma GrowUnfolds(ms: MatchSets, fCase: bool, p: string, s: string, a: int, b: int, k: nat)
    requires p != [] && 1 <= k <= |s|
    ensures var v := Outcome(ms, fCase, p[1..], s[k..], a - 1, b - k);
      Grow(ms, fCase, p, s, a, b, k) ==
        if v.Found? then Found([k] + v.lens)
        else if !v.Fails? then Claims
        else if k == |s| || !Accepts(ms, fCase, p[0], s[k]) then Fails
        else if b - (k + 1) == 0 then Stops(BufferShort)
        else Grow(ms, fCase, p, s, a, b, k + 1)
  {
  }

  /** A pattern as it is written: characters, and characters behind an escape character. */
  datatype Piece = Plain(ch: char) | Behind(ch: char)

  function Write(ps: seq<Piece>): string {
    if ps == [] then "" else (if ps[0].Plain? then [ps[0].ch] else ['~', ps[0].ch]) + Write(ps[1..])
  }

  lemma WriteStep(ps: seq<Piece>)
    requires ps != [] && ps[0] != Plain('~')
    ensures var p := Write(ps);
      p != [] && Next(p) == Write(ps[1..]) && if ps[0].Plain? then p[0] == ps[0].ch else Escaped(p) && p[1] == ps[0].ch
  {
    assert ps[0].Plain? ==> Write(ps)[1..] == Write(ps[1..]);
    assert ps[0].Behind? ==> Write(ps)[2..] == Write(ps[1..]);
  }

  /** What a character of a pattern without jokers stands for. */
  predicate StandsFor(fCase: bool, ps: seq<Piece>, s: string) {
    |s| == |ps| && forall i :: 0 <= i < |s| ==> if fCase then s[i] == ps[i].ch else SameLetter(s[i], ps[i].ch)
  }

  /** Characters without a meaning, and any characters behind escapes, match themselves, and with `fCase` false
      also their letters of the other case; nothing else matches them. */
  lemma {:induction false} LiteralsFit(ms: MatchSets, fCase: bool, ps: seq<Piece>, s: string, lens: seq<nat>)
    requires Proper(ms) && OverJokers(ms)
    requires forall q :: q in ps && q.Plain? ==> q.ch !in ms && q.ch != '~' && q.ch != ' '
    ensures Fits(ms, fCase, Write(ps), s, lens) <==> lens == [] && StandsFor(fCase, ps, s)
    decreases |ps|
  {
    if ps != [] {
      assert ps[0] in ps;
      WriteStep(ps);
      var p := Write(ps);
      if s != [] {
        assert Takes(ms, fCase, p, s) == if SameChar(fCase, ps[0].ch, s[0]) then 1 else 0;
        OneLetter(fCase, ps[0].ch, s[0]);
        LiteralsFit(ms, fCase, ps[1..], s[1..], lens);
        StandsForStep(fCase, ps, s);
      }
    }
  }

  lemma StandsForStep(fCase: bool, ps: seq<Piece>, s: string)
    requires ps != [] && s != []
    ensures StandsFor(fCase, ps, s) <==> (if fCase then s[0] == ps[0].ch else SameLetter(s[0], ps[0].ch)) && StandsFor(fCase, ps[1..], s[1..])
  {
    if StandsFor(fCase, ps[1..], s[1..]) && (if fCase then s[0] == ps[0].ch else SameLetter(s[0], ps[0].ch)) {
      forall i | 0 <= i < |s| ensures if fCase then s[i] == ps[i].ch else SameLetter(s[i], ps[i].ch) {
        assert i > 0 ==> s[i] == s[1..][i - 1] && ps[i] == ps[1..][i - 1];
      }
    }
  }

  lemma OneLetter(fCase: bool, a: char, b: char)
    ensures SameChar(fCase, a, b) <==> if fCase then b == a else SameLetter(b, a)
  {
  }

  /** Blanks, tabulators, line feeds, vertical tabulators, form feeds and carriage returns. */
  const WHITE := " \t\n\U{000B}\U{000C}\r"

  /** `s` is `w`, which is white space and not empty, and behind it `t`, which does not start with any. */
  predicate StartsWhite(s: string, w: string, t: string) {
    s == w + t && w != [] && (forall ch :: ch in w ==> ch in WHITE) && (t != [] ==> t[0] !in WHITE)
  }

  /** A space in a pattern matches the longest run of white space, which must not be empty. */
  lemma SpaceFits(ms: MatchSets, fCase: bool, p: string, s: string, lens: seq<nat>)
    requires Proper(ms)
    ensures Fits(ms, fCase, [' '] + p, s, lens) <==> exists w, t :: StartsWhite(s, w, t) && Fits(ms, fCase, p, t, lens)
  {
    var n := SpaceRun(s);
    FitsSpace(ms, fCase, p, s, lens);
    if n > 0 {
      assert s == s[..n] + s[n..];
      assert StartsWhite(s, s[..n], s[n..]);
    }
    forall w, t | StartsWhite(s, w, t) ensures n == |w| > 0 && s[n..] == t {
      RunOf(w, t);
    }
  }

  lemma FitsSpace(ms: MatchSets, fCase: bool, p: string, s: string, lens: seq<nat>)
    requires Proper(ms)
    ensures Fits(ms, fCase, [' '] + p, s, lens) <==> SpaceRun(s) > 0 && Fits(ms, fCase, p, s[SpaceRun(s)..], lens)
  {
    var q := [' '] + p;
    assert Next(q) == p;
  }

  lemma {:induction false} RunOf(w: string, t: string)
    requires (forall ch :: ch in w ==> IsSpace(ch)) && (t != [] ==> !IsSpace(t[0]))
    ensures SpaceRun(w + t) == |w| && (w + t)[|w|..] == t
    decreases |w|
  {
    if w == [] {
      assert w + t == t;
    } else {
      assert w[0] in w && (w + t)[1..] == w[1..] + t;
      RunOf(w[1..], t);
    }
  }

  /** match_count counts the joker characters that do not stand behind an escape. */
  lemma {:induction false} CountOfPieces(ps: seq<Piece>)
    requires Plain('~') !in ps
    ensures Count(Write(ps)) == PlainJokers(ps)
    decreases |ps|
  {
    if ps != [] {
      assert ps[0] in ps;
      WriteStep(ps);
      CountOfPieces(ps[1..]);
    }
  }

  function PlainJokers(ps: seq<Piece>): nat {
    if ps == [] then 0 else (if ps[0].Plain? && ps[0].ch in "*#$@?&%!+/|<>" then 1 else 0) + PlainJokers(ps[1..])
  }

  // ---------------------------------------------------------------- where the captures go

  function Concat(caps: seq<string>): string {
    if caps == [] then "" else caps[0] + Concat(caps[1..])
  }

  /** From entry `i` and buffer position `at` on, the arrays describe `caps`, laid out end to end. */
  ghost predicate Laid(start: seq<nat>, length: seq<nat>, text: string, i: nat, at: nat, caps: seq<string>)
    decreases |caps|
  {
    caps == [] || (
      && i < |start| && i < |length| && at + |caps[0]| <= |text|
      && start[i] == at && length[i] == |caps[0]| && text[at..at + |caps[0]|] == caps[0]
      && Laid(start, length, text, i + 1, at + |caps[0]|, caps[1..]))
  }

  /** Writing behind a layout leaves it alone. */
  lemma {:induction false} LaidStays(start: seq<nat>, length: seq<nat>, text: string,
                                     start': seq<nat>, length': seq<nat>, text': string, i: nat, at: nat, caps: seq<string>)
    requires Laid(start, length, text, i, at, caps)
    requires Before(start, start', i + |caps|) && Before(length, length', i + |caps|) && Before(text, text', at + |Concat(caps)|)
    ensures Laid(start', length', text', i, at, caps)
    decreases |caps|
  {
    if caps != [] {
      LaidStays(start, length, text, start', length', text', i + 1, at + |caps[0]|, caps[1..]);
      assert text'[at..at + |caps[0]|] == text[at..at + |caps[0]|];
    }
  }

  lemma {:induction false} LaidConcat(start: seq<nat>, length: seq<nat>, text: string, i: nat, at: nat, a: seq<string>, b: seq<string>)
    requires Laid(start, length, text, i, at, a)
    requires Laid(start, length, text, i + |a|, at + |Concat(a)|, b)
    ensures Laid(start, length, text, i, at, a + b)
    decreases |a|
  {
    if a == [] {
      assert a + b == b;
    } else {
      var c := a + b;
      assert c[0] == a[0] && c[1..] == a[1..] + b;
      LaidConcat(start, length, text, i + 1, at + |a[0]|, a[1..], b);
    }
  }

  lemma {:induction false} ConcatOfTwo(a: seq<string>, b: seq<string>)
    ensures Concat(a + b) == Concat(a) + Concat(b)
  {
    if a == [] {
      assert a + b == b;
    } else {
      ConcatOfTwo(a[1..], b);
      assert (a + b)[1..] == a[1..] + b;
    }
  }

  /** The captures of the assignment that the search finds. */
  ghost function FoundCaptures(ms: MatchSets, fCase: bool, p: string, s: string, a: int, b: int): seq<string>
    requires Outcome(ms, fCase, p, s, a, b).Found?
  {
    SearchIsSound(ms, fCase, p, s, a, b);
    Captures(ms, fCase, p, s, Outcome(ms, fCase, p, s, a, b).lens)
  }

  lemma StepCaptures(ms: MatchSets, fCase: bool, p: string, s: string, a: int, b: int)
    requires s != [] && p != [] && p != "~" && !IsMulti(ms, p[0]) && Takes(ms, fCase, p, s) > 0
    ensures var rest, b' := s[Takes(ms, fCase, p, s)..], b - |StepCapture(ms, p, s)|;
      && Outcome(ms, fCase, p, s, a, b) == Outcome(ms, fCase, Next(p), rest, a, b')
      && (Outcome(ms, fCase, p, s, a, b).Found? ==>
            FoundCaptures(ms, fCase, p, s, a, b) == StepCapture(ms, p, s) + FoundCaptures(ms, fCase, Next(p), rest, a, b'))
  {
    if Outcome(ms, fCase, p, s, a, b).Found? {
      SearchIsSound(ms, fCase, p, s, a, b);
      SearchIsSound(ms, fCase, Next(p), s[Takes(ms, fCase, p, s)..], a, b - |StepCapture(ms, p, s)|);
    }
  }

  lemma GrowCaptures(ms: MatchSets, fCase: bool, p: string, s: string, a: int, b: int, k: nat)
    requires s != [] && p != [] && IsMulti(ms, p[0]) && 1 <= k <= |s|
    requires Outcome(ms, fCase, p, s, a, b) == Grow(ms, fCase, p, s, a, b, k)
    requires Outcome(ms, fCase, p[1..], s[k..], a - 1, b - k).Found?
    ensures Outcome(ms, fCase, p, s, a, b).Found?
    ensures FoundCaptures(ms, fCase, p, s, a, b) == [s[..k]] + FoundCaptures(ms, fCase, p[1..], s[k..], a - 1, b - k)
  {
    SearchIsSound(ms, fCase, p, s, a, b);
    SearchIsSound(ms, fCase, p[1..], s[k..], a - 1, b - k);
    var lens := Outcome(ms, fCase, p[1..], s[k..], a - 1, b - k).lens;
    assert ([k] + lens)[1..] == lens;
  }

  // ---------------------------------------------------------------- the matcher

  /** What a call has to answer, and on a match where the captures have to be. */
  ghost predicate Answers(ms: MatchSets, fCase: bool, p: string, s: string, a: int, b: int, error: Error, result: bool,
                          start: seq<nat>, length: seq<nat>, text: string, i: nat, at: nat)
  {
    match Outcome(ms, fCase, p, s, a, b)
    case Fails => error == Success && !result
    case Found(_) => error == Success && result && Laid(start, length, text, i, at, FoundCaptures(ms, fCase, p, s, a, b))
    case Stops(e) => error == e && e != Success && !result
    case Claims => error == Success && result
  }

  /** The first `n` elements are the same. */
  ghost predicate Before<T>(a: seq<T>, b: seq<T>, n: nat) {
    |a| == |b| && forall j :: 0 <= j < n && j < |a| ==> b[j] == a[j]
  }

  /** Entries before `i` and text before `at` are as they were. */
  twostate predicate KeptBefore(start: array<nat>, length: array<nat>, text: array<char>, i: nat, at: nat)
    reads start, length, text
  {
    Before(old(start[..]), start[..], i) && Before(old(length[..]), length[..], i) && Before(old(text[..]), text[..], at)
  }

  /** Entry `i` describes `taken`, which stands in the buffer at `at`. */
  ghost predicate JokerHas(start: seq<nat>, length: seq<nat>, text: string, i: nat, at: nat, taken: string) {
    i < |start| && i < |length| && at + |taken| <= |text| && start[i] == at && length[i] == |taken| && text[at..at + |taken|] == taken
  }

  /** The branches of match_match for everything but multi-jokers: how much of `s` the first step of `p` takes. */
  method TakeOne(p: string, s: string, start: array<nat>, length: array<nat>, text: array<char>, i: nat, at: nat,
                 fCase: bool, ms: MatchSets)
    returns (n: nat)
    requires Proper(ms) && NUL !in s && s != [] && p != "~" && (p != [] ==> !IsMulti(ms, p[0]))
    requires start != length && start.Length == length.Length
    requires i + Jokers(ms, p) <= start.Length && at + |s| <= text.Length
    modifies start, length, text
    ensures KeptBefore(start, length, text, i, at)
    ensures p == [] ==> n == 0
    ensures p != [] ==> n == Takes(ms, fCase, p, s)
    ensures p != [] && n > 0 ==> Laid(start[..], length[..], text[..], i, at, StepCapture(ms, p, s))
  {
    var ch := if p == [] then NUL else p[0];
    if ch == '~' {
      return if SameChar(fCase, p[1], s[0]) then 1 else 0;
    } else if IsSingle(ms, ch) {
      if !Accepts(ms, fCase, ch, s[0]) {
        return 0;
      }
      start[i] := at;
      text[at] := s[0];
      length[i] := 1;
      return 1;
    } else if ch == ' ' {
      n := 0;
      while n < |s| && IsSpace(s[n])
        invariant n <= |s| && SpaceRun(s) == n + SpaceRun(s[n..])
      {
        n := n + 1;
      }
    } else {
      return if SameChar(fCase, ch, s[0]) then 1 else 0;
    }
  }

  /** Searching `s` for `p` finds what searching `s0` for `p0` finds after capturing `done`. */
  ghost predicate Remains(ms: MatchSets, fCase: bool, p0: string, s0: string, p: string, s: string, a: int, b: int, done: seq<string>) {
    var b' := b - |done|;
    && Outcome(ms, fCase, p, s, a, b') == Outcome(ms, fCase, p0, s0, a, b)
    && (Outcome(ms, fCase, p, s, a, b').Found? ==>
          FoundCaptures(ms, fCase, p0, s0, a, b) == done + FoundCaptures(ms, fCase, p, s, a, b'))
  }

  lemma RemainsStep(ms: MatchSets, fCase: bool, p0: string, s0: string, p: string, s: string, a: int, b: int, done: seq<string>)
    requires s != [] && p != [] && p != "~" && !IsMulti(ms, p[0]) && Takes(ms, fCase, p, s) > 0
    requires Remains(ms, fCase, p0, s0, p, s, a, b, done)
    ensures Remains(ms, fCase, p0, s0, Next(p), s[Takes(ms, fCase, p, s)..], a, b, done + StepCapture(ms, p, s))
  {
    var capture := StepCapture(ms, p, s);
    var rest, b' := s[Takes(ms, fCase, p, s)..], b - |done| - |capture|;
    StepCaptures(ms, fCase, p, s, a, b - |done|);
    assert b' == b - |done + capture|;
    if Outcome(ms, fCase, Next(p), rest, a, b').Found? {
      Associate(done, capture, FoundCaptures(ms, fCase, Next(p), rest, a, b'));
    }
  }

  lemma Associate(a: seq<string>, b: seq<string>, c: seq<string>)
    ensures a + (b + c) == (a + b) + c
  {
  }

  /** The loop of match_match stands before `p` and `s`, and has laid out `done`. */
  ghost predicate Sofar(ms: MatchSets, fCase: bool, p0: string, s0: string, p: string, s: string, a: int, b: int,
                        start: seq<nat>, length: seq<nat>, text: string, i0: nat, at0: nat, done: seq<string>)
  {
    && Laid(start, length, text, i0, at0, done)
    && |Concat(done)| == |done|
    && Remains(ms, fCase, p0, s0, p, s, a, b, done)
  }

  lemma SofarRound(ms: MatchSets, fCase: bool, p0: string, s0: string, p: string, s: string, a: int, b: int,
                   start: seq<nat>, length: seq<nat>, text: string, start': seq<nat>, length': seq<nat>, text': string,
                   i0: nat, at0: nat, done: seq<string>)
    requires Sofar(ms, fCase, p0, s0, p, s, a, b, start, length, text, i0, at0, done)
    requires Before(start, start', i0 + |done|) && Before(length, length', i0 + |done|) && Before(text, text', at0 + |done|)
    ensures Sofar(ms, fCase, p0, s0, p, s, a, b, start', length', text', i0, at0, done)
    ensures
      && s != [] && p != [] && p != "~" && !IsMulti(ms, p[0]) && Takes(ms, fCase, p, s) > 0
      && Laid(start', length', text', i0 + |done|, at0 + |done|, StepCapture(ms, p, s))
      ==> Sofar(ms, fCase, p0, s0, Next(p), s[Takes(ms, fCase, p, s)..], a, b, start', length', text', i0, at0, done + StepCapture(ms, p, s))
  {
    LaidStays(start, length, text, start', length', text', i0, at0, done);
    if s != [] && p != [] && p != "~" && !IsMulti(ms, p[0]) && Takes(ms, fCase, p, s) > 0
       && Laid(start', length', text', i0 + |done|, at0 + |done|, StepCapture(ms, p, s)) {
      RemainsStep(ms, fCase, p0, s0, p, s, a, b, done);
      LaidConcat(start', length', text', i0, at0, done, StepCapture(ms, p, s));
      ConcatOfTwo(done, StepCapture(ms, p, s));
    }
  }

  lemma SofarAnswers(ms: MatchSets, fCase: bool, p0: string, s0: string, p: string, s: string, a: int, b: int,
                     error: Error, result: bool, start: seq<nat>, length: seq<nat>, text: string, i0: nat, at0: nat, done: seq<string>)
    requires Sofar(ms, fCase, p0, s0, p, s, a, b, start, length, text, i0, at0, done)
    requires Answers(ms, fCase, p, s, a, b - |done|, error, result, start, length, text, i0 + |done|, at0 + |done|)
    ensures Answers(ms, fCase, p0, s0, a, b, error, result, start, length, text, i0, at0)
  {
    if Outcome(ms, fCase, p, s, a, b - |done|).Found? {
      LaidConcat(start, length, text, i0, at0, done, FoundCaptures(ms, fCase, p, s, a, b - |done|));
    }
  }

  /** The loop of match_match cannot go another round. */
  predicate Stopped(ms: MatchSets, fCase: bool, p: string, s: string) {
    s == [] || p == [] || p == "~" || IsMulti(ms, p[0]) || Takes(ms, fCase, p, s) == 0
  }

  /** One round: nothing if the first step of `p` does not fit, else one step further. */
  method Round(ghost p0: string, ghost s0: string, p: string, s: string, ghost a: int, ghost b: int,
               start: array<nat>, length: array<nat>, text: array<char>,
               ghost i0: nat, ghost at0: nat, i: nat, at: nat, ghost done: seq<string>, fCase: bool, ms: MatchSets)
    returns (n: nat)
    requires Proper(ms) && NUL !in s && s != [] && p != "~" && (p != [] ==> !IsMulti(ms, p[0]))
    requires start != length && start.Length == length.Length
    requires i + Jokers(ms, p) <= start.Length && at + |s| <= text.Length
    requires i == i0 + |done| && at == at0 + |done|
    requires Sofar(ms, fCase, p0, s0, p, s, a, b, start[..], length[..], text[..], i0, at0, done)
    modifies start, length, text
    ensures KeptBefore(start, length, text, i, at)
    ensures n <= |s| && (n == 0 <==> Stopped(ms, fCase, p, s))
    ensures n == 0 ==> Sofar(ms, fCase, p0, s0, p, s, a, b, start[..], length[..], text[..], i0, at0, done)
    ensures n > 0 ==>
      && Sofar(ms, fCase, p0, s0, Next(p), s[n..], a, b, start[..], length[..], text[..], i0, at0, done + StepCapture(ms, p, s))
      && Jokers(ms, p) == Jokers(ms, Next(p)) + |StepCapture(ms, p, s)|
  {
    ghost var was := (start[..], length[..], text[..]);
    n := TakeOne(p, s, start, length, text, i, at, fCase, ms);
    SofarRound(ms, fCase, p0, s0, p, s, a, b, was.0, was.1, was.2, start[..], length[..], text[..], i0, at0, done);
  }

  /** The rounds of match_match's loop up to the first multi-joker, the first misfit or an end. */
  method Advance(p0: string, s0: string, ghost a: int, ghost b: int, start: array<nat>, length: array<nat>, text: array<char>,
                 i0: nat, at0: nat, fCase: bool, ms: MatchSets)
    returns (p: string, s: string, i: nat, at: nat, ghost done: seq<string>)
    requires Proper(ms) && NUL !in s0
    requires start != length && start.Length == length.Length
    requires i0 + Jokers(ms, p0) <= start.Length && at0 + |s0| <= text.Length
    modifies start, length, text
    ensures |p| <= |p0| && NUL !in s && i == i0 + |done| && at == at0 + |done|
    ensures i + Jokers(ms, p) <= start.Length && at + |s| <= text.Length
    ensures KeptBefore(start, length, text, i0, at0)
    ensures Sofar(ms, fCase, p0, s0, p, s, a, b, start[..], length[..], text[..], i0, at0, done)
    ensures Stopped(ms, fCase, p, s)
  {
    p, s, i, at, done := p0, s0, i0, at0, [];
    var n: nat := 1;
    while n > 0 && s != [] && p != "~" && (p == [] || !IsMulti(ms, p[0]))
      invariant |p| <= |p0| && NUL !in s && i == i0 + |done| && at == at0 + |done|
      invariant i + Jokers(ms, p) <= start.Length && at + |s| <= text.Length
      invariant KeptBefore(start, length, text, i0, at0)
      invariant Sofar(ms, fCase, p0, s0, p, s, a, b, start[..], length[..], text[..], i0, at0, done)
      invariant n == 0 ==> Stopped(ms, fCase, p, s)
      decreases n, |s|
    {
      n := Round(p0, s0, p, s, a, b, start, length, text, i0, at0, i, at, done, fCase, ms);
      if n > 0 {
        done := done + StepCapture(ms, p, s);
        if IsSingle(ms, p[0]) {
          i, at := i + 1, at + 1;
        }
        p, s, n := Next(p), s[n..], 1;
      }
    }
  }

  /** match_match. `start` is ParameterArray (positions in `text`, the buffer), `length` is
      pcbParameterArray; `i0` and `at0` are where the passed pointers point. Each character that a single
      joker puts into the buffer counts against the buffer size, but not its array entry. */
  method MatchMatch(p0: string, s0: string, start: array<nat>, length: array<nat>, text: array<char>, i0: nat, at0: nat,
                    cArraySize: int, cbBufferSize: int, fCase: bool, ms: MatchSets)
    returns (error: Error, result: bool)
    requires Proper(ms) && NUL !in s0
    requires start != length && start.Length == length.Length
    requires i0 + Jokers(ms, p0) <= start.Length && at0 + |s0| <= text.Length
    modifies start, length, text
    ensures KeptBefore(start, length, text, i0, at0)
    ensures Answers(ms, fCase, p0, s0, cArraySize, cbBufferSize, error, result, start[..], length[..], text[..], i0, at0)
    decreases |p0|, 1, 1
  {
    var p, s, i, at;
    ghost var done;
    p, s, i, at, done := Advance(p0, s0, cArraySize, cbBufferSize, start, length, text, i0, at0, fCase, ms);
    if s != [] && p != [] && IsMulti(ms, p[0]) {
      ghost var was := (start[..], length[..], text[..]);
      error, result := TryLengths(p, s, start, length, text, i, at, cArraySize, cbBufferSize - (at - at0), fCase, ms);
      SofarRound(ms, fCase, p0, s0, p, s, cArraySize, cbBufferSize, was.0, was.1, was.2, start[..], length[..], text[..], i0, at0, done);
    } else {
      error, result := if s != [] && p == "~" then SyntaxError else Success, s == [] && p == [];
      PlainAnswers(ms, fCase, p, s, cArraySize, cbBufferSize - (at - at0), start[..], length[..], text[..], i, at);
    }
    SofarAnswers(ms, fCase, p0, s0, p, s, cArraySize, cbBufferSize, error, result, start[..], length[..], text[..], i0, at0, done);
  }

  /** The answers that need no further search. */
  lemma PlainAnswers(ms: MatchSets, fCase: bool, p: string, s: string, a: int, b: int,
                     start: seq<nat>, length: seq<nat>, text: string, i: nat, at: nat)
    requires Proper(ms)
    requires s == [] || p == [] || p == "~" || (!IsMulti(ms, p[0]) && Takes(ms, fCase, p, s) == 0)
    ensures Answers(ms, fCase, p, s, a, b, if s != [] && p == "~" then SyntaxError else Success, s == [] && p == [],
                    start, length, text, i, at)
  {
  }

  /** The multi-joker has taken `k` characters, and fewer would not do. */
  ghost predicate Trying(ms: MatchSets, fCase: bool, p: string, s: string, a: int, b: int, k: nat) {
    p != [] && 1 <= k <= |s| && Outcome(ms, fCase, p, s, a, b) == Grow(ms, fCase, p, s, a, b, k)
  }

  /** What follows when the rest of the pattern has answered for a multi-joker that took `k` characters. */
  lemma JokerAnswers(ms: MatchSets, fCase: bool, p: string, s: string, a: int, b: int, k: nat, error: Error, result: bool,
                     start: seq<nat>, length: seq<nat>, text: string, i: nat, at: nat)
    requires Trying(ms, fCase, p, s, a, b, k) && IsMulti(ms, p[0])
    requires Answers(ms, fCase, p[1..], s[k..], a - 1, b - k, error, result, start, length, text, i + 1, at + k)
    requires JokerHas(start, length, text, i, at, s[..k])
    ensures error != Success || result ==> Answers(ms, fCase, p, s, a, b, Success, true, start, length, text, i, at)
    ensures error == Success && !result ==>
      if k == |s| || !Accepts(ms, fCase, p[0], s[k]) then Answers(ms, fCase, p, s, a, b, Success, false, start, length, text, i, at)
      else if b - (k + 1) == 0 then Outcome(ms, fCase, p, s, a, b) == Stops(BufferShort)
      else Trying(ms, fCase, p, s, a, b, k + 1)
  {
    if Outcome(ms, fCase, p[1..], s[k..], a - 1, b - k).Found? {
      GrowCaptures(ms, fCase, p, s, a, b, k);
    }
  }

  lemma FirstTry(ms: MatchSets, fCase: bool, p: string, s: string, a: int, b: int,
                 start: seq<nat>, length: seq<nat>, text: string, i: nat, at: nat)
    requires s != [] && p != [] && IsMulti(ms, p[0])
    ensures
      if a == 0 then Answers(ms, fCase, p, s, a, b, ArrayShort, false, start, length, text, i, at)
      else if b < 1 then Answers(ms, fCase, p, s, a, b, BufferShort, false, start, length, text, i, at)
      else if !Accepts(ms, fCase, p[0], s[0]) then Answers(ms, fCase, p, s, a, b, Success, false, start, length, text, i, at)
      else Trying(ms, fCase, p, s, a, b, 1)
  {
  }

  /** The branch of match_match for a multi-joker: one character more after each failure of the rest. */
  method TryLengths(p: string, s: string, start: array<nat>, length: array<nat>, text: array<char>, i: nat, at: nat,
                    cArraySize: int, cbBufferSize: int, fCase: bool, ms: MatchSets)
    returns (error: Error, result: bool)
    requires Proper(ms) && NUL !in s && s != [] && p != [] && IsMulti(ms, p[0])
    requires start != length && start.Length == length.Length
    requires i + Jokers(ms, p) <= start.Length && at + |s| <= text.Length
    modifies start, length, text
    ensures KeptBefore(start, length, text, i, at)
    ensures Answers(ms, fCase, p, s, cArraySize, cbBufferSize, error, result, start[..], length[..], text[..], i, at)
    decreases |p|, 1, 0
  {
    FirstTry(ms, fCase, p, s, cArraySize, cbBufferSize, start[..], length[..], text[..], i, at);
    if cArraySize == 0 {
      return ArrayShort, false;
    }
    if cbBufferSize < 1 {
      return BufferShort, false;
    }
    if !Accepts(ms, fCase, p[0], s[0]) {
      return Success, false;
    }
    start[i], length[i] := at, 0;
    TakeChar(s[..0], s[0], start, length, text, i, at);
    assert s[..1] == s[..0] + [s[0]];
    var k, over := 1, false;
    error, result := Success, false;
    while !over
      invariant !over ==> 1 <= k <= |s|
      invariant KeptBefore(start, length, text, i, at)
      invariant !over ==> Trying(ms, fCase, p, s, cArraySize, cbBufferSize, k)
      invariant !over ==> JokerHas(start[..], length[..], text[..], i, at, s[..k])
      invariant over ==> Answers(ms, fCase, p, s, cArraySize, cbBufferSize, error, result, start[..], length[..], text[..], i, at)
      decreases |s| - k, !over
    {
      over, error, result := TryLength(p, s, k, start, length, text, i, at, cArraySize, cbBufferSize, fCase, ms);
      if !over {
        k := k + 1;
      }
    }
  }

  /** One round of the loop: try the rest of the pattern, and if it fails take one character more. */
  method TryLength(p: string, s: string, k: nat, start: array<nat>, length: array<nat>, text: array<char>, i: nat, at: nat,
                   cArraySize: int, cbBufferSize: int, fCase: bool, ms: MatchSets)
    returns (over: bool, error: Error, result: bool)
    requires Proper(ms) && NUL !in s && s != [] && p != [] && IsMulti(ms, p[0])
    requires start != length && start.Length == length.Length
    requires i + Jokers(ms, p) <= start.Length && at + |s| <= text.Length
    requires 1 <= k <= |s|
    requires Trying(ms, fCase, p, s, cArraySize, cbBufferSize, k)
    requires JokerHas(start[..], length[..], text[..], i, at, s[..k])
    modifies start, length, text
    ensures KeptBefore(start, length, text, i, at)
    ensures over ==> Answers(ms, fCase, p, s, cArraySize, cbBufferSize, error, result, start[..], length[..], text[..], i, at)
    ensures !over ==> k < |s| && Trying(ms, fCase, p, s, cArraySize, cbBufferSize, k + 1)
    ensures !over ==> JokerHas(start[..], length[..], text[..], i, at, s[..k + 1])
    decreases |p|, 0, 0
  {
    error, result := MatchMatch(p[1..], s[k..], start, length, text, i + 1, at + k, cArraySize - 1, cbBufferSize - k, fCase, ms);
    assert text[at..at + k] == s[..k];
    JokerAnswers(ms, fCase, p, s, cArraySize, cbBufferSize, k, error, result, start[..], length[..], text[..], i, at);
    if error != Success || result {
      return true, Success, true;
    }
    if k == |s| || !Accepts(ms, fCase, p[0], s[k]) {
      return true, Success, false;
    }
    TakeChar(s[..k], s[k], start, length, text, i, at);
    assert s[..k + 1] == s[..k] + [s[k]];
    if cbBufferSize - (k + 1) == 0 {
      return true, BufferShort, false;
    }
    over := false;
  }

  /** One more character for the multi-joker of entry `i`. */
  method TakeChar(taken: string, ch: char, start: array<nat>, length: array<nat>, text: array<char>, i: nat, at: nat)
    requires start != length && start.Length == length.Length && at + |taken| < text.Length
    requires JokerHas(start[..], length[..], text[..], i, at, taken)
    modifies length, text
    ensures JokerHas(start[..], length[..], text[..], i, at, taken + [ch])
    ensures KeptBefore(start, length, text, i, at)
  {
    text[at + |taken|] := ch;
    length[i] := length[i] + 1;
  }

  // ---------------------------------------------------------------- what a caller can rely on

  function Count(p: string): nat
    decreases |p|
  {
    if p == [] then 0 else (if JokerIndex(p[0]) != 0 then 1 else 0) + Count(Next(p))
  }

  /** match_count: the joker characters of a pattern that are not escaped, of any kind. */
  method MatchCount(p: string) returns (n: nat)
    ensures n == Count(p)
  {
    n := 0;
    var rest := p;
    while rest != []
      invariant n + Count(rest) == Count(p)
      decreases |rest|
    {
      var index := MatchIndex(rest[0]);
      if index != 0 {
        n := n + 1;
      }
      if rest[0] == '~' {
        if |rest| == 1 {
          return;
        }
        rest := rest[2..];
      } else {
        rest := rest[1..];
      }
    }
  }

  /** match_count gives enough array entries for the jokers of any sets. */
  lemma {:induction false} CountIsEnough(ms: MatchSets, p: string)
    requires OverJokers(ms)
    ensures Multis(ms, p) <= Jokers(ms, p) <= Count(p)
    decreases |p|
  {
    if p != [] {
      CountIsEnough(ms, Next(p));
    }
  }

  /** Between them the assignments that fit have one that comes first. */
  ghost predicate IsFirst(ms: MatchSets, fCase: bool, p: string, s: string, lens: seq<nat>) {
    Fits(ms, fCase, p, s, lens) && forall other :: Fits(ms, fCase, p, s, other) ==> NotAfter(lens, other)
  }

  /** A call with room for more than |s| characters and with an array entry for each multi-joker, and without a
      dangling escape, decides whether the string fits, and lays out the captures of the first assignment. With a
      dangling escape or too few array entries it claims a match, or reports the error, exactly on the strings on
      which something leads to the place of the error. */
  method Match(p: string, s: string, start: array<nat>, length: array<nat>, text: array<char>,
               cArraySize: int, cbBufferSize: int, fCase: bool, ms: MatchSets)
    returns (error: Error, result: bool)
    requires NUL !in s && OverJokers(ms)
    requires start != length && start.Length == length.Length && Count(p) <= start.Length && |s| <= text.Length
    modifies start, length, text
    ensures 0 <= cArraySize && |s| < cbBufferSize && !Faulty(ms, p, cArraySize) ==>
      && error == Success
      && (result <==> exists lens :: Fits(ms, fCase, p, s, lens))
      && (result ==> exists lens :: IsFirst(ms, fCase, p, s, lens)
                                    && Laid(start[..], length[..], text[..], 0, 0, Captures(ms, fCase, p, s, lens)))
    ensures 0 <= cArraySize && |s| < cbBufferSize && Faulty(ms, p, cArraySize) ==>
      && (result <==> Multis(ms, p) > 0 && cArraySize > 0 && Reaches(ms, fCase, p, s, cArraySize))
      && error == if result || !Reaches(ms, fCase, p, s, cArraySize) then Success
                  else if Multis(ms, p) == 0 then SyntaxError else ArrayShort
  {
    CountIsEnough(ms, p);
    error, result := MatchMatch(p, s, start, length, text, 0, 0, cArraySize, cbBufferSize, fCase, ms);
    if 0 <= cArraySize && |s| < cbBufferSize {
      if Faulty(ms, p, cArraySize) {
        FaultsAreClaimed(ms, fCase, p, s, cArraySize, cbBufferSize);
      } else {
        SearchFindsFirst(ms, fCase, p, s, cArraySize, cbBufferSize);
      }
    }
  }

  /** With ample room and no dangling escape, the search finds the first assignment that fits, if there is one. */
  lemma SearchFindsFirst(ms: MatchSets, fCase: bool, p: string, s: string, a: int, b: int)
    requires Proper(ms) && Ample(ms, p, s, a, b) && !Dangling(p)
    ensures var v := Outcome(ms, fCase, p, s, a, b);
      && (v.Fails? || v.Found?)
      && (v.Found? <==> exists lens :: Fits(ms, fCase, p, s, lens))
      && (v.Found? ==> IsFirst(ms, fCase, p, s, v.lens))
  {
    SearchDecides(ms, fCase, p, s, a, b);
    var v := Outcome(ms, fCase, p, s, a, b);
    forall lens | Fits(ms, fCase, p, s, lens)
      ensures v.Found? && NotAfter(v.lens, lens)
    {
      SearchIsComplete(ms, fCase, p, s, a, b, lens);
    }
    if v.Found? {
      SearchIsSound(ms, fCase, p, s, a, b);
      assert Fits(ms, fCase, p, s, v.lens);
    }
  }

  /** The call ends in neither an error nor an unfounded claim. */
  predicate Decides(ms: MatchSets, fCase: bool, p: string, s: string, a: int, b: int) {
    var v := Outcome(ms, fCase, p, s, a, b);
    v.Fails? || v.Found?
  }

  function Repeat(ch: char, n: nat): string {
    seq(n, _ => ch)
  }

  lemma {:induction false} StarRunsOut(ms: MatchSets, fCase: bool, n: nat, b: int, k: nat)
    requires IsMulti(ms, '*') && Accepts(ms, fCase, '*', 'a') && 1 <= k < b <= n
    ensures Grow(ms, fCase, "*", Repeat('a', n), 1, b, k) == Stops(BufferShort)
    decreases n - k
  {
    var s := Repeat('a', n);
    assert Outcome(ms, fCase, "*"[1..], s[k..], 0, b - k) == Fails;
    if k + 1 < b {
      StarRunsOut(ms, fCase, n, b, k + 1);
    }
  }

  /** A string of one character never needs a second one in the buffer. */
  lemma OneCharacterDecides(ms: MatchSets, fCase: bool, p: string, s: string, a: int, b: int)
    requires Proper(ms) && |s| == 1 && b >= 1 && !Dangling(p) && Multis(ms, p) <= a
    ensures Decides(ms, fCase, p, s, a, b)
  {
    if p != [] {
      NextHasFewer(ms, p);
      if IsMulti(ms, p[0]) {
        assert s[1..] == [];
        var v := Outcome(ms, fCase, p[1..], s[1..], a - 1, b - 1);
        assert v.Fails? || v.Found?;
        assert Accepts(ms, fCase, p[0], s[0]) ==> Outcome(ms, fCase, p, s, a, b) == Grow(ms, fCase, p, s, a, b, 1);
      } else if Takes(ms, fCase, p, s) > 0 {
        assert s[Takes(ms, fCase, p, s)..] == [];
      }
    }
  }

  /** The documentation calls a buffer as large as the string safe. The buffer sizes for which every call
      without a dangling escape and with enough array entries decides are those greater than the string's; for
      one character also size 1; and for no characters any size. */
  lemma SafeBufferSize(ms: MatchSets, fCase: bool, n: nat, b: int)
    requires Proper(ms) && IsMulti(ms, '*') && Accepts(ms, fCase, '*', 'a')
    ensures b > n || n == 0 || b == n == 1 <==>
      forall p, s, a :: |s| == n && !Dangling(p) && Multis(ms, p) <= a ==> Decides(ms, fCase, p, s, a, b)
  {
    if n == 0 {
    } else if b == n == 1 {
      forall p, s, a | |s| == n && !Dangling(p) && Multis(ms, p) <= a
        ensures Decides(ms, fCase, p, s, a, b)
      {
        OneCharacterDecides(ms, fCase, p, s, a, b);
      }
    } else if b > n {
      forall p, s, a | |s| == n && !Dangling(p) && Multis(ms, p) <= a
        ensures Decides(ms, fCase, p, s, a, b)
      {
        SearchDecides(ms, fCase, p, s, a, b);
      }
    } else {
      var s := Repeat('a', n);
      var p, a := if b == 1 then "**" else "*", if b == 1 then 2 else 1;
      assert "**"[1..] == "*" && "*"[1..] == "";
      assert Multis(ms, "*") == 1 && Multis(ms, "**") == 2;
      assert !Dangling(p) && Multis(ms, p) <= a;
      if b == 1 {
        assert Outcome(ms, fCase, "*", s[1..], 1, 0) == Stops(BufferShort);
        assert Outcome(ms, fCase, "**", s, 2, 1) == Grow(ms, fCase, "**", s, 2, 1, 1) == Claims;
      } else if b > 1 {
        StarRunsOut(ms, fCase, n, b, 1);
        assert Outcome(ms, fCase, "*", s, 1, b) == Grow(ms, fCase, "*", s, 1, b, 1);
      } else {
        assert Outcome(ms, fCase, "*", s, 1, b) == Stops(BufferShort);
      }
      assert !Decides(ms, fCase, p, s, a, b);
    }
  }

  /** With the documented buffer size a match can be claimed that is none: "**x" on "abc". */
  lemma DocumentedSizeCanClaim(ms: MatchSets)
    requires Proper(ms) && IsMulti(ms, '*') && 'x' !in ms && forall ch :: ch in "abc" ==> Accepts(ms, true, '*', ch)
    ensures Outcome(ms, true, "**x", "abc", 2, |"abc"|) == Claims
    ensures forall lens :: !Fits(ms, true, "**x", "abc", lens)
  {
    var s := "abc";
    assert "**x"[1..] == "*x" && "*x"[1..] == "x" && s[1..] == "bc" && s[2..] == "c" && "bc"[1..] == "c";
    assert 'a' in s && 'b' in s && 'c' in s;
    assert Outcome(ms, true, "x", "c", 0, 1) == Fails;
    assert Outcome(ms, true, "*x", "bc", 1, 2) == Stops(BufferShort);
    forall lens
      ensures !Fits(ms, true, "**x", s, lens)
    {
      if Fits(ms, true, "**x", s, lens) {
        EndsInX(ms, "**x", s, lens);
      }
    }
  }

  /** A pattern whose last step is the character x fits only strings that end in x. */
  lemma {:induction false} EndsInX(ms: MatchSets, p: string, s: string, lens: seq<nat>)
    requires Proper(ms) && 'x' !in ms && Fits(ms, true, p, s, lens)
    requires p == "x" || p == "*x" || p == "**x"
    requires IsMulti(ms, '*')
    ensures s != [] && s[|s| - 1] == 'x'
    decreases |p|
  {
    if p != "x" {
      assert "**x"[1..] == "*x" && "*x"[1..] == "x";
      EndsInX(ms, p[1..], s[lens[0]..], lens[1..]);
    }
  }

  /** The string fits no such pattern, but "*~" on "ab" claims that it does. */
  lemma DanglingEscapeCanClaim(ms: MatchSets, a: int, b: int)
    requires Proper(ms) && IsMulti(ms, '*') && Accepts(ms, true, '*', 'a') && a >= 1 && b >= 3
    ensures Outcome(ms, true, "*~", "ab", a, b) == Claims
    ensures forall lens :: !Fits(ms, true, "*~", "ab", lens)
  {
    assert "*~"[1..] == "~" && "ab"[1..] == "b";
    assert Dangling("*~");
    forall lens
      ensures !Fits(ms, true, "*~", "ab", lens)
    {
      DanglingNeverFits(ms, true, "*~", "ab", lens);
    }
  }

  // ---------------------------------------------------------------- the default sets

  const EVERYTHING: seq<nat> := seq(32, _ => 0xFF)
  const NOTHING: seq<nat> := seq(32, _ => 0)
  const DIGITS: seq<nat> := [0, 0, 0, 0, 0, 0, 0xFF, 3] + seq(24, _ => 0)
  const ALNUMS: seq<nat> := [0, 0, 0, 0, 0, 0, 0xFF, 3, 0xFE, 0xFF, 0xFF, 7, 0xFE, 0xFF, 0xFF, 7] + seq(16, _ => 0)
  const ALPHAS: seq<nat> := [0, 0, 0, 0, 0, 0, 0, 0, 0xFE, 0xFF, 0xFF, 7, 0xFE, 0xFF, 0xFF, 7] + seq(16, _ => 0)

  const DEFAULT: MatchSets :=
    map['*' := Joker(MultiJoker, EVERYTHING), '#' := Joker(MultiJoker, DIGITS), '$' := Joker(MultiJoker, ALNUMS),
        '@' := Joker(MultiJoker, ALPHAS), '?' := Joker(SingleJoker, EVERYTHING),
        '&' := Joker(NoJoker, NOTHING), '%' := Joker(NoJoker, NOTHING), '!' := Joker(NoJoker, NOTHING),
        '+' := Joker(NoJoker, NOTHING), '/' := Joker(NoJoker, NOTHING), '|' := Joker(NoJoker, NOTHING),
        '<' := Joker(NoJoker, NOTHING), '>' := Joker(NoJoker, NOTHING)]

  predicate IsAlpha(ch: char) {
    'A' <= ch <= 'Z' || 'a' <= ch <= 'z'
  }

  lemma Powers()
    ensures Power2(0) == 1 && Power2(1) == 2 && Power2(2) == 4 && Power2(3) == 8
    ensures Power2(4) == 16 && Power2(5) == 32 && Power2(6) == 64 && Power2(7) == 128
  {
  }

  predicate Bit(byte: nat, j: nat) {
    byte / Power2(j) % 2 == 1
  }

  /** What the documentation says that a joker with these bits matches: the bit of the character is set. */
  predicate Member(bits: seq<nat>, ch: char) {
    ch as int / 8 < |bits| && Bit(bits[ch as int / 8], ch as int % 8)
  }

  ghost predicate HasBitFrom(byte: nat, k: nat) {
    exists j :: k <= j && Bit(byte, j)
  }

  /** With each bit of a byte the lower ones are set as well. */
  ghost predicate DownClosed(byte: nat) {
    forall j, k: nat :: k <= j && Bit(byte, j) ==> Bit(byte, k)
  }

  lemma {:induction false} HigherBit(byte: nat, k: nat)
    requires byte / Power2(k) != 0
    ensures HasBitFrom(byte, k)
    decreases byte / Power2(k)
  {
    if !Bit(byte, k) {
      HalfAgain(byte, Power2(k));
      HigherBit(byte, k + 1);
    }
  }

  lemma HalfAgain(x: nat, m: nat)
    requires m > 0
    ensures x / (2 * m) == x / m / 2
  {
    var q := x / (2 * m);
    assert x == 2 * m * q + x % (2 * m);
    assert m * (2 * q) <= x < m * (2 * q + 2);
    Quotient(x, m, 2 * q);
  }

  lemma Quotient(x: nat, m: nat, q: nat)
    requires m > 0 && m * q <= x < m * (q + 2)
    ensures q <= x / m < q + 2
  {
    var r := x / m;
    assert m * r <= x < m * (r + 1);
    assert r < q ==> m * (r + 1) <= m * q;
    assert r >= q + 2 ==> m * (q + 2) <= m * r;
  }

  lemma {:induction false} LowerQuotient(byte: nat, k: nat, j: nat)
    requires k <= j && byte / Power2(k) == 0
    ensures byte / Power2(j) == 0
    decreases j
  {
    if k < j {
      LowerQuotient(byte, k, j - 1);
      HalfAgain(byte, Power2(j - 1));
    }
  }

  /** JokerMatch does not mask the bit that it shifts down: it accepts a character exactly when its bit or a
      higher bit of the same byte is set. */
  lemma JokerMatchIsAnyHigherBit(bits: seq<nat>, ch: char)
    ensures JokerMatch(bits, ch) <==>
              ch as int / 8 < |bits| && HasBitFrom(bits[ch as int / 8], ch as int % 8)
  {
    var i, k := ch as int / 8, ch as int % 8;
    if i < |bits| {
      if bits[i] / Power2(k) != 0 {
        HigherBit(bits[i], k);
      } else {
        forall j | k <= j ensures !Bit(bits[i], j) {
          LowerQuotient(bits[i], k, j);
        }
      }
    }
  }

  /** So a set of bytes matches exactly its members if and only if the bits of each byte are closed downwards. */
  lemma JokerMatchIsMember(bits: seq<nat>)
    requires |bits| == 32 && forall i :: 0 <= i < 32 ==> bits[i] < 256
    ensures (forall ch: char :: ch as int < 256 ==> (JokerMatch(bits, ch) <==> Member(bits, ch)))
            <==> forall i :: 0 <= i < 32 ==> DownClosed(bits[i])
  {
    forall ch: char | ch as int < 256 && DownClosed(bits[ch as int / 8])
      ensures JokerMatch(bits, ch) <==> Member(bits, ch)
    {
      JokerMatchIsAnyHigherBit(bits, ch);
    }
    if forall ch: char :: ch as int < 256 ==> (JokerMatch(bits, ch) <==> Member(bits, ch)) {
      forall i, j, k: nat | 0 <= i < 32 && k <= j && Bit(bits[i], j)
        ensures Bit(bits[i], k)
      {
        ByteBits(bits[i], j);
        var ch := (8 * i + k) as char;
        assert ch as int / 8 == i && ch as int % 8 == k;
        JokerMatchIsAnyHigherBit(bits, ch);
        assert JokerMatch(bits, ch) <==> Member(bits, ch);
      }
    }
  }

  /** A byte has eight bits. */
  lemma ByteBits(byte: nat, j: nat)
    requires byte < 256 && Bit(byte, j)
    ensures j < 8
  {
    if j >= 8 {
      Powers();
      assert Power2(8) == 2 * Power2(7) == 256;
      LowerQuotient(byte, 8, j);
    }
  }

  /** The documentation says that `@` matches letters. The default set, read as JokerMatch reads it,
      accepts the letters, `@` and the backquote, and nothing else; `$` accepts these and the digits; `#` accepts
      exactly the digits; `*` and `?` accept everything. */
  lemma DefaultSets(ch: char)
    requires ch as int < 256
    ensures Accepts(DEFAULT, true, '@', ch) <==> IsAlpha(ch) || ch == '@' || ch == '`'
    ensures Accepts(DEFAULT, true, '#', ch) <==> '0' <= ch <= '9'
    ensures Accepts(DEFAULT, true, '$', ch) <==> IsAlpha(ch) || '0' <= ch <= '9' || ch == '@' || ch == '`'
    ensures Accepts(DEFAULT, true, '*', ch) && Accepts(DEFAULT, true, '?', ch)
  {
    Powers();
    var c := ch as int;
    assert c == 8 * (c / 8) + c % 8;
  }
}
