/** What all the models share: value-or-nothing, used wherever the program has a pointer that may be NULL, and
    sequences that lose an element. */
module Wrappers {
  datatype Option<+T> = None | Some(value: T)

  function Without<S>(c: seq<S>, i: nat): seq<S> {
    if i < |c| then c[..i] + c[i + 1..] else c
  }

  lemma WithoutAt<S>(c: seq<S>, i: nat)
    requires i < |c|
    ensures |Without(c, i)| == |c| - 1
    ensures forall j :: 0 <= j < i ==> Without(c, i)[j] == c[j]
    ensures forall j :: i <= j < |c| - 1 ==> Without(c, i)[j] == c[j + 1]
  {
  }
}
