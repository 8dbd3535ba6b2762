/** Facts about slices and concatenations of sequences. */
module Sequences {

  lemma Regroup<T>(a: seq<T>, b: seq<T>, c: seq<T>)
    ensures a + b + c == a + (b + c)
  {
  }

  lemma SliceOfSlice<T>(s: seq<T>, i: nat, j: nat, a: nat, b: nat)
    requires i <= j <= |s| && a <= b <= j - i
    ensures s[i..j][a..b] == s[i + a..i + b]
  {
    var inner, outer := s[i..j][a..b], s[i + a..i + b];
    assert forall k :: 0 <= k < |inner| ==> inner[k] == outer[k];
  }

  lemma SliceOfConcat<T>(a: seq<T>, b: seq<T>, i: nat, j: nat)
    requires i <= j <= |a|
    ensures (a + b)[i..j] == a[i..j]
  {
  }

  lemma SliceOfRest<T>(a: seq<T>, b: seq<T>, i: nat)
    requires i == |a|
    ensures (a + b)[i..i + |b|] == b
  {
  }
}
