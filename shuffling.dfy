/**
 The in-place shuffle `random.shuffle(x)`: for `i` from `len(x) - 1` down to 1 it
 draws `j` in `0..i` and swaps `x[i]` with `x[j]`. The random source is a
 parameter: `pick(i) % (i + 1)` is the draw made for position `i`.
 */
module Shuffling {

  /** `s` with the elements at `i` and `j` exchanged. */
  function Swap<T>(s: seq<T>, i: nat, j: nat): (r: seq<T>)
    requires i < |s| && j < |s|
    ensures |r| == |s| && r[i] == s[j] && r[j] == s[i]
    ensures forall k :: 0 <= k < |s| && k != i && k != j ==> r[k] == s[k]
  {
    s[i := s[j]][j := s[i]]
  }

  /** The draw the shuffle makes for position `i`, in `0..i`. */
  function Draw(pick: nat -> nat, i: nat): (j: nat)
    ensures j <= i
  {
    pick(i) % (i + 1)
  }

  /** The shuffle's remaining work on `s` once positions above `i` are done. */
  function ShuffleFrom<T>(s: seq<T>, i: nat, pick: nat -> nat): (r: seq<T>)
    requires i < |s|
    ensures |r| == |s|
    decreases i
  {
    if i == 0 then s else ShuffleFrom(Swap(s, i, Draw(pick, i)), i - 1, pick)
  }

  /** The order `random.shuffle` leaves `s` in when its draws are given by `pick`. */
  function Shuffled<T>(s: seq<T>, pick: nat -> nat): (r: seq<T>)
    ensures |r| == |s|
    ensures |s| <= 1 ==> r == s
  {
    if |s| <= 1 then s else ShuffleFrom(s, |s| - 1, pick)
  }

  /** A shuffle only reorders: the result holds the same elements, as a multiset. */
  lemma ShuffledIsPermutation<T>(s: seq<T>, pick: nat -> nat)
    ensures |Shuffled(s, pick)| == |s|
    ensures multiset(Shuffled(s, pick)) == multiset(s)
  {
    if |s| > 1 { ShuffleFromIsPermutation(s, |s| - 1, pick); }
  }

  lemma {:induction false} ShuffleFromIsPermutation<T>(s: seq<T>, i: nat, pick: nat -> nat)
    requires i < |s|
    ensures |ShuffleFrom(s, i, pick)| == |s|
    ensures multiset(ShuffleFrom(s, i, pick)) == multiset(s)
    decreases i
  {
    if i > 0 {
      var t := Swap(s, i, Draw(pick, i));
      SwapIsPermutation(s, i, Draw(pick, i));
      ShuffleFromIsPermutation(t, i - 1, pick);
    }
  }

  lemma SwapIsPermutation<T>(s: seq<T>, i: nat, j: nat)
    requires i < |s| && j < |s|
    ensures multiset(Swap(s, i, j)) == multiset(s)
  {
    var u := s[i := s[j]];
    assert multiset(u) == multiset(s) - multiset{s[i]} + multiset{s[j]};
    assert multiset(u[j := s[i]]) == multiset(u) - multiset{u[j]} + multiset{s[i]};
  }

  /** `random.shuffle(a)`: shuffles `a` in place with the draws given by `pick`. */
  method ShuffleInPlace<T>(a: array<T>, pick: nat -> nat)
    modifies a
    ensures a[..] == Shuffled(old(a[..]), pick)
  {
    if a.Length <= 1 { return; }
    var i := a.Length - 1;
    while i > 0
      invariant 0 <= i < a.Length
      invariant ShuffleFrom(a[..], i, pick) == Shuffled(old(a[..]), pick)
      decreases i
    {
      var j := Draw(pick, i);
      a[i], a[j] := a[j], a[i];
      i := i - 1;
    }
  }
}
