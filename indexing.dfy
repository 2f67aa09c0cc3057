/**
 Python's rules for reading a list at an index, for slicing a list, and for
 the `int()` and `abs()` of a real number.
 */
module Indexing {
  import opened Wrappers

  /** The position `xs[i]` reads in a list of length `len`: a negative `i` counts
      from the end; `None` stands for `IndexError`. */
  function ResolveIndex(len: nat, i: int): (p: Option<nat>)
    ensures p.Some? <==> -(len as int) <= i < len
    ensures p.Some? ==> p.value < len && (p.value == i || p.value == len + i)
    ensures p.Some? && i < 0 ==> p.value == len + i
  {
    if 0 <= i < len then Some(i)
    else if -(len as int) <= i < 0 then Some(len + i)
    else None
  }

  /** Where a slice bound `i` lands in a list of length `len`: negative bounds count
      from the end, and the result is clamped into `0..len`. */
  function SliceBound(len: nat, i: int): (b: nat)
    ensures b <= len
    ensures 0 <= i <= len ==> b == i
    ensures i > len ==> b == len
    ensures -(len as int) <= i < 0 ==> b == len + i
    ensures i < -(len as int) ==> b == 0
  {
    if i < 0 then (if len + i < 0 then 0 else len + i)
    else if i > len then len
    else i
  }

  /** `s[lo:hi]` with step 1. */
  function Slice<T>(s: seq<T>, lo: int, hi: int): (r: seq<T>)
    ensures var a, b := SliceBound(|s|, lo), SliceBound(|s|, hi);
            |r| == (if a < b then b - a else 0) &&
            forall k :: 0 <= k < |r| ==> r[k] == s[a + k]
  {
    var a, b := SliceBound(|s|, lo), SliceBound(|s|, hi);
    if a < b then s[a..b] else []
  }

  /** Adjacent slices `s[:i]`, `s[i:j]`, `s[j:]` with `0 <= i <= j` cover `s` in order. */
  lemma SlicesCover<T>(s: seq<T>, i: int, j: int)
    requires 0 <= i <= j
    ensures Slice(s, 0, i) + Slice(s, i, j) + Slice(s, j, |s|) == s
  {
    var a, b := SliceBound(|s|, i), SliceBound(|s|, j);
    assert a <= b;
    assert Slice(s, 0, i) == s[..a];
    assert Slice(s, i, j) == s[a..b];
    assert Slice(s, j, |s|) == s[b..];
    assert s[..a] + s[a..b] + s[b..] == s;
  }

  /** `int(x)`: the integer part of `x`, truncated toward zero. */
  function Truncate(x: real): (n: int)
    ensures x >= 0.0 ==> 0 <= n && n as real <= x < n as real + 1.0
    ensures x < 0.0 ==> n <= 0 && n as real - 1.0 < x <= n as real
  {
    if x >= 0.0 then x.Floor else -((-x).Floor)
  }

  /** `abs(x)`. */
  function Abs(x: real): (r: real)
    ensures r >= 0.0 && (r == x || r == -x)
  {
    if x < 0.0 then -x else x
  }
}
