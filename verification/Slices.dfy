/** In-place slice operations of the source, given by what stands at each index afterwards. */
module Slices {

  /** `xs[lo..hi].rotate_left(n)`. */
  function RotateLeft<T>(xs: seq<T>, lo: nat, hi: nat, n: nat): (r: seq<T>)
    requires lo + n <= hi <= |xs|
    ensures |r| == |xs|
    ensures forall i :: 0 <= i < |xs| ==>
      r[i] == if i < lo || hi <= i then xs[i] else if i < hi - n then xs[i + n] else xs[i - (hi - n - lo)]
  {
    seq(|xs|, i requires 0 <= i < |xs| =>
      if i < lo || hi <= i then xs[i] else if i < hi - n then xs[i + n] else xs[i - (hi - n - lo)])
  }

  /** `xs[lo..hi].rotate_right(n)`. */
  function RotateRight<T>(xs: seq<T>, lo: nat, hi: nat, n: nat): (r: seq<T>)
    requires lo + n <= hi <= |xs|
    ensures |r| == |xs|
    ensures forall i :: 0 <= i < |xs| ==>
      r[i] == if i < lo || hi <= i then xs[i] else if i < lo + n then xs[i + (hi - n - lo)] else xs[i - n]
  {
    seq(|xs|, i requires 0 <= i < |xs| =>
      if i < lo || hi <= i then xs[i] else if i < lo + n then xs[i + (hi - n - lo)] else xs[i - n])
  }

  /** `xs[lo..hi].fill(v)`. */
  function Fill<T>(xs: seq<T>, lo: nat, hi: nat, v: T): (r: seq<T>)
    requires lo <= hi <= |xs|
    ensures |r| == |xs|
    ensures forall i :: 0 <= i < |xs| ==> r[i] == if lo <= i < hi then v else xs[i]
  {
    seq(|xs|, i requires 0 <= i < |xs| => if lo <= i < hi then v else xs[i])
  }

  lemma FillOne<T>(xs: seq<T>, lo: nat, hi: nat, v: T)
    requires lo <= hi < |xs|
    ensures Fill(xs, lo, hi + 1, v) == Fill(xs, lo, hi, v)[hi := v]
  {
  }

  /** Elements `[lo + n, hi)` move left by `n`; those of `[lo, lo + n)` are lost. */
  function ShiftLeft<T>(xs: seq<T>, lo: nat, hi: nat, n: nat, blank: T): (r: seq<T>)
    requires lo + n <= hi <= |xs|
    ensures |r| == |xs|
    ensures forall i :: 0 <= i < |xs| ==>
      r[i] == if i < lo || hi <= i then xs[i] else if i < hi - n then xs[i + n] else blank
  {
    seq(|xs|, i requires 0 <= i < |xs| =>
      if i < lo || hi <= i then xs[i] else if i < hi - n then xs[i + n] else blank)
  }

  /** Elements `[lo, hi - n)` move right by `n`; those of `[hi - n, hi)` are lost. */
  function ShiftRight<T>(xs: seq<T>, lo: nat, hi: nat, n: nat, blank: T): (r: seq<T>)
    requires lo + n <= hi <= |xs|
    ensures |r| == |xs|
    ensures forall i :: 0 <= i < |xs| ==>
      r[i] == if i < lo || hi <= i then xs[i] else if i < lo + n then blank else xs[i - n]
  {
    seq(|xs|, i requires 0 <= i < |xs| =>
      if i < lo || hi <= i then xs[i] else if i < lo + n then blank else xs[i - n])
  }

  /** The two ways the source shifts: rotate then fill, or fill then rotate. */
  lemma RotateAndFill<T>(xs: seq<T>, lo: nat, hi: nat, n: nat, blank: T)
    requires lo + n <= hi <= |xs|
    ensures Fill(RotateLeft(xs, lo, hi, n), hi - n, hi, blank) == ShiftLeft(xs, lo, hi, n, blank)
    ensures RotateLeft(Fill(xs, lo, lo + n, blank), lo, hi, n) == ShiftLeft(xs, lo, hi, n, blank)
    ensures Fill(RotateRight(xs, lo, hi, n), lo, lo + n, blank) == ShiftRight(xs, lo, hi, n, blank)
  {
  }

  lemma ShiftByZero<T>(xs: seq<T>, lo: nat, hi: nat, blank: T)
    requires lo <= hi <= |xs|
    ensures ShiftLeft(xs, lo, hi, 0, blank) == xs && ShiftRight(xs, lo, hi, 0, blank) == xs
  {
  }

  function Reversed<T>(xs: seq<T>): (r: seq<T>)
    ensures |r| == |xs|
    ensures forall i :: 0 <= i < |xs| ==> r[i] == xs[|xs| - 1 - i]
  {
    seq(|xs|, i requires 0 <= i < |xs| => xs[|xs| - 1 - i])
  }

  /** `xs` followed by `ys[lo..hi]`. */
  function Append<T>(xs: seq<T>, ys: seq<T>, lo: nat, hi: nat): (r: seq<T>)
    requires lo <= hi <= |ys|
    ensures |r| == |xs| + (hi - lo)
    ensures forall i :: 0 <= i < |r| ==> r[i] == if i < |xs| then xs[i] else ys[lo + (i - |xs|)]
  {
    seq(|xs| + (hi - lo), i requires 0 <= i < |xs| + (hi - lo) =>
      if i < |xs| then xs[i] else ys[lo + (i - |xs|)])
  }

  /** One more element taken off the end of `all`. */
  lemma PoppedOne<T>(xs: seq<T>, all: seq<T>, k: nat)
    requires k < |all|
    ensures all[..k + 1][k] == all[k] && all[..k + 1][..k] == all[..k]
    ensures Append(xs, Reversed(all), 0, |all| - k) == Append(xs, Reversed(all), 0, |all| - 1 - k) + [all[k]]
  {
    AppendOne(xs, Reversed(all), 0, |all| - 1 - k);
  }

  lemma AppendOne<T>(xs: seq<T>, ys: seq<T>, lo: nat, hi: nat)
    requires lo <= hi < |ys|
    ensures Append(xs, ys, lo, hi + 1) == Append(xs, ys, lo, hi) + [ys[hi]]
  {
  }

  lemma Assoc<T>(a: seq<T>, b: seq<T>, c: seq<T>)
    ensures (a + b) + c == a + (b + c)
  {
  }
}
