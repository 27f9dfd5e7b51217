/** The block exchange of getopt: two adjacent blocks of argv trade places in place. */
module Rotation {

  // ----- what the exchange computes -----

  /** `a` with the blocks `[first..last)` and `[last..top)` traded: the upper block moves down,
      the lower one up, inner order kept. */
  function Rotate<T>(a: seq<T>, first: nat, last: nat, top: nat): (r: seq<T>)
    requires first <= last <= top <= |a|
    ensures |r| == |a|
  {
    seq(|a|, k requires 0 <= k < |a| =>
      if first <= k < first + (top - last) then a[k + (last - first)]
      else if first + (top - last) <= k < top then a[k - (top - last)]
      else a[k])
  }

  lemma RotateTradesBlocks<T>(a: seq<T>, first: nat, last: nat, top: nat)
    requires first <= last <= top <= |a|
    ensures Rotate(a, first, last, top) == a[..first] + a[last..top] + a[first..last] + a[top..]
  {
  }

  lemma RotatePermutes<T>(a: seq<T>, first: nat, last: nat, top: nat)
    requires first <= last <= top <= |a|
    ensures multiset(Rotate(a, first, last, top)) == multiset(a)
  {
    RotateTradesBlocks(a, first, last, top);
    assert a == a[..first] + a[first..last] + a[last..top] + a[top..];
  }

  // ----- how many element swaps it takes -----

  ghost predicate Divides(d: nat, n: nat) {
    exists q: nat :: n == q * d
  }

  ghost predicate IsGcd(g: nat, x: nat, y: nat) {
    && Divides(g, x) && Divides(g, y)
    && forall d: nat :: Divides(d, x) && Divides(d, y) ==> Divides(d, g)
  }

  /** The swaps done by the loop on a bottom block of `b` and a top block of `t` elements. */
  function Swaps(b: nat, t: nat): nat
    decreases b + t
  {
    if b == 0 || t == 0 then 0
    else if t > b then b + Swaps(b, t - b)
    else t + Swaps(b - t, t)
  }

  lemma DividesSum(d: nat, x: nat, y: nat)
    requires Divides(d, x) && Divides(d, y)
    ensures Divides(d, x + y)
  {
    var p: nat :| x == p * d;
    var q: nat :| y == q * d;
    assert x + y == (p + q) * d;
  }

  lemma DividesDifference(d: nat, x: nat, y: nat)
    requires Divides(d, x) && Divides(d, y) && x <= y
    ensures Divides(d, y - x)
  {
    var p: nat :| x == p * d;
    var q: nat :| y == q * d;
    assert y - x == (q - p) * d;
    if q < p {
      assert (q - p) * d <= 0;
      assert y - x == 0 * d;
    }
  }

  lemma GcdOfDifference(g: nat, x: nat, y: nat)
    requires x <= y && IsGcd(g, x, y - x)
    ensures IsGcd(g, x, y)
  {
    DividesSum(g, x, y - x);
    forall d: nat | Divides(d, x) && Divides(d, y) ensures Divides(d, g) {
      DividesDifference(d, x, y);
    }
  }

  lemma GcdSwap(g: nat, x: nat, y: nat)
    requires IsGcd(g, x, y)
    ensures IsGcd(g, y, x)
  {
  }

  lemma GcdWithItself(n: nat)
    ensures IsGcd(n, n, n)
  {
    assert n == 1 * n;
  }

  lemma DividesBound(d: nat, n: nat, x: nat)
    requires Divides(d, n) && Divides(n, x) && x > 0
    ensures d <= n
  {
    var q: nat :| n == q * d;
    var z: nat :| x == z * n;
    if q > 0 {
      assert q * d >= d;
    }
  }

  /** A gcd is unique, so the count below names one number. */
  lemma GcdUnique(g: nat, h: nat, x: nat, y: nat)
    requires x > 0 && IsGcd(g, x, y) && IsGcd(h, x, y)
    ensures g == h
  {
    DividesBound(g, h, x);
    DividesBound(h, g, x);
  }

  /** The exchange of blocks of `b` and `t` elements makes exactly b + t - gcd(b, t) swaps. */
  lemma {:induction false} SwapsIsSumLessGcd(b: nat, t: nat)
    requires b > 0 && t > 0
    ensures Swaps(b, t) <= b + t && IsGcd(b + t - Swaps(b, t), b, t)
    decreases b + t
  {
    if t > b {
      SwapsIsSumLessGcd(b, t - b);
      GcdOfDifference(b + t - Swaps(b, t), b, t);
    } else if b > t {
      SwapsIsSumLessGcd(b - t, t);
      var g := b + t - Swaps(b, t);
      GcdSwap(g, b - t, t);
      GcdOfDifference(g, t, b);
      GcdSwap(g, t, b);
    } else {
      assert Swaps(0, t) == 0;
      GcdWithItself(t);
    }
  }

  // ----- the algorithm -----

  /** `s` with the disjoint blocks `[i..i+len)` and `[j..j+len)` traded. */
  function BlocksSwapped<T>(s: seq<T>, i: nat, j: nat, len: nat): (r: seq<T>)
    requires i + len <= j && j + len <= |s|
    ensures |r| == |s|
  {
    seq(|s|, k requires 0 <= k < |s| =>
      if i <= k < i + len then s[k - i + j] else if j <= k < j + len then s[k - j + i] else s[k])
  }

  /** Swaps two blocks element by element; `swaps` counts the swaps. */
  method SwapBlocks<T>(a: array<T>, i: nat, j: nat, len: nat) returns (ghost swaps: nat)
    requires i + len <= j && j + len <= a.Length
    modifies a
    ensures swaps == len
    ensures a[..] == BlocksSwapped(old(a[..]), i, j, len)
  {
    swaps := 0;
    for k := 0 to len
      invariant swaps == k
      invariant forall n :: i <= n < i + k ==> a[n] == old(a[n - i + j])
      invariant forall n :: j <= n < j + k ==> a[n] == old(a[n - j + i])
      invariant forall n :: 0 <= n < a.Length && !(i <= n < i + k) && !(j <= n < j + k) ==> a[n] == old(a[n])
    {
      a[i + k], a[j + k] := a[j + k], a[i + k];
      swaps := swaps + 1;
    }
  }

  /** Sending the bottom block to the far end of the longer top block leaves the rest of the
      exchange to be done on a shorter range, with the same outcome. */
  lemma BottomPlaced<T>(s: seq<T>, t: seq<T>, bottom: nat, middle: nat, top: nat, newTop: nat)
    requires bottom <= middle <= top <= |s| && middle - bottom < top - middle && newTop == top - (middle - bottom)
    requires t == BlocksSwapped(s, bottom, newTop, middle - bottom)
    ensures Rotate(t, bottom, middle, newTop) == Rotate(s, bottom, middle, top)
  {
  }

  /** So does sending the top block, no longer than the bottom one, to the front. */
  lemma TopPlaced<T>(s: seq<T>, t: seq<T>, bottom: nat, middle: nat, top: nat, newBottom: nat)
    requires bottom <= middle <= top <= |s| && top - middle <= middle - bottom && newBottom == bottom + (top - middle)
    requires t == BlocksSwapped(s, bottom, middle, top - middle)
    ensures Rotate(t, newBottom, middle, top) == Rotate(s, bottom, middle, top)
  {
  }

  lemma NothingToExchange<T>(s: seq<T>, bottom: nat, middle: nat, top: nat)
    requires bottom <= middle <= top <= |s| && (bottom == middle || middle == top)
    ensures Rotate(s, bottom, middle, top) == s
  {
  }

  /** One round of the exchange: the shorter block goes to its place at the far end of the
      longer one, and leaves the rest to be exchanged. */
  method PlaceShorter<T>(a: array<T>, bottom: nat, middle: nat, top: nat)
    returns (newBottom: nat, newTop: nat, ghost swaps: nat)
    requires bottom < middle < top <= a.Length
    modifies a
    ensures bottom <= newBottom <= middle <= newTop <= top && newTop - newBottom < top - bottom
    ensures Rotate(a[..], newBottom, middle, newTop) == Rotate(old(a[..]), bottom, middle, top)
    ensures swaps + Swaps(middle - newBottom, newTop - middle) == Swaps(middle - bottom, top - middle)
  {
    ghost var before := a[..];
    if top - middle > middle - bottom {
      newBottom, newTop := bottom, top - (middle - bottom);
      swaps := SwapBlocks(a, bottom, newTop, middle - bottom);
      BottomPlaced(before, a[..], bottom, middle, top, newTop);
    } else {
      newBottom, newTop := bottom + (top - middle), top;
      swaps := SwapBlocks(a, bottom, middle, top - middle);
      TopPlaced(before, a[..], bottom, middle, top, newBottom);
    }
  }

  /** Trades the blocks `[first..last)` and `[last..limit)`; `swaps` counts the element swaps. */
  method ExchangeBlocks<T>(a: array<T>, first: nat, last: nat, limit: nat) returns (ghost swaps: nat)
    requires first <= last <= limit <= a.Length
    modifies a
    ensures a[..] == Rotate(old(a[..]), first, last, limit)
    ensures swaps == Swaps(last - first, limit - last)
    ensures first < last < limit ==> swaps <= limit - first && IsGcd(limit - first - swaps, last - first, limit - last)
  {
    var bottom, middle, top := first, last, limit;
    swaps := 0;
    while top > middle && middle > bottom
      invariant first <= bottom <= middle <= top <= limit
      invariant Rotate(a[..], bottom, middle, top) == Rotate(old(a[..]), first, last, limit)
      invariant swaps + Swaps(middle - bottom, top - middle) == Swaps(last - first, limit - last)
      decreases top - bottom
    {
      ghost var more;
      bottom, top, more := PlaceShorter(a, bottom, middle, top);
      swaps := swaps + more;
    }
    NothingToExchange(a[..], bottom, middle, top);
    if first < last < limit {
      SwapsIsSumLessGcd(last - first, limit - last);
    }
  }
}
