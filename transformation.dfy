/**
 * `TransformationFunction::distance` (include/vptree/DiskVP.h): the L1
 * distance of two quantised vectors of `uint32_t` over their first `d`
 * coordinates, each term taken as the larger minus the smaller so that
 * nothing underflows, accumulated in a 64-bit unsigned sum. Its `hash`
 * is `VectorHash.Hash`; `transform` is floating point and not modelled.
 */
module Transformation {
  import opened Machine
  import opened VectorHash

  /** `l > r ? l - r : r - l` on two `uint32_t`: the gap between them, never wrapping. */
  function Gap(l: u32, r: u32): (g: nat)
    ensures g < U32 && (l <= r ==> l + g == r) && (r <= l ==> r + g == l)
  {
    if l > r then l - r else r - l
  }

  /** The exact L1 distance over coordinates `0 .. n - 1`. */
  function L1(l: seq<u32>, r: seq<u32>, n: nat): nat
    requires n <= |l| && n <= |r|
  {
    if n == 0 then 0 else L1(l, r, n - 1) + Gap(l[n - 1], r[n - 1])
  }

  /** Lines 219-229: the loop accumulating the gaps in a `uint_fast64_t`, which wraps modulo 2^64. */
  method Distance(d: nat, l: seq<u32>, r: seq<u32>) returns (result: nat)
    requires d <= |l| && d <= |r|
    ensures result == L1(l, r, d) % U64
    ensures d < U32 ==> result == L1(l, r, d)
  {
    result := 0;
    var i := 0;
    while i < d
      invariant 0 <= i <= d
      invariant result == L1(l, r, i) % U64
    {
      ModAdd(L1(l, r, i), Gap(l[i], r[i]));
      result := (result + Gap(l[i], r[i])) % U64;
      i := i + 1;
    }
    if d < U32 {
      L1Bound(l, r, d);
    }
  }

  /** Adding after reducing modulo 2^64 is adding, then reducing. */
  lemma ModAdd(a: nat, b: nat)
    ensures (a % U64 + b) % U64 == (a + b) % U64
  {
    var q := a / U64;
    assert a == q * U64 + a % U64;
    assert a + b == (a % U64 + b) + q * U64;
  }

  /** Each of `n` terms is below 2^32, so for fewer than 2^32 coordinates the sum fits in 64 bits. */
  lemma {:induction false} L1Bound(l: seq<u32>, r: seq<u32>, n: nat)
    requires n <= |l| && n <= |r|
    ensures L1(l, r, n) <= n * UINT_MAX
    ensures n < U32 ==> L1(l, r, n) < U64
  {
    if n > 0 {
      L1Bound(l, r, n - 1);
    }
    if n < U32 {
      assert n * UINT_MAX <= UINT_MAX * UINT_MAX;
    }
  }

  /** The distance does not depend on the order of its arguments. */
  lemma {:induction false} L1Symmetric(l: seq<u32>, r: seq<u32>, n: nat)
    requires n <= |l| && n <= |r|
    ensures L1(l, r, n) == L1(r, l, n)
  {
    if n > 0 {
      L1Symmetric(l, r, n - 1);
    }
  }

  /** The distance is 0 exactly when the two vectors agree on the first `n` coordinates. */
  lemma {:induction false} L1ZeroIff(l: seq<u32>, r: seq<u32>, n: nat)
    requires n <= |l| && n <= |r|
    ensures L1(l, r, n) == 0 <==> l[..n] == r[..n]
  {
    if n > 0 {
      L1ZeroIff(l, r, n - 1);
      if l[..n] == r[..n] {
        assert l[..n - 1] == l[..n][..n - 1] && r[..n - 1] == r[..n][..n - 1];
        assert l[n - 1] == l[..n][n - 1];
      }
      if L1(l, r, n) == 0 {
        assert l[..n] == l[..n - 1] + [l[n - 1]] && r[..n] == r[..n - 1] + [r[n - 1]];
      }
    }
  }
}
