/**
 * The hash of a vector of 32-bit words (include/vectorhash.h, and the
 * identical `TransformationFunction::hash` of include/vptree/DiskVP.h):
 * the seed starts at the vector's length, and each element, mixed by two
 * multiply-xorshift rounds in 32-bit wrapping arithmetic, is combined into
 * the 64-bit seed, left to right.
 *
 * Words are `nat`s below 2^32 with the wrap-around written out; the xor
 * of the two 16-bit halves is bitwise xor on naturals; the 64-bit seed is a `bv64`, whose
 * `+` and `<<` wrap as `size_t` arithmetic does.
 */
module VectorHash {
  import opened Machine

  /** A `uint32_t`. */
  type u32 = x: nat | x < U32

  /** 2^16: a `uint32_t` is a high and a low half of this many values. */
  const HALF: nat := 0x1_0000
  /** The multiplier of each mixing round. */
  const MIX_MULTIPLIER: nat := 0x45d9f3b
  /** Its inverse modulo 2^32. */
  const MIX_INVERSE: nat := 0x119de1f3
  /** The constant added to each mixed element before it is combined. */
  const GOLDEN: nat := 0x9e3779b9

  /** Bitwise xor of two naturals, bit by bit from the lowest. */
  function Xor(a: nat, b: nat): nat
    decreases a + b
  {
    if a == 0 && b == 0 then 0
    else (if a % 2 == b % 2 then 0 else 1) + 2 * Xor(a / 2, b / 2)
  }

  /** `2^n`. */
  function Pow2(n: nat): (p: nat)
    ensures p >= 1
  {
    if n == 0 then 1 else 2 * Pow2(n - 1)
  }

  /** A half word holds 16 bits. */
  lemma HalfIsPow2()
    ensures Pow2(16) == HALF
  {
    assert Pow2(1) == 2;
    assert Pow2(2) == 4;
    assert Pow2(3) == 8;
    assert Pow2(4) == 16;
    assert Pow2(5) == 32;
    assert Pow2(6) == 64;
    assert Pow2(7) == 128;
    assert Pow2(8) == 256;
    assert Pow2(9) == 512;
    assert Pow2(10) == 1024;
    assert Pow2(11) == 2048;
    assert Pow2(12) == 4096;
    assert Pow2(13) == 8192;
    assert Pow2(14) == 16384;
    assert Pow2(15) == 32768;
    assert Pow2(16) == 65536;
  }

  /** The xor of two `n`-bit values is an `n`-bit value. */
  lemma {:induction false} XorBelow(a: nat, b: nat, n: nat)
    requires a < Pow2(n) && b < Pow2(n)
    ensures Xor(a, b) < Pow2(n)
    decreases n
  {
    if !(a == 0 && b == 0) {
      XorBelow(a / 2, b / 2, n - 1);
    }
  }

  /** Xor-ing the same value twice gives the first value back. */
  lemma {:induction false} XorCancel(a: nat, b: nat)
    ensures Xor(Xor(a, b), b) == a
    decreases a + b
  {
    if !(a == 0 && b == 0) {
      XorCancel(a / 2, b / 2);
      var c := Xor(a, b);
      assert c / 2 == Xor(a / 2, b / 2) && c % 2 == (if a % 2 == b % 2 then 0 else 1);
    }
  }

  /** `(x >> 16) ^ x` on a `uint32_t`: the high half stays, and is xor-ed into the low half. */
  function XorShift(x: u32): (r: u32)
    ensures r / HALF == x / HALF && r % HALF == Xor(x % HALF, x / HALF)
  {
    var hi, lo := x / HALF, x % HALF;
    HalfIsPow2();
    XorBelow(lo, hi, 16);
    DivUnique(hi * HALF + Xor(lo, hi), HALF, hi, Xor(lo, hi));
    hi * HALF + Xor(lo, hi)
  }

  /** The xorshift undoes itself. */
  lemma XorShiftInvolution(x: u32)
    ensures XorShift(XorShift(x)) == x
  {
    var y := XorShift(x);
    XorCancel(x % HALF, x / HALF);
    var z := XorShift(y);
    assert z / HALF == x / HALF && z % HALF == x % HALF;
    assert z == z / HALF * HALF + z % HALF;
    assert x == x / HALF * HALF + x % HALF;
  }

  /** `a * b` in `uint32_t` arithmetic. */
  function MulWrap(a: u32, b: nat): (r: u32)
  {
    a * b % U32
  }

  /** Reducing a factor first does not change the product modulo 2^32. */
  lemma ModMul(p: int, q: int)
    ensures (p % U32) * q % U32 == p * q % U32
  {
    var a := p / U32;
    assert p == a * U32 + p % U32;
    assert p * q == (p % U32) * q + (a * q) * U32;
    ModShift((p % U32) * q, a * q);
  }

  /** Adding a multiple of 2^32 does not change a value modulo 2^32. */
  lemma ModShift(z: int, t: int)
    ensures (z + t * U32) % U32 == z % U32
  {
  }

  /** Multiplying by `MIX_INVERSE` undoes multiplying by `MIX_MULTIPLIER`. */
  lemma MulInverse(x: u32)
    ensures MulWrap(MulWrap(x, MIX_MULTIPLIER), MIX_INVERSE) == x
  {
    ModMul(x * MIX_MULTIPLIER, MIX_INVERSE);
    assert MIX_MULTIPLIER * MIX_INVERSE == 1 + 0x4ce8d8 * U32;
    assert x * MIX_MULTIPLIER * MIX_INVERSE == x + (x * 0x4ce8d8) * U32;
    ModShift(x, x * 0x4ce8d8);
  }

  /** Lines 18-20: two rounds of xorshift-then-multiply, then a final xorshift. */
  function Mix(x: u32): u32
  {
    XorShift(MulWrap(XorShift(MulWrap(XorShift(x), MIX_MULTIPLIER)), MIX_MULTIPLIER))
  }

  /** The rounds of `Mix` undone in reverse order. */
  function Unmix(y: u32): u32
  {
    XorShift(MulWrap(XorShift(MulWrap(XorShift(y), MIX_INVERSE)), MIX_INVERSE))
  }

  /** `Unmix` inverts `Mix`, so distinct elements are mixed to distinct words. */
  lemma MixInverse(x: u32)
    ensures Unmix(Mix(x)) == x
  {
    var a := MulWrap(XorShift(x), MIX_MULTIPLIER);
    var b := MulWrap(XorShift(a), MIX_MULTIPLIER);
    XorShiftInvolution(b);
    MulInverse(XorShift(a));
    XorShiftInvolution(a);
    MulInverse(XorShift(x));
    XorShiftInvolution(x);
  }

  /** `Mix` is injective. */
  lemma MixInjective(x: u32, y: u32)
    ensures Mix(x) == Mix(y) ==> x == y
  {
    MixInverse(x);
    MixInverse(y);
  }

  /**
   * Line 21: `seed ^= x + 0x9e3779b9 + (seed << 6) + (seed >> 2)` with the
   * mixed element `x`; the first sum is a `uint32_t` sum, widened before
   * the 64-bit additions.
   */
  function Combine(seed: bv64, x: u32): bv64
  {
    seed ^ ((((Mix(x) + GOLDEN) % U32) as bv64) + (seed << 6) + (seed >> 2))
  }

  /** The seed after combining the elements of `v` one after the other. */
  function Fold(seed: bv64, v: seq<u32>): bv64
    decreases |v|
  {
    if v == [] then seed else Combine(Fold(seed, v[..|v| - 1]), v[|v| - 1])
  }

  /** The same fold written front first: combine the first element, then fold the rest. */
  function FoldFront(seed: bv64, v: seq<u32>): bv64
    decreases |v|
  {
    if v == [] then seed else FoldFront(Combine(seed, v[0]), v[1..])
  }

  /** Both readings of the fold agree. */
  lemma {:induction false} FoldOrders(seed: bv64, v: seq<u32>)
    ensures Fold(seed, v) == FoldFront(seed, v)
    decreases |v|
  {
    if v != [] {
      var s1 := Combine(seed, v[0]);
      FoldOrders(s1, v[1..]);
      FoldPrefix(seed, v);
    }
  }

  /** Folding a non-empty sequence is folding its tail from the seed after its head. */
  lemma {:induction false} FoldPrefix(seed: bv64, v: seq<u32>)
    requires v != []
    ensures Fold(seed, v) == Fold(Combine(seed, v[0]), v[1..])
    decreases |v|
  {
    if |v| > 1 {
      FoldPrefix(seed, v[..|v| - 1]);
      assert v[..|v| - 1][1..] == v[1..][..|v[1..]| - 1];
      assert v[..|v| - 1][0] == v[0];
    } else {
      assert v[..|v| - 1] == [];
      assert v[1..] == [];
    }
  }

  /** `std::hash<std::vector<uint32_t>>` of `vec`: the fold from the length, which is 0 for the empty vector. */
  function HashOf(vec: seq<u32>): (h: bv64)
    ensures vec == [] ==> h == 0
  {
    Fold((|vec| % U64) as bv64, vec)
  }

  /** Lines 13-24: the loop over the elements, left to right. */
  method Hash(vec: seq<u32>) returns (seed: bv64)
    ensures seed == HashOf(vec) && seed == FoldFront((|vec| % U64) as bv64, vec)
  {
    seed := (|vec| % U64) as bv64;
    var i := 0;
    while i < |vec|
      invariant 0 <= i <= |vec|
      invariant seed == Fold((|vec| % U64) as bv64, vec[..i])
    {
      assert vec[..i + 1][..i] == vec[..i];
      seed := Combine(seed, vec[i]);
      i := i + 1;
    }
    assert vec[..|vec|] == vec;
    FoldOrders((|vec| % U64) as bv64, vec);
  }
}
