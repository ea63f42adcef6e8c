/**
 * Machine-level constants and arithmetic facts: byte values, the 32- and
 * 64-bit unsigned ranges of the C++ source, and the division facts that
 * turn a byte offset of the form `base + k * size` back into the index `k`.
 */
module Machine {

  /** One byte of a mapped file or of a caller-owned buffer. */
  newtype byte = x: int | 0 <= x < 256

  /** 2^32: the number of values of `unsigned int` / `uint32_t`. */
  const U32: nat := 0x1_0000_0000
  /** `std::numeric_limits<unsigned int>::max()`, the "absent child" sentinel. */
  const UINT_MAX: nat := 0xFFFF_FFFF
  /** 2^64: the number of values of `size_t`. */
  const U64: nat := 0x1_0000_0000_0000_0000
  /** `(size_t)-1`. */
  const SIZE_MAX: nat := 0xFFFF_FFFF_FFFF_FFFF

  /** A sequence of `n` zero bytes: the content of a freshly created (sparse) file region. */
  function Zeros(n: nat): (z: seq<byte>)
    ensures |z| == n && forall i :: 0 <= i < n ==> z[i] == 0
  {
    seq(n, _ => 0)
  }

  /** A sequence of `n` zero words. */
  function ZeroWords(n: nat): (z: seq<nat>)
    ensures |z| == n && forall i :: 0 <= i < n ==> z[i] == 0
  {
    seq(n, _ => 0)
  }

  /** Multiplying by a positive size keeps a strict order with a gap of at least one size. */
  lemma MulStrict(a: int, b: int, r: int)
    requires r > 0 && a < b
    ensures a * r + r <= b * r
  {
    assert (b - a) * r >= r by {
      var c := b - a;
      assert c * r == (c - 1) * r + r;
    }
    assert b * r - a * r == (b - a) * r;
  }

  /** Euclidean division is determined by any quotient/remainder decomposition. */
  lemma DivUnique(x: int, r: int, q: int, m: int)
    requires r > 0 && 0 <= m < r && x == q * r + m
    ensures x / r == q && x % r == m
  {
    var q', m' := x / r, x % r;
    assert x == q' * r + m';
    if q' < q {
      MulStrict(q', q, r);
    } else if q' > q {
      MulStrict(q, q', r);
    }
  }

  /** `(k * r) / r == k`: an offset computed from an index gives the index back. */
  lemma DivMul(k: nat, r: nat)
    requires r > 0
    ensures (k * r) / r == k && (k * r) % r == 0
  {
    DivUnique(k * r, r, k, 0);
  }

  /** Division by `a` then by `b` is division by `a * b`. */
  lemma DivDiv(x: nat, a: nat, b: nat)
    requires a > 0 && b > 0
    ensures x / a / b == x / (a * b)
  {
    var q, r1 := x / a, x % a;
    var t, r2 := q / b, q % b;
    assert x == (a * b) * t + (a * r2 + r1) by {
      assert x == a * q + r1;
      assert q == b * t + r2;
      assert a * q == a * (b * t) + a * r2;
      assert a * (b * t) == (a * b) * t;
    }
    assert a * r2 + r1 < a * b by {
      MulStrict(r2, b, a);
      assert r2 * a == a * r2 && b * a == a * b;
    }
    DivUnique(x, a * b, t, a * r2 + r1);
  }

  function Pow256(n: nat): (p: nat)
    ensures p >= 1
  {
    if n == 0 then 1 else 256 * Pow256(n - 1)
  }

  lemma {:induction false} PowMonotone(m: nat, n: nat)
    requires m <= n
    ensures Pow256(m) <= Pow256(n)
    decreases n
  {
    if m < n {
      PowMonotone(m, n - 1);
    }
  }

  /** Little-endian value of a byte string; it fits in as many bytes as it has. */
  function LittleEndian(s: seq<byte>): (v: nat)
    ensures v < Pow256(|s|)
  {
    if s == [] then 0 else s[0] as nat + 256 * LittleEndian(s[1..])
  }

  /** The `n` low-order bytes of `v`, least significant first: what an `n`-byte store writes. */
  function ToLittleEndian(v: nat, n: nat): (s: seq<byte>)
    ensures |s| == n
  {
    if n == 0 then [] else [(v % 256) as byte] + ToLittleEndian(v / 256, n - 1)
  }

  /** Byte `i` of an `n`-byte store of `v` is the `i`-th base-256 digit of `v`. */
  lemma {:induction false} ToLittleEndianDigit(v: nat, n: nat, i: nat)
    requires i < n
    ensures ToLittleEndian(v, n)[i] as nat == v / Pow256(i) % 256
    decreases i
  {
    if i > 0 {
      ToLittleEndianDigit(v / 256, n - 1, i - 1);
      DivDiv(v, 256, Pow256(i - 1));
    }
  }

  /** The first `m` bytes of a wider store are the `m`-byte store of the same value. */
  lemma {:induction false} ToLittleEndianPrefix(v: nat, m: nat, n: nat)
    requires m <= n
    ensures ToLittleEndian(v, n)[..m] == ToLittleEndian(v, m)
    decreases m
  {
    if m > 0 {
      ToLittleEndianPrefix(v / 256, m - 1, n - 1);
    }
  }

  /** Loading back an `n`-byte store gives the value modulo 256^n. */
  lemma {:induction false} LittleEndianRoundTrip(v: nat, n: nat)
    ensures LittleEndian(ToLittleEndian(v, n)) == v % Pow256(n)
    decreases n
  {
    if n > 0 {
      var s := ToLittleEndian(v, n);
      assert s[1..] == ToLittleEndian(v / 256, n - 1);
      LittleEndianRoundTrip(v / 256, n - 1);
      LowDigits(v, Pow256(n - 1));
    }
  }

  /** The low digits modulo `256 * p`: the lowest byte, then the rest modulo `p`. */
  lemma LowDigits(v: nat, p: nat)
    requires p >= 1
    ensures v % (256 * p) == v % 256 + 256 * (v / 256 % p)
  {
    var a, q := v % 256, v / 256;
    var t, b := q / p, q % p;
    assert v == (256 * p) * t + (256 * b + a) by {
      assert v == 256 * q + a;
      assert q == p * t + b;
      assert 256 * q == 256 * (p * t) + 256 * b;
      assert 256 * (p * t) == (256 * p) * t;
    }
    assert 256 * b + a < 256 * p by {
      MulStrict(b, p, 256);
    }
    DivUnique(v, 256 * p, t, 256 * b + a);
  }

  /** Storing the bytes of a value and loading them back is the identity on bytes. */
  lemma {:induction false} ToLittleEndianOfLoad(s: seq<byte>)
    ensures ToLittleEndian(LittleEndian(s), |s|) == s
    decreases |s|
  {
    if s != [] {
      var v := LittleEndian(s);
      assert v % 256 == s[0] as nat && v / 256 == LittleEndian(s[1..]) by {
        DivUnique(v, 256, LittleEndian(s[1..]), s[0] as nat);
      }
      ToLittleEndianOfLoad(s[1..]);
    }
  }
}
