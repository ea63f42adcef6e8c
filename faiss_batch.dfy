/**
 * `FAISSBatch` (include/vptree/FAISSBatch.h, src/vptree/FAISSBatch.cpp):
 * a flat buffer of `nb` rows of `d` floats, zeroed on construction, into
 * which `addToBatch` copies one row by index. Floats are `real`s.
 */
module FAISS {
  import opened Machine

  /** `INT_MAX`: `d * nb` is computed in `int`. */
  const INT_MAX: int := 0x7FFF_FFFF

  /** `(int)n` for a `size_t` `n`: the low 32 bits, read as two's complement. */
  function IntOfSize(n: nat): (i: int)
    ensures -0x8000_0000 <= i <= INT_MAX
    ensures n <= INT_MAX ==> i == n
  {
    var low := n % U32;
    if low <= INT_MAX then low else low - U32
  }

  /**
   * How many floats of the row `addToBatch` copies: its loop runs while
   * `j < std::min(d, (int)row.size())`, so none when that is negative.
   */
  function CopyCount(d: int, rowLength: nat): (n: nat)
    ensures n <= rowLength && (0 <= d ==> n <= d)
    ensures 0 <= d && rowLength <= INT_MAX ==> n == if d < rowLength then d else rowLength
  {
    var s := IntOfSize(rowLength);
    var m := if d < s then d else s;
    if m <= 0 then 0 else m
  }

  /** `buf` with the `n` floats from `at` on replaced by the first `n` floats of `row`. */
  function Written(buf: seq<real>, at: nat, row: seq<real>, n: nat): (r: seq<real>)
    requires at + n <= |buf| && n <= |row|
    ensures |r| == |buf|
    ensures forall j :: 0 <= j < n ==> r[at + j] == row[j]
    ensures forall p :: 0 <= p < |buf| && !(at <= p < at + n) ==> r[p] == buf[p]
  {
    buf[..at] + row[..n] + buf[at + n..]
  }

  /** One more float copied is one more position written. */
  lemma WrittenNext(buf: seq<real>, at: nat, row: seq<real>, j: nat)
    requires at + j < |buf| && j < |row|
    ensures Written(buf, at, row, j)[at + j := row[j]] == Written(buf, at, row, j + 1)
  {
    var a, b := Written(buf, at, row, j)[at + j := row[j]], Written(buf, at, row, j + 1);
    forall p | 0 <= p < |buf| ensures a[p] == b[p] {
      if at <= p < at + j + 1 {
        assert b[at + (p - at)] == row[p - at];
      }
    }
  }

  class FAISSBatch {
    /** The dimension. */
    const d: int
    /** The number of rows. */
    const nb: int
    /** The `d * nb` floats. */
    const xb: array<real>

    /** The buffer holds `nb` rows of `d` floats. */
    predicate Valid()
      reads this
    {
      0 <= d && 0 <= nb && xb.Length == d * nb
    }

    /** Lines 31-34: `new float[d * nb]`, then zeroed. */
    constructor (d: int, nb: int)
      requires 0 <= d && 0 <= nb && d * nb <= INT_MAX
      ensures this.d == d && this.nb == nb && Valid() && fresh(xb)
      ensures forall p :: 0 <= p < xb.Length ==> xb[p] == 0.0
    {
      this.d, this.nb := d, nb;
      xb := new real[d * nb](_ => 0.0);
    }

    /**
     * Lines 36-43: an index at or past `nb` is refused and nothing changes;
     * otherwise the first `min(d, (int)row.size())` floats of `row` are
     * written to row `idx` of the buffer and nothing else changes, not even
     * the rest of row `idx` when `row` is shorter than `d`.
     */
    method AddToBatch(idx: int, row: seq<real>) returns (added: bool)
      requires Valid() && 0 <= idx
      modifies xb
      ensures added <==> idx < nb
      ensures !added ==> xb[..] == old(xb[..])
      ensures added ==> 0 <= idx * d && idx * d + d <= xb.Length
      ensures added ==> xb[..] == Written(old(xb[..]), idx * d, row, CopyCount(d, |row|))
    {
      if idx >= nb {
        return false;
      }
      var n := CopyCount(d, |row|);
      RowFits(d, nb, idx);
      ghost var before := xb[..];
      var j := 0;
      while j < n
        invariant 0 <= j <= n
        invariant xb[..] == Written(before, idx * d, row, j)
      {
        WrittenNext(before, idx * d, row, j);
        xb[idx * d + j] := row[j];
        j := j + 1;
      }
      return true;
    }
  }

  /** Row `idx` of `nb` rows of `d` floats ends inside the buffer. */
  lemma RowFits(d: int, nb: int, idx: int)
    requires 0 <= d && 0 <= idx < nb
    ensures 0 <= idx * d && idx * d + d <= d * nb
  {
    assert (nb - idx) * d >= d by {
      var c := nb - idx;
      assert c * d == (c - 1) * d + d;
    }
    assert d * nb - idx * d == (nb - idx) * d;
  }
}
