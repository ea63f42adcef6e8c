/**
 * Unit-cost edit (Levenshtein) distance, as used by the BK-tree for the
 * string distance method: the reference recurrence over prefixes, its
 * properties, and the single-row dynamic program of the source.
 */
module Levenshtein {

  function Min(a: nat, b: nat): nat { if a <= b then a else b }

  /**
   * Edit distance between `s` and `t` with unit-cost insertion, deletion and
   * substitution, by the prefix recurrence: two sequences ending in the same
   * element cost what their shorter prefixes cost.
   */
  function EditDistance<T(==)>(s: seq<T>, t: seq<T>): nat
    decreases |s| + |t|
  {
    if |s| == 0 then |t|
    else if |t| == 0 then |s|
    else if s[|s| - 1] == t[|t| - 1] then EditDistance(s[..|s| - 1], t[..|t| - 1])
    else 1 + Min(Min(EditDistance(s[..|s| - 1], t), EditDistance(s, t[..|t| - 1])),
                 EditDistance(s[..|s| - 1], t[..|t| - 1]))
  }

  /** The distance does not depend on the order of its arguments. */
  lemma {:induction false} EditDistanceSymmetric<T>(s: seq<T>, t: seq<T>)
    ensures EditDistance(s, t) == EditDistance(t, s)
    decreases |s| + |t|
  {
    if |s| != 0 && |t| != 0 {
      var s', t' := s[..|s| - 1], t[..|t| - 1];
      EditDistanceSymmetric(s', t');
      if s[|s| - 1] != t[|t| - 1] {
        EditDistanceSymmetric(s', t);
        EditDistanceSymmetric(s, t');
      }
    }
  }

  /** The distance is zero exactly when the two sequences are equal. */
  lemma {:induction false} EditDistanceZeroIff<T>(s: seq<T>, t: seq<T>)
    ensures EditDistance(s, t) == 0 <==> s == t
    decreases |s| + |t|
  {
    if |s| != 0 && |t| != 0 {
      var s', t' := s[..|s| - 1], t[..|t| - 1];
      assert s == s' + [s[|s| - 1]] && t == t' + [t[|t| - 1]];
      if s[|s| - 1] == t[|t| - 1] {
        EditDistanceZeroIff(s', t');
        if s == t {
          assert s' == t';
        }
      }
    }
  }

  /** The distance never exceeds the longer length nor falls below the length difference. */
  lemma {:induction false} EditDistanceBounds<T>(s: seq<T>, t: seq<T>)
    ensures EditDistance(s, t) <= if |s| <= |t| then |t| else |s|
    ensures EditDistance(s, t) >= if |s| <= |t| then |t| - |s| else |s| - |t|
    decreases |s| + |t|
  {
    if |s| != 0 && |t| != 0 {
      var s', t' := s[..|s| - 1], t[..|t| - 1];
      EditDistanceBounds(s', t');
      if s[|s| - 1] != t[|t| - 1] {
        EditDistanceBounds(s', t);
        EditDistanceBounds(s, t');
      }
    }
  }

  /** One step of the recurrence, phrased on prefixes of two fixed sequences. */
  lemma EditDistanceStep<T>(s: seq<T>, t: seq<T>, i: nat, j: nat)
    requires 1 <= i <= |s| && 1 <= j <= |t|
    ensures EditDistance(s[..i], t[..j]) ==
      if s[i - 1] == t[j - 1] then EditDistance(s[..i - 1], t[..j - 1])
      else 1 + Min(Min(EditDistance(s[..i - 1], t[..j]), EditDistance(s[..i], t[..j - 1])),
                   EditDistance(s[..i - 1], t[..j - 1]))
  {
    assert s[..i][..i - 1] == s[..i - 1];
    assert t[..j][..j - 1] == t[..j - 1];
  }

  /** The cell the dynamic program writes from its three neighbours is the distance of the two prefixes. */
  lemma NextCell<T>(s: seq<T>, t: seq<T>, i: nat, j: nat, diagonal: nat, left: nat, up: nat)
    requires 1 <= i <= |s| && 1 <= j <= |t|
    requires diagonal == EditDistance(s[..i - 1], t[..j - 1])
    requires left == EditDistance(s[..i - 1], t[..j]) && up == EditDistance(s[..i], t[..j - 1])
    ensures EditDistance(s[..i], t[..j]) == if s[i - 1] == t[j - 1] then diagonal else Min(Min(left, up), diagonal) + 1
  {
    EditDistanceStep(s, t, i, j);
  }

  /**
   * `LevenshteinDistance` of src/bktree/BKTreeDisk.cpp: swaps the arguments so
   * that the source is the shorter one, then runs the single-row dynamic
   * program where `lev[i]` holds the distance of the prefix of length `i` of
   * the source to the part of the target consumed so far.
   */
  method LevenshteinDistance<T(==)>(source: seq<T>, target: seq<T>) returns (r: nat)
    ensures r == EditDistance(source, target)
    decreases if |source| > |target| then 1 else 0
  {
    if |source| > |target| {
      r := LevenshteinDistance(target, source);
      EditDistanceSymmetric(target, source);
      return;
    }
    var minSize, maxSize := |source|, |target|;
    var lev := new nat[minSize + 1];
    for i := 0 to minSize + 1
      invariant forall i' :: 0 <= i' < i ==> lev[i'] == i'
    {
      lev[i] := i;
    }
    for j := 1 to maxSize + 1
      invariant forall i :: 0 <= i <= minSize ==> lev[i] == EditDistance(source[..i], target[..j - 1])
    {
      NextRow(lev, source, target, j);
    }
    r := lev[minSize];
    assert source[..minSize] == source && target[..maxSize] == target;
  }

  /**
   * One pass of the outer loop of `LevenshteinDistance`: the row of distances
   * of the source's prefixes to the target's prefix of length `j - 1` becomes
   * the row for the prefix of length `j`, reusing the single array.
   */
  method NextRow<T(==)>(lev: array<nat>, source: seq<T>, target: seq<T>, j: nat)
    requires lev.Length == |source| + 1 && 1 <= j <= |target|
    requires forall i :: 0 <= i <= |source| ==> lev[i] == EditDistance(source[..i], target[..j - 1])
    modifies lev
    ensures forall i :: 0 <= i <= |source| ==> lev[i] == EditDistance(source[..i], target[..j])
  {
    var previousDiagonal := lev[0];
    lev[0] := lev[0] + 1;
    assert lev[0] == EditDistance(source[..0], target[..j]);
    for i := 1 to |source| + 1
      invariant forall i' :: 0 <= i' < i ==> lev[i'] == EditDistance(source[..i'], target[..j])
      invariant forall i' :: i <= i' <= |source| ==> lev[i'] == EditDistance(source[..i'], target[..j - 1])
      invariant previousDiagonal == EditDistance(source[..i - 1], target[..j - 1])
    {
      var previousDiagonalSave := lev[i];
      NextCell(source, target, i, j, previousDiagonal, lev[i - 1], lev[i]);
      if source[i - 1] == target[j - 1] {
        lev[i] := previousDiagonal;
      } else {
        lev[i] := Min(Min(lev[i - 1], lev[i]), previousDiagonal) + 1;
      }
      previousDiagonal := previousDiagonalSave;
    }
  }
}
