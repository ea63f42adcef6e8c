/**
 * The BK-tree's pluggable discrete distance (`calculate_distance` of
 * src/bktree/BKTreeDisk.cpp): absolute difference of two machine words, or
 * edit distance of two NUL-terminated strings.
 */
module BKDistance {
  import opened Machine
  import opened Levenshtein

  /** `distance_method` enumerators. */
  const INT_DISTANCE: nat := 0
  const STRING_DISTANCE: nat := 1

  /**
   * `*(size_t*)datum` on a little-endian machine: the first eight bytes as an
   * unsigned word (bytes missing from a shorter datum read as zero).
   */
  function LoadWord(s: seq<byte>): (w: nat)
    ensures w < U64
  {
    var n := if |s| < WORD_BYTES then |s| else WORD_BYTES;
    assert Pow256(WORD_BYTES) == U64;
    PowMonotone(n, WORD_BYTES);
    LittleEndian(s[..n])
  }

  const WORD_BYTES: nat := 8

  /** `std::string{(char*)datum}`: the bytes before the first NUL. */
  function CString(s: seq<byte>): (c: seq<byte>)
    ensures |c| <= |s| && c == s[..|c|]
    ensures 0 !in c
    ensures |c| < |s| ==> s[|c|] == 0
  {
    if s == [] || s[0] == 0 then [] else [s[0]] + CString(s[1..])
  }

  /**
   * `calculate_distance(src, dst)`: the absolute difference of the two words
   * for `INT_DISTANCE`, the edit distance of the two C strings for
   * `STRING_DISTANCE`, and `(size_t)-1` for any other method.
   */
  function Distance(distanceMethod: nat, src: seq<byte>, dst: seq<byte>): nat
  {
    if distanceMethod == INT_DISTANCE then
      var l, r := LoadWord(src), LoadWord(dst);
      if l < r then r - l else l - r
    else if distanceMethod == STRING_DISTANCE then
      EditDistance(CString(src), CString(dst))
    else SIZE_MAX
  }

  /** The integer distance is `|l - r|` and, computed without underflow, fits in a word. */
  lemma IntDistanceIsAbsoluteDifference(src: seq<byte>, dst: seq<byte>)
    ensures Distance(INT_DISTANCE, src, dst) < U64
    ensures Distance(INT_DISTANCE, src, dst) as int ==
      if LoadWord(src) <= LoadWord(dst) then LoadWord(dst) - LoadWord(src) else LoadWord(src) - LoadWord(dst)
  {
  }

  /** Both distances are symmetric and vanish exactly on equal keys. */
  lemma DistanceSymmetricAndZero(m: nat, src: seq<byte>, dst: seq<byte>)
    requires m == INT_DISTANCE || m == STRING_DISTANCE
    ensures Distance(m, src, dst) == Distance(m, dst, src)
    ensures m == INT_DISTANCE ==> (Distance(m, src, dst) == 0 <==> LoadWord(src) == LoadWord(dst))
    ensures m == STRING_DISTANCE ==> (Distance(m, src, dst) == 0 <==> CString(src) == CString(dst))
  {
    if m == STRING_DISTANCE {
      EditDistanceSymmetric(CString(src), CString(dst));
      EditDistanceZeroIff(CString(src), CString(dst));
    }
  }

  /**
   * An unknown method yields `(size_t)-1`, which is never below a
   * `size_t` maximum discrete distance: such an object never finds a child slot.
   */
  lemma UnknownMethodNeverFits(m: nat, src: seq<byte>, dst: seq<byte>, maximumDiscreteDistance: nat)
    requires m != INT_DISTANCE && m != STRING_DISTANCE
    requires maximumDiscreteDistance < U64
    ensures !(Distance(m, src, dst) < maximumDiscreteDistance)
  {
  }

  /** `calculate_distance`, running the edit-distance dynamic program for strings. */
  method CalculateDistance(distanceMethod: nat, src: seq<byte>, dst: seq<byte>) returns (r: nat)
    ensures r == Distance(distanceMethod, src, dst)
    ensures distanceMethod == STRING_DISTANCE ==>
      r <= if |CString(src)| <= |CString(dst)| then |CString(dst)| else |CString(src)|
  {
    if distanceMethod == INT_DISTANCE {
      var l, r' := LoadWord(src), LoadWord(dst);
      r := if l < r' then r' - l else l - r';
    } else if distanceMethod == STRING_DISTANCE {
      var sa, sb := CString(src), CString(dst);
      r := LevenshteinDistance(sa, sb);
      EditDistanceBounds(sa, sb);
    } else {
      r := SIZE_MAX;
    }
  }
}
