/**
 * The two standard algorithms the VP-tree builder applies to stretches of
 * its `index` vector, stated by what the C++ standard promises of them:
 * `std::sort` yields a permutation in non-decreasing key order,
 * `std::nth_element` a permutation partitioned around position `n`.
 * Elements are record positions (or heap items); `key` is the distance the
 * comparator uses. `Insert` is also the ordered insertion of the search heaps.
 */
module Selection {

  /** Non-decreasing keys, stated link by link (pairwise in `SortedPairwise`). */
  predicate SortedBy<T>(s: seq<T>, key: T -> real)
    decreases |s|
  {
    |s| < 2 || (key(s[0]) <= key(s[1]) && SortedBy(s[1..], key))
  }

  /** Sorted link by link exactly when every earlier key is at most every later one. */
  lemma {:induction false} SortedPairwise<T>(s: seq<T>, key: T -> real)
    ensures SortedBy(s, key) <==> forall i, j :: 0 <= i < j < |s| ==> key(s[i]) <= key(s[j])
    decreases |s|
  {
    if |s| >= 2 {
      var r := s[1..];
      SortedPairwise(r, key);
      assert forall i :: 0 <= i < |r| ==> r[i] == s[i + 1];
      if SortedBy(s, key) {
        forall i, j | 0 <= i < j < |s| ensures key(s[i]) <= key(s[j]) {
          if i > 0 {
            assert key(r[i - 1]) <= key(r[j - 1]);
          } else if j > 1 {
            assert key(r[0]) <= key(r[j - 1]);
          }
        }
      }
      if forall i, j :: 0 <= i < j < |s| ==> key(s[i]) <= key(s[j]) {
        forall i, j | 0 <= i < j < |r| ensures key(r[i]) <= key(r[j]) {
          assert key(s[i + 1]) <= key(s[j + 1]);
        }
      }
    }
  }

  /** `nth_element`'s promise: nothing before `n` is greater than `s[n]`, nothing after it smaller. */
  predicate PartitionedAt<T>(s: seq<T>, n: nat, key: T -> real)
    requires n < |s|
  {
    (forall i :: 0 <= i < n ==> key(s[i]) <= key(s[n])) &&
    (forall i :: n < i < |s| ==> key(s[n]) <= key(s[i]))
  }

  /** Inserting into a key-ordered sequence ahead of the first element whose key is not smaller. */
  function Insert<T(==)>(s: seq<T>, x: T, key: T -> real): (r: seq<T>)
    requires SortedBy(s, key)
    ensures SortedBy(r, key) && multiset(r) == multiset(s) + multiset{x}
    ensures |r| == |s| + 1 && (r[0] == x || (s != [] && r[0] == s[0]))
  {
    if s == [] then [x]
    else if key(x) <= key(s[0]) then [x] + s
    else
      assert s == [s[0]] + s[1..];
      var rest := Insert(s[1..], x, key);
      assert ([s[0]] + rest)[1..] == rest;
      [s[0]] + rest
  }

  /** An item no greater than the last one is inserted ahead of it, so the last element stays last. */
  lemma {:induction false} InsertKeepsLast<T>(s: seq<T>, x: T, key: T -> real)
    requires SortedBy(s, key) && s != [] && key(x) <= key(s[|s| - 1])
    ensures Insert(s, x, key)[|s|] == s[|s| - 1]
  {
    if key(x) > key(s[0]) {
      assert s == [s[0]] + s[1..];
      InsertKeepsLast(s[1..], x, key);
    }
  }

  /** An item beyond the last one is inserted at the end. */
  lemma {:induction false} InsertAppends<T>(s: seq<T>, x: T, key: T -> real)
    requires SortedBy(s, key) && s != [] && key(x) > key(s[|s| - 1])
    ensures Insert(s, x, key) == s + [x]
  {
    SortedPairwise(s, key);
    assert key(x) > key(s[0]);
    assert s == [s[0]] + s[1..];
    if |s| > 1 {
      InsertAppends(s[1..], x, key);
    }
  }

  /** `std::sort` with a "key less than" comparator. */
  function Sort<T(==)>(s: seq<T>, key: T -> real): (r: seq<T>)
    ensures SortedBy(r, key) && multiset(r) == multiset(s) && |r| == |s|
  {
    if s == [] then []
    else
      assert s == s[..|s| - 1] + [s[|s| - 1]];
      Insert(Sort(s[..|s| - 1], key), s[|s| - 1], key)
  }

  /** A sorted sequence is partitioned at every position: `Sort` is an outcome `std::nth_element` may produce. */
  lemma SortedPartitioned<T>(s: seq<T>, n: nat, key: T -> real)
    requires SortedBy(s, key) && n < |s|
    ensures PartitionedAt(s, n, key)
  {
    SortedPairwise(s, key);
  }

  /**
   * `std::nth_element(begin, begin + n, end, cmp)` on a stretch: some
   * rearrangement of it that is partitioned around position `n`. The model
   * realises it by a full sort, one of the outcomes the standard allows.
   */
  method NthElement<T(==)>(s: seq<T>, n: nat, key: T -> real) returns (r: seq<T>)
    requires n < |s|
    ensures |r| == |s| && multiset(r) == multiset(s)
    ensures PartitionedAt(r, n, key)
  {
    r := Sort(s, key);
    SortedPartitioned(r, n, key);
  }

  /** Replacing a stretch by a rearrangement of it rearranges the whole sequence and nothing outside the stretch. */
  lemma SpliceMultiset<T>(s: seq<T>, lo: nat, hi: nat, t: seq<T>)
    requires lo <= hi <= |s| && multiset(t) == multiset(s[lo..hi])
    ensures multiset(s[..lo] + t + s[hi..]) == multiset(s)
  {
    assert s == s[..lo] + s[lo..hi] + s[hi..];
  }

  /** Exchanging two elements rearranges the sequence. */
  lemma SwapMultiset<T>(s: seq<T>, i: nat, j: nat)
    requires i < |s| && j < |s|
    ensures multiset(s[i := s[j]][j := s[i]]) == multiset(s)
  {
  }

  /** No value occurs twice: every value has multiplicity at most one. */
  ghost predicate Distinct<T(!new)>(s: seq<T>)
  {
    forall x :: multiset(s)[x] <= 1
  }

  /** A sequence is duplicate-free exactly when no two of its positions hold the same value. */
  lemma {:induction false} DistinctPairwise<T(!new)>(s: seq<T>)
    ensures Distinct(s) <==> forall i, j :: 0 <= i < j < |s| ==> s[i] != s[j]
  {
    if s != [] {
      var a, r := s[0], s[1..];
      assert s == [a] + r;
      DistinctPairwise(r);
      if forall i, j :: 0 <= i < j < |s| ==> s[i] != s[j] {
        assert forall i, j :: 0 <= i < j < |r| ==> r[i] != r[j] by {
          forall i, j | 0 <= i < j < |r| ensures r[i] != r[j] {
            assert s[i + 1] != s[j + 1];
          }
        }
        assert a !in r by {
          forall j | 0 <= j < |r| ensures r[j] != a {
            assert s[0] != s[j + 1];
          }
        }
        forall x ensures multiset(s)[x] <= 1 {
          assert multiset(s)[x] == multiset(r)[x] + (if x == a then 1 else 0);
        }
      }
      if Distinct(s) {
        assert Distinct(r) by {
          forall x ensures multiset(r)[x] <= 1 {
            assert multiset(s)[x] == multiset(r)[x] + (if x == a then 1 else 0);
          }
        }
        assert a !in r by {
          assert multiset(s)[a] == multiset(r)[a] + 1;
        }
        forall i, j | 0 <= i < j < |s| ensures s[i] != s[j] {
          if i == 0 {
            assert s[j] == r[j - 1];
          } else {
            assert s[i] == r[i - 1] && s[j] == r[j - 1];
          }
        }
      }
    }
  }

  /** In a duplicate-free sequence no other position holds the value at `k`. */
  lemma DistinctAt<T(!new)>(s: seq<T>, k: nat)
    requires Distinct(s) && k < |s|
    ensures forall p :: 0 <= p < |s| && p != k ==> s[p] != s[k]
  {
    DistinctPairwise(s);
    forall p | 0 <= p < |s| && p != k ensures s[p] != s[k] {
      if p < k {
        assert s[p] != s[k];
      } else {
        assert s[k] != s[p];
      }
    }
  }
}
