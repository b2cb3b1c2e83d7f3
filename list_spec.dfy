/**
 * Specification functions over the abstract contents of a singly-linked list
 * (a sequence of elements, front first), and the lemmas that give them meaning.
 * The linked implementation in module LinkedList is proved against these.
 */
module ListSpec {

  /** The smaller of two naturals: how many nodes `drop(k)` and `take(k)` can reach. */
  function Min(a: nat, b: nat): (m: nat)
    ensures m <= a && m <= b && (m == a || m == b)
  {
    if a <= b then a else b
  }

  // ---------------------------------------------------------------------------
  // remove: delete the first occurrence of a value
  // ---------------------------------------------------------------------------

  /** The contents after deleting the first element equal to `v` (unchanged if there is none). */
  function RemoveFirst(s: seq<int>, v: int): (r: seq<int>)
  {
    if s == [] then []
    else if s[0] == v then s[1..]
    else [s[0]] + RemoveFirst(s[1..], v)
  }

  /** If the first `v` sits at index `i`, RemoveFirst cuts out exactly that element. */
  lemma {:induction false} RemoveFirstAt(s: seq<int>, v: int, i: nat)
    requires i < |s| && s[i] == v && v !in s[..i]
    ensures RemoveFirst(s, v) == s[..i] + s[i + 1..]
  {
    if i > 0 {
      assert s[0] in s[..i];
      assert s[1..][..i - 1] == s[1..i];
      assert v !in s[1..][..i - 1];
      RemoveFirstAt(s[1..], v, i - 1);
      assert s[..i] == [s[0]] + s[1..][..i - 1];
      assert s[1..][i - 1 + 1..] == s[i + 1..];
    }
  }

  /** Removing an absent value leaves the contents unchanged. */
  lemma {:induction false} RemoveFirstAbsent(s: seq<int>, v: int)
    requires v !in s
    ensures RemoveFirst(s, v) == s
  {
    if s != [] {
      assert s[0] in s;
      assert forall x :: x in s[1..] ==> x in s;
      RemoveFirstAbsent(s[1..], v);
      assert [s[0]] + s[1..] == s;
    }
  }

  /** Exactly one copy of `v` goes when `v` is present, and nothing else changes in count. */
  lemma {:induction false} RemoveFirstMultiset(s: seq<int>, v: int)
    ensures multiset(RemoveFirst(s, v)) == multiset(s) - multiset{v}
    ensures v in s ==> |RemoveFirst(s, v)| == |s| - 1
    ensures v !in s ==> RemoveFirst(s, v) == s
  {
    if s == [] {
    } else {
      assert s == [s[0]] + s[1..];
      if s[0] != v {
        RemoveFirstMultiset(s[1..], v);
        assert v in s <==> v in s[1..];
      }
    }
  }

  // ---------------------------------------------------------------------------
  // purge: delete every occurrence of a value
  // ---------------------------------------------------------------------------

  /** The survivors of `s` that differ from `v`, in their original order. */
  function Purge(s: seq<int>, v: int): (r: seq<int>)
  {
    if s == [] then []
    else (if s[0] == v then [] else [s[0]]) + Purge(s[1..], v)
  }

  /** Purging a concatenation purges each part: the left-to-right scan of `purge` relies on it. */
  lemma {:induction false} PurgeAppend(a: seq<int>, b: seq<int>, v: int)
    ensures Purge(a + b, v) == Purge(a, v) + Purge(b, v)
  {
    if a == [] {
      assert a + b == b;
    } else {
      assert (a + b)[0] == a[0];
      assert (a + b)[1..] == a[1..] + b;
      PurgeAppend(a[1..], b, v);
    }
  }

  /**
   * The state of the left-to-right scan of `purge` after `j` elements of `s`:
   * the contents `c` are the survivors so far followed by the unscanned rest,
   * and the next element to scan sits at position `i` of `c`.
   */
  ghost predicate PurgeScanned(s: seq<int>, v: int, j: nat, c: seq<int>, i: nat)
  {
    j <= |s| && c == Purge(s[..j], v) + s[j..] && i == |Purge(s[..j], v)|
  }

  /** The scan starts with nothing scanned and the whole sequence ahead. */
  lemma PurgeScanStart(s: seq<int>, v: int)
    ensures PurgeScanned(s, v, 0, s, 0)
  {
    assert s[..0] == [] && s[0..] == s;
  }

  /**
   * One step of the scan: cutting the next element out when it equals `v`, or
   * moving past it when it does not, re-establishes the scan state for `j + 1`.
   */
  lemma PurgeScanStep(s: seq<int>, v: int, j: nat, c: seq<int>, i: nat)
    requires PurgeScanned(s, v, j, c, i) && j < |s|
    ensures i < |c| && c[i] == s[j]
    ensures s[j] == v ==> PurgeScanned(s, v, j + 1, c[..i] + c[i + 1..], i)
    ensures s[j] != v ==> PurgeScanned(s, v, j + 1, c, i + 1)
  {
    assert s[..j + 1] == s[..j] + [s[j]];
    PurgeAppend(s[..j], [s[j]], v);
    assert s[j..] == [s[j]] + s[j + 1..];
    assert c[..i] == Purge(s[..j], v) && c[i + 1..] == s[j + 1..];
  }

  /** When the position runs off the end of the contents, every element has been scanned. */
  lemma PurgeScanDone(s: seq<int>, v: int, j: nat, c: seq<int>, i: nat)
    requires PurgeScanned(s, v, j, c, i) && i == |c|
    ensures c == Purge(s, v)
  {
    assert s[..j] == s;
  }

  /** No copy of `v` survives; every other value keeps its multiplicity. */
  lemma {:induction false} PurgeMultiset(s: seq<int>, v: int)
    ensures v !in Purge(s, v)
    ensures multiset(Purge(s, v))[v] == 0
    ensures forall x :: x != v ==> multiset(Purge(s, v))[x] == multiset(s)[x]
  {
    if s != [] {
      PurgeMultiset(s[1..], v);
      assert s == [s[0]] + s[1..];
    }
  }

  /** Purging an absent value changes nothing. */
  lemma {:induction false} PurgeAbsent(s: seq<int>, v: int)
    requires v !in s
    ensures Purge(s, v) == s
  {
    if s != [] {
      assert s[0] in s;
      assert forall x :: x in s[1..] ==> x in s;
      PurgeAbsent(s[1..], v);
      assert [s[0]] + s[1..] == s;
    }
  }

  // ---------------------------------------------------------------------------
  // reverse
  // ---------------------------------------------------------------------------

  /** The elements of `s` in the opposite order. */
  function Reversed<T>(s: seq<T>): (r: seq<T>)
  {
    if s == [] then [] else Reversed(s[1..]) + [s[0]]
  }

  /** Reversal keeps the length and mirrors every position. */
  lemma {:induction false} ReversedAt<T>(s: seq<T>)
    ensures |Reversed(s)| == |s|
    ensures forall k :: 0 <= k < |s| ==> Reversed(s)[k] == s[|s| - 1 - k]
  {
    if s != [] {
      ReversedAt(s[1..]);
    }
  }

  /** Reversing twice gives back the original sequence. */
  lemma ReversedInvolutive<T>(s: seq<T>)
    ensures Reversed(Reversed(s)) == s
  {
    ReversedAt(s);
    ReversedAt(Reversed(s));
  }

  // ---------------------------------------------------------------------------
  // sort
  // ---------------------------------------------------------------------------

  /** Nondecreasing order. */
  ghost predicate Sorted(s: seq<int>)
  {
    forall i, j :: 0 <= i < j < |s| ==> s[i] <= s[j]
  }

  /** Every element is at most `p`. */
  ghost predicate AllAtMost(s: seq<int>, p: int)
  {
    forall i :: 0 <= i < |s| ==> s[i] <= p
  }

  /** Every element is greater than `p`. */
  ghost predicate AllAbove(s: seq<int>, p: int)
  {
    forall i :: 0 <= i < |s| ==> s[i] > p
  }

  /** A bound on every element survives any permutation. */
  lemma PermutationKeepsBounds(a: seq<int>, b: seq<int>, p: int)
    requires multiset(a) == multiset(b)
    ensures AllAtMost(a, p) ==> AllAtMost(b, p)
    ensures AllAbove(a, p) ==> AllAbove(b, p)
  {
    forall i | 0 <= i < |b|
      ensures b[i] in a
    {
      assert b[i] in multiset(b);
    }
  }

  /** The quicksort combination step: sorted `<= p` part, the pivot, sorted `> p` part. */
  lemma SortedAroundPivot(a: seq<int>, p: int, b: seq<int>)
    requires Sorted(a) && Sorted(b) && AllAtMost(a, p) && AllAbove(b, p)
    ensures Sorted(a + [p] + b)
  {
    var s := a + [p] + b;
    forall i, j | 0 <= i < j < |s|
      ensures s[i] <= s[j]
    {
      if j < |a| {
      } else if j == |a| {
      } else if i <= |a| {
        assert s[j] == b[j - |a| - 1];
      } else {
        assert s[i] == b[i - |a| - 1] && s[j] == b[j - |a| - 1];
      }
    }
  }

  /** The front of a sorted sequence is at most each of its elements. */
  lemma SortedFrontIsLeast(s: seq<int>, x: int)
    requires Sorted(s) && x in s
    ensures s[0] <= x
  {
    var j :| 0 <= j < |s| && s[j] == x;
  }

  /** Taking the first element off a sequence takes one occurrence of it off its multiset. */
  lemma MultisetRest<T>(s: seq<T>)
    requires s != []
    ensures multiset(s[1..]) == multiset(s) - multiset{s[0]}
  {
    assert s == [s[0]] + s[1..];
  }

  /** A sorted permutation is unique: sorting an already sorted list changes nothing. */
  lemma {:induction false} SortedUnique(a: seq<int>, b: seq<int>)
    requires Sorted(a) && Sorted(b) && multiset(a) == multiset(b)
    ensures a == b
  {
    if a == [] {
      assert |b| == |multiset(b)| == 0;
    } else {
      assert |b| == |multiset(b)| == |multiset(a)| == |a|;
      assert a[0] in multiset(b) && b[0] in multiset(a);
      SortedFrontIsLeast(a, b[0]);
      SortedFrontIsLeast(b, a[0]);
      assert a[0] == b[0];
      MultisetRest(a);
      MultisetRest(b);
      SortedUnique(a[1..], b[1..]);
    }
  }

  // ---------------------------------------------------------------------------
  // rearranging a segment: the vocabulary of the in-place quicksort
  // ---------------------------------------------------------------------------

  /** No element occurs twice. */
  ghost predicate Distinct<T>(s: seq<T>)
  {
    forall i, j :: 0 <= i < j < |s| ==> s[i] != s[j]
  }

  /**
   * `b` is `a` with the segment `[lo, hi)` permuted and everything outside it
   * left in place. (Equal elements outside the segment and equal multisets
   * overall say the same as equal multisets of the two segments.)
   */
  ghost predicate Rearranged<T>(a: seq<T>, b: seq<T>, lo: nat, hi: nat)
  {
    |a| == |b| && lo <= hi <= |a| &&
    (forall k :: 0 <= k < |a| && (k < lo || hi <= k) ==> a[k] == b[k]) &&
    multiset(a) == multiset(b)
  }

  /** Cutting a sequence in three cuts its multiset in three. */
  lemma MultisetSplit<T>(s: seq<T>, lo: nat, hi: nat)
    requires lo <= hi <= |s|
    ensures multiset(s) == multiset(s[..lo]) + multiset(s[lo..hi]) + multiset(s[hi..])
  {
    assert s == s[..lo] + s[lo..hi] + s[hi..];
  }

  /** A rearrangement permutes the segment itself. */
  lemma RearrangedSegment<T>(a: seq<T>, b: seq<T>, lo: nat, hi: nat)
    requires Rearranged(a, b, lo, hi)
    ensures multiset(a[lo..hi]) == multiset(b[lo..hi])
  {
    assert a[..lo] == b[..lo] && a[hi..] == b[hi..];
    var outside := multiset(a[..lo]) + multiset(a[hi..]);
    forall x
      ensures multiset(a[lo..hi])[x] == multiset(b[lo..hi])[x]
    {
      MultisetSplit(a, lo, hi);
      MultisetSplit(b, lo, hi);
      assert multiset(a)[x] == outside[x] + multiset(a[lo..hi])[x];
      assert multiset(b)[x] == outside[x] + multiset(b[lo..hi])[x];
    }
  }

  /** A rearrangement of a sub-segment, after a rearrangement of the segment, rearranges the segment. */
  lemma RearrangedTrans<T>(a: seq<T>, b: seq<T>, c: seq<T>, lo: nat, hi: nat, lo2: nat, hi2: nat)
    requires Rearranged(a, b, lo, hi) && Rearranged(b, c, lo2, hi2)
    requires lo <= lo2 && hi2 <= hi
    ensures Rearranged(a, c, lo, hi)
  {
  }

  /** Rearranging the two sides of position `m` in turn rearranges the segment around them. */
  lemma RearrangedSides<T>(a: seq<T>, b: seq<T>, c: seq<T>, lo: nat, m: nat, hi: nat)
    requires lo <= m < hi
    requires Rearranged(a, b, lo, m) && Rearranged(b, c, m + 1, hi)
    ensures Rearranged(a, c, lo, hi)
  {
  }

  /**
   * The partition step of the quicksort: the element at `p` is unlinked and
   * put in front of the segment that starts at `lo`.
   */
  function MovedToFront<T>(s: seq<T>, lo: nat, p: nat): (r: seq<T>)
    requires lo <= p < |s|
  {
    s[..lo] + [s[p]] + s[lo..p] + s[p + 1..]
  }

  /** Where every element lands when the one at `p` moves to the front of the segment at `lo`. */
  lemma MovedToFrontAt<T>(s: seq<T>, lo: nat, p: nat)
    requires lo <= p < |s|
    ensures |MovedToFront(s, lo, p)| == |s|
    ensures forall k {:trigger MovedToFront(s, lo, p)[k]} :: 0 <= k < lo ==> MovedToFront(s, lo, p)[k] == s[k]
    ensures MovedToFront(s, lo, p)[lo] == s[p]
    ensures forall k :: lo < k <= p ==> MovedToFront(s, lo, p)[k] == s[k - 1]
    ensures forall k {:trigger MovedToFront(s, lo, p)[k]} :: p < k < |s| ==> MovedToFront(s, lo, p)[k] == s[k]
  {
  }

  /** Moving an element to the front of a segment that contains it rearranges only that segment. */
  lemma MovedToFrontRearranged<T>(s: seq<T>, lo: nat, p: nat, hi: nat)
    requires lo <= p < hi <= |s|
    ensures Rearranged(s, MovedToFront(s, lo, p), lo, hi)
  {
    MovedToFrontAt(s, lo, p);
    assert s == s[..lo] + s[lo..p] + [s[p]] + s[p + 1..];
  }

  /** Moving an element to the front of a segment keeps a sequence free of repetitions. */
  lemma MovedToFrontDistinct<T>(s: seq<T>, lo: nat, p: nat)
    requires lo <= p < |s| && Distinct(s)
    ensures Distinct(MovedToFront(s, lo, p))
  {
    var r := MovedToFront(s, lo, p);
    MovedToFrontAt(s, lo, p);
    forall i, j | 0 <= i < j < |r|
      ensures r[i] != r[j]
    {
      var i' := if i < lo || p < i then i else if i == lo then p else i - 1;
      var j' := if j < lo || p < j then j else if j == lo then p else j - 1;
      assert r[i] == s[i'];
      assert r[j] == s[j'];
      assert i' != j';
    }
  }

  /**
   * The segment `[lo, p)` is split around the pivot at `m`: the elements in
   * front of it are at most the pivot, those after it are greater.
   */
  ghost predicate Partitioned(s: seq<int>, lo: nat, m: nat, p: nat)
  {
    lo <= m < p <= |s| &&
    (forall k :: lo <= k < m ==> s[k] <= s[m]) &&
    (forall k :: m < k < p ==> s[k] > s[m])
  }

  /**
   * One partition step that finds an element at most the pivot: moving it to
   * the front of the segment shifts the pivot one place right and keeps the
   * segment partitioned.
   */
  lemma PartitionedSplice(s: seq<int>, lo: nat, m: nat, p: nat)
    requires Partitioned(s, lo, m, p) && p < |s| && s[p] <= s[m]
    ensures Partitioned(MovedToFront(s, lo, p), lo, m + 1, p + 1)
  {
    MovedToFrontAt(s, lo, p);
  }

  /**
   * The quicksort combination step. From `c0`, whose segment `[lo, hi)` holds
   * the elements `<= pv` in `[lo, m)`, the pivot `pv` at `m` and the elements
   * `> pv` in `(m, hi)`, sorting `[lo, m)` and then `(m, hi)` in place sorts
   * the whole segment.
   */
  lemma QuickSortCombine(c0: seq<int>, c1: seq<int>, c2: seq<int>, lo: nat, m: nat, hi: nat)
    requires Partitioned(c0, lo, m, hi)
    requires Rearranged(c0, c1, lo, m) && Sorted(c1[lo..m])
    requires Rearranged(c1, c2, m + 1, hi) && Sorted(c2[m + 1..hi])
    ensures Rearranged(c0, c2, lo, hi)
    ensures Sorted(c2[lo..hi])
  {
    var pv := c0[m];
    assert c1[m] == pv && c2[m] == pv;
    assert AllAtMost(c2[lo..m], pv) by {
      assert c2[lo..m] == c1[lo..m];
      RearrangedSegment(c0, c1, lo, m);
      assert AllAtMost(c0[lo..m], pv);
      PermutationKeepsBounds(c0[lo..m], c2[lo..m], pv);
    }
    assert AllAbove(c2[m + 1..hi], pv) by {
      assert c1[m + 1..hi] == c0[m + 1..hi];
      RearrangedSegment(c1, c2, m + 1, hi);
      assert AllAbove(c0[m + 1..hi], pv);
      PermutationKeepsBounds(c0[m + 1..hi], c2[m + 1..hi], pv);
    }
    assert c2[lo..hi] == c2[lo..m] + [pv] + c2[m + 1..hi];
    SortedAroundPivot(c2[lo..m], pv, c2[m + 1..hi]);
  }
}
