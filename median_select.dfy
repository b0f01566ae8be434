/** `findMedian` (hazmat node): `std::nth_element` puts the element of rank
    `n / 2` in the middle of the vector; for an even count `std::max_element`
    over the left half finds rank `n / 2 - 1`, and the median is the mean of
    the two. The vector is reordered in place. Its specification is stated
    on the sorted samples. */
module MedianSelect {

  predicate IsSorted(s: seq<real>)
  {
    forall i, j :: 0 <= i < j < |s| ==> s[i] <= s[j]
  }

  /** Insertion of `x` into a sorted sequence. */
  function Insert(x: real, s: seq<real>): (r: seq<real>)
    requires IsSorted(s)
    ensures IsSorted(r)
    ensures |r| == |s| + 1
    ensures multiset(r) == multiset(s) + multiset{x}
  {
    if s == [] then [x]
    else if x <= s[0] then [x] + s
    else
      var tail := Insert(x, s[1..]);
      assert s == [s[0]] + s[1..];
      BoundedByMultiset(tail, s[1..], x, s[0]);
      [s[0]] + tail
  }

  /** A lower bound of `s` and of `x` bounds every element of a sequence
      holding the elements of `s` and `x`. */
  lemma BoundedByMultiset(t: seq<real>, s: seq<real>, x: real, lo: real)
    requires multiset(t) == multiset(s) + multiset{x}
    requires lo <= x && forall i :: 0 <= i < |s| ==> lo <= s[i]
    ensures forall i :: 0 <= i < |t| ==> lo <= t[i]
  {
    forall i | 0 <= i < |t| ensures lo <= t[i] {
      assert t[i] in multiset(t);
    }
  }

  /** The samples in ascending order, as the ranks of `nth_element` refer to them. */
  function SortedOf(s: seq<real>): (t: seq<real>)
    ensures IsSorted(t)
    ensures |t| == |s|
    ensures multiset(t) == multiset(s)
  {
    if s == [] then []
    else
      assert s == [s[0]] + s[1..];
      Insert(s[0], SortedOf(s[1..]))
  }

  /** A sorted arrangement of a multiset is unique. */
  lemma {:induction false} SortedUnique(s: seq<real>, t: seq<real>)
    requires IsSorted(s) && IsSorted(t)
    requires multiset(s) == multiset(t)
    ensures s == t
  {
    if s == [] {
      assert |t| == |multiset(t)| == 0;
    } else {
      assert |t| == |multiset(t)| == |multiset(s)| == |s|;
      assert s[0] in multiset(t) && t[0] in multiset(s);
      assert s[0] == t[0];
      assert s == [s[0]] + s[1..] && t == [t[0]] + t[1..];
      assert multiset(s[1..]) == multiset(s) - multiset{s[0]} by {
        assert multiset(s) == multiset{s[0]} + multiset(s[1..]);
      }
      assert multiset(t[1..]) == multiset(t) - multiset{t[0]} by {
        assert multiset(t) == multiset{t[0]} + multiset(t[1..]);
      }
      SortedUnique(s[1..], t[1..]);
    }
  }

  /** The median as `findMedian` computes it: the middle sample of the sorted
      samples for an odd count, the mean of the two middle ones for an even
      count. */
  function Median(s: seq<real>): real
    requires |s| > 0
  {
    var t := SortedOf(s);
    var mid := |s| / 2;
    if |s| % 2 == 0 then (t[mid - 1] + t[mid]) / 2.0 else t[mid]
  }

  /** The median depends only on the samples, not on their order. */
  lemma MedianPermutationInvariant(s: seq<real>, u: seq<real>)
    requires |s| > 0 && multiset(s) == multiset(u)
    ensures |u| == |s| && Median(u) == Median(s)
  {
    assert |u| == |multiset(u)| == |multiset(s)| == |s|;
    SortedUnique(SortedOf(s), SortedOf(u));
  }

  /** The median lies between the smallest and the largest sample, and for an
      odd count it is one of the samples. */
  lemma MedianBounded(s: seq<real>)
    requires |s| > 0
    ensures exists i :: 0 <= i < |s| && s[i] <= Median(s)
    ensures exists j :: 0 <= j < |s| && Median(s) <= s[j]
    ensures |s| % 2 == 1 ==> Median(s) in s
  {
    var t := SortedOf(s);
    var n := |s|;
    ArrangementMembers(s, t);
    assert t[0] <= Median(s) <= t[n - 1];
    assert s[IndexOf(s, t[0])] <= Median(s) <= s[IndexOf(s, t[n - 1])];
  }

  /** Every element of a rearrangement `t` of `s` occurs in `s`. */
  lemma ArrangementMembers(s: seq<real>, t: seq<real>)
    requires multiset(t) == multiset(s)
    ensures |t| == |s|
    ensures forall i :: 0 <= i < |t| ==> t[i] in s
  {
    assert |t| == |multiset(t)| == |s|;
    forall i | 0 <= i < |t| ensures t[i] in s {
      assert t[i] in multiset(s);
    }
  }

  /** The position of the first occurrence of `x` in `s`. */
  function IndexOf(s: seq<real>, x: real): (i: nat)
    requires x in s
    ensures i < |s| && s[i] == x
    ensures forall j :: 0 <= j < i ==> s[j] != x
  {
    if s[0] == x then 0 else IndexOf(s[1..], x) + 1
  }

  /** A sequence partitioned around position `mid` (nothing before it larger,
      nothing after it smaller) holds the rank-`mid` element there, and the
      largest element before it is the rank-`mid - 1` element. */
  lemma PartitionedRank(a: seq<real>, s: seq<real>, mid: nat, k: nat)
    requires mid < |a| && multiset(a) == multiset(s)
    requires forall i :: 0 <= i < mid ==> a[i] <= a[mid]
    requires forall j :: mid < j < |a| ==> a[mid] <= a[j]
    requires k < mid ==> forall i :: 0 <= i < mid ==> a[i] <= a[k]
    ensures |SortedOf(s)| == |a| && SortedOf(s)[mid] == a[mid]
    ensures k < mid ==> SortedOf(s)[mid - 1] == a[k]
  {
    RankInArrangement(a, SortedOf(s), mid, k);
  }

  /** `PartitionedRank` for any sorted arrangement `t` of the sequence. */
  lemma RankInArrangement(a: seq<real>, t: seq<real>, mid: nat, k: nat)
    requires mid < |a| && IsSorted(t) && multiset(t) == multiset(a)
    requires forall i :: 0 <= i < mid ==> a[i] <= a[mid]
    requires forall j :: mid < j < |a| ==> a[mid] <= a[j]
    requires k < mid ==> forall i :: 0 <= i < mid ==> a[i] <= a[k]
    ensures |t| == |a| && t[mid] == a[mid]
    ensures k < mid ==> t[mid - 1] == a[k]
  {
    var left := SortedArrangement(a[..mid]);
    var right := SortedArrangement(a[mid + 1..]);
    SortedAroundPivot(a, mid, left, right, t);
    assert |left| == |multiset(left)| == |a[..mid]|;
    assert |t| == |multiset(t)| == |a|;
    if k < mid {
      LastOfSortedIsMax(a[..mid], left, k);
    }
  }

  /** Some sorted arrangement of `l`. */
  lemma SortedArrangement(l: seq<real>) returns (t: seq<real>)
    ensures IsSorted(t) && multiset(t) == multiset(l)
  {
    t := SortedOf(l);
  }

  /** Sorting a sequence partitioned around `mid` sorts each side separately:
      a sorted arrangement `t` of it is `left`, the pivot, then `right`. */
  lemma SortedAroundPivot(a: seq<real>, mid: nat, left: seq<real>, right: seq<real>, t: seq<real>)
    requires mid < |a|
    requires forall i :: 0 <= i < mid ==> a[i] <= a[mid]
    requires forall j :: mid < j < |a| ==> a[mid] <= a[j]
    requires IsSorted(left) && multiset(left) == multiset(a[..mid])
    requires IsSorted(right) && multiset(right) == multiset(a[mid + 1..])
    requires IsSorted(t) && multiset(t) == multiset(a)
    ensures t == left + [a[mid]] + right
  {
    BoundedAbove(a[..mid], left, a[mid]);
    BoundedBelow(a[mid + 1..], right, a[mid]);
    JoinSorted(left, a[mid], right);
    assert a == a[..mid] + [a[mid]] + a[mid + 1..];
    assert multiset(left + [a[mid]] + right) == multiset(a);
    SortedUnique(left + [a[mid]] + right, t);
  }

  /** An upper bound of `l` bounds every rearrangement `t` of it. */
  lemma BoundedAbove(l: seq<real>, t: seq<real>, p: real)
    requires multiset(t) == multiset(l)
    requires forall i :: 0 <= i < |l| ==> l[i] <= p
    ensures forall i :: 0 <= i < |t| ==> t[i] <= p
  {
    forall i | 0 <= i < |t| ensures t[i] <= p {
      assert t[i] in multiset(l);
    }
  }

  /** A lower bound of `l` bounds every rearrangement `t` of it. */
  lemma BoundedBelow(l: seq<real>, t: seq<real>, p: real)
    requires multiset(t) == multiset(l)
    requires forall i :: 0 <= i < |l| ==> p <= l[i]
    ensures forall i :: 0 <= i < |t| ==> p <= t[i]
  {
    forall i | 0 <= i < |t| ensures p <= t[i] {
      assert t[i] in multiset(l);
    }
  }

  /** The last element of a sorted arrangement `t` of `l` is a largest element of `l`. */
  lemma LastOfSortedIsMax(l: seq<real>, t: seq<real>, k: nat)
    requires k < |l| && forall i :: 0 <= i < |l| ==> l[i] <= l[k]
    requires IsSorted(t) && multiset(t) == multiset(l)
    ensures |t| == |l| && t[|l| - 1] == l[k]
  {
    assert |t| == |multiset(t)| == |l|;
    assert l[k] in multiset(t);
    assert t[|l| - 1] in multiset(l);
  }

  /** Two sorted runs joined around a value that separates them are sorted. */
  lemma JoinSorted(left: seq<real>, p: real, right: seq<real>)
    requires IsSorted(left) && IsSorted(right)
    requires forall i :: 0 <= i < |left| ==> left[i] <= p
    requires forall j :: 0 <= j < |right| ==> p <= right[j]
    ensures IsSorted(left + [p] + right)
  {
    var u, m := left + [p] + right, |left|;
    forall i, j | 0 <= i < j < |u| ensures u[i] <= u[j] {
      if j < m {
        assert u[i] == left[i] && u[j] == left[j];
      } else if m < i {
        assert u[i] == right[i - m - 1] && u[j] == right[j - m - 1];
      } else if i < m {
        assert u[i] == left[i];
        assert m < j ==> u[j] == right[j - m - 1];
      } else {
        assert u[j] == right[j - m - 1];
      }
    }
  }

  /** `std::nth_element(begin, begin + mid, end)`: a permutation of the
      vector whose element at `mid` has no larger element before it and no
      smaller one after it. Written as a partial selection sort. */
  method NthElement(a: array<real>, mid: nat)
    requires mid < a.Length
    modifies a
    ensures multiset(a[..]) == multiset(old(a[..]))
    ensures forall i :: 0 <= i < mid ==> a[i] <= a[mid]
    ensures forall j :: mid < j < a.Length ==> a[mid] <= a[j]
  {
    var i := 0;
    while i <= mid
      invariant 0 <= i <= mid + 1
      invariant multiset(a[..]) == multiset(old(a[..]))
      invariant forall p, q :: 0 <= p < i && p < q < a.Length ==> a[p] <= a[q]
    {
      var m := MinElement(a, i);
      ghost var before := a[..];
      a[i], a[m] := a[m], a[i];
      assert a[..] == before[i := before[m]][m := before[i]];
      SwapMinimumForward(before, a[..], i, m);
      i := i + 1;
    }
  }

  /** Swapping the minimum of `s[i..]` into position `i` extends the sorted,
      bounded prefix by one and permutes `s`. */
  lemma SwapMinimumForward(s: seq<real>, t: seq<real>, i: nat, m: nat)
    requires i <= m < |s| && t == s[i := s[m]][m := s[i]]
    requires forall p, q :: 0 <= p < i && p < q < |s| ==> s[p] <= s[q]
    requires forall q :: i <= q < |s| ==> s[m] <= s[q]
    ensures forall p, q :: 0 <= p < i + 1 && p < q < |t| ==> t[p] <= t[q]
    ensures multiset(t) == multiset(s)
  {
    forall p, q | 0 <= p < i + 1 && p < q < |t|
      ensures t[p] <= t[q]
    {
      if p < i {
        if q == m {
          assert t[q] == s[i];
        } else if q == i {
          assert t[q] == s[m];
        } else {
          assert t[q] == s[q];
        }
      } else {
        assert t[p] == s[m];
      }
    }
  }

  /** The position of a smallest element of `a[lo..]`. */
  method MinElement(a: array<real>, lo: nat) returns (m: nat)
    requires lo < a.Length
    ensures lo <= m < a.Length
    ensures forall q :: lo <= q < a.Length ==> a[m] <= a[q]
  {
    m := lo;
    var j := lo + 1;
    while j < a.Length
      invariant lo <= m < a.Length && lo < j <= a.Length
      invariant forall q :: lo <= q < j ==> a[m] <= a[q]
    {
      if a[j] < a[m] {
        m := j;
      }
      j := j + 1;
    }
  }

  /** `std::max_element(begin, begin + hi)`: the first position of the
      largest of the first `hi` elements. */
  method MaxElement(a: array<real>, hi: nat) returns (k: nat)
    requires 0 < hi <= a.Length
    ensures k < hi
    ensures forall i :: 0 <= i < hi ==> a[i] <= a[k]
    ensures forall i :: 0 <= i < k ==> a[i] < a[k]
  {
    k := 0;
    var i := 1;
    while i < hi
      invariant 0 <= k < i <= hi
      invariant forall j :: 0 <= j < i ==> a[j] <= a[k]
      invariant forall j :: 0 <= j < k ==> a[j] < a[k]
    {
      if a[k] < a[i] {
        k := i;
      }
      i := i + 1;
    }
  }

  /** `findMedian` on a non-empty vector: it returns the median of the
      samples it was given and leaves a permutation of them behind. */
  method FindMedian(a: array<real>) returns (m: real)
    requires a.Length > 0
    modifies a
    ensures m == Median(old(a[..]))
    ensures multiset(a[..]) == multiset(old(a[..]))
  {
    var n := a.Length;
    var mid := n / 2;
    NthElement(a, mid);
    if n % 2 == 0 {
      var leftMiddle := MaxElement(a, mid);
      m := (a[leftMiddle] + a[mid]) / 2.0;
      PartitionedRank(a[..], old(a[..]), mid, leftMiddle);
    } else {
      m := a[mid];
      PartitionedRank(a[..], old(a[..]), mid, mid);
    }
  }
}
