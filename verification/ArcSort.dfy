/** The solver's own quicksort, in place on the array of queued arcs. The range is left with the
    arc to take next at its right end. */
module ArcSort {
  import opened Arcs

  /** `t` holds the same arcs as `s`, and only positions `l..r` may have moved. */
  ghost predicate Rearranged(s: seq<Arc>, t: seq<Arc>, l: int, r: int) {
    && |s| == |t|
    && 0 <= l <= r + 1 <= |s|
    && s[..l] == t[..l]
    && s[r + 1..] == t[r + 1..]
    && multiset(s[l..r + 1]) == multiset(t[l..r + 1])
  }

  lemma Split(s: seq<Arc>, l: int, r: int)
    requires 0 <= l <= r + 1 <= |s|
    ensures multiset(s) == multiset(s[..l]) + multiset(s[l..r + 1]) + multiset(s[r + 1..])
  {
    assert s == s[..l] + s[l..r + 1] + s[r + 1..];
  }

  lemma RearrangedWhole(s: seq<Arc>, t: seq<Arc>, l: int, r: int)
    requires |s| == |t| && 0 <= l <= r + 1 <= |s|
    requires s[..l] == t[..l] && s[r + 1..] == t[r + 1..]
    ensures multiset(s) == multiset(t) <==> Rearranged(s, t, l, r)
  {
    Split(s, l, r);
    Split(t, l, r);
    var ends := multiset(s[..l]) + multiset(s[r + 1..]);
    assert multiset(s[l..r + 1]) == multiset(s) - ends;
    assert multiset(t[l..r + 1]) == multiset(t) - ends;
  }

  lemma SwapRearranges(s: seq<Arc>, i: int, j: int, l: int, r: int)
    requires 0 <= l <= i <= r < |s| && l <= j <= r
    ensures Rearranged(s, s[i := s[j]][j := s[i]], l, r)
  {
    var t := s[i := s[j]][j := s[i]];
    assert s[..l] == t[..l];
    assert s[r + 1..] == t[r + 1..];
    RearrangedWhole(s, t, l, r);
  }

  method Swap(queue: array<Arc>, i: int, j: int, l: int, r: int)
    requires 0 <= l <= i <= r < queue.Length && l <= j <= r
    modifies queue
    ensures queue[i] == old(queue[j]) && queue[j] == old(queue[i])
    ensures forall k :: 0 <= k < queue.Length && k != i && k != j ==> queue[k] == old(queue[k])
    ensures Rearranged(old(queue[..]), queue[..], l, r)
  {
    SwapRearranges(queue[..], i, j, l, r);
    queue[i], queue[j] := queue[j], queue[i];
    assert queue[..] == old(queue[..])[i := old(queue[j])][j := old(queue[i])];
  }

  lemma RearrangedTrans(s: seq<Arc>, t: seq<Arc>, u: seq<Arc>, l: int, r: int)
    requires Rearranged(s, t, l, r) && Rearranged(t, u, l, r)
    ensures Rearranged(s, u, l, r)
  {
  }

  /** Rearranging part of a range rearranges the range. */
  lemma RearrangedWiden(s: seq<Arc>, t: seq<Arc>, l: int, r: int, l': int, r': int)
    requires Rearranged(s, t, l', r') && 0 <= l <= l' && r' <= r < |s| && l <= r + 1
    ensures Rearranged(s, t, l, r)
  {
    RearrangedWhole(s, t, l', r');
    assert s[..l] == s[..l'][..l] == t[..l];
    assert s[r + 1..] == s[r' + 1..][r - r'..] == t[r + 1..];
    RearrangedWhole(s, t, l, r);
  }

  /** Every arc of the range after a rearrangement was in the range before. */
  lemma RearrangedMember(s: seq<Arc>, t: seq<Arc>, l: int, r: int, k: int) returns (k': int)
    requires Rearranged(s, t, l, r) && l <= k <= r
    ensures l <= k' <= r && s[k'] == t[k]
  {
    assert t[k] == t[l..r + 1][k - l];
    assert t[k] in multiset(t[l..r + 1]);
    assert t[k] in s[l..r + 1];
    var m :| 0 <= m < |s[l..r + 1]| && s[l..r + 1][m] == t[k];
    k' := l + m;
  }

  ghost predicate OrderedRange(s: seq<Arc>, l: int, r: int) {
    && 0 <= l <= r + 1 <= |s|
    && forall i, k :: l <= i < k <= r ==> !LessThan(s[i], s[k])
  }

  /** Position `j` separates the range: nothing before it is less, everything after it is. */
  ghost predicate Partitioned(s: seq<Arc>, l: int, j: int, r: int) {
    && 0 <= l <= j <= r < |s|
    && (forall k :: l <= k < j ==> !LessThan(s[k], s[j]))
    && (forall k :: j < k <= r ==> LessThan(s[k], s[j]))
  }

  method GetPivot(queue: array<Arc>, l: int, r: int) returns (j: int)
    requires 0 <= l < r < queue.Length
    modifies queue
    ensures Rearranged(old(queue[..]), queue[..], l, r)
    ensures Partitioned(queue[..], l, j, r)
    ensures queue[j] == old(queue[l])
  {
    var pivot := queue[l];
    var i := l;
    j := r;
    while true
      invariant l <= i <= j <= r
      invariant i == j ==> i == l
      invariant queue[l] == pivot
      invariant forall k :: l <= k <= i ==> !LessThan(queue[k], pivot)
      invariant forall k :: j < k <= r ==> LessThan(queue[k], pivot)
      invariant Rearranged(old(queue[..]), queue[..], l, r)
      decreases r - i
    {
      i := i + 1;
      while i <= r && LessThan(pivot, queue[i])
        invariant l < i <= r + 1
        invariant forall k :: l <= k < i ==> !LessThan(queue[k], pivot)
        decreases r - i
      {
        i := i + 1;
      }
      if LessThan(queue[j], pivot) {
        j := j - 1;
        while j >= 0 && LessThan(queue[j], pivot)
          invariant l <= j < r
          invariant forall k :: j < k <= r ==> LessThan(queue[k], pivot)
        {
          j := j - 1;
        }
      }
      if i >= j { break; }
      ghost var before := queue[..];
      Swap(queue, i, j, l, r);
      RearrangedTrans(old(queue[..]), before, queue[..], l, r);
    }
    ghost var before := queue[..];
    Swap(queue, l, j, l, r);
    RearrangedTrans(old(queue[..]), before, queue[..], l, r);
  }

  /** Rearranging strictly one side of a partition keeps it. */
  lemma PartitionKept(s: seq<Arc>, t: seq<Arc>, l: int, j: int, r: int, l': int, r': int)
    requires Partitioned(s, l, j, r) && Rearranged(s, t, l', r')
    requires (l' == l && r' == j - 1) || (l' == j + 1 && r' == r)
    ensures Partitioned(t, l, j, r)
  {
    assert t[j] == s[j] by {
      if r' == j - 1 { assert s[j] == s[r' + 1..][0]; } else { assert s[j] == s[..l'][j]; }
    }
    forall k | l <= k <= r && k != j
      ensures if k < j then !LessThan(t[k], t[j]) else LessThan(t[k], t[j])
    {
      if l' <= k <= r' {
        var k' := RearrangedMember(s, t, l', r', k);
      } else if k < l' {
        assert t[k] == t[..l'][k];
      } else {
        assert t[k] == t[r' + 1..][k - r' - 1];
      }
    }
  }

  lemma PartitionOrders(s: seq<Arc>, l: int, j: int, r: int)
    requires Partitioned(s, l, j, r) && OrderedRange(s, l, j - 1) && OrderedRange(s, j + 1, r)
    ensures OrderedRange(s, l, r)
  {
    forall i, k | l <= i < k <= r ensures !LessThan(s[i], s[k]) {
      OrderIsStrictWeak(s[k], s[j], s[i]);
      OrderIsStrictWeak(s[i], s[k], s[j]);
      OrderIsStrictWeak(s[i], s[j], s[k]);
    }
  }

  method QuickSort(queue: array<Arc>, l: int, r: int)
    requires 0 <= l <= r + 1 <= queue.Length
    modifies queue
    ensures Rearranged(old(queue[..]), queue[..], l, r)
    ensures OrderedRange(queue[..], l, r)
    decreases r - l
  {
    if l < r {
      ghost var s := queue[..];
      var j := GetPivot(queue, l, r);
      ghost var s1 := queue[..];
      QuickSort(queue, l, j - 1);
      ghost var s2 := queue[..];
      PartitionKept(s1, s2, l, j, r, l, j - 1);
      RearrangedWiden(s1, s2, l, r, l, j - 1);
      QuickSort(queue, j + 1, r);
      ghost var s3 := queue[..];
      PartitionKept(s2, s3, l, j, r, j + 1, r);
      RearrangedWiden(s2, s3, l, r, j + 1, r);
      RearrangedTrans(s, s1, s2, l, r);
      RearrangedTrans(s, s2, s3, l, r);
      assert OrderedRange(s3, l, j - 1) by {
        forall k | l <= k <= j - 1 ensures s3[k] == s2[k] { assert s3[k] == s3[..j + 1][k]; }
      }
      PartitionOrders(s3, l, j, r);
    }
  }
}
