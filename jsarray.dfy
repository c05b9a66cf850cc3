/** The Array.prototype methods the handlers use, as functions over sequences.
    A callback is a total predicate `T -> bool`. */
module JsArray {
  import opened Common

  /** `findIndex`: the index of the first element satisfying `p`, or -1. */
  function FindIndex<T>(s: seq<T>, p: T -> bool): (r: int)
    ensures -1 <= r < |s|
    ensures r == -1 <==> forall i :: 0 <= i < |s| ==> !p(s[i])
    ensures 0 <= r ==> p(s[r]) && forall i :: 0 <= i < r ==> !p(s[i])
  {
    if |s| == 0 then -1
    else if p(s[0]) then 0
    else
      var k := FindIndex(s[1..], p);
      if k == -1 then -1 else k + 1
  }

  /** `find`: the first element satisfying `p`, i.e. the one at `findIndex`. */
  function Find<T>(s: seq<T>, p: T -> bool): (r: Option<T>)
    ensures r.None? <==> FindIndex(s, p) == -1
    ensures r.Some? ==> r.value == s[FindIndex(s, p)]
  {
    if |s| == 0 then None
    else if p(s[0]) then Some(s[0])
    else Find(s[1..], p)
  }

  /** `filter`: the elements satisfying `p`, in their original order. */
  function Filter<T>(s: seq<T>, p: T -> bool): (r: seq<T>)
    ensures |r| <= |s|
    ensures forall x :: x in r ==> x in s && p(x)
  {
    if |s| == 0 then []
    else if p(s[0]) then [s[0]] + Filter(s[1..], p)
    else Filter(s[1..], p)
  }

  /** Filtering keeps every satisfying element as often as it occurs and drops
      every other one. */
  lemma {:induction false} FilterCount<T>(s: seq<T>, p: T -> bool, x: T)
    ensures multiset(Filter(s, p))[x] == if p(x) then multiset(s)[x] else 0
  {
    if |s| > 0 {
      assert s == [s[0]] + s[1..];
      FilterCount(s[1..], p, x);
    }
  }

  /** The index a relative `slice` argument stands for: negative counts from the end,
      and the result is clamped to `0..len`. */
  function SliceIndex(i: int, len: nat): (r: nat)
    ensures r <= len
    ensures 0 <= i ==> r == Min(i, len)
    ensures i < 0 ==> r == (if len + i < 0 then 0 else len + i)
  {
    if i < 0 then (if len + i < 0 then 0 else len + i)
    else if i > len then len
    else i
  }

  /** `slice(start, end)`: the elements from `start` up to, not including, `end`. */
  function Slice<T>(s: seq<T>, start: int, end: int): (r: seq<T>)
    ensures |r| <= |s|
    ensures |r| == (if SliceIndex(start, |s|) < SliceIndex(end, |s|) then SliceIndex(end, |s|) - SliceIndex(start, |s|) else 0)
    ensures 0 <= start <= end ==> r == s[Min(start, |s|)..Min(end, |s|)]
    ensures forall x :: x in r ==> x in s
    ensures forall i :: 0 <= i < |r| ==> SliceIndex(start, |s|) + i < |s| && r[i] == s[SliceIndex(start, |s|) + i]
  {
    var b, e := SliceIndex(start, |s|), SliceIndex(end, |s|);
    if b < e then s[b..e] else []
  }

  /** A window from a non-negative offset holds at most `count` elements. */
  lemma SliceWindow<T>(s: seq<T>, start: int, count: int)
    requires 0 <= start && 0 <= count
    ensures Slice(s, start, start + count) == s[Min(start, |s|)..Min(start + count, |s|)]
    ensures |Slice(s, start, start + count)| <= count
  {
  }

  /** Filtering keeps relative order: it distributes over concatenation. */
  lemma {:induction false} FilterConcat<T>(a: seq<T>, b: seq<T>, p: T -> bool)
    ensures Filter(a + b, p) == Filter(a, p) + Filter(b, p)
  {
    if |a| == 0 {
      assert a + b == b;
    } else {
      assert (a + b)[0] == a[0];
      assert (a + b)[1..] == a[1..] + b;
      FilterConcat(a[1..], b, p);
    }
  }

  /** Filtering with a predicate every element satisfies changes nothing. */
  lemma {:induction false} FilterAll<T>(s: seq<T>, p: T -> bool)
    requires forall i :: 0 <= i < |s| ==> p(s[i])
    ensures Filter(s, p) == s
  {
    if |s| > 0 {
      FilterAll(s[1..], p);
    }
  }

  /** Two filters in a row are one filter with the conjunction of their callbacks. */
  lemma {:induction false} FilterFuse<T>(s: seq<T>, p: T -> bool, q: T -> bool, pq: T -> bool)
    requires forall x :: pq(x) == (p(x) && q(x))
    ensures Filter(Filter(s, p), q) == Filter(s, pq)
  {
    if |s| > 0 {
      FilterFuse(s[1..], p, q, pq);
    }
  }

  /** Filters with callbacks that agree on every element return the same sequence. */
  lemma {:induction false} FilterCongruent<T>(s: seq<T>, p: T -> bool, q: T -> bool)
    requires forall i :: 0 <= i < |s| ==> p(s[i]) == q(s[i])
    ensures Filter(s, p) == Filter(s, q)
  {
    if |s| > 0 {
      FilterCongruent(s[1..], p, q);
    }
  }

  /** Filtering out at least one element makes the sequence strictly shorter. */
  lemma {:induction false} FilterShrinks<T>(s: seq<T>, p: T -> bool, k: int)
    requires 0 <= k < |s| && !p(s[k])
    ensures |Filter(s, p)| < |s|
  {
    if k > 0 {
      FilterShrinks(s[1..], p, k - 1);
    }
  }

  /** An element that satisfies the callback survives the filter. */
  lemma {:induction false} FilterKeeps<T>(s: seq<T>, p: T -> bool, k: int)
    requires 0 <= k < |s| && p(s[k])
    ensures s[k] in Filter(s, p)
  {
    if k > 0 {
      FilterKeeps(s[1..], p, k - 1);
    }
  }

  /** Two kept elements appear in the filtered sequence in their original order. */
  lemma FilterKeepsOrder<T>(s: seq<T>, p: T -> bool, i: int, j: int)
    requires 0 <= i < j < |s| && p(s[i]) && p(s[j])
    ensures exists i', j' :: 0 <= i' < j' < |Filter(s, p)| && Filter(s, p)[i'] == s[i] && Filter(s, p)[j'] == s[j]
  {
    var front, back := s[..j], s[j..];
    assert s == front + back;
    FilterConcat(front, back, p);
    var fk, bk := Filter(front, p), Filter(back, p);
    FilterKeeps(front, p, i);
    var i' :| 0 <= i' < |fk| && fk[i'] == s[i];
    assert bk == [s[j]] + Filter(back[1..], p);
    assert (fk + bk)[i'] == s[i] && (fk + bk)[|fk|] == s[j];
  }

  /** `find` with callbacks that agree on every element finds the same element. */
  lemma {:induction false} FindCongruent<T>(s: seq<T>, p: T -> bool, q: T -> bool)
    requires forall i :: 0 <= i < |s| ==> p(s[i]) == q(s[i])
    ensures Find(s, p) == Find(s, q)
  {
    if |s| > 0 {
      FindCongruent(s[1..], p, q);
    }
  }

  /** A relation that holds between every earlier and later element still holds
      after filtering. */
  lemma {:induction false} FilterKeepsPairwise<T>(s: seq<T>, p: T -> bool, ok: (T, T) -> bool)
    requires forall i, j :: 0 <= i < j < |s| ==> ok(s[i], s[j])
    ensures forall i, j :: 0 <= i < j < |Filter(s, p)| ==> ok(Filter(s, p)[i], Filter(s, p)[j])
  {
    if |s| > 0 {
      var tail := s[1..];
      forall i, j | 0 <= i < j < |tail| ensures ok(tail[i], tail[j]) {
        assert tail[i] == s[i + 1] && tail[j] == s[j + 1];
      }
      FilterKeepsPairwise(tail, p, ok);
      if p(s[0]) {
        var rest := Filter(tail, p);
        forall y | y in rest ensures ok(s[0], y) {
          var m :| 0 <= m < |tail| && tail[m] == y;
          assert s[m + 1] == y;
        }
        PairwiseCons(s[0], rest, ok);
      }
    }
  }

  lemma PairwiseCons<T>(x: T, rest: seq<T>, ok: (T, T) -> bool)
    requires forall y :: y in rest ==> ok(x, y)
    requires forall i, j :: 0 <= i < j < |rest| ==> ok(rest[i], rest[j])
    ensures var r := [x] + rest; forall i, j :: 0 <= i < j < |r| ==> ok(r[i], r[j])
  {
    var r := [x] + rest;
    forall i, j | 0 <= i < j < |r| ensures ok(r[i], r[j]) {
      if i == 0 {
        assert r[j] == rest[j - 1];
      } else {
        assert r[i] == rest[i - 1] && r[j] == rest[j - 1];
      }
    }
  }
}
