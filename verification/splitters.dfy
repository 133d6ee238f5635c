/**
 * Splitting a point list at its median along one coordinate axis
 * (splitters.py). The sort the split relies on is a stable sort keyed on a
 * single coordinate; it is modelled here as an insertion sort and proved to be
 * the unique sorted, stable rearrangement of its input.
 */
module Splitters {

  /** A point is a tuple of coordinates. Only comparisons are ever made on
      them, so integer coordinates stand in for the source's floats. */
  type Point = seq<int>

  /** Every point of `s` has a coordinate on `axis`. */
  predicate HasAxis(s: seq<Point>, axis: nat) {
    forall p <- s :: axis < |p|
  }

  /** `s` is in non-decreasing order of its `axis` coordinate. */
  predicate SortedOn(s: seq<Point>, axis: nat)
    requires HasAxis(s, axis)
  {
    forall i, j | 0 <= i < j < |s| :: s[i][axis] <= s[j][axis]
  }

  /** The points of `s` whose `axis` coordinate equals `k`, in their order in `s`. */
  function WithKey(s: seq<Point>, axis: nat, k: int): (r: seq<Point>)
    requires HasAxis(s, axis)
    ensures |r| <= |s|
  {
    if s == [] then []
    else (if s[0][axis] == k then [s[0]] else []) + WithKey(s[1..], axis, k)
  }

  /** `r` lists every run of equal `axis` keys in the same relative order as `s`. */
  ghost predicate StableOn(s: seq<Point>, r: seq<Point>, axis: nat)
    requires HasAxis(s, axis) && HasAxis(r, axis)
  {
    forall k :: WithKey(r, axis, k) == WithKey(s, axis, k)
  }

  lemma WithKeyCons(x: Point, s: seq<Point>, axis: nat, k: int)
    requires axis < |x| && HasAxis(s, axis)
    ensures HasAxis([x] + s, axis)
    ensures WithKey([x] + s, axis, k) == (if x[axis] == k then [x] else []) + WithKey(s, axis, k)
  {
    assert ([x] + s)[1..] == s;
  }

  /** Inserts `x` in front of the first element whose key is at least its own,
      so that `x` precedes every element of `s` with an equal key. */
  function Insert(x: Point, s: seq<Point>, axis: nat): (r: seq<Point>)
    requires axis < |x| && HasAxis(s, axis)
    ensures HasAxis(r, axis) && |r| == |s| + 1
    ensures multiset(r) == multiset(s) + multiset{x}
    ensures SortedOn(s, axis) ==> SortedOn(r, axis)
    ensures forall k :: WithKey(r, axis, k) == (if x[axis] == k then [x] else []) + WithKey(s, axis, k)
  {
    if s == [] || x[axis] <= s[0][axis] then
      InsertFront(x, s, axis);
      [x] + s
    else
      var rest := Insert(x, s[1..], axis);
      InsertBehind(x, s, axis, rest);
      [s[0]] + rest
  }

  /** The first case of `Insert`: `x` goes in front of `s`. */
  lemma InsertFront(x: Point, s: seq<Point>, axis: nat)
    requires axis < |x| && HasAxis(s, axis)
    requires s == [] || x[axis] <= s[0][axis]
    ensures HasAxis([x] + s, axis)
    ensures SortedOn(s, axis) ==> SortedOn([x] + s, axis)
    ensures forall k :: WithKey([x] + s, axis, k) == (if x[axis] == k then [x] else []) + WithKey(s, axis, k)
  {
    forall k
      ensures WithKey([x] + s, axis, k) == (if x[axis] == k then [x] else []) + WithKey(s, axis, k)
    {
      WithKeyCons(x, s, axis, k);
    }
  }

  /** The second case of `Insert`: `x` goes into the tail of `s`, behind `s[0]`. */
  lemma InsertBehind(x: Point, s: seq<Point>, axis: nat, rest: seq<Point>)
    requires axis < |x| && HasAxis(s, axis) && s != [] && s[0][axis] < x[axis]
    requires HasAxis(rest, axis) && multiset(rest) == multiset(s[1..]) + multiset{x}
    requires SortedOn(s[1..], axis) ==> SortedOn(rest, axis)
    requires forall k :: WithKey(rest, axis, k) == (if x[axis] == k then [x] else []) + WithKey(s[1..], axis, k)
    ensures HasAxis([s[0]] + rest, axis)
    ensures multiset([s[0]] + rest) == multiset(s) + multiset{x}
    ensures SortedOn(s, axis) ==> SortedOn([s[0]] + rest, axis)
    ensures forall k :: WithKey([s[0]] + rest, axis, k) == (if x[axis] == k then [x] else []) + WithKey(s, axis, k)
  {
    MultisetBehind(x, s, rest);
    if SortedOn(s, axis) {
      assert SortedOn(s[1..], axis);
      SortedBehind(x, s, axis, rest);
    }
    KeysBehind(x, s, axis, rest);
  }

  lemma MultisetBehind(x: Point, s: seq<Point>, rest: seq<Point>)
    requires s != [] && multiset(rest) == multiset(s[1..]) + multiset{x}
    ensures multiset([s[0]] + rest) == multiset(s) + multiset{x}
  {
    assert s == [s[0]] + s[1..];
  }

  lemma KeysBehind(x: Point, s: seq<Point>, axis: nat, rest: seq<Point>)
    requires axis < |x| && HasAxis(s, axis) && s != [] && s[0][axis] < x[axis] && HasAxis(rest, axis)
    requires forall k :: WithKey(rest, axis, k) == (if x[axis] == k then [x] else []) + WithKey(s[1..], axis, k)
    ensures HasAxis([s[0]] + rest, axis)
    ensures forall k :: WithKey([s[0]] + rest, axis, k) == (if x[axis] == k then [x] else []) + WithKey(s, axis, k)
  {
    forall k
      ensures WithKey([s[0]] + rest, axis, k) == (if x[axis] == k then [x] else []) + WithKey(s, axis, k)
    {
      KeyBehind(x, s, axis, rest, k);
    }
  }

  lemma KeyBehind(x: Point, s: seq<Point>, axis: nat, rest: seq<Point>, k: int)
    requires axis < |x| && HasAxis(s, axis) && s != [] && s[0][axis] < x[axis] && HasAxis(rest, axis)
    requires WithKey(rest, axis, k) == (if x[axis] == k then [x] else []) + WithKey(s[1..], axis, k)
    ensures HasAxis([s[0]] + rest, axis)
    ensures WithKey([s[0]] + rest, axis, k) == (if x[axis] == k then [x] else []) + WithKey(s, axis, k)
  {
    var tail := WithKey(s[1..], axis, k);
    WithKeyCons(s[0], rest, axis, k);
    assert WithKey(s, axis, k) == (if s[0][axis] == k then [s[0]] else []) + tail;
    if x[axis] == k {
      assert WithKey([s[0]] + rest, axis, k) == WithKey(rest, axis, k);
      assert WithKey(s, axis, k) == tail;
    } else {
      assert WithKey(rest, axis, k) == tail;
    }
  }

  lemma SortedBehind(x: Point, s: seq<Point>, axis: nat, rest: seq<Point>)
    requires axis < |x| && HasAxis(s, axis) && s != [] && s[0][axis] < x[axis]
    requires HasAxis(rest, axis) && multiset(rest) == multiset(s[1..]) + multiset{x}
    requires SortedOn(s, axis) && SortedOn(rest, axis)
    ensures HasAxis([s[0]] + rest, axis) && SortedOn([s[0]] + rest, axis)
  {
    var r := [s[0]] + rest;
    forall i, j | 0 <= i < j < |r| ensures r[i][axis] <= r[j][axis] {
      if i == 0 {
        var q := r[j];
        assert q == rest[j - 1];
        assert q in multiset(rest);
        if q != x {
          assert q in multiset(s[1..]);
          var m :| 0 <= m < |s[1..]| && s[1..][m] == q;
          assert s[m + 1] == q;
        }
      }
    }
  }

  /** Stable sort of `s` on coordinate `axis` (the `points.sort(key=...)` call). */
  function StableSort(s: seq<Point>, axis: nat): (r: seq<Point>)
    requires HasAxis(s, axis)
    ensures HasAxis(r, axis) && |r| == |s|
    ensures multiset(r) == multiset(s)
    ensures SortedOn(r, axis)
    ensures StableOn(s, r, axis)
  {
    if s == [] then []
    else
      var sorted := StableSort(s[1..], axis);
      var r := Insert(s[0], sorted, axis);
      SortStep(s, sorted, r, axis);
      r
  }

  /** Inserting the head into the sorted tail sorts the whole sequence
      stably. */
  lemma SortStep(s: seq<Point>, sorted: seq<Point>, r: seq<Point>, axis: nat)
    requires HasAxis(s, axis) && s != [] && HasAxis(sorted, axis)
    requires multiset(sorted) == multiset(s[1..]) && multiset(r) == multiset(sorted) + multiset{s[0]}
    requires StableOn(s[1..], sorted, axis) && HasAxis(r, axis)
    requires forall k :: WithKey(r, axis, k) == (if s[0][axis] == k then [s[0]] else []) + WithKey(sorted, axis, k)
    ensures multiset(r) == multiset(s)
    ensures StableOn(s, r, axis)
  {
    assert s == [s[0]] + s[1..];
    forall k
      ensures WithKey(r, axis, k) == WithKey(s, axis, k)
    {
      WithKeyCons(s[0], s[1..], axis, k);
    }
  }

  /** No element of `s` has key `k` when every key in `s` exceeds `k`. */
  lemma {:induction false} NoKeyBelow(s: seq<Point>, axis: nat, k: int)
    requires HasAxis(s, axis)
    requires forall p <- s :: k < p[axis]
    ensures WithKey(s, axis, k) == []
    decreases |s|
  {
    if s != [] {
      assert s[0] in s;
      NoKeyBelow(s[1..], axis, k);
    }
  }

  /** In a sorted sequence the first element's key is the smallest one. */
  lemma SortedHeadSmallest(s: seq<Point>, axis: nat)
    requires HasAxis(s, axis) && SortedOn(s, axis) && s != []
    ensures forall p <- s :: s[0][axis] <= p[axis]
  {
    forall p <- s ensures s[0][axis] <= p[axis] {
      var i :| 0 <= i < |s| && s[i] == p;
    }
  }

  /** The run of `s`'s own first key starts with `s[0]`. */
  lemma HeadRun(s: seq<Point>, axis: nat)
    requires HasAxis(s, axis) && s != []
    ensures WithKey(s, axis, s[0][axis]) == [s[0]] + WithKey(s[1..], axis, s[0][axis])
  {
  }

  /** A non-empty sequence has a non-empty run for its first key. */
  lemma NonEmptyRun(s: seq<Point>, t: seq<Point>, axis: nat)
    requires HasAxis(s, axis) && HasAxis(t, axis) && s != []
    requires forall k :: WithKey(s, axis, k) == WithKey(t, axis, k)
    ensures t != []
  {
    HeadRun(s, axis);
    assert WithKey(t, axis, s[0][axis]) != [];
  }

  /** Sorted sequences that agree on every key's run start alike. */
  lemma HeadsAgree(a: seq<Point>, b: seq<Point>, axis: nat)
    requires HasAxis(a, axis) && HasAxis(b, axis) && a != [] && b != []
    requires SortedOn(a, axis) && SortedOn(b, axis)
    requires forall k :: WithKey(a, axis, k) == WithKey(b, axis, k)
    ensures a[0] == b[0]
  {
    var ka, kb := a[0][axis], b[0][axis];
    HeadRun(a, axis);
    HeadRun(b, axis);
    if ka < kb {
      SortedHeadSmallest(b, axis);
      NoKeyBelow(b, axis, ka);
      assert false;
    } else if kb < ka {
      SortedHeadSmallest(a, axis);
      NoKeyBelow(a, axis, kb);
      assert false;
    }
    assert WithKey(a, axis, ka)[0] == WithKey(b, axis, kb)[0];
  }

  /** Dropping a common first element keeps every key's run equal. */
  lemma TailsAgree(a: seq<Point>, b: seq<Point>, axis: nat)
    requires HasAxis(a, axis) && HasAxis(b, axis) && a != [] && b != [] && a[0] == b[0]
    requires forall k :: WithKey(a, axis, k) == WithKey(b, axis, k)
    ensures HasAxis(a[1..], axis) && HasAxis(b[1..], axis)
    ensures forall k :: WithKey(a[1..], axis, k) == WithKey(b[1..], axis, k)
  {
    forall k ensures WithKey(a[1..], axis, k) == WithKey(b[1..], axis, k) {
      var c := if a[0][axis] == k then [a[0]] else [];
      assert WithKey(a, axis, k) == c + WithKey(a[1..], axis, k);
      assert WithKey(b, axis, k) == c + WithKey(b[1..], axis, k);
      assert WithKey(a[1..], axis, k) == WithKey(a, axis, k)[|c|..];
    }
  }

  /** Two sequences that are both sorted on `axis` and agree on the run of
      every key are equal: a sorted and stable rearrangement is unique. */
  lemma {:induction false} SortedStableUnique(a: seq<Point>, b: seq<Point>, axis: nat)
    requires HasAxis(a, axis) && HasAxis(b, axis)
    requires SortedOn(a, axis) && SortedOn(b, axis)
    requires forall k :: WithKey(a, axis, k) == WithKey(b, axis, k)
    ensures a == b
    decreases |a|
  {
    if a != [] {
      NonEmptyRun(a, b, axis);
      HeadsAgree(a, b, axis);
      TailsAgree(a, b, axis);
      SortedStableUnique(a[1..], b[1..], axis);
      assert a == [a[0]] + a[1..] && b == [b[0]] + b[1..];
    } else if b != [] {
      NonEmptyRun(b, a, axis);
      assert false;
    }
  }

  /** `StableSort` is the only sorted, stable rearrangement of its input, so it
      agrees with any stable sorting algorithm keyed on the same coordinate. */
  lemma StableSortIsUnique(s: seq<Point>, r: seq<Point>, axis: nat)
    requires HasAxis(s, axis) && HasAxis(r, axis)
    requires SortedOn(r, axis) && StableOn(s, r, axis)
    ensures r == StableSort(s, axis)
  {
    SortedStableUnique(r, StableSort(s, axis), axis);
  }

  /** The three parts of a median split: the points before the median
      position, the median point, and the points after it. */
  datatype Split = Split(below: seq<Point>, median: Point, above: seq<Point>)

  /** Stably sorts a copy of `points` on `axis` and splits it at index
      `|points| / 2`. The source indexes `points[median]`, so it demands a
      non-empty input. */
  function MedianSplit(points: seq<Point>, axis: nat): (r: Split)
    requires |points| > 0 && HasAxis(points, axis)
    ensures |r.below| == |points| / 2 && |r.above| == |points| - |points| / 2 - 1
    ensures HasAxis(r.below + [r.median] + r.above, axis)
    ensures multiset(r.below + [r.median] + r.above) == multiset(points)
    ensures SortedOn(r.below + [r.median] + r.above, axis)
    ensures StableOn(points, r.below + [r.median] + r.above, axis)
    ensures forall q <- r.below :: axis < |q| && q[axis] <= r.median[axis]
    ensures forall q <- r.above :: axis < |q| && r.median[axis] <= q[axis]
  {
    var sorted := StableSort(points, axis);
    var m := |points| / 2;
    SplitSorted(sorted, m, axis);
    Split(sorted[..m], sorted[m], sorted[m + 1..])
  }

  /** Cutting a sorted sequence around position `m` puts no larger key before
      it and no smaller key after it. */
  lemma SplitSorted(s: seq<Point>, m: nat, axis: nat)
    requires HasAxis(s, axis) && SortedOn(s, axis) && m < |s|
    ensures s[..m] + [s[m]] + s[m + 1..] == s
    ensures forall q <- s[..m] :: axis < |q| && q[axis] <= s[m][axis]
    ensures forall q <- s[m + 1..] :: axis < |q| && s[m][axis] <= q[axis]
  {
    forall q <- s[..m] ensures axis < |q| && q[axis] <= s[m][axis] {
      var i :| 0 <= i < m && s[i] == q;
    }
    forall q <- s[m + 1..] ensures axis < |q| && s[m][axis] <= q[axis] {
      var i :| m + 1 <= i < |s| && s[i] == q;
    }
  }
}
