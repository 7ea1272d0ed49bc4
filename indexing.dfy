/** Index handling shared by the ensemble operations: Python/numpy integer
    indices, slices, fancy indexing with a list, and deletion at a set of
    positions. */
module Indexing {
  import opened Wrappers

  /** Every entry of `idx` is a valid position of a sequence of length `n`. */
  predicate InRange(idx: seq<nat>, n: nat)
  {
    forall k :: 0 <= k < |idx| ==> idx[k] < n
  }

  predicate Distinct<T(==)>(s: seq<T>)
  {
    forall i, j :: 0 <= i < j < |s| ==> s[i] != s[j]
  }

  /** 0, 1, ..., n - 1 (numpy's `arange(n)`). */
  function Iota(n: nat): (r: seq<nat>)
    ensures |r| == n
    ensures forall k :: 0 <= k < n ==> r[k] == k
  {
    seq(n, k requires 0 <= k < n => k)
  }

  /** numpy fancy indexing `s[idx]`: the entries at `idx`, in that order. */
  function Select<T>(s: seq<T>, idx: seq<nat>): (r: seq<T>)
    requires InRange(idx, |s|)
    ensures |r| == |idx|
    ensures forall k :: 0 <= k < |idx| ==> r[k] == s[idx[k]]
  {
    seq(|idx|, k requires 0 <= k < |idx| => s[idx[k]])
  }

  /** A Python integer index into a sequence of length `n`: `-(n as int) <= index < n`
      is accepted and a negative index counts from the end; anything else
      raises IndexError. */
  function NormaliseIndex(index: int, n: nat): (r: Result<nat>)
    ensures r.Ok? <==> -(n as int) <= index < n
    ensures r.Err? ==> r.error.IndexError?
    ensures r.Ok? ==> r.value < n && r.value % n == index % n
  {
    if -(n as int) <= index < n then
      Ok(if index < 0 then n + index else index)
    else
      Err(IndexError("conformation index out of range"))
  }

  /** A list of integer indices, each normalised as `NormaliseIndex` does. */
  function NormaliseAll(ids: seq<int>, n: nat): (r: Result<seq<nat>>)
    ensures r.Ok? <==> forall k :: 0 <= k < |ids| ==> -(n as int) <= ids[k] < n
    ensures r.Err? ==> r.error.IndexError?
    ensures r.Ok? ==> |r.value| == |ids| && InRange(r.value, n)
    ensures r.Ok? ==> forall k :: 0 <= k < |ids| ==> NormaliseIndex(ids[k], n) == Ok(r.value[k])
  {
    if |ids| == 0 then Ok([])
    else
      var head :- NormaliseIndex(ids[0], n);
      var tail :- NormaliseAll(ids[1..], n);
      Ok([head] + tail)
  }

  /** Python's `range(start, stop, step)`: it is empty exactly when `start`
      is not on the near side of `stop`, advances by `step` from `start`,
      and stops at the last value before crossing `stop`. */
  function Range(start: int, stop: int, step: int): (r: seq<int>)
    requires step != 0
    ensures |r| > 0 <==> (step > 0 && start < stop) || (step < 0 && start > stop)
    ensures |r| > 0 ==> r[0] == start
    ensures forall k :: 0 <= k < |r| - 1 ==> r[k + 1] == r[k] + step
    ensures step > 0 ==> forall k :: 0 <= k < |r| ==> start <= r[k] < stop
    ensures step < 0 ==> forall k :: 0 <= k < |r| ==> stop < r[k] <= start
    ensures |r| > 0 && step > 0 ==> r[|r| - 1] + step >= stop
    ensures |r| > 0 && step < 0 ==> r[|r| - 1] + step <= stop
    decreases if step > 0 then stop - start else start - stop
  {
    if (step > 0 && start < stop) || (step < 0 && start > stop) then
      [start] + Range(start + step, stop, step)
    else
      []
  }

  /** One bound of `slice.indices(n)`: a missing bound takes the default; a
      negative bound counts from the end; the result is clamped to
      `[lower, upper]`. */
  function ClampBound(bound: Option<int>, n: nat, lower: int, upper: int, default: int): (r: int)
    requires lower <= default <= upper
    requires lower == 0 || lower == -1
    requires upper == n || upper == n - 1
    ensures lower <= r <= upper
    ensures bound.None? ==> r == default
    ensures bound.Some? ==>
      var v := if bound.value < 0 then bound.value + n else bound.value;
      r == (if v < lower then lower else if v > upper then upper else v)
  {
    match bound
    case None => default
    case Some(b) =>
      if b < 0 then (if b + n < lower then lower else b + n)
      else if b > upper then upper
      else b
  }

  /** The step of a slice (`1` when it is absent). */
  function SliceStep(step: Option<int>): int
  {
    if step.Some? then step.value else 1
  }

  /** The first position `slice.indices(n)` yields for a non-zero step. */
  function SliceBegin(n: nat, start: Option<int>, st: int): int
    requires st != 0
  {
    if st < 0 then ClampBound(start, n, -1, n - 1, n - 1) else ClampBound(start, n, 0, n, 0)
  }

  /** The bound `slice.indices(n)` stops before, for a non-zero step. */
  function SliceEnd(n: nat, stop: Option<int>, st: int): int
    requires st != 0
  {
    if st < 0 then ClampBound(stop, n, -1, n - 1, -1) else ClampBound(stop, n, 0, n, n)
  }

  /** Non-negative integers as naturals, in order. */
  function Naturals(ids: seq<int>): (r: seq<nat>)
    requires forall k :: 0 <= k < |ids| ==> ids[k] >= 0
    ensures |r| == |ids| && forall k :: 0 <= k < |r| ==> r[k] == ids[k]
  {
    seq(|ids|, k requires 0 <= k < |ids| => ids[k] as nat)
  }

  /** The positions a Python slice `start:stop:step` picks from a sequence of
      length `n` (`range(*slice.indices(n))`); a zero step raises ValueError.
      The picks start at the clamped start, advance by the step, and run up
      to the last position before the clamped stop. */
  function SliceIndices(n: nat, start: Option<int>, stop: Option<int>, step: Option<int>): (r: Result<seq<nat>>)
    ensures r.Err? <==> step == Some(0)
    ensures r.Err? ==> r.error.ValueError?
    ensures r.Ok? ==> InRange(r.value, n)
    ensures r.Ok? ==> forall k :: 0 <= k < |r.value| - 1 ==>
      r.value[k + 1] == r.value[k] + SliceStep(step)
    ensures r.Ok? ==>
      var st, b, e := SliceStep(step), SliceBegin(n, start, SliceStep(step)), SliceEnd(n, stop, SliceStep(step));
      (|r.value| > 0 <==> (st > 0 && b < e) || (st < 0 && b > e)) &&
      (|r.value| > 0 ==> r.value[0] == b) &&
      (st > 0 ==> forall k :: 0 <= k < |r.value| ==> b <= r.value[k] < e) &&
      (st < 0 ==> forall k :: 0 <= k < |r.value| ==> e < r.value[k] <= b) &&
      (|r.value| > 0 && st > 0 ==> r.value[|r.value| - 1] + st >= e) &&
      (|r.value| > 0 && st < 0 ==> r.value[|r.value| - 1] + st <= e)
  {
    var st := SliceStep(step);
    if st == 0 then Err(ValueError("slice step cannot be zero"))
    else
      var ids := Range(SliceBegin(n, start, st), SliceEnd(n, stop, st), st);
      Ok(Naturals(ids))
  }

  /** `[1:4:2]` of five frames picks positions 1 and 3. */
  lemma SliceWithStep()
    ensures SliceIndices(5, Some(1), Some(4), Some(2)) == Ok([1, 3])
  {
    assert SliceBegin(5, Some(1), 2) == 1 && SliceEnd(5, Some(4), 2) == 4;
    assert Range(3, 4, 2) == [3] + Range(5, 4, 2);
    var ids := Range(1, 4, 2);
    assert ids == [1] + Range(3, 4, 2) == [1, 3];
    assert Naturals(ids) == [1, 3];
  }

  /** `[::-1]` of three frames picks them in reverse order. */
  lemma SliceReversed()
    ensures SliceIndices(3, None, None, Some(-1)) == Ok([2, 1, 0])
  {
    assert SliceBegin(3, None, -1) == 2 && SliceEnd(3, None, -1) == -1;
    assert Range(0, -1, -1) == [0] + Range(-1, -1, -1);
    assert Range(1, -1, -1) == [1] + Range(0, -1, -1);
    var ids := Range(2, -1, -1);
    assert ids == [2] + Range(1, -1, -1) == [2, 1, 0];
    assert Naturals(ids) == [2, 1, 0];
  }

  lemma {:induction false} RangeUpByOne(start: int, stop: int)
    requires start <= stop
    ensures Range(start, stop, 1) == seq(stop - start, k requires 0 <= k < stop - start => start + k)
    decreases stop - start
  {
    if start < stop {
      RangeUpByOne(start + 1, stop);
    }
  }

  /** The full slice `[:]` picks every position in order. */
  lemma FullSlice(n: nat)
    ensures SliceIndices(n, None, None, None) == Ok(Iota(n))
  {
    RangeUpByOne(0, n);
    var ids := Range(0, n, 1);
    assert Naturals(ids) == Iota(n);
  }

  /** `s` without the positions in `gone`; the survivors keep their order. */
  function Keep<T(==)>(s: seq<T>, gone: set<int>): (r: seq<T>)
    ensures |r| <= |s|
    ensures forall k :: 0 <= k < |r| ==> r[k] in s
  {
    if |s| == 0 then []
    else
      var init := s[..|s| - 1];
      var r := Keep(init, gone) + (if |s| - 1 in gone then [] else [s[|s| - 1]]);
      assert forall k :: 0 <= k < |r| ==> r[k] in init || r[k] == s[|s| - 1];
      r
  }

  lemma {:induction false} KeepSameLength<T, U>(s: seq<T>, t: seq<U>, gone: set<int>)
    requires |s| == |t|
    ensures |Keep(s, gone)| == |Keep(t, gone)|
  {
    if |s| > 0 {
      KeepSameLength(s[..|s| - 1], t[..|t| - 1], gone);
    }
  }

  lemma {:induction false} KeepNothingBelow<T>(s: seq<T>, gone: set<int>)
    requires forall d :: d in gone ==> d >= |s|
    ensures Keep(s, gone) == s
  {
    if |s| > 0 {
      KeepNothingBelow(s[..|s| - 1], gone);
    }
  }

  lemma {:induction false} KeepPrefix<T>(s: seq<T>, gone: set<int>, q: nat)
    requires q <= |s|
    requires forall d :: d in gone ==> d >= q
    ensures |Keep(s, gone)| >= q && Keep(s, gone)[..q] == s[..q]
  {
    if |s| == q {
      KeepNothingBelow(s, gone);
    } else {
      KeepPrefix(s[..|s| - 1], gone, q);
      assert s[..|s| - 1][..q] == s[..q];
    }
  }

  /** Deleting the last position of an extended list gives the list back. */
  lemma KeepLast<T>(s: seq<T>, x: T)
    ensures Keep(s + [x], {|s|}) == s
  {
    assert (s + [x])[..|s|] == s;
    KeepNothingBelow(s, {|s|});
  }

  /** Removing position `p` from what survives deleting a set of larger
      positions is the same as deleting `p` along with them: popping indices
      in descending order removes exactly the given positions. */
  lemma {:induction false} KeepPop<T>(s: seq<T>, gone: set<int>, p: nat)
    requires p < |s| && p !in gone
    requires forall d :: d in gone ==> d > p
    ensures |Keep(s, gone)| > p
    ensures Keep(s, gone + {p}) == Keep(s, gone)[..p] + Keep(s, gone)[p + 1..]
  {
    var init := s[..|s| - 1];
    if |s| == p + 1 {
      KeepNothingBelow(init, gone);
      KeepNothingBelow(init, gone + {p});
    } else {
      KeepPrefix(init, gone, p + 1);
      KeepPop(init, gone, p);
      var tail := if |s| - 1 in gone then [] else [s[|s| - 1]];
      var k := Keep(init, gone);
      assert Keep(s, gone) == k + tail;
      assert (k + tail)[..p] == k[..p];
      assert (k + tail)[p + 1..] == k[p + 1..] + tail;
    }
  }

  lemma IotaLast(n: nat)
    requires n > 0
    ensures Iota(n)[..n - 1] == Iota(n - 1) && Iota(n)[n - 1] == n - 1
  {
  }

  /** The positions that survive a deletion are positions of the list. */
  lemma KeptInRange(n: nat, gone: set<int>)
    ensures InRange(Keep(Iota(n), gone), n)
  {
    var r := Keep(Iota(n), gone);
    forall k | 0 <= k < |r| ensures r[k] < n {
      assert r[k] in Iota(n);
    }
  }

  /** The surviving positions `Keep(Iota(n), gone)` are exactly the positions
      below `n` outside `gone`. */
  lemma {:induction false} SurvivorsListed(n: nat, gone: set<int>)
    ensures forall x :: x in Keep(Iota(n), gone) <==> 0 <= x < n && x !in gone
  {
    if n > 0 {
      SurvivorsListed(n - 1, gone);
      IotaLast(n);
      var tail: seq<nat> := if n - 1 in gone then [] else [n - 1];
      assert Keep(Iota(n), gone) == Keep(Iota(n - 1), gone) + tail;
    }
  }

  /** Strictly increasing. */
  predicate Increasing(s: seq<int>)
  {
    forall i, j :: 0 <= i < j < |s| ==> s[i] < s[j]
  }

  /** The surviving positions keep their order. */
  lemma {:induction false} SurvivorsIncrease(n: nat, gone: set<int>)
    ensures Increasing(Keep(Iota(n), gone))
  {
    if n > 0 {
      SurvivorsIncrease(n - 1, gone);
      KeptInRange(n - 1, gone);
      IotaLast(n);
      var r0 := Keep(Iota(n - 1), gone);
      var tail: seq<nat> := if n - 1 in gone then [] else [n - 1];
      var r := r0 + tail;
      assert Keep(Iota(n), gone) == r;
      forall i, j | 0 <= i < j < |r| ensures r[i] < r[j] {
        if j == |r0| {
          assert r[i] == r0[i] && r0[i] < n - 1;
        }
      }
    }
  }

  lemma SelectAppend<T>(s: seq<T>, p: seq<nat>, q: seq<nat>)
    requires InRange(p, |s|) && InRange(q, |s|)
    ensures InRange(p + q, |s|) && Select(s, p + q) == Select(s, p) + Select(s, q)
  {
    assert InRange(p + q, |s|) by {
      forall k | 0 <= k < |p + q| ensures (p + q)[k] < |s| {
        if k >= |p| {
          assert (p + q)[k] == q[k - |p|];
        }
      }
    }
    var l, r := Select(s, p + q), Select(s, p) + Select(s, q);
    forall k | 0 <= k < |l| ensures l[k] == r[k] {
      if k >= |p| {
        assert (p + q)[k] == q[k - |p|];
      }
    }
  }

  /** Deleting positions is fancy indexing with the surviving positions. */
  lemma {:induction false} KeepIsSelect<T>(s: seq<T>, gone: set<int>)
    ensures InRange(Keep(Iota(|s|), gone), |s|)
    ensures Keep(s, gone) == Select(s, Keep(Iota(|s|), gone))
  {
    KeptInRange(|s|, gone);
    if |s| > 0 {
      var n := |s|;
      var init := s[..n - 1];
      KeepIsSelect(init, gone);
      IotaLast(n);
      var r0 := Keep(Iota(n - 1), gone);
      var tail: seq<nat> := if n - 1 in gone then [] else [n - 1];
      assert Keep(Iota(n), gone) == r0 + tail;
      SelectAppend(s, r0, tail);
      assert Select(s, r0) == Select(init, r0);
      assert Select(s, tail) == (if n - 1 in gone then [] else [s[n - 1]]);
    }
  }

  /** Strictly decreasing. */
  predicate Descending(s: seq<int>)
  {
    forall i, j :: 0 <= i < j < |s| ==> s[i] > s[j]
  }

  lemma DescendingCons(a: int, t: seq<int>)
    requires Descending(t) && (|t| == 0 || a > t[0])
    ensures Descending([a] + t)
  {
    var r := [a] + t;
    forall i, j | 0 <= i < j < |r| ensures r[i] > r[j] {
      if i == 0 && j > 1 {
        assert t[0] > t[j - 1];
      }
    }
  }

  function Insert(x: int, s: seq<int>): (r: seq<int>)
    requires Descending(s) && x !in s
    ensures Descending(r)
    ensures multiset(r) == multiset(s) + multiset{x}
    ensures |r| > 0 && r[0] == (if |s| == 0 || x > s[0] then x else s[0])
  {
    if |s| == 0 || x > s[0] then
      DescendingCons(x, s);
      [x] + s
    else
      var rest := Insert(x, s[1..]);
      assert s == [s[0]] + s[1..];
      assert |s| > 1 ==> s[0] > s[1];
      DescendingCons(s[0], rest);
      [s[0]] + rest
  }

  /** `list.sort(reverse=True)` on a list without repeats. */
  function SortDescending(s: seq<int>): (r: seq<int>)
    requires Distinct(s)
    ensures Descending(r)
    ensures multiset(r) == multiset(s)
  {
    if |s| == 0 then []
    else
      var rest := SortDescending(s[1..]);
      assert s == [s[0]] + s[1..];
      assert s[0] !in multiset(s[1..]);
      Insert(s[0], rest)
  }
}
