/** The cadence of a sampled series, inferred as the median gap between its timestamps. */
module Cadence {
  import opened Wrappers

  predicate Ascending(s: seq<real>) {
    forall i :: 0 < i < |s| ==> s[i - 1] <= s[i]
  }

  function Insert(x: real, s: seq<real>): (r: seq<real>)
    ensures |r| == |s| + 1
    ensures r[0] == if s == [] || x <= s[0] then x else s[0]
    ensures Ascending(s) ==> Ascending(r)
  {
    if s == [] || x <= s[0] then [x] + s else [s[0]] + Insert(x, s[1..])
  }

  /** Python's `sorted`. */
  function Sorted(s: seq<real>): (r: seq<real>)
    ensures Ascending(r) && |r| == |s|
  {
    if s == [] then [] else Insert(s[0], Sorted(s[1..]))
  }

  lemma {:induction false} SortedPermutes(s: seq<real>)
    ensures multiset(Sorted(s)) == multiset(s)
  {
    if s != [] {
      SortedPermutes(s[1..]);
      InsertPermutes(s[0], Sorted(s[1..]));
      assert s == [s[0]] + s[1..];
    }
  }

  lemma {:induction false} InsertPermutes(x: real, s: seq<real>)
    ensures multiset(Insert(x, s)) == multiset(s) + multiset{x}
  {
    if s != [] && x > s[0] {
      InsertPermutes(x, s[1..]);
      assert s == [s[0]] + s[1..];
    }
  }

  lemma {:induction false} AscendingAll(s: seq<real>, i: nat, j: nat)
    requires Ascending(s) && i <= j < |s|
    ensures s[i] <= s[j]
  {
    if i < j { AscendingAll(s, i, j - 1); }
  }

  function Gaps(times: seq<real>): (r: seq<real>)
    ensures |r| == if |times| < 1 then 0 else |times| - 1
  {
    if |times| < 2 then [] else seq(|times| - 1, i requires 0 <= i < |times| - 1 => times[i + 1] - times[i])
  }

  function Median(gaps: seq<real>): real
    requires gaps != []
  {
    var s := Sorted(gaps);
    var mid := |s| / 2;
    if |s| % 2 == 1 then s[mid] else (s[mid - 1] + s[mid]) / 2.0
  }

  /** `observed_interval_seconds`: nothing for fewer than two samples, and nothing for a median of zero. */
  function ObservedInterval(times: seq<real>): Option<real> {
    if |times| < 2 then None
    else
      var m := Median(Gaps(times));
      if m == 0.0 then None else Some(m)
  }

  // ---------------------------------------------------------------- counting

  function Count(s: seq<real>, p: real -> bool): nat {
    if s == [] then 0 else (if p(s[0]) then 1 else 0) + Count(s[1..], p)
  }

  /** At how many places two sequences differ. */
  function Changed(a: seq<real>, b: seq<real>): nat
    requires |a| == |b|
  {
    if a == [] then 0 else (if a[0] != b[0] then 1 else 0) + Changed(a[1..], b[1..])
  }

  lemma {:induction false} CountInsert(x: real, s: seq<real>, p: real -> bool)
    ensures Count(Insert(x, s), p) == Count(s, p) + if p(x) then 1 else 0
  {
    if s != [] && x > s[0] {
      CountInsert(x, s[1..], p);
      assert Insert(x, s)[1..] == Insert(x, s[1..]);
    } else {
      assert Insert(x, s)[1..] == s;
    }
  }

  lemma {:induction false} CountSorted(s: seq<real>, p: real -> bool)
    ensures Count(Sorted(s), p) == Count(s, p)
  {
    if s != [] {
      CountSorted(s[1..], p);
      CountInsert(s[0], Sorted(s[1..]), p);
    }
  }

  /** A run of places that all satisfy `p` counts. */
  lemma {:induction false} CountRun(s: seq<real>, p: real -> bool, lo: nat, hi: nat)
    requires lo <= hi <= |s| && forall i :: lo <= i < hi ==> p(s[i])
    ensures Count(s, p) >= hi - lo
    decreases |s|
  {
    if s != [] && lo < hi {
      CountRun(s[1..], p, if lo == 0 then 0 else lo - 1, hi - 1);
    }
  }

  /** If more places satisfy `p` than were changed, an unchanged one does. */
  lemma {:induction false} UnchangedOne(a: seq<real>, b: seq<real>, p: real -> bool) returns (i: nat)
    requires |a| == |b| && Count(b, p) > Changed(a, b)
    ensures i < |a| && a[i] == b[i] && p(b[i])
  {
    if a[0] == b[0] && p(b[0]) {
      i := 0;
    } else {
      var j := UnchangedOne(a[1..], b[1..], p);
      i := j + 1;
    }
  }

  // ---------------------------------------------------------------- robustness

  /** The median outlasts any change to fewer than half of the gaps: however large or small the changed ones
      become, it stays between two gaps that were not changed. */
  lemma MedianRobust(gaps: seq<real>, changed: seq<real>) returns (i: nat, j: nat)
    requires gaps != [] && |changed| == |gaps| && 2 * Changed(gaps, changed) < |gaps|
    ensures i < |gaps| && changed[i] == gaps[i] && j < |gaps| && changed[j] == gaps[j]
    ensures gaps[i] <= Median(changed) <= gaps[j]
  {
    var s := Sorted(changed);
    var n, mid := |s|, |s| / 2;
    var below := if n % 2 == 1 then mid else mid - 1;
    AscendingAll(s, below, mid);
    i := UnchangedAtMost(gaps, changed, below);
    j := UnchangedAtLeast(gaps, changed, mid);
  }

  lemma UnchangedAtMost(gaps: seq<real>, changed: seq<real>, k: nat) returns (i: nat)
    requires |changed| == |gaps| && k < |gaps| && Changed(gaps, changed) <= k
    ensures i < |gaps| && changed[i] == gaps[i] && gaps[i] <= Sorted(changed)[k]
  {
    var s := Sorted(changed);
    var atMost := (x: real) => x <= s[k];
    forall h | 0 <= h < k + 1 ensures atMost(s[h]) { AscendingAll(s, h, k); }
    CountRun(s, atMost, 0, k + 1);
    CountSorted(changed, atMost);
    i := UnchangedOne(gaps, changed, atMost);
  }

  lemma UnchangedAtLeast(gaps: seq<real>, changed: seq<real>, k: nat) returns (i: nat)
    requires |changed| == |gaps| && k < |gaps| && Changed(gaps, changed) < |gaps| - k
    ensures i < |gaps| && changed[i] == gaps[i] && Sorted(changed)[k] <= gaps[i]
  {
    var s := Sorted(changed);
    var atLeast := (x: real) => x >= s[k];
    forall h | k <= h < |s| ensures atLeast(s[h]) { AscendingAll(s, k, h); }
    CountRun(s, atLeast, k, |s|);
    CountSorted(changed, atLeast);
    i := UnchangedOne(gaps, changed, atLeast);
  }

  /** In particular it lies between two of the gaps it is the median of. */
  lemma MedianBetween(gaps: seq<real>) returns (i: nat, j: nat)
    requires gaps != []
    ensures i < |gaps| && j < |gaps| && gaps[i] <= Median(gaps) <= gaps[j]
  {
    NothingChanged(gaps);
    i, j := MedianRobust(gaps, gaps);
  }

  lemma {:induction false} NothingChanged(s: seq<real>)
    ensures Changed(s, s) == 0
  {
    if s != [] { NothingChanged(s[1..]); }
  }

  // ---------------------------------------------------------------- and no further

  lemma {:induction false} CountAppend(a: seq<real>, b: seq<real>, p: real -> bool)
    ensures Count(a + b, p) == Count(a, p) + Count(b, p)
  {
    if a == [] {
      assert a + b == b;
    } else {
      assert (a + b)[1..] == a[1..] + b;
      CountAppend(a[1..], b, p);
    }
  }

  lemma {:induction false} CountMost(s: seq<real>, p: real -> bool)
    ensures Count(s, p) <= |s|
    ensures Count(s, p) == |s| <==> forall x :: x in s ==> p(x)
    ensures Count(s, p) == 0 <==> forall x :: x in s ==> !p(x)
  {
    if s != [] {
      CountMost(s[1..], p);
      assert s == [s[0]] + s[1..];
      assert forall x :: x in s <==> x == s[0] || x in s[1..];
    }
  }

  function Repeat(v: real, n: nat): (r: seq<real>)
    ensures |r| == n
    ensures forall x :: x in r ==> x == v
  {
    if n == 0 then [] else [v] + Repeat(v, n - 1)
  }

  /** The value in place `k` once sorted: at least `k + 1` are no larger, at most `k` are smaller. */
  lemma {:induction false} SortedAt(s: seq<real>, k: nat, y: real, atMost: real -> bool, below: real -> bool)
    requires k < |s| && (forall x :: atMost(x) <==> x <= y) && (forall x :: below(x) <==> x < y)
    requires Count(s, atMost) > k && Count(s, below) <= k
    ensures Sorted(s)[k] == y
  {
    var t := Sorted(s);
    CountSorted(s, atMost);
    CountSorted(s, below);
    if t[k] < y {
      forall h | 0 <= h <= k ensures below(t[h]) { AscendingAll(t, h, k); }
      CountRun(t, below, 0, k + 1);
    }
    if y < t[k] {
      forall h | k <= h < |t| ensures !atMost(t[h]) { AscendingAll(t, k, h); }
      CountFew(t, atMost, k);
    }
  }

  lemma {:induction false} CountFew(t: seq<real>, p: real -> bool, k: nat)
    requires k <= |t| && forall h :: k <= h < |t| ==> !p(t[h])
    ensures Count(t, p) <= k
  {
    assert t == t[..k] + t[k..];
    CountAppend(t[..k], t[k..], p);
    CountMost(t[..k], p);
    CountMost(t[k..], p);
  }

  /** The first half of the gaps kept, the rest moved to `v`. */
  function Moved(gaps: seq<real>, v: real): (r: seq<real>)
    ensures |r| == |gaps|
  {
    gaps[..|gaps| / 2] + Repeat(v, |gaps| - |gaps| / 2)
  }

  lemma MovedCount(gaps: seq<real>, v: real, p: real -> bool)
    ensures Count(Moved(gaps, v), p) == Count(gaps[..|gaps| / 2], p) + if p(v) then |gaps| - |gaps| / 2 else 0
  {
    var rest := Repeat(v, |gaps| - |gaps| / 2);
    CountAppend(gaps[..|gaps| / 2], rest, p);
    CountMost(rest, p);
    if rest != [] { assert rest[0] in rest; }
  }

  /** Where the first `n` places agree, only the others can differ. */
  lemma {:induction false} ChangedBeyond(a: seq<real>, b: seq<real>, n: nat)
    requires |a| == |b| && n <= |a| && a[..n] == b[..n]
    ensures Changed(a, b) <= |a| - n
    decreases |a|
  {
    if a != [] {
      if n > 0 {
        assert a[0] == a[..n][0] == b[0];
        assert a[1..][..n - 1] == a[..n][1..] == b[1..][..n - 1];
      }
      ChangedBeyond(a[1..], b[1..], if n > 0 then n - 1 else 0);
    }
  }

  /** `top` is the largest of `s`, `bottom` the least. */
  ghost predicate Bounds(s: seq<real>, bottom: real, top: real) {
    bottom in s && top in s && forall x :: x in s ==> bottom <= x <= top
  }

  lemma {:induction false} HasBounds(s: seq<real>) returns (bottom: real, top: real)
    requires s != []
    ensures Bounds(s, bottom, top)
  {
    bottom, top := s[0], s[0];
    if |s| > 1 {
      var lo, hi := HasBounds(s[1..]);
      assert s == [s[0]] + s[1..];
      bottom, top := if lo < bottom then lo else bottom, if hi > top then hi else top;
    }
  }

  /** Half is too many: whatever the gaps and whatever the target, moving the second half of them (one more than
      half of an odd number) to one value puts the median there. */
  lemma HalfIsTooMany(gaps: seq<real>, target: real) returns (changed: seq<real>)
    requires gaps != []
    ensures |changed| == |gaps| && 2 * Changed(gaps, changed) <= |gaps| + 1
    ensures Median(changed) == target
  {
    var half := |gaps| / 2;
    var kept := gaps[..half];
    var v := target;
    if |gaps| % 2 == 0 {
      var bottom, top := HasBounds(kept);
      if top <= target {
        v := 2.0 * target - top;
        MedianAbove(gaps, v, bottom, top);
      } else if target <= bottom {
        v := 2.0 * target - bottom;
        MedianBelow(gaps, v, bottom, top);
      } else {
        MovedInMiddle(gaps, v, half - 1, bottom, top);
        MovedInMiddle(gaps, v, half, bottom, top);
      }
    } else {
      MovedMajority(gaps, v);
    }
    hide Median, Sorted;
    changed := Moved(gaps, v);
    MovedChanges(gaps, v);
  }

  lemma {:induction false} MovedChanges(gaps: seq<real>, v: real)
    ensures 2 * Changed(gaps, Moved(gaps, v)) <= |gaps| + 1
  {
    hide Changed;
    ChangedBeyond(gaps, Moved(gaps, v), |gaps| / 2);
  }

  /** More than half in one place: that is the median. */
  lemma MovedMajority(gaps: seq<real>, v: real)
    requires |gaps| % 2 == 1
    ensures Sorted(Moved(gaps, v))[|gaps| / 2] == v
  {
    var atMost, below := (x: real) => x <= v, (x: real) => x < v;
    MovedCount(gaps, v, atMost);
    MovedCount(gaps, v, below);
    CountMost(gaps[..|gaps| / 2], below);
    SortedAt(Moved(gaps, v), |gaps| / 2, v, atMost, below);
  }

  /** Half in one place, between two kept gaps: both middle places are there. */
  lemma MovedInMiddle(gaps: seq<real>, v: real, k: nat, bottom: real, top: real)
    requires |gaps| % 2 == 0 && gaps != [] && |gaps| / 2 - 1 <= k <= |gaps| / 2
    requires Bounds(gaps[..|gaps| / 2], bottom, top) && bottom < v < top
    ensures Sorted(Moved(gaps, v))[k] == v
  {
    var atMost, below := (x: real) => x <= v, (x: real) => x < v;
    MovedCount(gaps, v, atMost);
    MovedCount(gaps, v, below);
    CountMost(gaps[..|gaps| / 2], below);
    CountMost(gaps[..|gaps| / 2], atMost);
    SortedAt(Moved(gaps, v), k, v, atMost, below);
  }

  /** Half moved above the rest: the middle places hold the largest kept gap and the moved value. */
  lemma MedianAbove(gaps: seq<real>, v: real, bottom: real, top: real)
    requires |gaps| % 2 == 0 && gaps != [] && Bounds(gaps[..|gaps| / 2], bottom, top) && top <= v
    ensures Median(Moved(gaps, v)) == (top + v) / 2.0
  {
    AboveAtHalf(gaps, v, bottom, top);
    AboveBelowHalf(gaps, v, bottom, top);
  }

  lemma AboveAtHalf(gaps: seq<real>, v: real, bottom: real, top: real)
    requires |gaps| % 2 == 0 && gaps != [] && Bounds(gaps[..|gaps| / 2], bottom, top) && top <= v
    ensures Sorted(Moved(gaps, v))[|gaps| / 2] == v
  {
    var half := |gaps| / 2;
    var atMost, below := (x: real) => x <= v, (x: real) => x < v;
    MovedCount(gaps, v, atMost);
    MovedCount(gaps, v, below);
    CountMost(gaps[..half], below);
    CountMost(gaps[..half], atMost);
    SortedAt(Moved(gaps, v), half, v, atMost, below);
  }

  lemma AboveBelowHalf(gaps: seq<real>, v: real, bottom: real, top: real)
    requires |gaps| % 2 == 0 && gaps != [] && Bounds(gaps[..|gaps| / 2], bottom, top) && top <= v
    ensures Sorted(Moved(gaps, v))[|gaps| / 2 - 1] == top
  {
    var half := |gaps| / 2;
    var atMost, below := (x: real) => x <= top, (x: real) => x < top;
    MovedCount(gaps, v, atMost);
    MovedCount(gaps, v, below);
    CountMost(gaps[..half], below);
    CountMost(gaps[..half], atMost);
    SortedAt(Moved(gaps, v), half - 1, top, atMost, below);
  }

  /** Half moved below the rest: they hold the moved value and the least kept gap. */
  lemma MedianBelow(gaps: seq<real>, v: real, bottom: real, top: real)
    requires |gaps| % 2 == 0 && gaps != [] && Bounds(gaps[..|gaps| / 2], bottom, top) && v <= bottom
    ensures Median(Moved(gaps, v)) == (v + bottom) / 2.0
  {
    BelowBelowHalf(gaps, v, bottom, top);
    BelowAtHalf(gaps, v, bottom, top);
  }

  lemma BelowBelowHalf(gaps: seq<real>, v: real, bottom: real, top: real)
    requires |gaps| % 2 == 0 && gaps != [] && Bounds(gaps[..|gaps| / 2], bottom, top) && v <= bottom
    ensures Sorted(Moved(gaps, v))[|gaps| / 2 - 1] == v
  {
    var half := |gaps| / 2;
    var atMost, below := (x: real) => x <= v, (x: real) => x < v;
    MovedCount(gaps, v, atMost);
    MovedCount(gaps, v, below);
    CountMost(gaps[..half], below);
    SortedAt(Moved(gaps, v), half - 1, v, atMost, below);
  }

  lemma BelowAtHalf(gaps: seq<real>, v: real, bottom: real, top: real)
    requires |gaps| % 2 == 0 && gaps != [] && Bounds(gaps[..|gaps| / 2], bottom, top) && v <= bottom
    ensures Sorted(Moved(gaps, v))[|gaps| / 2] == bottom
  {
    var half := |gaps| / 2;
    var atMost, below := (x: real) => x <= bottom, (x: real) => x < bottom;
    MovedCount(gaps, v, atMost);
    MovedCount(gaps, v, below);
    CountMost(gaps[..half], atMost);
    CountMost(gaps[..half], below);
    SortedAt(Moved(gaps, v), half, bottom, atMost, below);
  }

  /** The inferred cadence is missing exactly for fewer than two samples or a median of zero, and otherwise
      lies between two of the series' own gaps. */
  lemma IntervalExactly(times: seq<real>)
    ensures ObservedInterval(times) == None <==> |times| < 2 || Median(Gaps(times)) == 0.0
    ensures ObservedInterval(times).Some? ==>
              exists i, j :: 0 <= i < |times| - 1 && 0 <= j < |times| - 1 &&
                times[i + 1] - times[i] <= ObservedInterval(times).value <= times[j + 1] - times[j]
  {
    if |times| >= 2 {
      var i, j := MedianBetween(Gaps(times));
      assert times[i + 1] - times[i] == Gaps(times)[i] && times[j + 1] - times[j] == Gaps(times)[j];
    }
  }

  // ---------------------------------------------------------------- the middle of the series' own gaps

  ghost predicate AllAscending(s: seq<real>) {
    forall i, j :: 0 <= i < j < |s| ==> s[i] <= s[j]
  }

  lemma {:induction false} SortedAscends(s: seq<real>)
    ensures AllAscending(Sorted(s))
  {
    var t := Sorted(s);
    forall i, j | 0 <= i < j < |t| ensures t[i] <= t[j] { AscendingAll(t, i, j); }
  }

  lemma FirstIsLeast(s: seq<real>, x: real)
    requires AllAscending(s) && x in s
    ensures s[0] <= x
  {
    var i :| 0 <= i < |s| && s[i] == x;
  }

  /** The same values in ascending order begin alike, and go on with the same values. */
  lemma SameFirst(s: seq<real>, t: seq<real>)
    requires AllAscending(s) && AllAscending(t) && multiset(s) == multiset(t) && s != [] && t != []
    ensures s[0] == t[0] && multiset(s[1..]) == multiset(t[1..])
    ensures AllAscending(s[1..]) && AllAscending(t[1..])
  {
    assert s[0] in multiset(t) && t[0] in multiset(s);
    FirstIsLeast(s, t[0]);
    FirstIsLeast(t, s[0]);
    WithoutFirst(s);
    WithoutFirst(t);
  }

  lemma WithoutFirst(s: seq<real>)
    requires s != []
    ensures multiset(s[1..]) == multiset(s) - multiset{s[0]}
  {
    assert s == [s[0]] + s[1..];
  }

  /** There is only one way to put values in ascending order. */
  lemma {:induction false} OneAscending(s: seq<real>, t: seq<real>)
    requires AllAscending(s) && AllAscending(t) && multiset(s) == multiset(t)
    ensures s == t
    decreases |s|
  {
    hide AllAscending;
    SameSize(s, t);
    if |s| > 0 {
      SameFirst(s, t);
      OneAscending(s[1..], t[1..]);
      Rejoin(s, t);
    }
  }

  lemma Rejoin(s: seq<real>, t: seq<real>)
    requires s != [] && t != [] && s[0] == t[0] && s[1..] == t[1..]
    ensures s == t
  {
    assert s == [s[0]] + s[1..] && t == [t[0]] + t[1..];
  }

  lemma SameSize(s: seq<real>, t: seq<real>)
    requires multiset(s) == multiset(t)
    ensures |s| == |t|
  {
    assert |s| == |multiset(s)| && |t| == |multiset(t)|;
  }

  lemma GapsAre(times: seq<real>, diffs: seq<real>)
    requires |times| >= 2 && |diffs| == |times| - 1
    requires forall i :: 0 <= i < |diffs| ==> diffs[i] == times[i + 1] - times[i]
    ensures Gaps(times) == diffs
  {
  }

  lemma {:induction false} ArrangedIsSorted(s: seq<real>, diffs: seq<real>)
    requires multiset(s) == multiset(diffs) && AllAscending(s)
    ensures s == Sorted(diffs)
  {
    hide AllAscending, Sorted;
    SortedPermutes(diffs);
    SortedAscends(diffs);
    OneAscending(s, Sorted(diffs));
  }

  /** The inferred cadence is the middle of the series' own consecutive differences, the mean of the two middle
      ones if their number is even, whoever put them in order; nothing if that is zero. */
  lemma IntervalIsMiddle(times: seq<real>, diffs: seq<real>, s: seq<real>)
    requires |times| >= 2 && |diffs| == |times| - 1
    requires forall i :: 0 <= i < |diffs| ==> diffs[i] == times[i + 1] - times[i]
    requires multiset(s) == multiset(diffs) && AllAscending(s)
    ensures |s| == |times| - 1
    ensures var n := |s|;
            var middle := if n % 2 == 1 then s[n / 2] else (s[n / 2 - 1] + s[n / 2]) / 2.0;
            ObservedInterval(times) == if middle == 0.0 then None else Some(middle)
  {
    hide Sorted, Gaps, AllAscending;
    GapsAre(times, diffs);
    ArrangedIsSorted(s, diffs);
  }
}
