/** The half-open time intervals of time-primitives.ts and the operations on whole sets of them.
  * An `Instant` is the integer number of milliseconds its `Date` holds.
  */
module Intervals {
  import opened Wrappers

  datatype RawInterval = TimeInterval(start: int, end: int)

  /** The constructor throws exactly when end < start, so a constructed interval satisfies this
    * constraint, and every construction below is proved not to throw. Zero length is legal.
    */
  type Interval = t: RawInterval | t.start <= t.end witness TimeInterval(0, 0)

  // ---------- single intervals ----------

  predicate Contains(t: Interval, x: int) {
    t.start <= x < t.end
  }

  predicate StrictlyInside(t: Interval, x: int) {
    t.start < x < t.end
  }

  predicate Intersects(a: Interval, b: Interval) {
    a.start < b.end && a.end > b.start
  }

  function DurationMs(t: Interval): nat {
    t.end - t.start
  }

  /** `Math.round` rounds halves up. */
  function DurationMinutes(t: Interval): nat {
    (DurationMs(t) + 30_000) / 60_000
  }

  /** The common part. A zero-length interval strictly inside another one yields itself. */
  function Intersection(a: Interval, b: Interval): (r: Option<Interval>)
    ensures r.Some? ==> forall x :: Contains(r.value, x) <==> Contains(a, x) && Contains(b, x)
    ensures r.None? ==> forall x :: !(Contains(a, x) && Contains(b, x))
    ensures r.None? ==> !(DurationMs(a) == 0 && StrictlyInside(b, a.start))
    ensures r.None? ==> !(DurationMs(b) == 0 && StrictlyInside(a, b.start))
    ensures r.Some? && DurationMs(r.value) == 0 ==>
              StrictlyInside(a, r.value.start) || StrictlyInside(b, r.value.start)
    ensures r.Some? ==> a.start <= r.value.start && r.value.end <= a.end
    ensures r.Some? ==> b.start <= r.value.start && r.value.end <= b.end
  {
    if !Intersects(a, b) then None
    else
      var maxStart := if a.start > b.start then a.start else b.start;
      var minEnd := if a.end < b.end then a.end else b.end;
      Some(TimeInterval(maxStart, minEnd))
  }

  /** What is left of `a`: nothing, `a` itself, or the parts before and after `sub`. */
  function Subtract(a: Interval, sub: Interval): seq<Interval> {
    if !Intersects(a, sub) then [a]
    else
      var left: seq<Interval> := if a.start < sub.start then [TimeInterval(a.start, sub.start)] else [];
      var right: seq<Interval> := if a.end > sub.end then [TimeInterval(sub.end, a.end)] else [];
      left + right
  }

  // ---------- what a list of intervals covers ----------

  /** Some interval of s contains the instant x. */
  ghost predicate Covers(s: seq<Interval>, x: int) {
    exists t | t in s :: Contains(t, x)
  }

  /** The closed intervals of s, on a line with a point between any two neighbouring milliseconds:
    * the point 2x is the instant x and 2x + 1 lies between x and x + 1. Unlike `Covers`, this also
    * sees zero-length intervals and whether two intervals are adjacent.
    */
  ghost predicate Touches(s: seq<Interval>, p: int) {
    exists t | t in s :: 2 * t.start <= p <= 2 * t.end
  }

  ghost predicate SameTouch(s: seq<Interval>, t: seq<Interval>) {
    forall p :: Touches(s, p) <==> Touches(t, p)
  }

  ghost predicate SameCover(s: seq<Interval>, t: seq<Interval>) {
    forall x :: Covers(s, x) <==> Covers(t, x)
  }

  /** Sorted, with every end strictly before the next start. */
  ghost predicate Normal(s: seq<Interval>) {
    forall i, j :: 0 <= i < j < |s| ==> s[i].end < s[j].start
  }

  ghost predicate NoZeroLength(s: seq<Interval>) {
    forall t | t in s :: t.start < t.end
  }

  /** z is a zero-length interval of s that no other interval of s reaches. */
  ghost predicate Isolated(s: seq<Interval>, z: int) {
    TimeInterval(z, z) in s && !Covers(s, z - 1) && !Covers(s, z)
  }

  /** Both sides of the instant z are covered, so that z is strictly inside the normal form. */
  ghost predicate Surrounds(s: seq<Interval>, z: int) {
    Covers(s, z - 1) && Covers(s, z)
  }

  lemma CoversSingle(t: Interval)
    ensures forall x :: Covers([t], x) <==> Contains(t, x)
  {
    assert t in [t];
  }

  lemma CoversConcat(s: seq<Interval>, t: seq<Interval>)
    ensures forall x :: Covers(s + t, x) <==> Covers(s, x) || Covers(t, x)
  {
    forall x ensures Covers(s + t, x) <==> Covers(s, x) || Covers(t, x) {
      if Covers(s, x) {
        var u :| u in s && Contains(u, x);
        assert u in s + t;
      }
      if Covers(t, x) {
        var u :| u in t && Contains(u, x);
        assert u in s + t;
      }
    }
  }

  lemma SubtractPoints(a: Interval, sub: Interval)
    ensures forall x :: Covers(Subtract(a, sub), x) <==> Contains(a, x) && !Contains(sub, x)
    ensures forall z :: TimeInterval(z, z) in Subtract(a, sub) <==>
                        a == TimeInterval(z, z) && !StrictlyInside(sub, z)
    ensures forall t | t in Subtract(a, sub) :: a.start <= t.start && t.end <= a.end
  {
    if !Intersects(a, sub) {
      CoversSingle(a);
    } else {
      var l: seq<Interval> := if a.start < sub.start then [TimeInterval(a.start, sub.start)] else [];
      var r: seq<Interval> := if a.end > sub.end then [TimeInterval(sub.end, a.end)] else [];
      CoversConcat(l, r);
      if l != [] { CoversSingle(l[0]); }
      if r != [] { CoversSingle(r[0]); }
    }
  }

  /** How the closed cover is made of covered instants and zero-length members. */
  lemma TouchesByPoints(s: seq<Interval>, x: int)
    ensures Touches(s, 2 * x + 1) <==> Covers(s, x)
    ensures Touches(s, 2 * x) <==> Covers(s, x - 1) || Covers(s, x) || TimeInterval(x, x) in s
  {
    if Covers(s, x) {
      var t :| t in s && Contains(t, x);
      assert 2 * t.start <= 2 * x + 1 <= 2 * t.end;
      assert 2 * t.start <= 2 * x <= 2 * t.end;
    }
    if Covers(s, x - 1) {
      var t :| t in s && Contains(t, x - 1);
      assert 2 * t.start <= 2 * x <= 2 * t.end;
    }
    if TimeInterval(x, x) in s {
      var t: Interval := TimeInterval(x, x);
      assert t in s && 2 * t.start <= 2 * x <= 2 * t.end;
    }
    if Touches(s, 2 * x + 1) {
      var t :| t in s && 2 * t.start <= 2 * x + 1 <= 2 * t.end;
      assert Contains(t, x);
    }
    if Touches(s, 2 * x) {
      var t :| t in s && 2 * t.start <= 2 * x <= 2 * t.end;
      assert Contains(t, x) || Contains(t, x - 1) || t == TimeInterval(x, x);
    }
  }

  lemma SameTouchFromPoints(s: seq<Interval>, t: seq<Interval>)
    requires SameCover(s, t)
    requires forall z :: TimeInterval(z, z) in s <==> TimeInterval(z, z) in t
    ensures SameTouch(s, t)
  {
    forall p ensures Touches(s, p) <==> Touches(t, p) {
      var x := p / 2;
      assert p == 2 * x || p == 2 * x + 1;
      TouchesByPoints(s, x);
      TouchesByPoints(t, x);
      assert Covers(s, x) <==> Covers(t, x);
      assert Covers(s, x - 1) <==> Covers(t, x - 1);
    }
  }

  /** A closed cover has at most one normal list. */
  lemma {:induction false} NormalIsUnique(s: seq<Interval>, t: seq<Interval>)
    requires Normal(s) && Normal(t) && SameTouch(s, t)
    ensures s == t
  {
    SameTouchSameEmptiness(s, t);
    if s != [] {
      HeadStartsFirst(s, t);
      HeadStartsFirst(t, s);
      HeadEndsLast(s, t);
      HeadEndsLast(t, s);
      SameTouchTails(s, t);
      NormalIsUnique(s[1..], t[1..]);
      assert s == [s[0]] + s[1..] && t == [t[0]] + t[1..];
    }
  }

  lemma SameTouchSameEmptiness(s: seq<Interval>, t: seq<Interval>)
    requires SameTouch(s, t)
    ensures s == [] <==> t == []
  {
    assert s != [] ==> s[0] in s && (Touches(s, 2 * s[0].start) <==> Touches(t, 2 * s[0].start));
    assert t != [] ==> t[0] in t && (Touches(s, 2 * t[0].start) <==> Touches(t, 2 * t[0].start));
  }

  lemma HeadStartsFirst(s: seq<Interval>, t: seq<Interval>)
    requires s != [] && t != [] && Normal(s) && SameTouch(s, t)
    ensures s[0].start <= t[0].start
  {
    assert t[0] in t && Touches(t, 2 * t[0].start);
    assert Touches(s, 2 * t[0].start);
    var u :| u in s && 2 * u.start <= 2 * t[0].start <= 2 * u.end;
    var i :| 0 <= i < |s| && s[i] == u;
    assert i == 0 || s[0].end < s[i].start;
  }

  lemma HeadEndsLast(s: seq<Interval>, t: seq<Interval>)
    requires s != [] && t != [] && Normal(s) && SameTouch(s, t) && s[0].start == t[0].start
    ensures s[0].end >= t[0].end
  {
    var p := 2 * s[0].end + 1;
    assert !Touches(s, p) by {
      forall i | 0 <= i < |s| ensures !(2 * s[i].start <= p <= 2 * s[i].end) {
        assert i == 0 || s[0].end < s[i].start;
      }
    }
    assert t[0] in t && (Touches(s, p) <==> Touches(t, p));
  }

  lemma TouchesTail(s: seq<Interval>, p: int)
    requires s != [] && Normal(s)
    ensures Touches(s[1..], p) <==> Touches(s, p) && p > 2 * s[0].end
  {
    if Touches(s[1..], p) {
      var u :| u in s[1..] && 2 * u.start <= p <= 2 * u.end;
      var i :| 0 <= i < |s[1..]| && s[1..][i] == u;
      assert s[0].end < s[i + 1].start && u in s;
    }
    if Touches(s, p) && p > 2 * s[0].end {
      var u :| u in s && 2 * u.start <= p <= 2 * u.end;
      var i :| 0 <= i < |s| && s[i] == u;
      assert i > 0 && s[1..][i - 1] == u;
    }
  }

  lemma SameTouchTails(s: seq<Interval>, t: seq<Interval>)
    requires s != [] && t != [] && Normal(s) && Normal(t) && SameTouch(s, t) && s[0] == t[0]
    ensures SameTouch(s[1..], t[1..])
  {
    hide Touches, Normal;
    forall p ensures Touches(s[1..], p) <==> Touches(t[1..], p) {
      TouchesTail(s, p);
      TouchesTail(t, p);
      assert Touches(s, p) <==> Touches(t, p);
    }
  }

  // ---------- normalizeSet ----------

  ghost predicate SortedByStart(s: seq<Interval>) {
    forall i, j :: 0 <= i < j < |s| ==> s[i].start <= s[j].start
  }

  /** `Array.prototype.sort` with the comparison of start instants: a stable sort. */
  function SortByStart(s: seq<Interval>): seq<Interval> {
    if s == [] then [] else InsertByStart(s[0], SortByStart(s[1..]))
  }

  function InsertByStart(t: Interval, s: seq<Interval>): seq<Interval> {
    if s == [] || t.start <= s[0].start then [t] + s
    else [s[0]] + InsertByStart(t, s[1..])
  }

  lemma {:induction false} InsertByStartElements(t: Interval, s: seq<Interval>)
    ensures multiset(InsertByStart(t, s)) == multiset([t]) + multiset(s)
  {
    if s != [] && t.start > s[0].start {
      InsertByStartElements(t, s[1..]);
      assert s == [s[0]] + s[1..];
    }
  }

  lemma {:induction false} InsertByStartSorts(t: Interval, s: seq<Interval>)
    requires SortedByStart(s)
    ensures SortedByStart(InsertByStart(t, s))
  {
    if s != [] && t.start > s[0].start {
      InsertByStartSorts(t, s[1..]);
      InsertByStartElements(t, s[1..]);
      var r := InsertByStart(t, s[1..]);
      forall u | u in r ensures s[0].start <= u.start {
        assert u in multiset(r);
        assert u == t || u in s[1..];
      }
    }
  }

  /** Sorting by start, stably: the intervals with a given start keep their order. */
  lemma {:induction false} SortByStartSorts(s: seq<Interval>)
    ensures SortedByStart(SortByStart(s))
    ensures multiset(SortByStart(s)) == multiset(s)
    ensures forall x :: StartingAt(SortByStart(s), x) == StartingAt(s, x)
  {
    if s != [] {
      SortByStartSorts(s[1..]);
      InsertByStartSorts(s[0], SortByStart(s[1..]));
      InsertByStartElements(s[0], SortByStart(s[1..]));
      assert s == [s[0]] + s[1..];
      forall x ensures StartingAt(SortByStart(s), x) == StartingAt(s, x) {
        InsertIsStable(s[0], SortByStart(s[1..]), x);
      }
    }
  }

  function StartingAt(s: seq<Interval>, x: int): seq<Interval> {
    if s == [] then [] else (if s[0].start == x then [s[0]] else []) + StartingAt(s[1..], x)
  }

  lemma StartingAtCons(t: Interval, s: seq<Interval>, x: int)
    ensures StartingAt([t] + s, x) == (if t.start == x then [t] else []) + StartingAt(s, x)
  {
    assert ([t] + s)[1..] == s;
  }

  lemma {:induction false} InsertIsStable(t: Interval, s: seq<Interval>, x: int)
    ensures StartingAt(InsertByStart(t, s), x) == (if t.start == x then [t] else []) + StartingAt(s, x)
  {
    if s == [] || t.start <= s[0].start {
      StartingAtCons(t, s, x);
    } else {
      InsertIsStable(t, s[1..], x);
      StartingAtCons(s[0], InsertByStart(t, s[1..]), x);
    }
  }

  /** One pass of the merge loop: `current` against the last interval already produced. */
  function MergeInto(result: seq<Interval>, current: Interval): seq<Interval> {
    if result == [] then [current]
    else
      var last := result[|result| - 1];
      if current.start <= last.end then
        var maxEnd := if current.end > last.end then current.end else last.end;
        result[|result| - 1 := TimeInterval(last.start, maxEnd)]
      else
        result + [current]
  }

  function Merged(sorted: seq<Interval>): seq<Interval> {
    if sorted == [] then []
    else MergeInto(Merged(sorted[..|sorted| - 1]), sorted[|sorted| - 1])
  }

  function Normalized(s: seq<Interval>): seq<Interval> {
    Merged(SortByStart(s))
  }

  lemma MergeIntoIsNormal(s: seq<Interval>, t: Interval)
    requires Normal(s) && (s != [] ==> s[|s| - 1].start <= t.start)
    ensures Normal(MergeInto(s, t))
    ensures MergeInto(s, t) != [] && MergeInto(s, t)[|MergeInto(s, t)| - 1].start <= t.start
  {}

  lemma {:induction false} MergedIsNormal(sorted: seq<Interval>)
    requires SortedByStart(sorted)
    ensures Normal(Merged(sorted))
    ensures Merged(sorted) == [] <==> sorted == []
    ensures sorted != [] ==>
              Merged(sorted)[|Merged(sorted)| - 1].start <= sorted[|sorted| - 1].start
  {
    if sorted != [] {
      hide MergeInto, Normal;
      var front := sorted[..|sorted| - 1];
      MergedIsNormal(front);
      MergeIntoIsNormal(Merged(front), sorted[|sorted| - 1]);
    }
  }

  /** The merge loop always compares with an interval that starts no later. */
  lemma MergedStartsEarlier(sorted: seq<Interval>)
    requires SortedByStart(sorted) && sorted != []
    ensures var merged := Merged(sorted[..|sorted| - 1]);
            && SortedByStart(sorted[..|sorted| - 1])
            && (merged != [] ==> merged[|merged| - 1].start <= sorted[|sorted| - 1].start)
  {
    MergedIsNormal(sorted[..|sorted| - 1]);
  }

  lemma {:induction false} MergedTouches(sorted: seq<Interval>, p: int)
    requires SortedByStart(sorted)
    ensures Touches(Merged(sorted), p) <==> Touches(sorted, p)
  {
    if sorted != [] {
      hide MergeInto, Touches, SortedByStart;
      var front, current := sorted[..|sorted| - 1], sorted[|sorted| - 1];
      MergedStartsEarlier(sorted);
      MergedTouches(front, p);
      assert sorted == front + [current];
      TouchesSnoc(front, current, p);
      MergeIntoTouches(Merged(front), current, p);
    }
  }

  lemma TouchesSnoc(s: seq<Interval>, t: Interval, p: int)
    ensures Touches(s + [t], p) <==> Touches(s, p) || 2 * t.start <= p <= 2 * t.end
  {
    assert t in s + [t];
    if Touches(s, p) {
      var u :| u in s && 2 * u.start <= p <= 2 * u.end;
      assert u in s + [t];
    }
  }

  lemma MergeIntoTouches(s: seq<Interval>, t: Interval, p: int)
    requires s != [] ==> s[|s| - 1].start <= t.start
    ensures Touches(MergeInto(s, t), p) <==> Touches(s, p) || 2 * t.start <= p <= 2 * t.end
  {
    TouchesSnoc(s, t, p);
    if s == [] {
      assert [t] == s + [t];
    } else {
      var front, last := s[..|s| - 1], s[|s| - 1];
      if t.start <= last.end {
        var m: Interval := TimeInterval(last.start, if t.end > last.end then t.end else last.end);
        assert MergeInto(s, t) == front + [m] && s == front + [last];
        TouchesSnoc(front, m, p);
        TouchesSnoc(front, last, p);
      }
    }
  }

  lemma SameElementsTouch(s: seq<Interval>, t: seq<Interval>)
    requires multiset(s) == multiset(t)
    ensures SameTouch(s, t)
  {
    assert forall u :: u in s <==> u in multiset(s);
    assert forall u :: u in t <==> u in multiset(t);
  }

  /** The result is sorted with strict gaps and has exactly the input's closed cover. */
  lemma NormalizedIsNormal(s: seq<Interval>)
    ensures Normal(Normalized(s))
    ensures SameTouch(Normalized(s), s)
    ensures SameCover(Normalized(s), s)
  {
    var sorted := SortByStart(s);
    SortByStartSorts(s);
    SameElementsTouch(s, sorted);
    MergedIsNormal(sorted);
    forall p ensures Touches(Normalized(s), p) <==> Touches(s, p) {
      MergedTouches(sorted, p);
      assert Touches(Normalized(s), p) <==> Touches(sorted, p);
    }
    forall x ensures Covers(Normalized(s), x) <==> Covers(s, x) {
      TouchesByPoints(s, x);
      TouchesByPoints(Normalized(s), x);
    }
  }

  /** normalizeSet is a canonical form, zero-length intervals included. */
  lemma NormalizedIsCanonical(s: seq<Interval>, t: seq<Interval>)
    ensures Normalized(s) == Normalized(t) <==> SameTouch(s, t)
  {
    NormalizedIsNormal(s);
    NormalizedIsNormal(t);
    if SameTouch(s, t) {
      NormalIsUnique(Normalized(s), Normalized(t));
    }
  }

  /** A list is its own normal form exactly when it is normal; in particular normalising twice is
    * normalising once.
    */
  lemma NormalizedFixpoint(s: seq<Interval>)
    ensures Normalized(s) == s <==> Normal(s)
    ensures Normalized(Normalized(s)) == Normalized(s)
  {
    NormalizedIsNormal(s);
    NormalizedIsNormal(Normalized(s));
    NormalIsUnique(Normalized(Normalized(s)), Normalized(s));
    if Normal(s) {
      NormalIsUnique(Normalized(s), s);
    }
  }

  lemma NormalizedIgnoresOrder(s: seq<Interval>, t: seq<Interval>)
    requires multiset(s) == multiset(t)
    ensures Normalized(s) == Normalized(t)
  {
    SameElementsTouch(s, t);
    NormalizedIsCanonical(s, t);
  }

  /** Without zero-length intervals the covered instants alone determine the normal form. */
  lemma NormalizedByCoverage(s: seq<Interval>, t: seq<Interval>)
    requires NoZeroLength(s) && NoZeroLength(t)
    ensures Normalized(s) == Normalized(t) <==> SameCover(s, t)
  {
    NormalizedIsNormal(s);
    NormalizedIsNormal(t);
    if SameCover(s, t) {
      SameTouchFromPoints(s, t);
      NormalizedIsCanonical(s, t);
    }
  }

  /** The zero-length members of the normal form are the isolated ones of the input. */
  lemma ZeroLengthInNormalized(s: seq<Interval>, z: int)
    ensures TimeInterval(z, z) in Normalized(s) <==> Isolated(s, z)
  {
    var r := Normalized(s);
    NormalizedIsNormal(s);
    TouchesByPoints(s, z);
    TouchesByPoints(r, z);
    assert Covers(r, z - 1) <==> Covers(s, z - 1);
    assert Covers(r, z) <==> Covers(s, z);
    if TimeInterval(z, z) in r {
      NormalZeroIsIsolated(r, z);
    }
  }

  lemma NormalZeroIsIsolated(s: seq<Interval>, z: int)
    requires Normal(s) && TimeInterval(z, z) in s
    ensures Isolated(s, z)
  {
    var i :| 0 <= i < |s| && s[i] == TimeInterval(z, z);
    forall u | u in s ensures !Contains(u, z - 1) && !Contains(u, z) {
      var j :| 0 <= j < |s| && s[j] == u;
      assert j < i ==> s[j].end < s[i].start;
      assert i < j ==> s[i].end < s[j].start;
    }
  }

  /** Two normal lists with the same covered instants and the same zero-length members are equal. */
  lemma NormalByPoints(s: seq<Interval>, t: seq<Interval>)
    requires Normal(s) && Normal(t) && SameCover(s, t)
    requires forall z :: TimeInterval(z, z) in s <==> TimeInterval(z, z) in t
    ensures s == t
  {
    SameTouchFromPoints(s, t);
    NormalIsUnique(s, t);
  }

  /** In a normal list an instant is strictly inside a member exactly when both of its sides are covered. */
  lemma InsideNormal(s: seq<Interval>, z: int)
    requires Normal(s)
    ensures (exists t | t in s :: StrictlyInside(t, z)) <==> Surrounds(s, z)
  {
    if Covers(s, z - 1) && Covers(s, z) {
      var t :| t in s && Contains(t, z - 1);
      var u :| u in s && Contains(u, z);
      var i :| 0 <= i < |s| && s[i] == t;
      var j :| 0 <= j < |s| && s[j] == u;
      assert i == j;
      assert StrictlyInside(t, z);
    }
    if t :| t in s && StrictlyInside(t, z) {
      assert Contains(t, z - 1) && Contains(t, z);
    }
  }

  method NormalizeSet(intervals: seq<Interval>) returns (result: seq<Interval>)
    ensures result == Normalized(intervals)
    ensures Normal(result) && SameTouch(result, intervals) && SameCover(result, intervals)
  {
    NormalizedIsNormal(intervals);
    result := MergeSorted(SortByStart(intervals));
  }

  /** The merge loop of normalizeSet over its sorted copy. */
  method MergeSorted(sorted: seq<Interval>) returns (result: seq<Interval>)
    ensures result == Merged(sorted)
  {
    if |sorted| == 0 { return []; }
    result := [sorted[0]];
    assert sorted[..1] == [sorted[0]] && [sorted[0]][..0] == [];
    for i := 1 to |sorted|
      invariant result == Merged(sorted[..i]) && result != []
    {
      var current := sorted[i];
      var last := result[|result| - 1];
      assert sorted[..i + 1][..i] == sorted[..i];
      if current.start <= last.end {
        var maxEnd := if current.end > last.end then current.end else last.end;
        result := result[|result| - 1 := TimeInterval(last.start, maxEnd)];
      } else {
        result := result + [current];
      }
    }
    assert sorted[..|sorted|] == sorted;
  }

  // ---------- subtractSet ----------

  /** One round of the outer loop: `sub` taken out of every interval of `base`. */
  function CutOne(base: seq<Interval>, sub: Interval): seq<Interval> {
    if base == [] then []
    else CutOne(base[..|base| - 1], sub) + Subtract(base[|base| - 1], sub)
  }

  function CutAll(base: seq<Interval>, subs: seq<Interval>): seq<Interval> {
    if subs == [] then base
    else CutOne(CutAll(base, subs[..|subs| - 1]), subs[|subs| - 1])
  }

  /** The pieces that reach the closing normalizeSet. */
  function Pieces(base: seq<Interval>, subs: seq<Interval>): seq<Interval> {
    CutAll(Normalized(base), Normalized(subs))
  }

  function Subtracted(base: seq<Interval>, subs: seq<Interval>): seq<Interval> {
    Normalized(Pieces(base, subs))
  }

  lemma {:induction false} CutOnePoints(base: seq<Interval>, sub: Interval)
    ensures forall x :: Covers(CutOne(base, sub), x) <==> Covers(base, x) && !Contains(sub, x)
    ensures forall z :: TimeInterval(z, z) in CutOne(base, sub) <==>
                        TimeInterval(z, z) in base && !StrictlyInside(sub, z)
  {
    if base != [] {
      var front, last := base[..|base| - 1], base[|base| - 1];
      CutOnePoints(front, sub);
      SubtractPoints(last, sub);
      assert base == front + [last];
      CoversConcat(front, [last]);
      CoversSingle(last);
      CoversConcat(CutOne(front, sub), Subtract(last, sub));
    }
  }

  lemma {:induction false} CutAllPoints(base: seq<Interval>, subs: seq<Interval>)
    ensures forall x :: Covers(CutAll(base, subs), x) <==> Covers(base, x) && !Covers(subs, x)
    ensures forall z :: TimeInterval(z, z) in CutAll(base, subs) <==>
                        TimeInterval(z, z) in base && !exists t | t in subs :: StrictlyInside(t, z)
  {
    if subs != [] {
      var front, last := subs[..|subs| - 1], subs[|subs| - 1];
      CutAllPoints(base, front);
      CutOnePoints(CutAll(base, front), last);
      assert subs == front + [last];
      CoversConcat(front, [last]);
      CoversSingle(last);
      forall z ensures (exists t | t in subs :: StrictlyInside(t, z)) <==>
                       (exists t | t in front :: StrictlyInside(t, z)) || StrictlyInside(last, z) {
        assert last in subs;
        if t :| t in front && StrictlyInside(t, z) { assert t in subs; }
      }
    }
  }

  lemma SubtractedIsNormal(base: seq<Interval>, subs: seq<Interval>)
    ensures Normal(Subtracted(base, subs))
  {
    NormalizedIsNormal(Pieces(base, subs));
  }

  /** subtractSet, exactly, for all lists. Its result is a normal list (`SubtractedIsNormal`) that
    * covers the base instants no subtrahend covers, and whose zero-length members are the isolated
    * zero-length base intervals that are not surrounded by subtrahends. By `NormalByPoints` no other
    * list satisfies this.
    */
  lemma SubtractedAt(base: seq<Interval>, subs: seq<Interval>, x: int)
    ensures Covers(Subtracted(base, subs), x) <==> Covers(base, x) && !Covers(subs, x)
    ensures TimeInterval(x, x) in Subtracted(base, subs) <==> Isolated(base, x) && !Surrounds(subs, x)
    ensures Isolated(Subtracted(base, subs), x) <==> TimeInterval(x, x) in Subtracted(base, subs)
  {
    var nb, ns, pieces := Normalized(base), Normalized(subs), Pieces(base, subs);
    NormalizedIsNormal(base);
    NormalizedIsNormal(subs);
    NormalizedIsNormal(pieces);
    CutAllPoints(nb, ns);
    assert Covers(nb, x) <==> Covers(base, x);
    assert Covers(nb, x - 1) <==> Covers(base, x - 1);
    assert Covers(ns, x) <==> Covers(subs, x);
    assert Covers(ns, x - 1) <==> Covers(subs, x - 1);
    assert Covers(Subtracted(base, subs), x) <==> Covers(pieces, x);
    ZeroLengthInNormalized(pieces, x);
    ZeroLengthInNormalized(base, x);
    InsideNormal(ns, x);
    if TimeInterval(x, x) in Subtracted(base, subs) {
      NormalZeroIsIsolated(Subtracted(base, subs), x);
    }
  }

  method SubtractSet(base: seq<Interval>, subtrahends: seq<Interval>) returns (result: seq<Interval>)
    ensures result == Subtracted(base, subtrahends)
    ensures Normal(result)
    ensures forall x :: Covers(result, x) <==> Covers(base, x) && !Covers(subtrahends, x)
  {
    result := CutAndNormalize(base, subtrahends);
    SubtractedIsNormal(base, subtrahends);
    forall x ensures Covers(result, x) <==> Covers(base, x) && !Covers(subtrahends, x) {
      SubtractedAt(base, subtrahends, x);
    }
  }

  /** The outer loop of subtractSet. */
  method CutAndNormalize(base: seq<Interval>, subtrahends: seq<Interval>) returns (result: seq<Interval>)
    ensures result == Subtracted(base, subtrahends)
  {
    var currentBase := NormalizeSet(base);
    var normalizedSub := NormalizeSet(subtrahends);
    assert normalizedSub[..|normalizedSub|] == normalizedSub;
    for k := 0 to |normalizedSub|
      invariant currentBase == CutAll(Normalized(base), normalizedSub[..k])
    {
      assert normalizedSub[..k + 1][..k] == normalizedSub[..k];
      currentBase := CutEach(currentBase, normalizedSub[k]);
    }
    result := NormalizeSet(currentBase);
  }

  /** The inner loop of subtractSet. */
  method CutEach(currentBase: seq<Interval>, sub: Interval) returns (nextBase: seq<Interval>)
    ensures nextBase == CutOne(currentBase, sub)
  {
    nextBase := [];
    for j := 0 to |currentBase|
      invariant nextBase == CutOne(currentBase[..j], sub)
    {
      assert currentBase[..j + 1][..j] == currentBase[..j];
      nextBase := nextBase + Subtract(currentBase[j], sub);
    }
    assert currentBase[..|currentBase|] == currentBase;
  }

  // ---------- intersectSets ----------

  /** The at most one interval that `a` and b contribute. */
  function MeetPair(a: Interval, b: Interval): seq<Interval> {
    var inter := Intersection(a, b);
    if inter.Some? && DurationMs(inter.value) > 0 then [inter.value] else []
  }

  function MeetOne(a: Interval, bs: seq<Interval>): seq<Interval> {
    if bs == [] then []
    else MeetOne(a, bs[..|bs| - 1]) + MeetPair(a, bs[|bs| - 1])
  }

  function MeetAll(aa: seq<Interval>, bs: seq<Interval>): seq<Interval> {
    if aa == [] then []
    else MeetAll(aa[..|aa| - 1], bs) + MeetOne(aa[|aa| - 1], bs)
  }

  /** The common parts that reach the closing normalizeSet. */
  function Meets(setA: seq<Interval>, setB: seq<Interval>): seq<Interval> {
    MeetAll(Normalized(setA), Normalized(setB))
  }

  function Intersected(setA: seq<Interval>, setB: seq<Interval>): seq<Interval> {
    Normalized(Meets(setA, setB))
  }

  lemma NormalConcat(s: seq<Interval>, t: seq<Interval>)
    requires Normal(s) && Normal(t)
    requires forall u, v | u in s && v in t :: u.end < v.start
    ensures Normal(s + t)
  {
    var r := s + t;
    forall i, j | 0 <= i < j < |r| ensures r[i].end < r[j].start {
      if i < |s| <= j {
        assert r[i] in s && r[j] in t;
      }
    }
  }

  lemma MeetPairPoints(a: Interval, b: Interval)
    ensures Normal(MeetPair(a, b)) && NoZeroLength(MeetPair(a, b))
    ensures forall x :: Covers(MeetPair(a, b), x) <==> Contains(a, x) && Contains(b, x)
    ensures forall t | t in MeetPair(a, b) ::
              a.start <= t.start && t.end <= a.end && b.start <= t.start && t.end <= b.end
  {
    var inter := Intersection(a, b);
    if inter.Some? { CoversSingle(inter.value); }
  }

  lemma {:induction false} MeetOneBounds(a: Interval, bs: seq<Interval>)
    requires Normal(bs)
    ensures forall t | t in MeetOne(a, bs) :: a.start <= t.start && t.end <= a.end
    ensures forall t | t in MeetOne(a, bs) :: t.end <= bs[|bs| - 1].end
  {
    if bs != [] {
      MeetOneBounds(a, bs[..|bs| - 1]);
      MeetPairPoints(a, bs[|bs| - 1]);
    }
  }

  lemma {:induction false} MeetOnePoints(a: Interval, bs: seq<Interval>)
    requires Normal(bs)
    ensures Normal(MeetOne(a, bs)) && NoZeroLength(MeetOne(a, bs))
    ensures forall x :: Covers(MeetOne(a, bs), x) <==> Contains(a, x) && Covers(bs, x)
  {
    if bs != [] {
      hide MeetPair, Intersection, Covers, Normal;
      var front, last := bs[..|bs| - 1], bs[|bs| - 1];
      assert Normal(front) by { PrefixIsNormal(bs, |bs| - 1); }
      MeetOnePoints(a, front);
      MeetPairPoints(a, last);
      MeetOneInOrder(a, bs);
      NormalConcat(MeetOne(a, front), MeetPair(a, last));
      CoversConcat(MeetOne(a, front), MeetPair(a, last));
      assert bs == front + [last];
      CoversConcat(front, [last]);
      CoversSingle(last);
    }
  }

  lemma PrefixIsNormal(s: seq<Interval>, n: nat)
    requires Normal(s) && n <= |s|
    ensures Normal(s[..n])
  {}

  /** What an earlier interval contributes ends before what the last one contributes. */
  lemma MeetOneInOrder(a: Interval, bs: seq<Interval>)
    requires Normal(bs) && bs != []
    ensures forall u, v | u in MeetOne(a, bs[..|bs| - 1]) && v in MeetPair(a, bs[|bs| - 1]) :: u.end < v.start
  {
    var front, last := bs[..|bs| - 1], bs[|bs| - 1];
    MeetOneBounds(a, front);
    MeetPairPoints(a, last);
    forall u, v | u in MeetOne(a, front) && v in MeetPair(a, last) ensures u.end < v.start {
      assert u.end <= front[|front| - 1].end < last.start <= v.start;
    }
  }

  lemma {:induction false} MeetAllPoints(aa: seq<Interval>, bs: seq<Interval>)
    requires Normal(aa) && Normal(bs)
    ensures Normal(MeetAll(aa, bs)) && NoZeroLength(MeetAll(aa, bs))
    ensures forall x :: Covers(MeetAll(aa, bs), x) <==> Covers(aa, x) && Covers(bs, x)
    ensures forall t | t in MeetAll(aa, bs) :: t.end <= aa[|aa| - 1].end
  {
    if aa != [] {
      var front, last := aa[..|aa| - 1], aa[|aa| - 1];
      MeetAllPoints(front, bs);
      MeetOnePoints(last, bs);
      MeetOneBounds(last, bs);
      assert aa == front + [last];
      CoversConcat(front, [last]);
      CoversSingle(last);
      CoversConcat(MeetAll(front, bs), MeetOne(last, bs));
      forall u, v | u in MeetAll(front, bs) && v in MeetOne(last, bs) ensures u.end < v.start {
        assert u.end <= front[|front| - 1].end < last.start <= v.start;
      }
      NormalConcat(MeetAll(front, bs), MeetOne(last, bs));
    }
  }

  /** The closing normalizeSet of intersectSets never changes anything. */
  lemma IntersectedIsNormal(setA: seq<Interval>, setB: seq<Interval>)
    ensures Intersected(setA, setB) == Meets(setA, setB)
    ensures Normal(Intersected(setA, setB)) && NoZeroLength(Intersected(setA, setB))
  {
    NormalizedIsNormal(setA);
    NormalizedIsNormal(setB);
    MeetAllPoints(Normalized(setA), Normalized(setB));
    NormalizedFixpoint(Meets(setA, setB));
  }

  /** intersectSets, exactly, for all lists: with `IntersectedIsNormal` this fixes the result. */
  lemma IntersectedAt(setA: seq<Interval>, setB: seq<Interval>, x: int)
    ensures Covers(Intersected(setA, setB), x) <==> Covers(setA, x) && Covers(setB, x)
    ensures TimeInterval(x, x) !in Intersected(setA, setB)
  {
    var na, nb := Normalized(setA), Normalized(setB);
    NormalizedIsNormal(setA);
    NormalizedIsNormal(setB);
    MeetAllPoints(na, nb);
    IntersectedIsNormal(setA, setB);
    assert Covers(na, x) <==> Covers(setA, x);
    assert Covers(nb, x) <==> Covers(setB, x);
  }

  method IntersectSets(setA: seq<Interval>, setB: seq<Interval>) returns (result: seq<Interval>)
    ensures result == Intersected(setA, setB)
    ensures Normal(result) && NoZeroLength(result)
    ensures forall x :: Covers(result, x) <==> Covers(setA, x) && Covers(setB, x)
  {
    result := MeetAndNormalize(setA, setB);
    IntersectedIsNormal(setA, setB);
    forall x ensures Covers(result, x) <==> Covers(setA, x) && Covers(setB, x) {
      IntersectedAt(setA, setB, x);
    }
  }

  /** The outer loop of intersectSets. */
  method MeetAndNormalize(setA: seq<Interval>, setB: seq<Interval>) returns (result: seq<Interval>)
    ensures result == Intersected(setA, setB)
  {
    var normA := NormalizeSet(setA);
    var normB := NormalizeSet(setB);
    assert normA[..|normA|] == normA;
    result := [];
    for i := 0 to |normA|
      invariant result == MeetAll(normA[..i], normB)
    {
      assert normA[..i + 1][..i] == normA[..i];
      var meets := MeetEach(normA[i], normB);
      result := result + meets;
    }
    result := NormalizeSet(result);
  }

  /** The inner loop of intersectSets. */
  method MeetEach(a: Interval, normB: seq<Interval>) returns (result: seq<Interval>)
    ensures result == MeetOne(a, normB)
  {
    result := [];
    for j := 0 to |normB|
      invariant result == MeetOne(a, normB[..j])
    {
      assert normB[..j + 1][..j] == normB[..j];
      var inter := Intersection(a, normB[j]);
      if inter.Some? && DurationMs(inter.value) > 0 {
        result := result + [inter.value];
      }
    }
    assert normB[..|normB|] == normB;
  }
}
