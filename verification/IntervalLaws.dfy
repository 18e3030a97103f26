/** Laws between the set operations of time-primitives.ts: the algebra of sets as equality of
  * sequences, conservation of time, and rounding to minutes.
  */
module IntervalLaws {
  import opened Intervals

  // ---------- set algebra, as equality of sequences ----------

  /** Subtracting two lists in turn is subtracting them together, unless an isolated zero-length
    * base interval is surrounded by the two lists together but by neither of them alone.
    */
  lemma SubtractInTurn(a: seq<Interval>, b: seq<Interval>, c: seq<Interval>)
    ensures Subtracted(a, b + c) == Subtracted(Subtracted(a, b), c) <==>
            forall z | Isolated(a, z) && Surrounds(b + c, z) :: Surrounds(b, z) || Surrounds(c, z)
  {
    var ab := Subtracted(a, b);
    var together, inTurn := Subtracted(a, b + c), Subtracted(ab, c);
    forall x ensures Covers(together, x) <==> Covers(inTurn, x)
             ensures TimeInterval(x, x) in together <==> Isolated(a, x) && !Surrounds(b + c, x)
             ensures TimeInterval(x, x) in inTurn <==> Isolated(a, x) && !Surrounds(b, x) && !Surrounds(c, x)
             ensures Surrounds(b, x) || Surrounds(c, x) ==> Surrounds(b + c, x)
    {
      SubtractedAt(a, b + c, x);
      SubtractedAt(a, b, x);
      SubtractedAt(ab, c, x);
      CoversConcat(b, c);
    }
    SubtractedIsNormal(a, b + c);
    SubtractedIsNormal(ab, c);
    if forall z | Isolated(a, z) && Surrounds(b + c, z) :: Surrounds(b, z) || Surrounds(c, z) {
      NormalByPoints(together, inTurn);
    } else {
      var z :| Isolated(a, z) && Surrounds(b + c, z) && !Surrounds(b, z) && !Surrounds(c, z);
      assert TimeInterval(z, z) in inTurn && TimeInterval(z, z) !in together;
    }
  }

  /** With no zero-length base interval the law holds for all subtrahends. */
  lemma SubtractInTurnWithoutZeroLength(a: seq<Interval>, b: seq<Interval>, c: seq<Interval>)
    requires NoZeroLength(a)
    ensures Subtracted(a, b + c) == Subtracted(Subtracted(a, b), c)
  {
    SubtractInTurn(a, b, c);
  }

  /** A concrete input on which the two orders differ. */
  lemma SubtractInTurnCanFail()
    ensures var a: seq<Interval> := [TimeInterval(5, 5)];
            var b: seq<Interval> := [TimeInterval(0, 5)];
            var c: seq<Interval> := [TimeInterval(5, 10)];
            Subtracted(a, b + c) != Subtracted(Subtracted(a, b), c)
  {
    var a: seq<Interval> := [TimeInterval(5, 5)];
    var b: seq<Interval> := [TimeInterval(0, 5)];
    var c: seq<Interval> := [TimeInterval(5, 10)];
    CoversSingle(a[0]);
    CoversSingle(b[0]);
    CoversSingle(c[0]);
    CoversConcat(b, c);
    SubtractInTurn(a, b, c);
    assert Isolated(a, 5) && Surrounds(b + c, 5) && !Surrounds(b, 5) && !Surrounds(c, 5);
  }

  /** Intersection by subtracting twice: exactly when no zero-length base interval is isolated. */
  lemma IntersectBySubtracting(a: seq<Interval>, b: seq<Interval>)
    ensures Intersected(a, b) == Subtracted(a, Subtracted(a, b)) <==> forall z :: !Isolated(a, z)
  {
    var once := Intersected(a, b);
    var rest := Subtracted(a, b);
    var twice := Subtracted(a, rest);
    forall x ensures Covers(once, x) <==> Covers(twice, x)
             ensures TimeInterval(x, x) !in once
             ensures TimeInterval(x, x) in twice <==> Isolated(a, x)
    {
      IntersectedAt(a, b, x);
      SubtractedAt(a, b, x);
      SubtractedAt(a, rest, x);
    }
    IntersectedIsNormal(a, b);
    SubtractedIsNormal(a, rest);
    if forall z :: !Isolated(a, z) {
      NormalByPoints(once, twice);
    } else {
      var z :| Isolated(a, z);
      assert TimeInterval(z, z) in twice;
    }
  }

  /** A zero-length base interval alone: intersecting with nothing loses it, subtracting twice does not. */
  lemma IntersectBySubtractingCanFail()
    ensures var a: seq<Interval> := [TimeInterval(5, 5)];
            Intersected(a, []) != Subtracted(a, Subtracted(a, []))
  {
    var a: seq<Interval> := [TimeInterval(5, 5)];
    CoversSingle(a[0]);
    IntersectBySubtracting(a, []);
    assert Isolated(a, 5);
  }

  lemma IntersectIsCommutative(a: seq<Interval>, b: seq<Interval>)
    ensures Intersected(a, b) == Intersected(b, a)
  {
    forall x ensures Covers(Intersected(a, b), x) <==> Covers(Intersected(b, a), x)
             ensures TimeInterval(x, x) !in Intersected(a, b) && TimeInterval(x, x) !in Intersected(b, a)
    {
      IntersectedAt(a, b, x);
      IntersectedAt(b, a, x);
    }
    IntersectedIsNormal(a, b);
    IntersectedIsNormal(b, a);
    NormalByPoints(Intersected(a, b), Intersected(b, a));
  }

  lemma IntersectIsAssociative(a: seq<Interval>, b: seq<Interval>, c: seq<Interval>)
    ensures Intersected(Intersected(a, b), c) == Intersected(a, Intersected(b, c))
  {
    var left, right := Intersected(Intersected(a, b), c), Intersected(a, Intersected(b, c));
    forall x ensures Covers(left, x) <==> Covers(right, x)
             ensures TimeInterval(x, x) !in left && TimeInterval(x, x) !in right
    {
      IntersectedAt(a, b, x);
      IntersectedAt(b, c, x);
      IntersectedAt(Intersected(a, b), c, x);
      IntersectedAt(a, Intersected(b, c), x);
    }
    IntersectedIsNormal(Intersected(a, b), c);
    IntersectedIsNormal(a, Intersected(b, c));
    NormalByPoints(left, right);
  }

  /** Intersection distributes over the normalised union, zero-length intervals or not. */
  lemma IntersectDistributes(a: seq<Interval>, b: seq<Interval>, c: seq<Interval>)
    ensures Intersected(a, Normalized(b + c)) == Normalized(Intersected(a, b) + Intersected(a, c))
  {
    var ab, ac, union := Intersected(a, b), Intersected(a, c), Normalized(b + c);
    var left, right := Intersected(a, union), Normalized(ab + ac);
    NormalizedIsNormal(b + c);
    NormalizedIsNormal(ab + ac);
    IntersectedIsNormal(a, union);
    forall x ensures Covers(left, x) <==> Covers(right, x)
             ensures TimeInterval(x, x) !in left && TimeInterval(x, x) !in right
    {
      IntersectedAt(a, b, x);
      IntersectedAt(a, c, x);
      IntersectedAt(a, union, x);
      CoversConcat(b, c);
      CoversConcat(ab, ac);
      ZeroLengthInNormalized(ab + ac, x);
      assert Covers(union, x) <==> Covers(b + c, x);
      assert Covers(right, x) <==> Covers(ab + ac, x);
    }
    NormalByPoints(left, right);
  }

  // ---------- when the closing normalizeSet of subtractSet changes something ----------

  /** A zero-length normalised subtrahend strictly inside a normalised base interval. */
  ghost predicate CutsInside(base: seq<Interval>, subs: seq<Interval>, z: int) {
    Isolated(subs, z) && Surrounds(base, z)
  }

  lemma SubtractIsNormal(a: Interval, sub: Interval)
    requires sub.start < sub.end || !StrictlyInside(a, sub.start)
    ensures Normal(Subtract(a, sub))
  {}

  /** Every interval of s lies within one of `outer`. */
  ghost predicate Inside(s: seq<Interval>, outer: seq<Interval>) {
    forall t | t in s :: exists b | b in outer :: b.start <= t.start && t.end <= b.end
  }

  lemma {:induction false} CutOneInside(base: seq<Interval>, sub: Interval)
    ensures Inside(CutOne(base, sub), base)
  {
    if base != [] {
      var front, last := base[..|base| - 1], base[|base| - 1];
      CutOneInside(front, sub);
      SubtractPoints(last, sub);
      assert last in base;
      forall t | t in CutOne(base, sub) ensures exists b | b in base :: b.start <= t.start && t.end <= b.end {
        if t in CutOne(front, sub) {
          var b :| b in front && b.start <= t.start && t.end <= b.end;
          assert b in base;
        }
      }
    }
  }

  lemma {:induction false} CutOneIsNormal(base: seq<Interval>, sub: Interval)
    requires Normal(base)
    requires sub.start < sub.end || forall t | t in base :: !StrictlyInside(t, sub.start)
    ensures Normal(CutOne(base, sub))
  {
    if base != [] {
      hide Subtract, Normal;
      var front, last := base[..|base| - 1], base[|base| - 1];
      assert last in base;
      PrefixIsNormal(base, |base| - 1);
      CutOneIsNormal(front, sub);
      SubtractIsNormal(last, sub);
      CutOneInOrder(base, sub);
      NormalConcat(CutOne(front, sub), Subtract(last, sub));
    }
  }

  /** What is left of the earlier intervals ends before what is left of the last one. */
  lemma CutOneInOrder(base: seq<Interval>, sub: Interval)
    requires Normal(base) && base != []
    ensures forall u, v | u in CutOne(base[..|base| - 1], sub) && v in Subtract(base[|base| - 1], sub) ::
              u.end < v.start
  {
    var front, last := base[..|base| - 1], base[|base| - 1];
    CutOneInside(front, sub);
    SubtractPoints(last, sub);
    forall u, v | u in CutOne(front, sub) && v in Subtract(last, sub) ensures u.end < v.start {
      var b :| b in front && b.start <= u.start && u.end <= b.end;
      var i :| 0 <= i < |front| && front[i] == b;
      assert base[i].end < last.start;
    }
  }

  lemma {:induction false} CutAllIsNormal(base: seq<Interval>, subs: seq<Interval>)
    requires Normal(base)
    requires forall s, t | s in subs && t in base && s.start == s.end :: !StrictlyInside(t, s.start)
    ensures Normal(CutAll(base, subs)) && Inside(CutAll(base, subs), base)
  {
    if subs != [] {
      var front, last := subs[..|subs| - 1], subs[|subs| - 1];
      CutAllIsNormal(base, front);
      var before := CutAll(base, front);
      forall t | t in before ensures last.start < last.end || !StrictlyInside(t, last.start) {
        var b :| b in base && b.start <= t.start && t.end <= b.end;
        assert last in subs;
      }
      CutOneIsNormal(before, last);
      CutOneInside(before, last);
      forall t | t in CutAll(base, subs) ensures exists b | b in base :: b.start <= t.start && t.end <= b.end {
        var u :| u in before && u.start <= t.start && t.end <= u.end;
        var b :| b in base && b.start <= u.start && u.end <= b.end;
      }
    }
  }

  lemma {:induction false} CutOneSplits(base: seq<Interval>, sub: Interval, z: int)
    requires sub == TimeInterval(z, z) || forall t | t in base :: !StrictlyInside(t, z)
    ensures forall t | t in CutOne(base, sub) :: !StrictlyInside(t, z)
  {
    if base != [] {
      var front, last := base[..|base| - 1], base[|base| - 1];
      assert last in base;
      CutOneSplits(front, sub, z);
      SubtractPoints(last, sub);
    }
  }

  lemma {:induction false} CutAllSplits(base: seq<Interval>, subs: seq<Interval>, z: int)
    requires TimeInterval(z, z) in subs
    ensures forall t | t in CutAll(base, subs) :: !StrictlyInside(t, z)
  {
    var front, last := subs[..|subs| - 1], subs[|subs| - 1];
    if last != TimeInterval(z, z) {
      CutAllSplits(base, front, z);
    }
    CutOneSplits(CutAll(base, front), last, z);
  }

  /** The closing normalizeSet of subtractSet is the identity exactly when no isolated zero-length
    * subtrahend lies strictly inside the base; otherwise it rejoins the cut such a subtrahend makes.
    */
  lemma ClosingNormalizeIsIdentity(base: seq<Interval>, subs: seq<Interval>)
    ensures Subtracted(base, subs) == Pieces(base, subs) <==> forall z :: !CutsInside(base, subs, z)
  {
    NormalizedFixpoint(Pieces(base, subs));
    if z :| CutsInside(base, subs, z) {
      CutInsideIsRejoined(base, subs, z);
    } else {
      NoCutInsideIsNormal(base, subs);
    }
  }

  lemma CutInsideIsRejoined(base: seq<Interval>, subs: seq<Interval>, z: int)
    requires CutsInside(base, subs, z)
    ensures !Normal(Pieces(base, subs))
    ensures exists t | t in Subtracted(base, subs) :: StrictlyInside(t, z)
  {
    var nb, ns, pieces := Normalized(base), Normalized(subs), Pieces(base, subs);
    ZeroLengthInNormalized(subs, z);
    CutAllSplits(nb, ns, z);
    SubtractedAt(base, subs, z);
    SubtractedAt(base, subs, z - 1);
    SubtractedIsNormal(base, subs);
    NormalizedIsNormal(pieces);
    InsideNormal(Subtracted(base, subs), z);
    assert Covers(pieces, z - 1) && Covers(pieces, z);
    if Normal(pieces) {
      InsideNormal(pieces, z);
    }
  }

  lemma NoCutInsideIsNormal(base: seq<Interval>, subs: seq<Interval>)
    requires forall z :: !CutsInside(base, subs, z)
    ensures Normal(Pieces(base, subs))
  {
    var nb, ns := Normalized(base), Normalized(subs);
    NormalizedIsNormal(base);
    NormalizedIsNormal(subs);
    forall s, t | s in ns && t in nb && s.start == s.end ensures !StrictlyInside(t, s.start) {
      var z := s.start;
      assert s == TimeInterval(z, z);
      ZeroLengthInNormalized(subs, z);
      assert !CutsInside(base, subs, z);
      InsideNormal(nb, z);
      assert Covers(nb, z - 1) == Covers(base, z - 1) && Covers(nb, z) == Covers(base, z);
    }
    CutAllIsNormal(nb, ns);
  }

  // ---------- conservation of time ----------

  function TotalMs(s: seq<Interval>): nat {
    if s == [] then 0 else TotalMs(s[..|s| - 1]) + DurationMs(s[|s| - 1])
  }

  /** How many of the n instants from lo on are covered. */
  ghost function CountCovered(s: seq<Interval>, lo: int, n: nat): nat {
    if n == 0 then 0 else CountCovered(s, lo, n - 1) + if Covers(s, lo + n - 1) then 1 else 0
  }

  ghost predicate Within(s: seq<Interval>, lo: int, hi: int) {
    forall t | t in s :: lo <= t.start && t.end <= hi
  }

  lemma {:induction false} CountSplits(whole: seq<Interval>, s: seq<Interval>, t: seq<Interval>, lo: int, n: nat)
    requires forall x :: Covers(whole, x) <==> Covers(s, x) || Covers(t, x)
    requires forall x :: !(Covers(s, x) && Covers(t, x))
    ensures CountCovered(whole, lo, n) == CountCovered(s, lo, n) + CountCovered(t, lo, n)
  {
    if n > 0 {
      CountSplits(whole, s, t, lo, n - 1);
      assert Covers(whole, lo + n - 1) <==> Covers(s, lo + n - 1) || Covers(t, lo + n - 1);
    }
  }

  lemma {:induction false} CountSingle(t: Interval, lo: int, n: nat)
    requires lo <= t.start
    ensures CountCovered([t], lo, n) ==
            if lo + n <= t.start then 0 else if lo + n <= t.end then lo + n - t.start else DurationMs(t)
  {
    CoversSingle(t);
    if n > 0 {
      CountSingle(t, lo, n - 1);
    }
  }

  lemma {:induction false} CountEmpty(lo: int, n: nat)
    ensures CountCovered([], lo, n) == 0
  {
    if n > 0 { CountEmpty(lo, n - 1); }
  }

  lemma LastIsDisjoint(front: seq<Interval>, last: Interval)
    requires Normal(front + [last])
    ensures forall x :: Covers(front + [last], x) <==> Covers(front, x) || Covers([last], x)
    ensures forall x :: !(Covers(front, x) && Covers([last], x))
  {
    CoversConcat(front, [last]);
    CoversSingle(last);
    forall x | Covers(front, x) ensures !Contains(last, x) {
      var u :| u in front && Contains(u, x);
      var i :| 0 <= i < |front| && front[i] == u;
      assert (front + [last])[i].end < (front + [last])[|front|].start;
    }
  }

  /** The durations of a normal list add up to the number of instants it covers. */
  lemma {:induction false} TotalIsCount(s: seq<Interval>, lo: int, n: nat)
    requires Normal(s) && Within(s, lo, lo + n)
    ensures TotalMs(s) == CountCovered(s, lo, n)
  {
    if s == [] {
      CountEmpty(lo, n);
    } else {
      var front, last := s[..|s| - 1], s[|s| - 1];
      assert s == front + [last] && last in s;
      TotalIsCount(front, lo, n);
      CountWithLast(front, last, lo, n);
    }
  }

  lemma CountWithLast(front: seq<Interval>, last: Interval, lo: int, n: nat)
    requires Normal(front + [last]) && lo <= last.start && last.end <= lo + n
    ensures CountCovered(front + [last], lo, n) == CountCovered(front, lo, n) + DurationMs(last)
  {
    hide Normal;
    CountSingle(last, lo, n);
    LastIsDisjoint(front, last);
    CountSplits(front + [last], front, [last], lo, n);
  }

  lemma {:induction false} SomeWindow(s: seq<Interval>) returns (lo: int, hi: int)
    ensures lo <= hi && Within(s, lo, hi)
  {
    if s == [] {
      lo, hi := 0, 0;
    } else {
      var t := s[0];
      lo, hi := SomeWindow(s[1..]);
      lo, hi := if t.start < lo then t.start else lo, if t.end > hi then t.end else hi;
      assert s == [t] + s[1..];
    }
  }

  /** No time is lost or made: what is left after subtracting and what is common add up to the whole,
    * for all lists, zero-length intervals included.
    */
  lemma TimeIsConserved(a: seq<Interval>, b: seq<Interval>)
    ensures TotalMs(Normalized(a)) == TotalMs(Subtracted(a, b)) + TotalMs(Intersected(a, b))
  {
    var whole, rest, common := Normalized(a), Subtracted(a, b), Intersected(a, b);
    NormalizedIsNormal(a);
    SubtractedIsNormal(a, b);
    IntersectedIsNormal(a, b);
    var lo1, hi1 := SomeWindow(whole);
    var lo2, hi2 := SomeWindow(rest);
    var lo3, hi3 := SomeWindow(common);
    var lo := if lo1 <= lo2 && lo1 <= lo3 then lo1 else if lo2 <= lo3 then lo2 else lo3;
    var hi := if hi1 >= hi2 && hi1 >= hi3 then hi1 else if hi2 >= hi3 then hi2 else hi3;
    var n := hi - lo;
    TotalIsCount(whole, lo, n);
    TotalIsCount(rest, lo, n);
    TotalIsCount(common, lo, n);
    forall x ensures Covers(whole, x) <==> Covers(rest, x) || Covers(common, x) {
      assert Covers(whole, x) <==> Covers(a, x);
      SubtractedAt(a, b, x);
      IntersectedAt(a, b, x);
    }
    forall x ensures !(Covers(rest, x) && Covers(common, x)) {
      SubtractedAt(a, b, x);
      IntersectedAt(a, b, x);
    }
    CountSplits(whole, rest, common, lo, n);
  }

  // ---------- rounding to minutes ----------

  /** Consecutive pieces: each one starts where the one before ends. */
  ghost predicate Consecutive(pieces: seq<Interval>) {
    forall i :: 0 < i < |pieces| ==> pieces[i - 1].end == pieces[i].start
  }

  function SumMinutes(pieces: seq<Interval>): nat {
    if pieces == [] then 0 else SumMinutes(pieces[..|pieces| - 1]) + DurationMinutes(pieces[|pieces| - 1])
  }

  /** Rounding a piece adds at most 30 000 ms and takes away at most 29 999. */
  lemma {:induction false} RoundingDrift(pieces: seq<Interval>)
    requires pieces != [] && Consecutive(pieces)
    ensures pieces[0].start <= pieces[|pieces| - 1].end
    ensures -29_999 * |pieces| <=
            60_000 * SumMinutes(pieces) - (pieces[|pieces| - 1].end - pieces[0].start) <=
            30_000 * |pieces|
  {
    var n := |pieces| - 1;
    assert -29_999 <= 60_000 * DurationMinutes(pieces[n]) - DurationMs(pieces[n]) <= 30_000;
    if n > 0 {
      RoundingDrift(pieces[..n]);
    } else {
      assert pieces[..n] == [];
    }
  }

  /** Cutting an interval into n consecutive pieces adds at most n / 2 minutes, rounded down, and takes
    * away at most (29 999 n + 30 000) / 60 000, rounded down: less than (n + 1) / 2 either way.
    */
  lemma {:induction false} MinutesAfterCutting(pieces: seq<Interval>)
    requires pieces != [] && Consecutive(pieces)
    ensures pieces[0].start <= pieces[|pieces| - 1].end
    ensures var uncut := DurationMinutes(TimeInterval(pieces[0].start, pieces[|pieces| - 1].end));
            && -((29_999 * |pieces| + 30_000) / 60_000) <= SumMinutes(pieces) - uncut <= |pieces| / 2
            && -(|pieces| + 1) < 2 * (SumMinutes(pieces) - uncut) < |pieces| + 1
  {
    RoundingDrift(pieces);
  }

  /** n consecutive pieces of the same length. */
  function EqualPieces(n: nat, ms: nat): (r: seq<Interval>)
    ensures |r| == n
  {
    seq(n, i requires 0 <= i < n => TimeInterval(ms * i, ms * i + ms))
  }

  lemma EqualPiecesAreConsecutive(n: nat, ms: nat)
    ensures Consecutive(EqualPieces(n, ms))
  {
    forall i | 0 < i < n ensures EqualPieces(n, ms)[i - 1].end == EqualPieces(n, ms)[i].start {
      assert ms * (i - 1) + ms == ms * i;
    }
  }

  lemma {:induction false} EqualPiecesSum(n: nat, ms: nat)
    ensures SumMinutes(EqualPieces(n, ms)) == n * DurationMinutes(TimeInterval(0, ms))
  {
    hide DurationMinutes;
    var pieces, each := EqualPieces(n, ms), DurationMinutes(TimeInterval(0, ms));
    if n > 0 {
      EqualPiecesSum(n - 1, ms);
      assert pieces[..n - 1] == EqualPieces(n - 1, ms);
      LengthDecidesMinutes(pieces[n - 1], TimeInterval(0, ms));
      assert n * each == (n - 1) * each + each;
    } else {
      assert pieces == [];
    }
  }

  lemma LengthDecidesMinutes(t: Interval, u: Interval)
    requires DurationMs(t) == DurationMs(u)
    ensures DurationMinutes(t) == DurationMinutes(u)
  {}

  /** Both bounds are reached for every n: the upper one by half-minutes, the lower one by pieces one
    * millisecond shorter.
    */
  lemma CuttingBoundsAreReached(n: nat)
    ensures Consecutive(EqualPieces(n, 30_000)) && Consecutive(EqualPieces(n, 29_999))
    ensures SumMinutes(EqualPieces(n, 30_000)) - DurationMinutes(TimeInterval(0, 30_000 * n)) == n / 2
    ensures SumMinutes(EqualPieces(n, 29_999)) - DurationMinutes(TimeInterval(0, 29_999 * n)) ==
            -((29_999 * n + 30_000) / 60_000)
  {
    hide SumMinutes, Consecutive;
    EqualPiecesAreConsecutive(n, 30_000);
    EqualPiecesAreConsecutive(n, 29_999);
    EqualPiecesSum(n, 30_000);
    EqualPiecesSum(n, 29_999);
    assert DurationMinutes(TimeInterval(0, 30_000)) == 1;
    assert DurationMinutes(TimeInterval(0, 29_999)) == 0;
    HalfMinutesUncut(n);
  }

  lemma HalfMinutesUncut(n: nat)
    ensures n - DurationMinutes(TimeInterval(0, 30_000 * n)) == n / 2
  {
    var q := (n + 1) / 2;
    assert 60_000 * q <= 30_000 * n + 30_000 < 60_000 * (q + 1);
    assert n - q == n / 2;
  }
}
