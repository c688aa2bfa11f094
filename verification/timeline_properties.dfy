/**
 * What `generateExactTimeline` guarantees, proved about the functions that
 * specify it: the sort is a stable sort by start, the cursor never moves back,
 * the total is the length of the emitted `off` segments (one per interval that
 * ends after it starts), and for sorted, disjoint ranges the day is covered
 * from 00:00 to 24:00 without gaps.
 */
module TimelineProperties {
  import opened JsStrings
  import opened TimeOfDay
  import opened Timeline

  // ---------------------------------------------------------------------
  // The sort

  ghost predicate SortedByStart(s: seq<Interval>)
  {
    forall i, j :: 0 <= i < j < |s| ==> s[i].start <= s[j].start
  }

  /** The intervals of `s` that start at minute `k`, in order. */
  function StartingAt(s: seq<Interval>, k: nat): seq<Interval>
  {
    if s == [] then []
    else StartingAt(s[..|s| - 1], k) + (if s[|s| - 1].start == k then [s[|s| - 1]] else [])
  }

  lemma {:induction false} InsertPermutes(t: seq<Interval>, x: Interval)
    ensures multiset(InsertByStart(t, x)) == multiset(t) + multiset{x}
    decreases |t|
  {
    if t != [] && t[|t| - 1].start > x.start {
      var front := t[..|t| - 1];
      assert t == front + [t[|t| - 1]];
      InsertPermutes(front, x);
    }
  }

  lemma {:induction false} InsertKeepsSorted(t: seq<Interval>, x: Interval)
    requires SortedByStart(t)
    ensures SortedByStart(InsertByStart(t, x))
    decreases |t|
  {
    if t != [] && t[|t| - 1].start > x.start {
      var front, last := t[..|t| - 1], t[|t| - 1];
      assert t == front + [last];
      InsertKeepsSorted(front, x);
      InsertPermutes(front, x);
      var r := InsertByStart(front, x);
      forall i | 0 <= i < |r| ensures r[i].start <= last.start {
        assert r[i] in multiset(r);
        if r[i] != x {
          assert r[i] in multiset(front);
          var k :| 0 <= k < |front| && front[k] == r[i];
          assert t[k] == r[i];
        }
      }
      assert InsertByStart(t, x) == r + [last];
    }
  }

  lemma {:induction false} InsertIsStable(t: seq<Interval>, x: Interval, k: nat)
    ensures StartingAt(InsertByStart(t, x), k) == StartingAt(t, k) + (if x.start == k then [x] else [])
    decreases |t|
  {
    if t == [] || t[|t| - 1].start <= x.start {
      assert (t + [x])[..|t|] == t;
    } else {
      var front, last := t[..|t| - 1], t[|t| - 1];
      InsertIsStable(front, x, k);
      var r := InsertByStart(front, x);
      assert (r + [last])[..|r|] == r;
    }
  }

  /** The intervals are visited in ascending order of start. */
  lemma {:induction false} SortByStartSorted(s: seq<Interval>)
    ensures SortedByStart(SortByStart(s))
    decreases |s|
  {
    if s != [] {
      SortByStartSorted(s[..|s| - 1]);
      InsertKeepsSorted(SortByStart(s[..|s| - 1]), s[|s| - 1]);
    }
  }

  /** The sort keeps every interval, as often as it occurs. */
  lemma {:induction false} SortByStartPermutes(s: seq<Interval>)
    ensures multiset(SortByStart(s)) == multiset(s)
    decreases |s|
  {
    if s != [] {
      SortByStartPermutes(s[..|s| - 1]);
      InsertPermutes(SortByStart(s[..|s| - 1]), s[|s| - 1]);
      assert s == s[..|s| - 1] + [s[|s| - 1]];
    }
  }

  /** The sort is stable: intervals with the same start keep their input order. */
  lemma {:induction false} SortByStartStable(s: seq<Interval>, k: nat)
    ensures StartingAt(SortByStart(s), k) == StartingAt(s, k)
    decreases |s|
  {
    if s != [] {
      SortByStartStable(s[..|s| - 1], k);
      InsertIsStable(SortByStart(s[..|s| - 1]), s[|s| - 1], k);
    }
  }

  /** Input already in order of start is left as it is. */
  lemma {:induction false} SortedIsFixed(s: seq<Interval>)
    requires SortedByStart(s)
    ensures SortByStart(s) == s
    decreases |s|
  {
    if s != [] {
      var front := s[..|s| - 1];
      assert SortedByStart(front);
      SortedIsFixed(front);
      assert s == front + [s[|s| - 1]];
    }
  }

  // ---------------------------------------------------------------------
  // The cursor and the total

  /** Across the sweep, the cursor never decreases. */
  lemma {:induction false} CursorNeverDecreases(ivs: seq<Interval>, i: nat, j: nat)
    requires i <= j <= |ivs|
    ensures CursorAfter(ivs[..i]) <= CursorAfter(ivs[..j])
    decreases j
  {
    if i < j {
      CursorNeverDecreases(ivs, i, j - 1);
      assert ivs[..j][..j - 1] == ivs[..j - 1];
    }
  }

  /** An interval that does not end after it starts adds no `off` segment, no minutes, and leaves the cursor alone. */
  lemma DegenerateIntervalIsInert(ivs: seq<Interval>, iv: Interval)
    requires iv.end <= iv.start
    ensures CursorAfter(ivs + [iv]) == CursorAfter(ivs)
    ensures OffMinutes(ivs + [iv]) == OffMinutes(ivs)
    ensures SweepSpans(ivs + [iv]) == SweepSpans(ivs)
              + (if iv.start > CursorAfter(ivs) then [Span(CursorAfter(ivs), iv.start, On)] else [])
  {
    assert (ivs + [iv])[..|ivs|] == ivs;
  }

  /** The `off` segments of a list of segments, in order. */
  function OffSpans(spans: seq<Span>): seq<Span>
  {
    if spans == [] then []
    else OffSpans(spans[..|spans| - 1]) + (if spans[|spans| - 1].power == Off then [spans[|spans| - 1]] else [])
  }

  /** One `off` segment per interval that ends after it starts, spanning exactly that interval. */
  function IntervalsAsOff(ivs: seq<Interval>): seq<Span>
  {
    if ivs == [] then []
    else
      var iv := ivs[|ivs| - 1];
      IntervalsAsOff(ivs[..|ivs| - 1]) + (if iv.end > iv.start then [Span(iv.start, iv.end, Off)] else [])
  }

  /** The sum of the segments' lengths. */
  function Duration(spans: seq<Span>): int
  {
    if spans == [] then 0
    else Duration(spans[..|spans| - 1]) + (spans[|spans| - 1].end - spans[|spans| - 1].start)
  }

  lemma {:induction false} OffSpansAppend(a: seq<Span>, b: seq<Span>)
    ensures OffSpans(a + b) == OffSpans(a) + OffSpans(b)
    decreases |b|
  {
    if b != [] {
      assert (a + b)[..|a + b| - 1] == a + b[..|b| - 1];
      assert (a + b)[|a + b| - 1] == b[|b| - 1];
      OffSpansAppend(a, b[..|b| - 1]);
    } else {
      assert a + b == a;
    }
  }

  lemma {:induction false} DurationAppend(a: seq<Span>, b: seq<Span>)
    ensures Duration(a + b) == Duration(a) + Duration(b)
    decreases |b|
  {
    if b != [] {
      assert (a + b)[..|a + b| - 1] == a + b[..|b| - 1];
      assert (a + b)[|a + b| - 1] == b[|b| - 1];
      DurationAppend(a, b[..|b| - 1]);
    } else {
      assert a + b == a;
    }
  }

  /** The `off` part of one sweep step is the interval itself, when it ends after it starts. */
  lemma OffSpansOfStep(c: nat, iv: Interval)
    ensures OffSpans(StepSpans(c, iv)) == if iv.end > iv.start then [Span(iv.start, iv.end, Off)] else []
  {
    var gap := if iv.start > c then [Span(c, iv.start, On)] else [];
    var off := if iv.end > iv.start then [Span(iv.start, iv.end, Off)] else [];
    OffSpansAppend(gap, off);
    assert OffSpans(gap) == [] by {
      if gap != [] { assert gap[..0] == []; }
    }
    assert OffSpans(off) == off by {
      if off != [] { assert off[..0] == []; }
    }
  }

  lemma {:induction false} OffSpansOfSweep(ivs: seq<Interval>)
    ensures OffSpans(SweepSpans(ivs)) == IntervalsAsOff(ivs)
    decreases |ivs|
  {
    if ivs != [] {
      var front, iv := ivs[..|ivs| - 1], ivs[|ivs| - 1];
      OffSpansOfSweep(front);
      var c := CursorAfter(front);
      OffSpansAppend(SweepSpans(front), StepSpans(c, iv));
      OffSpansOfStep(c, iv);
    }
  }

  lemma {:induction false} DurationOfIntervals(ivs: seq<Interval>)
    ensures Duration(IntervalsAsOff(ivs)) == OffMinutes(ivs)
    decreases |ivs|
  {
    if ivs != [] {
      var front, iv := ivs[..|ivs| - 1], ivs[|ivs| - 1];
      DurationOfIntervals(front);
      var off := if iv.end > iv.start then [Span(iv.start, iv.end, Off)] else [];
      DurationAppend(IntervalsAsOff(front), off);
      OneOffDuration(iv);
    }
  }

  lemma OneOffDuration(iv: Interval)
    ensures Duration(if iv.end > iv.start then [Span(iv.start, iv.end, Off)] else [])
         == (if iv.end > iv.start then iv.end - iv.start else 0)
  {
    var off := [Span(iv.start, iv.end, Off)];
    assert off[..0] == [];
  }

  /** `totalOffMinutes` is the summed length of the emitted `off` segments, and those segments are
      exactly the intervals that end after they start, one each, in sorted order. Overlaps are
      therefore counted twice. */
  lemma OffTotalIsOffSegmentLength(ivs: seq<Interval>)
    ensures OffSpans(DaySpans(ivs)) == IntervalsAsOff(ivs)
    ensures OffMinutes(ivs) == Duration(OffSpans(DaySpans(ivs)))
  {
    OffSpansOfSweep(ivs);
    DurationOfIntervals(ivs);
    var c := CursorAfter(ivs);
    var tail := if c < MinutesPerDay then [Span(c, MinutesPerDay, On)] else [];
    OffSpansAppend(SweepSpans(ivs), tail);
    assert OffSpans(tail) == [] by {
      if tail != [] { assert tail[..0] == []; }
    }
  }

  // ---------------------------------------------------------------------
  // Coverage for sorted, disjoint input

  /** Off ranges inside the day, each ending after it starts, in order and not overlapping. */
  ghost predicate ValidDisjoint(ivs: seq<Interval>)
  {
    && (forall i :: 0 <= i < |ivs| ==> ivs[i].start < ivs[i].end <= MinutesPerDay)
    && (forall i, j :: 0 <= i < j < |ivs| ==> ivs[i].end <= ivs[j].start)
  }

  /** The segments run from `from` to `to`, each ending where the next begins. */
  ghost predicate Contiguous(spans: seq<Span>, from: nat, to: nat)
  {
    if spans == [] then from == to
    else
      && spans[0].start == from
      && spans[|spans| - 1].end == to
      && forall i :: 0 <= i < |spans| - 1 ==> spans[i].end == spans[i + 1].start
  }

  ghost predicate NonEmptySpans(spans: seq<Span>)
  {
    forall i :: 0 <= i < |spans| ==> spans[i].start < spans[i].end
  }

  lemma ContiguousAppend(a: seq<Span>, b: seq<Span>, x: nat, y: nat, z: nat)
    requires Contiguous(a, x, y) && Contiguous(b, y, z)
    ensures Contiguous(a + b, x, z)
  {
    var ab := a + b;
    if a != [] && b != [] {
      forall i | 0 <= i < |ab| - 1 ensures ab[i].end == ab[i + 1].start {
        if i < |a| - 1 {
          assert ab[i] == a[i] && ab[i + 1] == a[i + 1];
        } else if i == |a| - 1 {
          assert ab[i] == a[|a| - 1] && ab[i + 1] == b[0];
        } else {
          assert ab[i] == b[i - |a|] && ab[i + 1] == b[i - |a| + 1];
        }
      }
    } else if a == [] {
      assert ab == b;
    } else {
      assert ab == a;
    }
  }

  lemma {:induction false} ContiguousDuration(spans: seq<Span>, from: nat, to: nat)
    requires Contiguous(spans, from, to)
    ensures Duration(spans) == to - from
    decreases |spans|
  {
    if spans != [] {
      var front := spans[..|spans| - 1];
      assert Contiguous(front, from, spans[|spans| - 1].start);
      ContiguousDuration(front, from, spans[|spans| - 1].start);
    }
  }

  lemma {:induction false} ContiguousWithin(spans: seq<Span>, from: nat, to: nat)
    requires Contiguous(spans, from, to) && NonEmptySpans(spans)
    ensures forall i :: 0 <= i < |spans| ==> from <= spans[i].start && spans[i].end <= to
    decreases |spans|
  {
    if spans != [] {
      var front := spans[..|spans| - 1];
      var last := spans[|spans| - 1];
      assert Contiguous(front, from, last.start);
      ContiguousWithin(front, from, last.start);
      if front == [] {
        assert from == last.start;
      }
    }
  }

  lemma {:induction false} DisjointSweep(ivs: seq<Interval>)
    requires ValidDisjoint(ivs)
    ensures CursorAfter(ivs) == if ivs == [] then 0 else ivs[|ivs| - 1].end
    ensures Contiguous(SweepSpans(ivs), 0, CursorAfter(ivs))
    ensures NonEmptySpans(SweepSpans(ivs))
    decreases |ivs|
  {
    if ivs != [] {
      var front, iv := ivs[..|ivs| - 1], ivs[|ivs| - 1];
      assert ValidDisjoint(front);
      DisjointSweep(front);
      var c := CursorAfter(front);
      assert c <= iv.start by {
        if front != [] { assert ivs[|front| - 1].end <= ivs[|ivs| - 1].start; }
      }
      var step := StepSpans(c, iv);
      assert Contiguous(step, c, iv.end);
      ContiguousAppend(SweepSpans(front), step, 0, c, iv.end);
      var all := SweepSpans(front) + step;
      assert NonEmptySpans(all) by {
        forall i | 0 <= i < |all| ensures all[i].start < all[i].end {
          if i < |SweepSpans(front)| { assert all[i] == SweepSpans(front)[i]; }
          else { assert all[i] == step[i - |SweepSpans(front)|]; }
        }
      }
    }
  }

  /** For sorted, pairwise disjoint off ranges inside the day, the segments cover the day without
      gaps: they start at minute 0, end at minute 1440, each ends where the next begins, none is
      empty, and their lengths add up to 1440. */
  lemma DisjointDayIsGapless(ivs: seq<Interval>)
    requires ValidDisjoint(ivs)
    ensures var spans := DaySpans(ivs);
      && |spans| >= 1
      && Contiguous(spans, 0, MinutesPerDay)
      && NonEmptySpans(spans)
      && Duration(spans) == MinutesPerDay
      && forall i :: 0 <= i < |spans| ==> spans[i].end <= MinutesPerDay
  {
    DisjointSweep(ivs);
    var c := CursorAfter(ivs);
    var tail := if c < MinutesPerDay then [Span(c, MinutesPerDay, On)] else [];
    assert Contiguous(tail, c, MinutesPerDay);
    ContiguousAppend(SweepSpans(ivs), tail, 0, c, MinutesPerDay);
    var spans := DaySpans(ivs);
    assert NonEmptySpans(spans) by {
      forall i | 0 <= i < |spans| ensures spans[i].start < spans[i].end {
        if i < |SweepSpans(ivs)| { assert spans[i] == SweepSpans(ivs)[i]; }
        else { assert spans[i] == tail[i - |SweepSpans(ivs)|]; }
      }
    }
    ContiguousDuration(spans, 0, MinutesPerDay);
    ContiguousWithin(spans, 0, MinutesPerDay);
  }

  lemma {:induction false} OffDurationAtMostAll(spans: seq<Span>)
    requires NonEmptySpans(spans)
    ensures Duration(OffSpans(spans)) <= Duration(spans)
    decreases |spans|
  {
    if spans != [] {
      var front, last := spans[..|spans| - 1], spans[|spans| - 1];
      OffDurationAtMostAll(front);
      var own := if last.power == Off then [last] else [];
      DurationAppend(OffSpans(front), own);
      assert Duration(own) <= last.end - last.start by {
        if own != [] { assert own[..0] == []; }
      }
    }
  }

  /** For sorted, disjoint ranges the off total fits in the day and the percentage is at most 100.
      Overlapping ranges can break both, since they are counted twice. */
  lemma DisjointTotalWithinDay(ivs: seq<Interval>)
    requires ValidDisjoint(ivs)
    ensures OffMinutes(ivs) <= MinutesPerDay
    ensures Percentage(OffMinutes(ivs)) <= 100
  {
    DisjointDayIsGapless(ivs);
    OffTotalIsOffSegmentLength(ivs);
    OffDurationAtMostAll(DaySpans(ivs));
  }

  /** Rendering keeps the segments chained: every end string is the next start string. */
  lemma RenderedChained(spans: seq<Span>, from: nat, to: nat)
    requires Contiguous(spans, from, to)
    ensures var tl := RenderAll(spans);
      forall i :: 0 <= i < |tl| - 1 ==> tl[i].end == tl[i + 1].start
  {
    var tl := RenderAll(spans);
    forall i | 0 <= i < |tl| - 1 ensures tl[i].end == tl[i + 1].start {
      assert tl[i] == Render(spans[i]) && tl[i + 1] == Render(spans[i + 1]);
      assert spans[i].end == spans[i + 1].start;
    }
  }

  /** Every minute of the day renders in the canonical "HH:MM" form. */
  lemma RenderedCanonical(spans: seq<Span>)
    requires forall i :: 0 <= i < |spans| ==> spans[i].start <= MinutesPerDay && spans[i].end <= MinutesPerDay
    ensures var tl := RenderAll(spans);
      forall i :: 0 <= i < |tl| ==> CanonicalTime(tl[i].start) && CanonicalTime(tl[i].end)
  {
    var tl := RenderAll(spans);
    forall i | 0 <= i < |tl| ensures CanonicalTime(tl[i].start) && CanonicalTime(tl[i].end) {
      assert tl[i] == Render(spans[i]);
      MinutesRoundTrip(spans[i].start);
      MinutesRoundTrip(spans[i].end);
    }
  }

  ghost predicate GaplessStrings(tl: seq<Segment>)
  {
    && |tl| >= 1
    && tl[0].start == "00:00"
    && tl[|tl| - 1].end == "24:00"
    && (forall i :: 0 <= i < |tl| - 1 ==> tl[i].end == tl[i + 1].start)
    && (forall i :: 0 <= i < |tl| ==> CanonicalTime(tl[i].start) && CanonicalTime(tl[i].end))
  }

  lemma DisjointRendersGapless(ivs: seq<Interval>)
    requires ValidDisjoint(ivs)
    ensures GaplessStrings(RenderAll(DaySpans(SortByStart(ivs))))
  {
    assert SortedByStart(ivs);
    SortedIsFixed(ivs);
    DisjointDayIsGapless(ivs);
    var spans := DaySpans(ivs);
    RenderedChained(spans, 0, MinutesPerDay);
    RenderedCanonical(spans);
    MidnightStrings();
    var tl := RenderAll(spans);
    assert tl[0] == Render(spans[0]) && tl[|tl| - 1] == Render(spans[|spans| - 1]);
  }

  /** The same guarantee for the strings `generateExactTimeline` returns, when its parsed ranges are
      sorted and disjoint: "00:00" first, "24:00" last, every end the next start, and every time in
      canonical "HH:MM" form. */
  lemma ExactTimelineGapless(offRanges: seq<string>)
    requires WellFormedRanges(offRanges)
    requires ValidDisjoint(ParseAll(offRanges))
    ensures GaplessStrings(ExactTimeline(offRanges).timeline)
  {
    DisjointRendersGapless(ParseAll(offRanges));
  }
}
