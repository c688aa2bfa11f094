/**
 * `generateExactTimeline`: a queue's power-off ranges ("HH:MM-HH:MM") for one
 * day become a list of `on`/`off` segments and the day's outage statistics.
 *
 * The ranges are parsed (an end of "00:00" is read as minute 1440), sorted in
 * place by start (a stable sort), and swept once with a cursor: a gap before an
 * off range becomes an `on` segment, every off range whose end lies after its
 * start becomes its own `off` segment and adds its full length to the total,
 * and the rest of the day after the cursor becomes a final `on` segment.
 * Overlapping ranges are not merged.
 */
module Timeline {
  import opened JsStrings
  import opened TimeOfDay

  /** One parsed off range, in minutes of the day. */
  datatype Interval = Interval(start: nat, end: nat)

  datatype Power = On | Off

  /** A timeline segment, in minutes of the day. */
  datatype Span = Span(start: nat, end: nat, power: Power)

  /** A timeline segment as the service hands it out, with "HH:MM" times. */
  datatype Segment = Segment(start: string, end: string, power: Power)

  datatype Stats = Stats(totalOffMinutes: nat, percentage: nat)

  datatype DayTimeline = DayTimeline(timeline: seq<Segment>, stats: Stats)

  /** An off range the service can read: two well-formed times around one '-'. */
  predicate WellFormedRange(r: string)
  {
    var parts := Split(r, '-');
    |parts| == 2 && WellFormedTime(parts[0]) && WellFormedTime(parts[1])
  }

  predicate WellFormedRanges(ranges: seq<string>)
  {
    forall i :: 0 <= i < |ranges| ==> WellFormedRange(ranges[i])
  }

  /** One off range in minutes; an end of 0 means the range runs to midnight. */
  function ParseRange(range: string): (iv: Interval)
    requires WellFormedRange(range)
    ensures iv.end != 0
  {
    var parts := Split(range, '-');
    var start := TimeToMinutes(parts[0]);
    var end := TimeToMinutes(parts[1]);
    Interval(start, if end == 0 then MinutesPerDay else end)
  }

  /** A range written as two canonical times joined by '-' is well formed; it starts at the first
      time's minute and ends at the second's, except that an end of "00:00" is read as minute 1440. */
  lemma ParseCanonicalRange(a: string, b: string)
    requires CanonicalTime(a) && CanonicalTime(b)
    ensures WellFormedTime(a) && WellFormedTime(b) && WellFormedRange(a + "-" + b)
    ensures ParseRange(a + "-" + b).start == TimeToMinutes(a)
    ensures b == "00:00" ==> ParseRange(a + "-" + b).end == MinutesPerDay
    ensures b != "00:00" ==> ParseRange(a + "-" + b).end == TimeToMinutes(b)
    ensures ParseRange(a + "-" + b)
      == Interval(TimeToMinutes(a), if TimeToMinutes(b) == 0 then MinutesPerDay else TimeToMinutes(b))
  {
    CanonicalChars(a);
    CanonicalChars(b);
    assert '-' !in a && '-' !in b;
    assert Join([a, b], '-') == a + "-" + b;
    SplitOfJoin([a, b], '-');
    CanonicalRoundTrip(a);
    ZeroOnlyAtStartOfDay(b);
  }

  function ParseAll(ranges: seq<string>): (ivs: seq<Interval>)
    requires WellFormedRanges(ranges)
  {
    seq(|ranges|, i requires 0 <= i < |ranges| => ParseRange(ranges[i]))
  }

  // ---------------------------------------------------------------------
  // `offIntervals.sort((a, b) => a.start - b.start)`

  /** Insert `x` after every interval whose start is not after its own. */
  function InsertByStart(s: seq<Interval>, x: Interval): (r: seq<Interval>)
    ensures |r| == |s| + 1
  {
    if s == [] || s[|s| - 1].start <= x.start then s + [x]
    else InsertByStart(s[..|s| - 1], x) + [s[|s| - 1]]
  }

  /** The stable sort of the intervals by start. */
  function SortByStart(s: seq<Interval>): (r: seq<Interval>)
    ensures |r| == |s|
  {
    if s == [] then [] else InsertByStart(SortByStart(s[..|s| - 1]), s[|s| - 1])
  }

  lemma InsertShift(done: seq<Interval>, j: nat, x: Interval)
    requires 0 < j <= |done| && done[j - 1].start > x.start
    ensures InsertByStart(done[..j], x) + done[j..] == InsertByStart(done[..j - 1], x) + done[j - 1..]
  {
    assert done[..j][..j - 1] == done[..j - 1];
    assert done[j - 1..] == [done[j - 1]] + done[j..];
  }

  lemma InsertStop(done: seq<Interval>, j: nat, x: Interval)
    requires j <= |done| && (j == 0 || done[j - 1].start <= x.start)
    ensures InsertByStart(done[..j], x) == done[..j] + [x]
  {
  }

  /** Shift the sorted prefix a[..i] right past every interval starting after a[i], and drop a[i] into the hole. */
  method InsertIntoPrefix(a: array<Interval>, i: nat)
    requires i < a.Length
    modifies a
    ensures a[..i + 1] == InsertByStart(old(a[..i]), old(a[i]))
    ensures a[i + 1..] == old(a[i + 1..])
  {
    var x := a[i];
    ghost var orig := a[..];
    ghost var done := orig[..i];
    var j := i;
    assert done[..j] == done && done[j..] == [];
    while j > 0 && a[j - 1].start > x.start
      invariant 0 <= j <= i
      invariant Shifted(a[..], orig, i, j)
      invariant InsertByStart(done, x) == InsertByStart(done[..j], x) + done[j..]
    {
      ghost var before := a[..];
      assert a[j - 1] == before[j - 1] == done[j - 1];
      InsertShift(done, j, x);
      a[j] := a[j - 1];
      assert a[..] == before[j := before[j - 1]];
      ShiftStep(before, orig, i, j);
      j := j - 1;
    }
    InsertStop(done, j, x);
    ghost var before := a[..];
    a[j] := x;
    assert a[..] == before[j := x];
    Placed(before, orig, i, j, x);
  }

  /** Mid-insertion: a[..j] is untouched, a[j + 1..i + 1] is the old a[j..i] shifted right, the rest is untouched. */
  predicate Shifted(s: seq<Interval>, orig: seq<Interval>, i: nat, j: nat)
  {
    && j <= i < |s| == |orig|
    && (forall k :: 0 <= k < j ==> s[k] == orig[k])
    && (forall k :: j < k <= i ==> s[k] == orig[k - 1])
    && (forall k :: i < k < |s| ==> s[k] == orig[k])
  }

  lemma ShiftStep(s: seq<Interval>, orig: seq<Interval>, i: nat, j: nat)
    requires Shifted(s, orig, i, j) && 0 < j
    ensures Shifted(s[j := s[j - 1]], orig, i, j - 1)
  {
  }

  lemma Placed(s: seq<Interval>, orig: seq<Interval>, i: nat, j: nat, x: Interval)
    requires Shifted(s, orig, i, j)
    ensures var r := s[j := x];
      && r[..i + 1] == orig[..i][..j] + [x] + orig[..i][j..]
      && r[i + 1..] == orig[i + 1..]
  {
    var r, done := s[j := x], orig[..i];
    var want := done[..j] + [x] + done[j..];
    forall k | 0 <= k <= i ensures r[k] == want[k] {
      if k < j { assert want[k] == done[k]; }
      else if k > j { assert want[k] == done[k - 1]; }
    }
  }

  /** Insertion sort in place, specified by the stable sort above. */
  method SortByStartInPlace(a: array<Interval>)
    modifies a
    ensures a[..] == SortByStart(old(a[..]))
  {
    ghost var input := a[..];
    var i := 0;
    while i < a.Length
      invariant 0 <= i <= a.Length
      invariant a[..i] == SortByStart(input[..i])
      invariant a[i..] == input[i..]
    {
      assert input[..i + 1][..i] == input[..i] && input[i] == a[i];
      InsertIntoPrefix(a, i);
      i := i + 1;
    }
    assert a[..] == a[..a.Length] && input == input[..a.Length];
  }

  // ---------------------------------------------------------------------
  // The sweep, stated over the sorted intervals, last interval last

  function Max(a: nat, b: nat): (m: nat)
    ensures m >= a && m >= b && (m == a || m == b)
  {
    if a >= b then a else b
  }

  /** The cursor after one interval: an interval that ends after it starts pushes the cursor to its end. */
  function Advance(cursor: nat, iv: Interval): nat
  {
    if iv.end > iv.start then Max(cursor, iv.end) else cursor
  }

  /** The segments one interval adds: the gap before it, if any, then the interval itself, if it ends after it starts. */
  function StepSpans(cursor: nat, iv: Interval): seq<Span>
  {
    (if iv.start > cursor then [Span(cursor, iv.start, On)] else [])
    + (if iv.end > iv.start then [Span(iv.start, iv.end, Off)] else [])
  }

  function CursorAfter(ivs: seq<Interval>): nat
  {
    if ivs == [] then 0 else Advance(CursorAfter(ivs[..|ivs| - 1]), ivs[|ivs| - 1])
  }

  function SweepSpans(ivs: seq<Interval>): seq<Span>
  {
    if ivs == [] then []
    else SweepSpans(ivs[..|ivs| - 1]) + StepSpans(CursorAfter(ivs[..|ivs| - 1]), ivs[|ivs| - 1])
  }

  /** The running total: the full length of every interval that ends after it starts. */
  function OffMinutes(ivs: seq<Interval>): nat
  {
    if ivs == [] then 0
    else
      var iv := ivs[|ivs| - 1];
      OffMinutes(ivs[..|ivs| - 1]) + (if iv.end > iv.start then iv.end - iv.start else 0)
  }

  /** The whole day: the sweep, then an `on` segment from the cursor to 24:00 if the cursor is short of it. */
  function DaySpans(ivs: seq<Interval>): seq<Span>
  {
    var cursor := CursorAfter(ivs);
    SweepSpans(ivs) + (if cursor < MinutesPerDay then [Span(cursor, MinutesPerDay, On)] else [])
  }

  /** `Math.round(total / 1440 * 100)` in exact arithmetic: the nearest whole percentage, halves rounded up. */
  function Percentage(totalOffMinutes: nat): (p: nat)
    ensures 1440 * p <= 100 * totalOffMinutes + 720 < 1440 * (p + 1)
  {
    (100 * totalOffMinutes + 720) / 1440
  }

  function Render(sp: Span): Segment
  {
    Segment(MinutesToTime(sp.start), MinutesToTime(sp.end), sp.power)
  }

  function RenderAll(spans: seq<Span>): (segs: seq<Segment>)
    ensures |segs| == |spans|
    ensures forall i :: 0 <= i < |spans| ==> segs[i] == Render(spans[i])
  {
    if spans == [] then [] else RenderAll(spans[..|spans| - 1]) + [Render(spans[|spans| - 1])]
  }

  /** What `generateExactTimeline` returns for the given off ranges. */
  function ExactTimeline(offRanges: seq<string>): DayTimeline
    requires WellFormedRanges(offRanges)
  {
    var ivs := SortByStart(ParseAll(offRanges));
    var total := OffMinutes(ivs);
    DayTimeline(RenderAll(DaySpans(ivs)), Stats(total, Percentage(total)))
  }

  /** One more interval: how the sweep's segments, cursor and total grow. */
  lemma SweepStep(ivs: seq<Interval>, i: nat)
    requires i < |ivs|
    ensures CursorAfter(ivs[..i + 1]) == Advance(CursorAfter(ivs[..i]), ivs[i])
    ensures OffMinutes(ivs[..i + 1]) == OffMinutes(ivs[..i]) + (if ivs[i].end > ivs[i].start then ivs[i].end - ivs[i].start else 0)
    ensures SweepSpans(ivs[..i + 1]) == SweepSpans(ivs[..i]) + StepSpans(CursorAfter(ivs[..i]), ivs[i])
  {
    assert ivs[..i + 1][..i] == ivs[..i];
  }

  /** The `forEach` sweep over the sorted intervals, then the closing `on` segment. */
  method Sweep(offIntervals: array<Interval>) returns (spans: seq<Span>, totalOffMinutes: nat)
    ensures spans == DaySpans(offIntervals[..])
    ensures totalOffMinutes == OffMinutes(offIntervals[..])
  {
    ghost var ivs := offIntervals[..];
    spans := [];
    var currentCursor := 0;
    totalOffMinutes := 0;
    var i := 0;
    while i < offIntervals.Length
      invariant 0 <= i <= offIntervals.Length
      invariant currentCursor == CursorAfter(ivs[..i])
      invariant totalOffMinutes == OffMinutes(ivs[..i])
      invariant spans == SweepSpans(ivs[..i])
    {
      var off := offIntervals[i];
      SweepStep(ivs, i);
      if off.start > currentCursor {
        spans := spans + [Span(currentCursor, off.start, On)];
      }
      if off.end > off.start {
        spans := spans + [Span(off.start, off.end, Off)];
        totalOffMinutes := totalOffMinutes + (off.end - off.start);
        currentCursor := Max(currentCursor, off.end);
      }
      i := i + 1;
    }
    assert ivs[..i] == ivs;
    if currentCursor < MinutesPerDay {
      spans := spans + [Span(currentCursor, MinutesPerDay, On)];
    }
  }

  /** `generateExactTimeline`: parse the ranges into an array, sort it in place, sweep it,
      and spell the segments' minutes out as "HH:MM". */
  method GenerateExactTimeline(offRanges: seq<string>) returns (timeline: seq<Segment>, stats: Stats)
    requires WellFormedRanges(offRanges)
    ensures DayTimeline(timeline, stats) == ExactTimeline(offRanges)
  {
    var parsed := ParseAll(offRanges);
    var offIntervals := new Interval[|parsed|](i requires 0 <= i < |parsed| => parsed[i]);
    assert offIntervals[..] == parsed;
    SortByStartInPlace(offIntervals);
    var spans, totalOffMinutes := Sweep(offIntervals);
    timeline := RenderAll(spans);
    stats := Stats(totalOffMinutes, Percentage(totalOffMinutes));
  }
}
