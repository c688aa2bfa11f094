/**
 * Concrete days, worked through `generateExactTimeline`: an empty schedule, a
 * range ending at midnight, the "00:00-00:00" range, and two overlapping ranges.
 */
module TimelineExamples {
  import opened JsStrings
  import opened TimeOfDay
  import opened Timeline

  /** Reading back what `minutesToTime` wrote. */
  lemma ReadTime(s: string, m: nat)
    requires m <= MinutesPerDay && MinutesToTime(m) == s
    ensures WellFormedTime(s) && CanonicalTime(s) && TimeToMinutes(s) == m
  {
    MinutesRoundTrip(m);
  }

  lemma WriteTen()
    ensures MinutesToTime(600) == "10:00"
  {
    WriteValue(600, "10", "00");
  }

  lemma WriteEleven()
    ensures MinutesToTime(660) == "11:00"
  {
    WriteValue(660, "11", "00");
  }

  lemma WriteTwelve()
    ensures MinutesToTime(720) == "12:00"
  {
    WriteValue(720, "12", "00");
  }

  lemma WriteThirteen()
    ensures MinutesToTime(780) == "13:00"
  {
    WriteValue(780, "13", "00");
  }

  lemma WriteTwentyTwo()
    ensures MinutesToTime(1320) == "22:00"
  {
    WriteValue(1320, "22", "00");
  }

  /** The parse of a one-range day, from the minutes its two times spell. */
  lemma ParseOne(r: string, a: string, b: string, ma: nat, mb: nat)
    requires ma <= MinutesPerDay && mb <= MinutesPerDay
    requires MinutesToTime(ma) == a && MinutesToTime(mb) == b && r == a + "-" + b
    ensures WellFormedRanges([r]) && ParseAll([r]) == [Interval(ma, if mb == 0 then MinutesPerDay else mb)]
  {
    ReadTime(a, ma);
    ReadTime(b, mb);
    ParseCanonicalRange(a, b);
  }

  /** The example ranges, spelt as two times around '-'. */
  lemma RangeSpellings()
    ensures "22:00-00:00" == "22:00" + "-" + "00:00"
    ensures "00:00-00:00" == "00:00" + "-" + "00:00"
    ensures "10:00-12:00" == "10:00" + "-" + "12:00"
    ensures "11:00-13:00" == "11:00" + "-" + "13:00"
  {
  }

  /** `generateExactTimeline` assembled from its three stages. */
  lemma Assemble(ranges: seq<string>, ivs: seq<Interval>, spans: seq<Span>, segs: seq<Segment>)
    requires WellFormedRanges(ranges)
    requires SortByStart(ParseAll(ranges)) == ivs && DaySpans(ivs) == spans && RenderAll(spans) == segs
    ensures ExactTimeline(ranges) == DayTimeline(segs, Stats(OffMinutes(ivs), Percentage(OffMinutes(ivs))))
  {
  }

  /** No off ranges: one `on` segment for the whole day, nothing off. */
  lemma EmptyScheduleIsAllOn()
    ensures ExactTimeline([]) == DayTimeline([Segment("00:00", "24:00", On)], Stats(0, 0))
  {
    EmptySpans();
    EmptyRender();
    Assemble([], [], [Span(0, MinutesPerDay, On)], [Segment("00:00", "24:00", On)]);
  }

  lemma EmptySpans()
    ensures SortByStart(ParseAll([])) == [] && DaySpans([]) == [Span(0, MinutesPerDay, On)] && OffMinutes([]) == 0
  {
    assert ParseAll([]) == [];
  }

  lemma EmptyRender()
    ensures RenderAll([Span(0, MinutesPerDay, On)]) == [Segment("00:00", "24:00", On)]
  {
    MidnightStrings();
  }

  /** "22:00-00:00": the end reads as midnight at the end of the day, so the last two hours are off. */
  lemma MidnightEndExample()
    ensures WellFormedRanges(["22:00-00:00"])
    ensures ExactTimeline(["22:00-00:00"])
      == DayTimeline([Segment("00:00", "22:00", On), Segment("22:00", "24:00", Off)], Stats(120, 8))
  {
    var iv := Interval(1320, MinutesPerDay);
    MidnightEndParse();
    MidnightEndSpans();
    MidnightEndRender();
    Assemble(["22:00-00:00"], [iv], [Span(0, 1320, On), Span(1320, MinutesPerDay, Off)],
      [Segment("00:00", "22:00", On), Segment("22:00", "24:00", Off)]);
  }

  lemma MidnightEndParse()
    ensures WellFormedRanges(["22:00-00:00"])
    ensures SortByStart(ParseAll(["22:00-00:00"])) == [Interval(1320, MinutesPerDay)]
  {
    ParseMidnightEnd();
    OneIsSorted(Interval(1320, MinutesPerDay));
  }

  lemma ParseMidnightEnd()
    ensures WellFormedRanges(["22:00-00:00"]) && ParseAll(["22:00-00:00"]) == [Interval(1320, MinutesPerDay)]
  {
    MidnightStrings();
    WriteTwentyTwo();
    RangeSpellings();
    ParseOne("22:00-00:00", "22:00", "00:00", 1320, 0);
  }

  lemma OneIsSorted(iv: Interval)
    ensures SortByStart([iv]) == [iv]
  {
    assert [iv][..0] == [];
  }

  lemma MidnightEndSpans()
    ensures DaySpans([Interval(1320, MinutesPerDay)]) == [Span(0, 1320, On), Span(1320, MinutesPerDay, Off)]
    ensures OffMinutes([Interval(1320, MinutesPerDay)]) == 120
  {
    var iv := Interval(1320, MinutesPerDay);
    assert [iv][..0] == [];
    assert CursorAfter([iv]) == MinutesPerDay;
    assert StepSpans(0, iv) == [Span(0, 1320, On), Span(1320, MinutesPerDay, Off)];
    assert SweepSpans([iv]) == [] + StepSpans(0, iv);
  }

  lemma MidnightEndRender()
    ensures RenderAll([Span(0, 1320, On), Span(1320, MinutesPerDay, Off)])
      == [Segment("00:00", "22:00", On), Segment("22:00", "24:00", Off)]
  {
    MidnightStrings();
    WriteTwentyTwo();
  }

  /** "00:00-00:00" is a full day off: 1440 minutes, 100%. */
  lemma MidnightPairIsFullDayOff()
    ensures WellFormedRanges(["00:00-00:00"])
    ensures ExactTimeline(["00:00-00:00"])
      == DayTimeline([Segment("00:00", "24:00", Off)], Stats(MinutesPerDay, 100))
  {
    var iv := Interval(0, MinutesPerDay);
    MidnightPairParse();
    MidnightPairSpans();
    MidnightPairRender();
    Assemble(["00:00-00:00"], [iv], [Span(0, MinutesPerDay, Off)], [Segment("00:00", "24:00", Off)]);
  }

  lemma MidnightPairParse()
    ensures WellFormedRanges(["00:00-00:00"])
    ensures SortByStart(ParseAll(["00:00-00:00"])) == [Interval(0, MinutesPerDay)]
  {
    ParseMidnightPair();
    OneIsSorted(Interval(0, MinutesPerDay));
  }

  lemma ParseMidnightPair()
    ensures WellFormedRanges(["00:00-00:00"]) && ParseAll(["00:00-00:00"]) == [Interval(0, MinutesPerDay)]
  {
    MidnightStrings();
    RangeSpellings();
    ParseOne("00:00-00:00", "00:00", "00:00", 0, 0);
  }

  lemma MidnightPairSpans()
    ensures DaySpans([Interval(0, MinutesPerDay)]) == [Span(0, MinutesPerDay, Off)]
    ensures OffMinutes([Interval(0, MinutesPerDay)]) == MinutesPerDay
  {
    var iv := Interval(0, MinutesPerDay);
    assert [iv][..0] == [];
    assert CursorAfter([iv]) == MinutesPerDay;
    assert StepSpans(0, iv) == [Span(0, MinutesPerDay, Off)];
    assert SweepSpans([iv]) == [] + StepSpans(0, iv);
  }

  lemma MidnightPairRender()
    ensures RenderAll([Span(0, MinutesPerDay, Off)]) == [Segment("00:00", "24:00", Off)]
  {
    MidnightStrings();
  }

  /** Overlapping ranges are neither merged nor clipped: both are emitted, and the shared hour is
      counted twice (240 minutes for 180 distinct minutes off). */
  lemma OverlapsAreNotMerged()
    ensures WellFormedRanges(["10:00-12:00", "11:00-13:00"])
    ensures ExactTimeline(["10:00-12:00", "11:00-13:00"])
      == DayTimeline(
           [ Segment("00:00", "10:00", On), Segment("10:00", "12:00", Off)
           , Segment("11:00", "13:00", Off), Segment("13:00", "24:00", On) ],
           Stats(240, 17))
  {
    var ivs := [Interval(600, 720), Interval(660, 780)];
    var spans := [Span(0, 600, On), Span(600, 720, Off), Span(660, 780, Off), Span(780, MinutesPerDay, On)];
    OverlapParse();
    OverlapSpans();
    OverlapRender();
    Assemble(["10:00-12:00", "11:00-13:00"], ivs, spans,
      [ Segment("00:00", "10:00", On), Segment("10:00", "12:00", Off)
      , Segment("11:00", "13:00", Off), Segment("13:00", "24:00", On) ]);
  }

  lemma OverlapParse()
    ensures WellFormedRanges(["10:00-12:00", "11:00-13:00"])
    ensures ParseAll(["10:00-12:00", "11:00-13:00"]) == [Interval(600, 720), Interval(660, 780)]
  {
    ParseFirstOverlap();
    ParseSecondOverlap();
    ParseTwo("10:00-12:00", "11:00-13:00");
  }

  lemma ParseFirstOverlap()
    ensures WellFormedRanges(["10:00-12:00"]) && ParseAll(["10:00-12:00"]) == [Interval(600, 720)]
  {
    WriteTen();
    WriteTwelve();
    RangeSpellings();
    ParseOne("10:00-12:00", "10:00", "12:00", 600, 720);
  }

  lemma ParseSecondOverlap()
    ensures WellFormedRanges(["11:00-13:00"]) && ParseAll(["11:00-13:00"]) == [Interval(660, 780)]
  {
    WriteEleven();
    WriteThirteen();
    RangeSpellings();
    ParseOne("11:00-13:00", "11:00", "13:00", 660, 780);
  }

  lemma ParseTwo(r: string, t: string)
    requires WellFormedRanges([r]) && WellFormedRanges([t])
    ensures WellFormedRanges([r, t]) && ParseAll([r, t]) == ParseAll([r]) + ParseAll([t])
  {
    assert WellFormedRange([r][0]) && WellFormedRange([t][0]);
  }

  lemma OverlapSpans()
    ensures var ivs := [Interval(600, 720), Interval(660, 780)];
      && SortByStart(ivs) == ivs
      && DaySpans(ivs) == [Span(0, 600, On), Span(600, 720, Off), Span(660, 780, Off), Span(780, MinutesPerDay, On)]
      && OffMinutes(ivs) == 240
  {
    var a, b := Interval(600, 720), Interval(660, 780);
    assert [a, b][..1] == [a] && [a][..0] == [];
    assert SortByStart([a]) == [a];
    assert CursorAfter([a]) == 720;
    assert CursorAfter([a, b]) == 780;
    assert SweepSpans([a]) == [] + StepSpans(0, a);
    assert StepSpans(0, a) == [Span(0, 600, On), Span(600, 720, Off)];
    assert StepSpans(720, b) == [Span(660, 780, Off)];
  }

  lemma OverlapRender()
    ensures RenderAll([Span(0, 600, On), Span(600, 720, Off), Span(660, 780, Off), Span(780, MinutesPerDay, On)])
      == [ Segment("00:00", "10:00", On), Segment("10:00", "12:00", Off)
         , Segment("11:00", "13:00", Off), Segment("13:00", "24:00", On) ]
  {
    OverlapSegments();
    RenderFour(Span(0, 600, On), Span(600, 720, Off), Span(660, 780, Off), Span(780, MinutesPerDay, On));
  }

  lemma RenderFour(a: Span, b: Span, c: Span, d: Span)
    ensures RenderAll([a, b, c, d]) == [Render(a), Render(b), Render(c), Render(d)]
  {
    var spans := [a, b, c, d];
    var r := RenderAll(spans);
    assert r[0] == Render(spans[0]) && r[1] == Render(spans[1]) && r[2] == Render(spans[2]) && r[3] == Render(spans[3]);
  }

  lemma OverlapSegments()
    ensures Render(Span(0, 600, On)) == Segment("00:00", "10:00", On)
    ensures Render(Span(600, 720, Off)) == Segment("10:00", "12:00", Off)
    ensures Render(Span(660, 780, Off)) == Segment("11:00", "13:00", Off)
    ensures Render(Span(780, MinutesPerDay, On)) == Segment("13:00", "24:00", On)
  {
    MidnightStrings();
    WriteTen();
    WriteEleven();
    WriteTwelve();
    WriteThirteen();
  }
}
