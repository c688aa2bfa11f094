/**
 * Minutes of the day and their "HH:MM" spelling, as the schedule service
 * converts between them; "24:00" stands for minute 1440, the end of the day.
 */
module TimeOfDay {
  import opened JsStrings

  const MinutesPerDay: nat := 1440

  /** A time the service can read: digits, one colon, digits. */
  predicate WellFormedTime(s: string)
  {
    var parts := Split(s, ':');
    |parts| == 2 && |parts[0]| > 0 && |parts[1]| > 0 && AllDigits(parts[0]) && AllDigits(parts[1])
  }

  /** A time as the service writes it: "24:00", or zero-padded "HH:MM" with HH <= 23 and MM <= 59. */
  predicate CanonicalTime(s: string)
  {
    || s == "24:00"
    || (&& |s| == 5 && s[2] == ':' && AllDigits(s[..2]) && AllDigits(s[3..])
        && NumberValue(s[..2]) <= 23 && NumberValue(s[3..]) <= 59)
  }

  /** `timeToMinutes`: hours times 60 plus minutes, with "24:00" read as 1440. */
  function TimeToMinutes(s: string): nat
    requires WellFormedTime(s)
  {
    if s == "24:00" then MinutesPerDay
    else
      var parts := Split(s, ':');
      NumberValue(parts[0]) * 60 + NumberValue(parts[1])
  }

  /** `minutesToTime`: minute 1440 is "24:00"; any other value is zero-padded hours, a colon, zero-padded minutes. */
  function MinutesToTime(minutes: nat): string
  {
    if minutes == MinutesPerDay then "24:00"
    else PadStart2(DecimalString(minutes / 60)) + ":" + PadStart2(DecimalString(minutes % 60))
  }

  lemma DigitRoundTrip(c: char)
    requires IsDigit(c)
    ensures DigitChar(DigitValue(c)) == c
  {
  }

  lemma TwoDigitValue(t: string)
    requires |t| == 2 && AllDigits(t)
    ensures NumberValue(t) == 10 * DigitValue(t[0]) + DigitValue(t[1])
  {
    var p := t[..1];
    assert t[..|t| - 1] == p && t[|t| - 1] == t[1];
    assert p[..|p| - 1] == [] && p[|p| - 1] == t[0];
    assert NumberValue(p) == 10 * NumberValue([]) + DigitValue(t[0]);
    assert NumberValue(t) == 10 * NumberValue(p) + DigitValue(t[1]);
  }

  lemma DivMod10(q: nat, r: nat)
    requires r < 10
    ensures (q * 10 + r) / 10 == q && (q * 10 + r) % 10 == r
  {
    var a := q * 10 + r;
    var q', r' := a / 10, a % 10;
    assert a == q' * 10 + r' && 0 <= r' < 10;
  }

  lemma DivMod60(q: nat, r: nat)
    requires r < 60
    ensures (q * 60 + r) / 60 == q && (q * 60 + r) % 60 == r
  {
    var a := q * 60 + r;
    var q', r' := a / 60, a % 60;
    assert a == q' * 60 + r' && 0 <= r' < 60;
  }

  lemma OneDigitString(d: nat)
    requires d < 10
    ensures DecimalString(d) == [DigitChar(d)]
  {
  }

  lemma TwoDigitString(d0: nat, d1: nat)
    requires 0 < d0 < 10 && d1 < 10
    ensures DecimalString(10 * d0 + d1) == [DigitChar(d0), DigitChar(d1)]
  {
    DivMod10(d0, d1);
    assert DecimalString(d0) == [DigitChar(d0)];
  }

  /** A two-digit string is what `padStart` makes of the decimal spelling of its value. */
  lemma TwoDigits(t: string)
    requires |t| == 2 && AllDigits(t)
    ensures PadStart2(DecimalString(NumberValue(t))) == t
  {
    TwoDigitValue(t);
    var d0, d1 := DigitValue(t[0]), DigitValue(t[1]);
    DigitRoundTrip(t[0]);
    DigitRoundTrip(t[1]);
    assert t == [t[0], t[1]];
    if d0 == 0 {
      OneDigitString(d1);
    } else {
      TwoDigitString(d0, d1);
    }
  }

  lemma NoColonInDigits(a: string)
    requires AllDigits(a)
    ensures ':' !in a
  {
    forall i | 0 <= i < |a| ensures a[i] != ':' {
      assert IsDigit(a[i]);
    }
  }

  /** Reading a colon-separated pair of digit strings. */
  lemma ReadPair(a: string, b: string)
    requires |a| > 0 && |b| > 0 && AllDigits(a) && AllDigits(b)
    ensures WellFormedTime(a + ":" + b)
    ensures Split(a + ":" + b, ':') == [a, b]
  {
    NoColonInDigits(a);
    NoColonInDigits(b);
    assert Join([a, b], ':') == a + ":" + b;
    SplitOfJoin([a, b], ':');
  }

  /** "24:00" is read as minute 1440. */
  lemma ReadMidnight()
    ensures WellFormedTime("24:00") && CanonicalTime("24:00")
    ensures TimeToMinutes("24:00") == MinutesPerDay
  {
    ReadPair("24", "00");
    assert "24" + ":" + "00" == "24:00";
  }

  /** The two ends of the day as `minutesToTime` writes them. */
  lemma MidnightStrings()
    ensures MinutesToTime(0) == "00:00" && MinutesToTime(MinutesPerDay) == "24:00"
  {
    assert DecimalString(0) == "0";
    assert PadStart2("0") == "00";
  }

  /** Every minute of the day, midnight at its end included, survives `minutesToTime` then `timeToMinutes`,
      and is written in the canonical form. */
  lemma {:induction false} MinutesRoundTrip(m: nat)
    requires m <= MinutesPerDay
    ensures WellFormedTime(MinutesToTime(m))
    ensures CanonicalTime(MinutesToTime(m))
    ensures TimeToMinutes(MinutesToTime(m)) == m
  {
    if m == MinutesPerDay {
      ReadMidnight();
      MidnightStrings();
    } else {
      WriteBelowMidnight(m);
      CanonicalValue(MinutesToTime(m));
    }
  }

  /** A minute before midnight is written as zero-padded hours and minutes. */
  lemma WriteBelowMidnight(m: nat)
    requires m < MinutesPerDay
    ensures var s := MinutesToTime(m);
      && CanonicalTime(s) && s != "24:00"
      && NumberValue(s[..2]) == m / 60 && NumberValue(s[3..]) == m % 60
  {
    var a, b := PadStart2(DecimalString(m / 60)), PadStart2(DecimalString(m % 60));
    TwoDigitPad(m / 60);
    TwoDigitPad(m % 60);
    assert MinutesToTime(m) == a + ":" + b;
    ClockText(a, b);
  }

  lemma TwoDigitPad(n: nat)
    requires n < 100
    ensures var p := PadStart2(DecimalString(n)); |p| == 2 && AllDigits(p) && NumberValue(p) == n
  {
    PaddedValue(n);
  }

  /** Two digits of hours at most 23, a colon and two digits of minutes at most 59 make a canonical time. */
  lemma ClockText(a: string, b: string)
    requires |a| == 2 && |b| == 2 && AllDigits(a) && AllDigits(b)
    requires NumberValue(a) <= 23 && NumberValue(b) <= 59
    ensures var s := a + ":" + b; CanonicalTime(s) && s != "24:00" && s[..2] == a && s[3..] == b
  {
    var s := a + ":" + b;
    assert s[..2] == a && s[3..] == b && s[2] == ':';
    NotMidnightText(s);
  }

  /** A time whose hours read at most 23 is not "24:00". */
  lemma NotMidnightText(s: string)
    requires |s| >= 2 && AllDigits(s[..2]) && NumberValue(s[..2]) <= 23
    ensures s != "24:00"
  {
    var t := "24:00";
    assert t[..2] == "24";
    assert NumberValue(t[..2]) == 24;
  }

  /** A minute before 1440 whose hours and minutes read as the two-digit strings `h` and `mm` is written `h:mm`. */
  lemma WriteValue(v: nat, h: string, mm: string)
    requires v < MinutesPerDay
    requires |h| == 2 && |mm| == 2 && AllDigits(h) && AllDigits(mm)
    requires v / 60 == NumberValue(h) && v % 60 == NumberValue(mm)
    ensures MinutesToTime(v) == h + ":" + mm
  {
    TwoDigits(h);
    TwoDigits(mm);
  }

  /** Every canonical time survives `timeToMinutes` then `minutesToTime`. */
  lemma CanonicalRoundTrip(s: string)
    requires CanonicalTime(s)
    ensures WellFormedTime(s)
    ensures TimeToMinutes(s) <= MinutesPerDay
    ensures MinutesToTime(TimeToMinutes(s)) == s
  {
    if s == "24:00" {
      ReadMidnight();
      MidnightStrings();
    } else {
      CanonicalParts(s);
      CanonicalValue(s);
      DivMod60(NumberValue(s[..2]), NumberValue(s[3..]));
      WriteValue(TimeToMinutes(s), s[..2], s[3..]);
    }
  }

  /** A canonical time other than "24:00" is two digits of hours, a colon, two digits of minutes. */
  lemma CanonicalParts(s: string)
    requires CanonicalTime(s) && s != "24:00"
    ensures s == s[..2] + ":" + s[3..]
    ensures |s[..2]| == 2 && |s[3..]| == 2 && AllDigits(s[..2]) && AllDigits(s[3..])
    ensures NumberValue(s[..2]) <= 23 && NumberValue(s[3..]) <= 59
  {
  }

  /** A canonical time other than "24:00" reads as its hours times 60 plus its minutes. */
  lemma CanonicalValue(s: string)
    requires CanonicalTime(s) && s != "24:00"
    ensures WellFormedTime(s)
    ensures TimeToMinutes(s) == NumberValue(s[..2]) * 60 + NumberValue(s[3..])
  {
    CanonicalParts(s);
    ReadPair(s[..2], s[3..]);
  }

  /** Among canonical times, only "00:00" reads as minute 0. */
  lemma ZeroOnlyAtStartOfDay(s: string)
    requires CanonicalTime(s)
    ensures WellFormedTime(s)
    ensures TimeToMinutes(s) == 0 <==> s == "00:00"
  {
    CanonicalRoundTrip(s);
    MidnightStrings();
    MinutesRoundTrip(0);
  }

  /** A canonical time holds only digits and the colon. */
  lemma CanonicalChars(s: string)
    requires CanonicalTime(s)
    ensures forall i :: 0 <= i < |s| ==> IsDigit(s[i]) || s[i] == ':'
  {
    if s != "24:00" {
      forall i | 0 <= i < |s| ensures IsDigit(s[i]) || s[i] == ':' {
        if i < 2 { assert s[i] == s[..2][i]; }
        else if i > 2 { assert s[i] == s[3..][i - 3]; }
      }
    }
  }
}
