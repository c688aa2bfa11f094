/**
 * The two computations of the result card: the date shown as DD.MM.YYYY, and
 * the off time shown in whole hours.
 */
module ScheduleResult {
  import opened Wrappers
  import opened JsStrings

  /** `formatDate`: a missing or empty date is shown as ''; a string that does not split on '-' into
      three parts is shown as it is; `a-b-c` is shown as `c.b.a`. */
  function FormatDate(isoDate: Option<string>): (r: string)
    ensures isoDate.None? || isoDate.value == "" ==> r == ""
    ensures isoDate.Some? && |Split(isoDate.value, '-')| != 3 ==> r == isoDate.value
  {
    if isoDate.None? || isoDate.value == "" then ""
    else
      var parts := Split(isoDate.value, '-');
      if |parts| != 3 then isoDate.value
      else parts[2] + "." + parts[1] + "." + parts[0]
  }

  lemma JoinThree(x: string, y: string, z: string, sep: char)
    ensures Join([x, y, z], sep) == x + [sep] + y + [sep] + z
  {
    assert [x, y, z][1..] == [y, z];
    assert [y, z][1..] == [z];
    assert Join([z], sep) == z;
    assert Join([y, z], sep) == y + [sep] + z;
    assert x + [sep] + (y + [sep] + z) == x + [sep] + y + [sep] + z;
  }

  /** Reformatting only moves the three parts and swaps the two separators: the length is kept. */
  lemma FormatDateKeepsLength(s: string)
    requires |Split(s, '-')| == 3
    ensures |FormatDate(Some(s))| == |s|
  {
    var parts := Split(s, '-');
    assert parts == [parts[0], parts[1], parts[2]];
    JoinThree(parts[0], parts[1], parts[2], '-');
  }

  /** When the input holds no '.', splitting the output on '.' gives the three parts reversed, and
      joining them back with '-' in the original order restores the input. */
  lemma FormatDateInverse(s: string)
    requires |Split(s, '-')| == 3 && '.' !in s
    ensures var parts := Split(s, '-');
      && Split(FormatDate(Some(s)), '.') == [parts[2], parts[1], parts[0]]
      && Join([parts[0], parts[1], parts[2]], '-') == s
  {
    var parts := Split(s, '-');
    DotFreeParts(s);
    SplitReversed(parts[0], parts[1], parts[2]);
  }

  /** The three parts of a date without '.' hold no '.', and the date is the first, '-', the second, '-', the third. */
  lemma DotFreeParts(s: string)
    requires |Split(s, '-')| == 3 && '.' !in s
    ensures var parts := Split(s, '-');
      && '.' !in parts[0] && '.' !in parts[1] && '.' !in parts[2]
      && Join([parts[0], parts[1], parts[2]], '-') == s
      && FormatDate(Some(s)) == parts[2] + "." + parts[1] + "." + parts[0]
  {
    var parts := Split(s, '-');
    var x, y, z := parts[0], parts[1], parts[2];
    assert parts == [x, y, z];
    JoinThree(x, y, z, '-');
    NoDotInParts(x, y, z, s);
  }

  lemma SplitReversed(x: string, y: string, z: string)
    requires '.' !in x && '.' !in y && '.' !in z
    ensures Split(z + "." + y + "." + x, '.') == [z, y, x]
  {
    JoinThree(z, y, x, '.');
    SplitOfJoin([z, y, x], '.');
  }

  lemma NoDotInParts(x: string, y: string, z: string, s: string)
    requires s == x + ['-'] + y + ['-'] + z && '.' !in s
    ensures '.' !in x && '.' !in y && '.' !in z
  {
    forall k | 0 <= k < |x| ensures x[k] != '.' { assert x[k] == s[k]; }
    forall k | 0 <= k < |y| ensures y[k] != '.' { assert y[k] == s[|x| + 1 + k]; }
    forall k | 0 <= k < |z| ensures z[k] != '.' { assert z[k] == s[|x| + 1 + |y| + 1 + k]; }
  }

  /** `a-b-c` with no '-' inside the parts becomes `c.b.a`. */
  lemma FormatThreeParts(x: string, y: string, z: string)
    requires '-' !in x && '-' !in y && '-' !in z
    ensures FormatDate(Some(x + "-" + y + "-" + z)) == z + "." + y + "." + x
  {
    JoinThree(x, y, z, '-');
    SplitOfJoin([x, y, z], '-');
  }

  lemma FormatDateExample()
    ensures FormatDate(Some("2025-01-10")) == "10.01.2025"
  {
    FormatThreeParts("2025", "01", "10");
    assert "2025" + "-" + "01" + "-" + "10" == "2025-01-10";
    assert "10" + "." + "01" + "." + "2025" == "10.01.2025";
  }

  /** `Math.round(totalOffMinutes / 60)`: the nearest whole number of hours, halves rounded up. */
  function OffHoursText(totalOffMinutes: nat): (hours: nat)
    ensures 60 * hours <= totalOffMinutes + 30 < 60 * (hours + 1)
  {
    (totalOffMinutes + 30) / 60
  }
}
