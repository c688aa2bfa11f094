/**
 * The string built-ins the schedule core relies on, stated once:
 * `String.prototype.split` with a one-character separator, `Number` on a
 * string of decimal digits, `toString` followed by `padStart(2, '0')`,
 * the relational operators on strings, `new Set(...)` and the default
 * `Array.prototype.sort()` on strings. The digit predicates also stand for
 * Python's `str.isdigit` on the ASCII digits, which the address filter uses.
 */
module JsStrings {

  predicate IsDigit(c: char) { '0' <= c <= '9' }

  predicate AllDigits(s: string) { forall i :: 0 <= i < |s| ==> IsDigit(s[i]) }

  function DigitValue(c: char): (d: nat)
    requires IsDigit(c)
    ensures d < 10
  {
    c as int - '0' as int
  }

  function DigitChar(d: nat): (c: char)
    requires d < 10
    ensures IsDigit(c) && DigitValue(c) == d
  {
    ('0' as int + d) as char
  }

  /** `Number(s)` for a non-empty string of decimal digits. */
  function NumberValue(s: string): nat
    requires AllDigits(s)
  {
    if s == [] then 0 else 10 * NumberValue(s[..|s| - 1]) + DigitValue(s[|s| - 1])
  }

  /** `n.toString()` for a natural number: its decimal digits, without leading zeros. */
  function DecimalString(n: nat): (s: string)
    ensures 1 <= |s| && AllDigits(s)
    ensures NumberValue(s) == n
    ensures n < 10 <==> |s| == 1
    ensures 10 <= n < 100 <==> |s| == 2
  {
    if n < 10 then [DigitChar(n)]
    else
      var front := DecimalString(n / 10);
      var s := front + [DigitChar(n % 10)];
      assert s[..|s| - 1] == front;
      s
  }

  /** `s.padStart(2, '0')`. */
  function PadStart2(s: string): (r: string)
    ensures |r| == if |s| < 2 then 2 else |s|
    ensures r[|r| - |s|..] == s
    ensures forall i :: 0 <= i < |r| - |s| ==> r[i] == '0'
  {
    if |s| == 0 then "00" else if |s| == 1 then "0" + s else s
  }

  /** A leading zero does not change the value `Number` reads. */
  lemma {:induction false} LeadingZero(s: string)
    requires AllDigits(s)
    ensures AllDigits("0" + s) && NumberValue("0" + s) == NumberValue(s)
  {
    var z := "0" + s;
    if s != [] {
      assert z[..|z| - 1] == "0" + s[..|s| - 1];
      LeadingZero(s[..|s| - 1]);
    }
  }

  /** `NumberValue` of the padded decimal string of `n` is `n`. */
  lemma PaddedValue(n: nat)
    ensures AllDigits(PadStart2(DecimalString(n)))
    ensures NumberValue(PadStart2(DecimalString(n))) == n
  {
    if n < 10 {
      LeadingZero(DecimalString(n));
    }
  }

  // ---------------------------------------------------------------------
  // split / join

  /** `s.split(sep)` for a one-character separator. */
  function Split(s: string, sep: char): (parts: seq<string>)
    ensures |parts| >= 1
    ensures forall i :: 0 <= i < |parts| ==> sep !in parts[i]
    ensures Join(parts, sep) == s
    decreases |s|
  {
    if s == [] then [[]]
    else
      var rest := Split(s[1..], sep);
      if s[0] == sep then
        var parts := [[]] + rest;
        assert parts[1..] == rest;
        parts
      else
        var parts := [[s[0]] + rest[0]] + rest[1..];
        assert |rest| > 1 ==> parts[1..] == rest[1..] && Join(rest, sep) == rest[0] + [sep] + Join(rest[1..], sep);
        parts
  }

  /** The inverse of `Split`: the parts with one separator between neighbours. */
  function Join(parts: seq<string>, sep: char): string
    requires |parts| >= 1
    decreases |parts|
  {
    if |parts| == 1 then parts[0] else parts[0] + [sep] + Join(parts[1..], sep)
  }

  lemma {:induction false} SplitPrefix(a: string, rest: string, sep: char)
    requires sep !in a
    ensures Split(a + rest, sep) == [a + Split(rest, sep)[0]] + Split(rest, sep)[1..]
    decreases |a|
  {
    var r := Split(rest, sep);
    if a == [] {
      assert a + rest == rest && a + r[0] == r[0];
      assert [r[0]] + r[1..] == r;
    } else {
      var s := a + rest;
      assert s[0] == a[0] && s[1..] == a[1..] + rest;
      SplitPrefix(a[1..], rest, sep);
      var tail := Split(s[1..], sep);
      assert tail == [a[1..] + r[0]] + r[1..];
      assert tail[0] == a[1..] + r[0] && tail[1..] == r[1..];
      assert [s[0]] + tail[0] == a + r[0];
    }
  }

  /** Splitting undoes joining, whenever no part holds the separator. */
  lemma {:induction false} SplitOfJoin(parts: seq<string>, sep: char)
    requires |parts| >= 1
    requires forall i :: 0 <= i < |parts| ==> sep !in parts[i]
    ensures Split(Join(parts, sep), sep) == parts
    decreases |parts|
  {
    if |parts| == 1 {
      SplitPrefix(parts[0], [], sep);
      assert parts[0] + [] == parts[0];
    } else {
      var tail := Join(parts[1..], sep);
      SplitOfJoin(parts[1..], sep);
      assert parts[0] + [sep] + tail == parts[0] + ([sep] + tail);
      SplitPrefix(parts[0], [sep] + tail, sep);
      assert ([sep] + tail)[1..] == tail;
      var r := Split([sep] + tail, sep);
      assert r == [[]] + parts[1..];
      assert Join(parts, sep) == parts[0] + ([sep] + tail);
      assert r[0] == [] && r[1..] == parts[1..];
      assert parts[0] + r[0] == parts[0];
      assert parts == [parts[0]] + parts[1..];
    }
  }

  // ---------------------------------------------------------------------
  // string comparison

  /** `a < b` on strings: lexicographic order on characters, a proper prefix first. */
  predicate LexLess(a: string, b: string)
    decreases |a|
  {
    |b| > 0 && (|a| == 0 || a[0] < b[0] || (a[0] == b[0] && LexLess(a[1..], b[1..])))
  }

  lemma {:induction false} LexIrreflexive(a: string)
    ensures !LexLess(a, a)
    decreases |a|
  {
    if |a| > 0 { LexIrreflexive(a[1..]); }
  }

  lemma {:induction false} LexTransitive(a: string, b: string, c: string)
    requires LexLess(a, b) && LexLess(b, c)
    ensures LexLess(a, c)
    decreases |a|
  {
    if |a| > 0 && a[0] == b[0] && b[0] == c[0] {
      LexTransitive(a[1..], b[1..], c[1..]);
    }
  }

  lemma {:induction false} LexTotal(a: string, b: string)
    ensures a == b || LexLess(a, b) || LexLess(b, a)
    decreases |a|
  {
    if |a| > 0 && |b| > 0 && a[0] == b[0] {
      LexTotal(a[1..], b[1..]);
      if a[1..] == b[1..] {
        assert a == [a[0]] + a[1..] && b == [b[0]] + b[1..];
      }
    }
  }

  lemma LexAsymmetric(a: string, b: string)
    requires LexLess(a, b)
    ensures !LexLess(b, a)
  {
    if LexLess(b, a) {
      LexTransitive(a, b, a);
      LexIrreflexive(a);
    }
  }

  // ---------------------------------------------------------------------
  // `new Set(list)` followed by `.sort()`

  ghost predicate Distinct(s: seq<string>)
  {
    forall i, j :: 0 <= i < j < |s| ==> s[i] != s[j]
  }

  ghost predicate StrictlyAscending(s: seq<string>)
  {
    forall i, j :: 0 <= i < j < |s| ==> LexLess(s[i], s[j])
  }

  /** The elements of `new Set(s)`, in insertion (first occurrence) order. */
  function Dedupe(s: seq<string>): (r: seq<string>)
    ensures forall e :: e in r <==> e in s
    ensures Distinct(r)
  {
    if s == [] then []
    else
      var r := Dedupe(s[..|s| - 1]);
      assert s == s[..|s| - 1] + [s[|s| - 1]];
      if s[|s| - 1] in r then r else r + [s[|s| - 1]]
  }

  /** Insert `x` after every element that does not sort after it. */
  function InsertString(s: seq<string>, x: string): (r: seq<string>)
    ensures |r| == |s| + 1
    ensures forall e :: e in r <==> e in s || e == x
  {
    if s == [] || !LexLess(x, s[|s| - 1]) then s + [x]
    else
      var front := s[..|s| - 1];
      assert s == front + [s[|s| - 1]];
      InsertString(front, x) + [s[|s| - 1]]
  }

  /** The default `.sort()` of an array of strings (a stable insertion sort). */
  function SortStrings(s: seq<string>): (r: seq<string>)
    ensures |r| == |s|
    ensures forall e :: e in r <==> e in s
  {
    if s == [] then []
    else
      assert s == s[..|s| - 1] + [s[|s| - 1]];
      InsertString(SortStrings(s[..|s| - 1]), s[|s| - 1])
  }

  lemma {:induction false} InsertKeepsAscending(s: seq<string>, x: string)
    requires StrictlyAscending(s) && x !in s
    ensures StrictlyAscending(InsertString(s, x))
    decreases |s|
  {
    if s == [] {
    } else if !LexLess(x, s[|s| - 1]) {
      var last := s[|s| - 1];
      LexTotal(x, last);
      forall i | 0 <= i < |s| ensures LexLess(s[i], x) {
        if i < |s| - 1 { LexTransitive(s[i], last, x); }
      }
    } else {
      var front := s[..|s| - 1];
      var last := s[|s| - 1];
      assert s == front + [last];
      InsertKeepsAscending(front, x);
      var r := InsertString(front, x);
      forall i | 0 <= i < |r| ensures LexLess(r[i], last) {
        assert r[i] in front || r[i] == x;
      }
    }
  }

  /** For a duplicate-free list, `.sort()` yields a strictly ascending list. */
  lemma {:induction false} SortStringsAscending(s: seq<string>)
    requires Distinct(s)
    ensures StrictlyAscending(SortStrings(s))
    decreases |s|
  {
    if s != [] {
      var front := s[..|s| - 1];
      assert Distinct(front);
      SortStringsAscending(front);
      assert s[|s| - 1] !in front;
      InsertKeepsAscending(SortStrings(front), s[|s| - 1]);
    }
  }

  /** In a strictly ascending list, dropping the last element drops exactly that element. */
  lemma DropLast(a: seq<string>)
    requires StrictlyAscending(a) && a != []
    ensures forall e :: e in a[..|a| - 1] <==> e in a && e != a[|a| - 1]
    ensures forall e :: e in a ==> e == a[|a| - 1] || LexLess(e, a[|a| - 1])
  {
    var last := a[|a| - 1];
    LexIrreflexive(last);
    assert a == a[..|a| - 1] + [last];
    forall i | 0 <= i < |a| - 1 ensures a[i] != last {
      assert LexLess(a[i], last);
    }
  }

  lemma LastIsMember(s: seq<string>)
    ensures s == [] || s[|s| - 1] in s
  {
  }

  /** A strictly ascending list is determined by its elements. */
  lemma {:induction false} AscendingUnique(a: seq<string>, b: seq<string>)
    requires StrictlyAscending(a) && StrictlyAscending(b)
    requires forall e :: e in a <==> e in b
    ensures a == b
    decreases |a|
  {
    if a == [] {
      LastIsMember(b);
    } else {
      assert a[|a| - 1] in a;
      assert a[|a| - 1] in b;
      var la, lb := a[|a| - 1], b[|b| - 1];
      assert lb in b;
      assert lb in a;
      DropLast(a);
      DropLast(b);
      if la != lb {
        assert LexLess(la, lb);
        assert LexLess(lb, la);
        LexAsymmetric(la, lb);
      }
      var fa, fb := a[..|a| - 1], b[..|b| - 1];
      assert StrictlyAscending(fa) && StrictlyAscending(fb);
      assert la == lb;
      forall e ensures e in fa <==> e in fb {
        assert e in fa <==> e in a && e != la;
        assert e in fb <==> e in b && e != lb;
      }
      AscendingUnique(fa, fb);
      assert a == fa + [la] && b == fb + [lb];
    }
  }
}
