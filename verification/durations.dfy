/** Duration text as time.ParseDuration reads it: an optional sign, then one or
    more segments of decimal digits followed by a unit. The value is a signed
    64-bit count of nanoseconds. Fractional segments such as "1.5s" are not
    part of this model: a '.' makes the text malformed here. */
module Durations {
  import opened Outcomes
  import opened Ascii
  import opened Strconv

  const Nanosecond: nat := 1
  const Microsecond: nat := 1000 * Nanosecond
  const Millisecond: nat := 1000 * Microsecond
  const Second: nat := 1000 * Millisecond
  const Minute: nat := 60 * Second
  const Hour: nat := 60 * Minute

  /** The unit table: the length of one unit in nanoseconds. Microseconds have
      three spellings, with the micro sign U+00B5 and the Greek mu U+03BC. */
  function UnitFactor(u: string): (f: Option<nat>)
    ensures f.Some? ==> f.value >= 1
  {
    if u == "ns" then Some(Nanosecond)
    else if u == "us" || u == "µs" || u == "μs" then Some(Microsecond)
    else if u == "ms" then Some(Millisecond)
    else if u == "s" then Some(Second)
    else if u == "m" then Some(Minute)
    else if u == "h" then Some(Hour)
    else None
  }

  /** Characters that end a unit: digits and the decimal point. */
  predicate EndsUnit(c: char) {
    c == '.' || IsDigit(c)
  }

  /** The length of the leading run of decimal digits. */
  function DigitRun(s: string): (n: nat)
    ensures n <= |s|
    ensures forall i :: 0 <= i < n ==> IsDigit(s[i])
    ensures n < |s| ==> !IsDigit(s[n])
  {
    if |s| == 0 || !IsDigit(s[0]) then 0 else 1 + DigitRun(s[1..])
  }

  /** The length of the leading run of characters that can form a unit. */
  function UnitRun(s: string): (n: nat)
    ensures n <= |s|
    ensures forall i :: 0 <= i < n ==> !EndsUnit(s[i])
    ensures n < |s| ==> EndsUnit(s[n])
  {
    if |s| == 0 || EndsUnit(s[0]) then 0 else 1 + UnitRun(s[1..])
  }

  /** `v` units of `f` nanoseconds each. */
  function Scaled(v: nat, f: nat): nat {
    var p: nat := v * f;
    p
  }

  /** The length of one `digits unit` segment; None for an unknown unit. */
  function SegmentValue(digits: string, unit: string): Option<nat> {
    match UnitFactor(unit)
    case None => None
    case Some(f) =>
      match DigitsValue(digits, 10, false)
      case None => None
      case Some(v) => Some(Scaled(v, f))
  }

  /** The sum of two lengths, None when either is missing. */
  function Plus(x: Option<nat>, y: Option<nat>): (r: Option<nat>)
    ensures r.Some? <==> x.Some? && y.Some?
    ensures r.Some? ==> r.value == x.value + y.value
  {
    if x.Some? && y.Some? then Some(x.value + y.value) else None
  }

  /** Plus, read off known operands. */
  lemma PlusOfSome(z: Option<nat>, x: Option<nat>, y: Option<nat>, a: nat, b: nat)
    requires x == Some(a) && y == Some(b) && z == Plus(x, y)
    ensures z == Some(a + b)
  {
  }

  /** The total length in nanoseconds of a run of `digits unit` segments;
      None when a segment lacks digits, lacks a unit or names an unknown unit.
      The total is unbounded: the range check is made once, on the total. */
  function Segments(s: string): (r: Option<nat>)
    decreases |s|
  {
    if |s| == 0 then Some(0)
    else
      var d := DigitRun(s);
      var u := UnitRun(s[d..]);
      if d == 0 || u == 0 then None
      else Plus(SegmentValue(s[..d], s[d..][..u]), Segments(s[d..][u..]))
  }

  /** time.ParseDuration on integer segments. The library checks every
      segment value and every partial sum against 2^63; since they only grow,
      that is the same as checking the total. A negative total may reach
      -2^63, a positive one at most 2^63 - 1. "0" alone needs no unit. */
  function ParseDuration(s: string): (r: Option<int>)
    ensures r.Some? ==> MinInt64 <= r.value <= MaxInt64
    ensures s == "" ==> r.None?
  {
    var neg := |s| > 0 && s[0] == '-';
    var body := if |s| > 0 && (s[0] == '-' || s[0] == '+') then s[1..] else s;
    if body == "0" then Some(0)
    else if body == "" then None
    else
      match Segments(body)
      case None => None
      case Some(total) =>
        if neg then (if total <= -MinInt64 then Some(0 - total) else None)
        else if total <= MaxInt64 then Some(total) else None
  }

  predicate IsUnit(u: string) {
    UnitFactor(u).Some?
  }

  lemma UnitHasNoDigits(u: string)
    requires IsUnit(u)
    ensures |u| > 0 && forall i :: 0 <= i < |u| ==> !EndsUnit(u[i])
  {
  }

  lemma {:induction false} DigitRunOfPrefix(a: string, b: string)
    requires forall i :: 0 <= i < |a| ==> IsDigit(a[i])
    requires |b| == 0 || !IsDigit(b[0])
    ensures DigitRun(a + b) == |a|
    decreases |a|
  {
    if |a| > 0 {
      assert (a + b)[1..] == a[1..] + b;
      DigitRunOfPrefix(a[1..], b);
    }
  }

  lemma {:induction false} UnitRunOfPrefix(a: string, b: string)
    requires forall i :: 0 <= i < |a| ==> !EndsUnit(a[i])
    requires |b| == 0 || EndsUnit(b[0])
    ensures UnitRun(a + b) == |a|
    decreases |a|
  {
    if |a| > 0 {
      assert (a + b)[1..] == a[1..] + b;
      UnitRunOfPrefix(a[1..], b);
    }
  }

  /** Segments read the leading segment off the text: `digits unit rest`,
      where the unit ends where the rest begins with a digit or a '.'. */
  lemma SegmentsCons(digits: string, unit: string, rest: string)
    requires |digits| > 0 && forall i :: 0 <= i < |digits| ==> IsDigit(digits[i])
    requires |unit| > 0 && forall i :: 0 <= i < |unit| ==> !EndsUnit(unit[i])
    requires |rest| == 0 || EndsUnit(rest[0])
    ensures Segments(digits + unit + rest) == Plus(SegmentValue(digits, unit), Segments(rest))
  {
    var s := digits + unit + rest;
    var d := |digits|;
    assert s == digits + (unit + rest);
    assert |unit + rest| > 0 && !IsDigit((unit + rest)[0]);
    DigitRunOfPrefix(digits, unit + rest);
    assert s[..d] == digits;
    assert s[d..] == unit + rest;
    UnitRunOfPrefix(unit, rest);
    assert s[d..][..|unit|] == unit;
    assert s[d..][|unit|..] == rest;
    assert DigitRun(s) == d && UnitRun(s[d..]) == |unit|;
  }

  /** Every string of decimal digits has a decimal value. */
  lemma {:induction false} DecimalDigitsValue(s: string)
    requires forall i :: 0 <= i < |s| ==> IsDigit(s[i])
    ensures DigitsValue(s, 10, false).Some?
    decreases |s|
  {
    if |s| > 0 {
      DecimalDigitsValue(s[..|s| - 1]);
    }
  }

  lemma SegmentValueOf(digits: string, v: nat, u: string, f: nat)
    requires DigitsValue(digits, 10, false) == Some(v)
    requires UnitFactor(u) == Some(f)
    ensures SegmentValue(digits, u) == Some(Scaled(v, f))
  {
  }

  lemma SegmentsConsOfUnit(digits: string, u: string, rest: string)
    requires |digits| > 0 && forall i :: 0 <= i < |digits| ==> IsDigit(digits[i])
    requires IsUnit(u)
    requires |rest| == 0 || IsDigit(rest[0])
    ensures Segments(digits + u + rest) == Plus(SegmentValue(digits, u), Segments(rest))
  {
    UnitHasNoDigits(u);
    SegmentsCons(digits, u, rest);
  }

  lemma SegmentsStartWithDigit(s: string)
    requires |s| > 0 && Segments(s).Some?
    ensures IsDigit(s[0])
  {
  }

  /** A single segment parses to its number of units. */
  lemma ParseDurationOfSegment(n: nat, u: string, f: nat)
    requires UnitFactor(u) == Some(f)
    requires n * f <= MaxInt64
    ensures ParseDuration(FormatDecimal(n) + u) == Some(n * f)
  {
    DigitsValueOfFormat(n, false);
    ParseDurationOfDigits(FormatDecimal(n), n, u, f, Scaled(n, f));
  }

  /** A run of digits worth v, then a unit of f nanoseconds, is v * f. */
  lemma ParseDurationOfDigits(digits: string, v: nat, u: string, f: nat, t: nat)
    requires |digits| > 0 && forall i :: 0 <= i < |digits| ==> IsDigit(digits[i])
    requires DigitsValue(digits, 10, false) == Some(v)
    requires UnitFactor(u) == Some(f) && Scaled(v, f) == t && t <= MaxInt64
    ensures ParseDuration(digits + u) == Some(t)
  {
    SegmentsOfOne(digits, v, u, f, t);
    UnitHasNoDigits(u);
    FirstOfAppend(digits, u);
    ParseDurationOfUnsigned(digits + u, t);
  }

  lemma SegmentsOfOne(digits: string, v: nat, u: string, f: nat, t: nat)
    requires |digits| > 0 && forall i :: 0 <= i < |digits| ==> IsDigit(digits[i])
    requires DigitsValue(digits, 10, false) == Some(v)
    requires UnitFactor(u) == Some(f) && Scaled(v, f) == t
    ensures Segments(digits + u) == Some(t)
  {
    SegmentValueOf(digits, v, u, f);
    SegmentsConsOfUnit(digits, u, "");
    AppendEmpty(digits + u);
  }

  lemma AppendEmpty(s: string)
    ensures s + "" == s
  {
  }

  lemma FirstOfAppend(a: string, b: string)
    requires |a| > 0
    ensures (a + b)[0] == a[0] && |a + b| == |a| + |b|
  {
  }

  /** Segments without a sign, other than "0", read as their total. */
  lemma ParseDurationOfUnsigned(s: string, t: nat)
    requires |s| >= 2 && IsDigit(s[0])
    requires Segments(s) == Some(t) && t <= MaxInt64
    ensures ParseDuration(s) == Some(t)
  {
  }

  /** Text with segments splits into its leading segment and the rest. */
  lemma SplitHead(a: string) returns (digits: string, unit: string, rest: string)
    requires |a| > 0 && Segments(a).Some?
    ensures a == digits + unit + rest
    ensures |digits| > 0 && forall i :: 0 <= i < |digits| ==> IsDigit(digits[i])
    ensures |unit| > 0 && forall i :: 0 <= i < |unit| ==> !EndsUnit(unit[i])
    ensures |rest| == 0 || EndsUnit(rest[0])
  {
    var d := DigitRun(a);
    var u := UnitRun(a[d..]);
    assert d > 0 && u > 0;
    digits, unit, rest := SplitRuns(a, d, u);
  }

  /** The runs a text starts with, cut apart. */
  lemma SplitRuns(a: string, d: nat, u: nat) returns (digits: string, unit: string, rest: string)
    requires d == DigitRun(a) && d > 0
    requires u == UnitRun(a[d..]) && u > 0
    ensures a == digits + unit + rest
    ensures |digits| > 0 && forall i :: 0 <= i < |digits| ==> IsDigit(digits[i])
    ensures |unit| > 0 && forall i :: 0 <= i < |unit| ==> !EndsUnit(unit[i])
    ensures |rest| == 0 || EndsUnit(rest[0])
  {
    var b := a[d..];
    CutAt(a, d);
    CutAt(b, u);
    digits, unit, rest := a[..d], b[..u], b[u..];
    AppendAssociates(digits, unit, rest);
  }

  /** A text is its prefix of length n followed by the remainder; both keep
      the text's characters at their positions. */
  lemma CutAt(s: string, n: nat)
    requires n <= |s|
    ensures s == s[..n] + s[n..]
    ensures forall i :: 0 <= i < n ==> s[..n][i] == s[i]
    ensures n < |s| ==> s[n..][0] == s[n]
  {
  }

  /** Adding y to the second operand of Plus adds y to its result. */
  lemma PlusShift(sa: Option<nat>, sab: Option<nat>, h: Option<nat>, sr: Option<nat>, srb: Option<nat>, x: nat, y: nat, r: nat)
    requires sa == Plus(h, sr) && sab == Plus(h, srb)
    requires sa == Some(x) && sr == Some(r) && srb == Some(r + y)
    ensures sab == Some(x + y)
  {
  }

  lemma AppendAssociates(x: string, y: string, z: string)
    ensures (x + y) + z == x + (y + z)
  {
  }

  /** Segments written one after the other add up. */
  lemma {:induction false} SegmentsAppend(a: string, b: string, x: nat, y: nat)
    requires Segments(a) == Some(x) && Segments(b) == Some(y)
    requires |b| == 0 || IsDigit(b[0])
    ensures Segments(a + b) == Some(x + y)
    decreases |a|
  {
    if |a| == 0 {
      assert a + b == b;
      assert x == 0;
      assert Segments(a + b) == Some(x + y);
    } else {
      var digits, unit, rest := SplitHead(a);
      SegmentsCons(digits, unit, rest);
      var head := SegmentValue(digits, unit);
      var r := Segments(rest).value;
      SegmentsAppend(rest, b, r, y);
      assert |rest + b| == 0 || EndsUnit((rest + b)[0]) by {
        if |rest| > 0 {
          assert (rest + b)[0] == rest[0];
        } else {
          assert rest + b == b;
        }
      }
      assert a + b == digits + unit + (rest + b) by {
        AppendAssociates(digits + unit, rest, b);
      }
      SegmentsCons(digits, unit, rest + b);
      PlusShift(Segments(a), Segments(a + b), head, Segments(rest), Segments(rest + b), x, y, r);
    }
  }

  /** A leading '-' negates a duration that does not already carry a sign. */
  lemma NegatedDuration(s: string, v: int)
    requires |s| > 0 && s[0] != '-' && s[0] != '+'
    requires ParseDuration(s) == Some(v)
    ensures ParseDuration("-" + s) == Some(-v)
  {
    assert ("-" + s)[1..] == s;
  }

  /** The default grace period literal and the examples of a command-line
      override, valid and not. */
  lemma DurationExamples()
    ensures ParseDuration("5s") == Some(5 * Second)
    ensures ParseDuration("2m") == Some(2 * Minute)
    ensures ParseDuration("notaduration").None?
  {
    SegmentOf(5, "s", Second, "5s");
    SegmentOf(2, "m", Minute, "2m");
  }

  lemma SegmentOf(n: nat, u: string, f: nat, s: string)
    requires UnitFactor(u) == Some(f) && n < 10 && n * f <= MaxInt64
    requires s == [DigitChar(n)] + u
    ensures ParseDuration(s) == Some(n * f)
  {
    ParseDurationOfSegment(n, u, f);
  }
}
