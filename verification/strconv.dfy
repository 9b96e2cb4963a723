/** The textual number and boolean syntax the configuration reader relies on:
    base-10 parsing of default literals (strconv.ParseInt / ParseUint with base
    10) and the base-prefixed syntax the flag library uses for command-line and
    environment values (base 0: `0x`, `0o`, `0b`, a leading `0` for octal, and
    `_` between digits). Integers are 64 bits wide; out-of-range text is
    rejected like malformed text, and the number strconv returns beside its
    error (0, or the bound on a range error) is modelled separately. */
module Strconv {
  import opened Outcomes
  import opened Ascii

  const MaxInt64: int := 0x7FFF_FFFF_FFFF_FFFF
  const MinInt64: int := -0x8000_0000_0000_0000
  const MaxUint64: int := 0xFFFF_FFFF_FFFF_FFFF

  /** The digit value of a character: 0-9 for decimal digits, 10-35 for ASCII
      letters of either case, and 36 (a digit of no base) for anything else. */
  function DigitValue(c: char): (d: nat)
    ensures d <= 36
    ensures IsDigit(c) <==> d < 10
  {
    if IsDigit(c) then c as int - '0' as int
    else if IsLower(c) then c as int - 'a' as int + 10
    else if IsUpper(c) then c as int - 'A' as int + 10
    else 36
  }

  /** The value of a digit string in `base`, skipping '_' when `underscores`
      holds; None when some character is not a digit of that base. */
  function DigitsValue(s: string, base: nat, underscores: bool): (r: Option<nat>)
    requires 2 <= base <= 36
    decreases |s|
  {
    if |s| == 0 then Some(0)
    else
      match DigitsValue(s[..|s| - 1], base, underscores)
      case None => None
      case Some(n) =>
        var c := s[|s| - 1];
        if c == '_' && underscores then Some(n)
        else if DigitValue(c) < base then Some(Shift(n, base, DigitValue(c)))
        else None
  }

  /** One more digit on the right of a value. */
  function Shift(n: nat, base: nat, d: nat): nat {
    var m: nat := n * base;
    m + d
  }

  /** The radix a base-0 parse reads off the head of the text, and the digits
      that follow the prefix. With an explicit base of 10 there is no prefix. */
  function Radix(s: string, base0: bool): (r: (nat, string))
    requires |s| > 0
    ensures 2 <= r.0 <= 16
    ensures |r.1| <= |s|
    ensures !base0 ==> r == (10, s)
  {
    if !base0 || s[0] != '0' then (10, s)
    else if |s| >= 3 && LowerChar(s[1]) == 'b' then (2, s[2..])
    else if |s| >= 3 && LowerChar(s[1]) == 'o' then (8, s[2..])
    else if |s| >= 3 && LowerChar(s[1]) == 'x' then (16, s[2..])
    else (8, s[1..])
  }

  /** What the last character scanned was, for the underscore rule. */
  datatype Saw = AtStart | SawDigit | SawUnderscore | SawOther

  /** The underscore rule of base-0 parsing: every '_' sits between two digits,
      or between a base prefix and a digit. */
  function UnderscoreOK(s: string): bool {
    var t := if |s| >= 1 && (s[0] == '-' || s[0] == '+') then s[1..] else s;
    if |t| >= 2 && t[0] == '0' && LowerChar(t[1]) in {'b', 'o', 'x'} then
      ScanUnderscores(t[2..], SawDigit, LowerChar(t[1]) == 'x')
    else
      ScanUnderscores(t, AtStart, false)
  }

  function ScanUnderscores(s: string, saw: Saw, hex: bool): bool
    decreases |s|
  {
    if |s| == 0 then saw != SawUnderscore
    else if IsDigit(s[0]) || (hex && 'a' <= LowerChar(s[0]) <= 'f') then
      ScanUnderscores(s[1..], SawDigit, hex)
    else if s[0] == '_' then
      saw == SawDigit && ScanUnderscores(s[1..], SawUnderscore, hex)
    else
      saw != SawUnderscore && ScanUnderscores(s[1..], SawOther, hex)
  }

  /** strconv.ParseUint(s, base, 64), with base 0 when `base0` holds and base
      10 otherwise. */
  function ParseUint(s: string, base0: bool): (r: Option<nat>)
    ensures r.Some? ==> r.value <= MaxUint64
    ensures r.Some? ==> |s| > 0 && s[0] != '+' && s[0] != '-'
    ensures !base0 && r.Some? ==> forall i :: 0 <= i < |s| ==> IsDigit(s[i])
  {
    if |s| == 0 then None
    else
      var (base, digits) := Radix(s, base0);
      match DigitsValue(digits, base, base0)
      case None => None
      case Some(n) =>
        if base0 && '_' in digits && !UnderscoreOK(s) then None
        else if n > MaxUint64 then None
        else
          assert s[0] != '+' && s[0] != '-' by {
            if s[0] != '0' {
              FirstIsDigit(digits, base, base0, n);
            }
          }
          assert !base0 ==> forall i :: 0 <= i < |s| ==> IsDigit(s[i]) by {
            if !base0 {
              DecimalDigitsOnly(s, n);
            }
          }
          Some(n)
  }

  /** A string with a value starts with a digit of its base or an underscore. */
  lemma {:induction false} FirstIsDigit(s: string, base: nat, underscores: bool, n: nat)
    requires 2 <= base <= 36
    requires |s| > 0
    requires DigitsValue(s, base, underscores) == Some(n)
    ensures s[0] == '_' || DigitValue(s[0]) < base
    decreases |s|
  {
    if |s| > 1 {
      var m :| DigitsValue(s[..|s| - 1], base, underscores) == Some(m);
      FirstIsDigit(s[..|s| - 1], base, underscores, m);
    }
  }

  /** A string with a decimal value is made of decimal digits. */
  lemma {:induction false} DecimalDigitsOnly(s: string, n: nat)
    requires DigitsValue(s, 10, false) == Some(n)
    ensures forall i :: 0 <= i < |s| ==> IsDigit(s[i])
    decreases |s|
  {
    if |s| > 0 {
      var m :| DigitsValue(s[..|s| - 1], 10, false) == Some(m);
      DecimalDigitsOnly(s[..|s| - 1], m);
      assert forall i :: 0 <= i < |s| - 1 ==> s[i] == s[..|s| - 1][i];
    }
  }

  /** strconv.ParseInt(s, base, 64): an optional sign, then ParseUint, then the
      signed 64-bit range check. */
  function ParseInt(s: string, base0: bool): (r: Option<int>)
    ensures r.Some? ==> MinInt64 <= r.value <= MaxInt64
  {
    if |s| == 0 then None
    else
      var neg := s[0] == '-';
      var body := if s[0] == '+' || s[0] == '-' then s[1..] else s;
      match ParseUint(body, base0)
      case None => None
      case Some(u) =>
        if neg then (if u <= -MinInt64 then Some(0 - u) else None)
        else if u <= MaxInt64 then Some(u) else None
  }

  // ---------------------------------------------------------------------------
  // The value strconv returns alongside an error

  /** Whether strconv's left-to-right digit loop stops on a range error: the
      value read so far, starting from `n`, grows past MaxUint64 at some digit
      before the loop meets a character that is no digit of the base. */
  function ScanOverflows(s: string, base: nat, underscores: bool, n: nat): bool
    requires 2 <= base <= 36
    decreases |s|
  {
    if |s| == 0 then false
    else if s[0] == '_' && underscores then ScanOverflows(s[1..], base, underscores, n)
    else if DigitValue(s[0]) >= base then false
    else
      var m := Shift(n, base, DigitValue(s[0]));
      m > MaxUint64 || ScanOverflows(s[1..], base, underscores, m)
  }

  /** strconv.ParseUint(s, base, 64) fails with a range error rather than a
      syntax error. The range error is raised inside the digit loop, so it wins
      over a bad character further right and over the underscore rule. */
  predicate UintRangeError(s: string, base0: bool) {
    |s| > 0 && ScanOverflows(Radix(s, base0).1, Radix(s, base0).0, base0, 0)
  }

  /** The number strconv.ParseUint returns whether or not it fails: the value,
      MaxUint64 with a range error, 0 with a syntax error. */
  function ParseUintValue(s: string, base0: bool): (u: nat)
    ensures u <= MaxUint64
    ensures ParseUint(s, base0).Some? ==> u == ParseUint(s, base0).value
    ensures ParseUint(s, base0).None? ==> (u == MaxUint64 <==> UintRangeError(s, base0))
    ensures ParseUint(s, base0).None? ==> (u == 0 <==> !UintRangeError(s, base0))
  {
    match ParseUint(s, base0)
    case Some(n) => n
    case None => if UintRangeError(s, base0) then MaxUint64 else 0
  }

  /** strconv.ParseInt(s, base, 64) fails with a range error: the unsigned
      part has a value outside the signed range on its side of the sign, or
      ParseUint itself reports a range error. */
  predicate IntRangeError(s: string, base0: bool) {
    |s| > 0 &&
    var body := if s[0] == '+' || s[0] == '-' then s[1..] else s;
    match ParseUint(body, base0)
    case Some(u) => if s[0] == '-' then u > -MinInt64 else u > MaxInt64
    case None => UintRangeError(body, base0)
  }

  /** The number strconv.ParseInt returns whether or not it fails: the value,
      the bound on the side of the sign with a range error, 0 with a syntax
      error. */
  function ParseIntValue(s: string, base0: bool): (i: int)
    ensures MinInt64 <= i <= MaxInt64
    ensures ParseInt(s, base0).Some? ==> i == ParseInt(s, base0).value
    ensures ParseInt(s, base0).None? && IntRangeError(s, base0) ==> i == (if s[0] == '-' then MinInt64 else MaxInt64)
    ensures ParseInt(s, base0).None? && !IntRangeError(s, base0) ==> i == 0
  {
    match ParseInt(s, base0)
    case Some(n) => n
    case None =>
      if IntRangeError(s, base0) then (if s[0] == '-' then MinInt64 else MaxInt64) else 0
  }

  /** Reading more digits never lowers the value. */
  lemma {:induction false} DigitsValueGrows(p: string, q: string, base: nat, underscores: bool, m: nat)
    requires 2 <= base <= 36
    requires DigitsValue(p, base, underscores) == Some(m)
    requires DigitsValue(p + q, base, underscores).Some?
    ensures m <= DigitsValue(p + q, base, underscores).value
    decreases |q|
  {
    if |q| == 0 {
      assert p + q == p;
    } else {
      var q' := q[..|q| - 1];
      var pq := p + q;
      assert pq[..|pq| - 1] == p + q';
      var w := DigitsValue(p + q', base, underscores).value;
      DigitsValueGrows(p, q', base, underscores, m);
      ShiftGrows(w, base, DigitValue(pq[|pq| - 1]));
    }
  }

  lemma ShiftGrows(n: nat, base: nat, d: nat)
    requires base >= 1
    ensures n <= Shift(n, base, d)
  {
    assert n * base == n + n * (base - 1);
  }

  /** Once the loop has overflowed, the digits have no 64-bit value. */
  lemma {:induction false} OverflowLeavesNoValue(p: string, s: string, base: nat, underscores: bool, n: nat)
    requires 2 <= base <= 36
    requires DigitsValue(p, base, underscores) == Some(n)
    requires ScanOverflows(s, base, underscores, n)
    ensures DigitsValue(p + s, base, underscores).None? || DigitsValue(p + s, base, underscores).value > MaxUint64
    decreases |s|
  {
    var p' := p + [s[0]];
    assert p + s == p' + s[1..];
    assert p'[..|p'| - 1] == p;
    if s[0] == '_' && underscores {
      OverflowLeavesNoValue(p', s[1..], base, underscores, n);
    } else {
      var m := Shift(n, base, DigitValue(s[0]));
      assert DigitsValue(p', base, underscores) == Some(m);
      if m > MaxUint64 {
        if DigitsValue(p + s, base, underscores).Some? {
          DigitsValueGrows(p', s[1..], base, underscores, m);
        }
      } else {
        OverflowLeavesNoValue(p', s[1..], base, underscores, m);
      }
    }
  }

  /** A range error and a parsed value exclude each other: the text on which
      ParseUint reports a range error is text it cannot read. */
  lemma RangeErrorHasNoValue(s: string, base0: bool)
    requires UintRangeError(s, base0)
    ensures ParseUint(s, base0).None?
  {
    var (base, digits) := Radix(s, base0);
    assert DigitsValue("", base, base0) == Some(0);
    OverflowLeavesNoValue("", digits, base, base0, 0);
    assert "" + digits == digits;
  }

  /** The same for ParseInt. */
  lemma IntRangeErrorHasNoValue(s: string, base0: bool)
    requires IntRangeError(s, base0)
    ensures ParseInt(s, base0).None?
  {
    var body := if s[0] == '+' || s[0] == '-' then s[1..] else s;
    if ParseUint(body, base0).None? {
      RangeErrorHasNoValue(body, base0);
    }
  }

  /** strconv.ParseBool: the six spellings of each truth value. */
  function ParseBool(s: string): (r: Option<bool>)
    ensures r == Some(true) <==> s in {"1", "t", "T", "TRUE", "true", "True"}
    ensures r == Some(false) <==> s in {"0", "f", "F", "FALSE", "false", "False"}
  {
    if s in {"1", "t", "T", "TRUE", "true", "True"} then Some(true)
    else if s in {"0", "f", "F", "FALSE", "false", "False"} then Some(false)
    else None
  }

  // ---------------------------------------------------------------------------
  // Decimal formatting, the inverse of parsing

  function DigitChar(d: nat): (c: char)
    requires d < 10
    ensures IsDigit(c) && DigitValue(c) == d
  {
    ('0' as int + d) as char
  }

  /** The shortest decimal text of a natural number. */
  function FormatDecimal(n: nat): (s: string)
    ensures |s| >= 1
    ensures forall i :: 0 <= i < |s| ==> IsDigit(s[i])
    ensures n > 0 <==> s[0] != '0'
  {
    if n < 10 then [DigitChar(n)]
    else FormatDecimal(n / 10) + [DigitChar(n % 10)]
  }

  function FormatInt(i: int): string {
    if i < 0 then "-" + FormatDecimal(-i) else FormatDecimal(i)
  }

  lemma {:induction false} DigitsValueOfFormat(n: nat, base0: bool)
    ensures DigitsValue(FormatDecimal(n), 10, base0) == Some(n)
    decreases n
  {
    var s := FormatDecimal(n);
    if n >= 10 {
      DigitsValueOfFormat(n / 10, base0);
      assert s[..|s| - 1] == FormatDecimal(n / 10);
    }
  }

  /** Decimal text parses back to its number, with either base setting. */
  lemma ParseUintOfFormat(n: nat, base0: bool)
    requires n <= MaxUint64
    ensures ParseUint(FormatDecimal(n), base0) == Some(n)
  {
    var s := FormatDecimal(n);
    DigitsValueOfFormat(n, base0);
    if base0 && n == 0 {
      assert s == "0";
      assert Radix(s, base0) == (8, "");
    } else {
      assert Radix(s, base0) == (10, s);
      assert '_' !in s;
    }
  }

  /** Unsigned text after a '-' parses to the negated value. */
  lemma ParseIntOfNegative(s: string, t: string, n: nat, base0: bool)
    requires s == "-" + t
    requires ParseUint(t, base0) == Some(n) && n <= -MinInt64
    ensures ParseInt(s, base0) == Some(-(n as int))
  {
    assert s[1..] == t;
  }

  /** Unsigned text without a sign parses as a signed value too. */
  lemma ParseIntOfUnsigned(t: string, n: nat, base0: bool)
    requires ParseUint(t, base0) == Some(n) && n <= MaxInt64
    ensures ParseInt(t, base0) == Some(n)
  {
  }

  /** Signed decimal text parses back to its number, with either base setting. */
  lemma ParseIntOfFormat(i: int, base0: bool)
    requires MinInt64 <= i <= MaxInt64
    ensures ParseInt(FormatInt(i), base0) == Some(i)
  {
    if i < 0 {
      ParseUintOfFormat(-i, base0);
      ParseIntOfNegative(FormatInt(i), FormatDecimal(-i), -i, base0);
    } else {
      ParseUintOfFormat(i, base0);
      ParseIntOfUnsigned(FormatDecimal(i), i, base0);
    }
  }
}
