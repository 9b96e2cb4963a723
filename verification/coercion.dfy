/** Turning text into field values, in the two ways the reader does it: the
    lenient coercion of default literals (defaultValue), and the stricter
    syntax the flag library applies to command-line and environment text
    (flag.Value.Set). */
module Coercion {
  import opened Outcomes
  import opened Ascii
  import opened Strconv
  import opened Durations
  import opened Schema

  /** The reasons the reader aborts with a panic. */
  datatype Panic =
    | MalformedDefault(kind: Kind, literal: string)   // a default literal that does not parse
    | UnsupportedKind(goKind: string)                 // a field of a kind the reader cannot bind
    | FlagRedefined(flag: string)                     // two fields with the same argument name
    | FlagParseFailed                                 // a flag error on a FlagSet that panics on error
    | ZeroValueInterface                              // Interface() on the empty reflect.Value
    | NilInterfaceAssertion                           // config.(*Config) on a nil interface
    | ConfigError                                     // ReadConfig's own panic on a returned error

  /** The default value of one field from its literal. An empty literal leaves
      the zero value. Otherwise a string is the literal itself, a bool is true
      exactly for "true", numbers are read in base 10 and durations by the
      duration syntax; a literal that does not parse, or any literal on an
      unsupported kind, is a panic. */
  function CoerceDefault(kind: Kind, literal: string): (r: Result<Value, Panic>)
    ensures literal == "" ==> r == Ok(Zero(kind))
    ensures r.Ok? ==> Fits(r.value, kind)
    ensures literal != "" && kind.Unsupported? ==> r == Err(UnsupportedKind(kind.goKind))
    ensures r.Err? && !kind.Unsupported? ==> r.error == MalformedDefault(kind, literal)
    ensures literal != "" && kind == StringKind ==> r == Ok(Str(literal))
    ensures literal != "" && kind == BoolKind ==> r == Ok(Bool(literal == "true"))
  {
    if literal == "" then Ok(Zero(kind))
    else
      match kind
      case StringKind => Ok(Str(literal))
      case BoolKind => Ok(Bool(literal == "true"))
      case DurationKind =>
        (match ParseDuration(literal)
         case Some(d) => Ok(Dur(d))
         case None => Err(MalformedDefault(kind, literal)))
      case IntKind => IntDefault(kind, literal)
      case Int64Kind => IntDefault(kind, literal)
      case Uint64Kind =>
        (match ParseUint(literal, false)
         case Some(u) => Ok(Uint(u))
         case None => Err(MalformedDefault(kind, literal)))
      case Unsupported(g) => Err(UnsupportedKind(g))
  }

  function IntDefault(kind: Kind, literal: string): (r: Result<Value, Panic>)
    requires kind == IntKind || kind == Int64Kind
    ensures r.Ok? ==> Fits(r.value, kind)
    ensures r.Err? ==> r.error == MalformedDefault(kind, literal)
  {
    match ParseInt(literal, false)
    case Some(i) => Ok(Int(i))
    case None => Err(MalformedDefault(kind, literal))
  }

  /** The value flag.Value.Set makes of a text, None when it refuses it.
      Numbers take the base-prefixed syntax, bools the six spellings of each
      truth value; a string flag takes any text. */
  function FlagValue(kind: Kind, text: string): (r: Option<Value>)
    ensures r.Some? ==> Fits(r.value, kind)
    ensures kind == StringKind ==> r == Some(Str(text))
    ensures kind.Unsupported? ==> r.None?
  {
    match kind
    case StringKind => Some(Str(text))
    case BoolKind =>
      (match ParseBool(text)
       case Some(b) => Some(Bool(b))
       case None => None)
    case IntKind => IntFlagValue(text)
    case Int64Kind => IntFlagValue(text)
    case Uint64Kind =>
      (match ParseUint(text, true)
       case Some(u) => Some(Uint(u))
       case None => None)
    case DurationKind =>
      (match ParseDuration(text)
       case Some(d) => Some(Dur(d))
       case None => None)
    case Unsupported(_) => None
  }

  function IntFlagValue(text: string): (r: Option<Value>)
    ensures r.Some? ==> r.value.Int? && MinInt64 <= r.value.i <= MaxInt64
  {
    match ParseInt(text, true)
    case Some(i) => Some(Int(i))
    case None => None
  }

  /** What a field holds after Set(text) whose error is discarded. Each Set
      of the flag library stores what its parser returned even when the parser
      fails: false for a bool, 0 for a duration, and for the integers 0 on a
      syntax error or the bound on the side of the sign on a range error. */
  function AfterSet(kind: Kind, text: string): (v: Value)
    requires !kind.Unsupported?
    ensures Fits(v, kind)
    ensures FlagValue(kind, text).Some? ==> v == FlagValue(kind, text).value
    ensures FlagValue(kind, text).None? && (kind == BoolKind || kind == DurationKind) ==> v == Zero(kind)
    ensures FlagValue(kind, text).None? && kind == Uint64Kind ==>
      v == (if UintRangeError(text, true) then Uint(MaxUint64) else Uint(0))
    ensures FlagValue(kind, text).None? && (kind == IntKind || kind == Int64Kind) ==>
      v == (if IntRangeError(text, true) then Int(if text[0] == '-' then MinInt64 else MaxInt64) else Int(0))
  {
    match kind
    case StringKind => Str(text)
    case BoolKind => Bool(ParseBool(text) == Some(true))
    case IntKind => Int(ParseIntValue(text, true))
    case Int64Kind => Int(ParseIntValue(text, true))
    case Uint64Kind => Uint(ParseUintValue(text, true))
    case DurationKind =>
      (match ParseDuration(text)
       case Some(d) => Dur(d)
       case None => Dur(0))
  }

  /** A failed Set of a number leaves 0 or one of the 64-bit bounds, never
      anything else. */
  lemma FailedSetLeavesZeroOrBound(kind: Kind, text: string)
    requires kind == IntKind || kind == Int64Kind || kind == Uint64Kind
    requires FlagValue(kind, text).None?
    ensures AfterSet(kind, text) in {Int(0), Int(MinInt64), Int(MaxInt64), Uint(0), Uint(MaxUint64)}
  {
  }

  /** A bad character leaves 0 in a uint64 flag, and an unknown spelling
      leaves false in a bool flag. */
  lemma FailedSetExamples()
    ensures AfterSet(Uint64Kind, "12z") == Uint(0)
    ensures AfterSet(BoolKind, "yes") == Bool(false)
  {
    assert !UintRangeError("12z", true);
  }

  // ---------------------------------------------------------------------------
  // Partners: formatted values read back

  /** A number written in decimal is its own default literal. */
  lemma IntDefaultOfFormat(kind: Kind, i: int)
    requires kind == IntKind || kind == Int64Kind
    requires MinInt64 <= i <= MaxInt64
    ensures CoerceDefault(kind, FormatInt(i)) == Ok(Int(i))
  {
    ParseIntOfFormat(i, false);
    assert FormatInt(i) != "";
  }

  lemma UintDefaultOfFormat(n: nat)
    requires n <= MaxUint64
    ensures CoerceDefault(Uint64Kind, FormatDecimal(n)) == Ok(Uint(n))
  {
    ParseUintOfFormat(n, false);
  }

  /** A decimal number of units is a duration default. */
  lemma DurationDefaultOfSegment(n: nat, unit: string, f: nat)
    requires UnitFactor(unit) == Some(f) && n * f <= MaxInt64
    ensures CoerceDefault(DurationKind, FormatDecimal(n) + unit) == Ok(Dur(n * f))
  {
    ParseDurationOfSegment(n, unit, f);
  }

  /** The flag syntax accepts every decimal number the default syntax does,
      with the same value. */
  lemma FlagValueOfFormat(kind: Kind, i: int)
    requires kind == IntKind || kind == Int64Kind
    requires MinInt64 <= i <= MaxInt64
    ensures FlagValue(kind, FormatInt(i)) == Some(Int(i))
  {
    ParseIntOfFormat(i, true);
  }

  /** An unsigned default literal is all decimal digits. */
  lemma UintDefaultsAreDecimal(literal: string)
    requires CoerceDefault(Uint64Kind, literal).Ok? && literal != ""
    ensures forall i :: 0 <= i < |literal| ==> '0' <= literal[i] <= '9'
  {
  }

  /** Base prefixes are flag syntax only: "0x10" is sixteen on the command
      line and a panic as a default. */
  lemma HexIsFlagSyntaxOnly()
    ensures FlagValue(IntKind, "0x10") == Some(Int(16))
    ensures CoerceDefault(IntKind, "0x10") == Err(MalformedDefault(IntKind, "0x10"))
  {
    var s := "0x10";
    assert Radix(s, true) == (16, "10");
    assert DigitsValue("10", 16, true) == Some(16) by {
      assert "10"[..1] == "1";
      assert DigitsValue("1", 16, true) == Some(1) by {
        assert "1"[..0] == "";
      }
    }
    assert ParseUint(s, true) == Some(16);
    assert ParseInt(s, true) == Some(16);
    assert !IsDigit(s[1]);
    assert ParseUint(s, false).None?;
  }

  /** Default literals and flag text read bools differently: "True" and "1"
      are true on the command line but false as defaults, and "yes" is a
      false default but refused by the flag. */
  lemma BoolSyntaxesDiffer()
    ensures CoerceDefault(BoolKind, "True") == Ok(Bool(false))
    ensures FlagValue(BoolKind, "True") == Some(Bool(true))
    ensures CoerceDefault(BoolKind, "1") == Ok(Bool(false))
    ensures FlagValue(BoolKind, "1") == Some(Bool(true))
    ensures CoerceDefault(BoolKind, "yes") == Ok(Bool(false))
    ensures FlagValue(BoolKind, "yes").None?
  {
  }

  /** A bool default is true exactly for the literal "true". */
  lemma BoolDefaultTrueIff(literal: string)
    ensures CoerceDefault(BoolKind, literal) == Ok(Bool(true)) <==> literal == "true"
  {
  }
}
