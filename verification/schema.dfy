/** The schema side of the configuration reader: the kinds of field it knows,
    the values a field can hold, and the descriptors it derives from a struct's
    fields and their `config` and `desc` tags. Reflection over a Go struct is
    replaced by an explicit list of field declarations in declaration order. */
module Schema {
  import opened Outcomes
  import opened Strconv

  /** The kind of a field as the reader dispatches on it. `time.Duration` has
      kind int64 but is told apart by its type, so it is a kind of its own
      here. Any other kind (floats, narrow integers, slices, ...) is carried by
      its Go name. */
  datatype Kind =
    | StringKind
    | BoolKind
    | IntKind
    | Int64Kind
    | Uint64Kind
    | DurationKind
    | Unsupported(goKind: string)

  /** The contents of one field. Int holds both int and int64 fields, which
      are 64 bits wide. Other(g) is the zero value of an unsupported kind g. */
  datatype Value =
    | Str(s: string)
    | Bool(b: bool)
    | Int(i: int)
    | Uint(u: nat)
    | Dur(ns: int)
    | Other(goKind: string)

  /** The zero value a fresh instance holds in a field of kind k. */
  function Zero(k: Kind): (v: Value)
    ensures Fits(v, k)
  {
    match k
    case StringKind => Str("")
    case BoolKind => Bool(false)
    case IntKind => Int(0)
    case Int64Kind => Int(0)
    case Uint64Kind => Uint(0)
    case DurationKind => Dur(0)
    case Unsupported(g) => Other(g)
  }

  /** v is a value a field of kind k can hold. */
  predicate Fits(v: Value, k: Kind) {
    match v
    case Str(_) => k == StringKind
    case Bool(_) => k == BoolKind
    case Int(i) => (k == IntKind || k == Int64Kind) && MinInt64 <= i <= MaxInt64
    case Uint(u) => k == Uint64Kind && u <= MaxUint64
    case Dur(ns) => k == DurationKind && MinInt64 <= ns <= MaxInt64
    case Other(g) => k == Unsupported(g)
  }

  /** A struct field as reflection shows it: its name, its kind, and the
      `config` and `desc` tags when present. */
  datatype FieldDecl = FieldDecl(name: string, kind: Kind, configTag: Option<string>, descTag: Option<string>)

  /** What the reader derives from one field. */
  datatype Descriptor = Descriptor(name: string, kind: Kind, defaultLiteral: string, description: string, secret: bool)

  // ---------------------------------------------------------------------------
  // strings.Split with a one-character separator

  /** The parts joined back together with the separator between them. */
  function Join(parts: seq<string>, sep: char): string
    requires |parts| >= 1
  {
    if |parts| == 1 then parts[0] else parts[0] + ([sep] + Join(parts[1..], sep))
  }

  /** strings.Split(s, sep): the maximal separator-free pieces between the
      separators, always at least one. */
  function Split(s: string, sep: char): (parts: seq<string>)
    ensures |parts| >= 1
    ensures forall i :: 0 <= i < |parts| ==> sep !in parts[i]
    ensures Join(parts, sep) == s
    decreases |s|
  {
    if |s| == 0 then [""]
    else if s[0] == sep then
      var rest := Split(s[1..], sep);
      assert [s[0]] + s[1..] == s;
      [""] + rest
    else
      var rest := Split(s[1..], sep);
      var parts := [[s[0]] + rest[0]] + rest[1..];
      assert parts[1..] == rest[1..];
      assert Join(parts, sep) == [s[0]] + Join(rest, sep);
      assert [s[0]] + s[1..] == s;
      parts
  }

  /** Splitting undoes joining separator-free pieces. */
  lemma {:induction false} SplitOfJoin(parts: seq<string>, sep: char)
    requires |parts| >= 1
    requires forall i :: 0 <= i < |parts| ==> sep !in parts[i]
    ensures Split(Join(parts, sep), sep) == parts
    decreases |parts|, |parts[0]|
  {
    if |parts[0]| > 0 {
      var c := parts[0][0];
      var shorter := ShorterFirst(parts, sep);
      SplitOfJoin(shorter, sep);
      TailOfCons(c, Join(shorter, sep));
    } else if |parts| > 1 {
      SplitOfJoin(parts[1..], sep);
      TailOfCons(sep, Join(parts[1..], sep));
      JoinAfterEmpty(parts, sep);
      assert [""] + parts[1..] == parts;
    }
  }

  /** The parts with the first character of the first part taken off. */
  lemma ShorterFirst(parts: seq<string>, sep: char) returns (shorter: seq<string>)
    requires |parts| >= 1 && |parts[0]| > 0
    requires forall i :: 0 <= i < |parts| ==> sep !in parts[i]
    ensures |shorter| == |parts| && |shorter[0]| < |parts[0]|
    ensures forall i :: 0 <= i < |shorter| ==> sep !in shorter[i]
    ensures Join(parts, sep) == [parts[0][0]] + Join(shorter, sep)
    ensures [[parts[0][0]] + shorter[0]] + shorter[1..] == parts
    ensures parts[0][0] != sep
  {
    var c := parts[0][0];
    shorter := [parts[0][1..]] + parts[1..];
    assert shorter[1..] == parts[1..];
    assert forall i :: 0 <= i < |shorter| ==> sep !in shorter[i] by {
      assert forall i :: 1 <= i < |shorter| ==> shorter[i] == parts[i];
      assert forall x :: x in parts[0][1..] ==> x in parts[0];
    }
    assert parts[0] == [c] + parts[0][1..];
  }

  lemma JoinAfterEmpty(parts: seq<string>, sep: char)
    requires |parts| > 1 && parts[0] == ""
    ensures Join(parts, sep) == [sep] + Join(parts[1..], sep)
  {
  }

  lemma TailOfCons(c: char, t: string)
    ensures ([c] + t)[1..] == t && ([c] + t)[0] == c && |[c] + t| > 0
  {
  }

  // ---------------------------------------------------------------------------
  // The `config` tag

  /** The two facts the reader takes from a `config` tag. */
  datatype ConfigTag = ConfigTag(defaultLiteral: string, secret: bool)

  /** The text of `tag` that follows the first-token `lit` marks the field
      secret: it is ",secret", alone or followed by more comma-separated
      tokens. */
  predicate MarkedSecret(tag: string, lit: string) {
    var n := |lit| + |",secret"|;
    n <= |tag| && tag[|lit|..n] == ",secret" && (n == |tag| || tag[n] == ',')
  }

  /** The head of a comma-separated text: the text before the first comma is
      the only comma-free prefix that is followed by a comma or the end. */
  lemma UniqueHead(x: string, r: string, y: string, q: string)
    requires ',' !in x && ',' !in y
    requires |r| == 0 || r[0] == ','
    requires |q| == 0 || q[0] == ','
    requires x + r == y + q
    ensures x == y
  {
    HeadOf(x, r);
    HeadOf(y, q);
  }

  /** The text before the first comma. */
  function Head(s: string): string {
    if |s| == 0 || s[0] == ',' then "" else [s[0]] + Head(s[1..])
  }

  lemma {:induction false} HeadOf(x: string, r: string)
    requires ',' !in x
    requires |r| == 0 || r[0] == ','
    ensures Head(x + r) == x
    decreases |x|
  {
    if |x| == 0 {
      assert x + r == r;
    } else {
      assert (x + r)[1..] == x[1..] + r;
      assert ',' !in x[1..] by {
        assert forall c :: c in x[1..] ==> c in x;
      }
      HeadOf(x[1..], r);
      assert x == [x[0]] + x[1..];
    }
  }

  /** The comma-split of a text starts with its head, followed by a comma or
      the end of the text. */
  lemma SplitHead(tag: string)
    ensures var parts := Split(tag, ',');
      |parts[0]| <= |tag| && tag[..|parts[0]|] == parts[0] &&
      (|parts| == 1 <==> |parts[0]| == |tag|) &&
      (|parts| > 1 ==> tag[|parts[0]|] == ',' && tag[|parts[0]| + 1..] == Join(parts[1..], ','))
  {
    var parts := Split(tag, ',');
    if |parts| > 1 {
      assert tag == parts[0] + ([','] + Join(parts[1..], ','));
    }
  }

  /** The reader's reading of an optional `config` tag: the default literal is
      the first comma-separated token, and the field is secret when a second
      token exists and is exactly "secret". */
  function ParseConfigTag(tag: Option<string>): (t: ConfigTag)
    ensures tag.None? ==> t == ConfigTag("", false)
    ensures tag.Some? ==>
      var lit := t.defaultLiteral;
      ',' !in lit && |lit| <= |tag.value| && tag.value[..|lit|] == lit &&
      (|lit| == |tag.value| || tag.value[|lit|] == ',')
    ensures tag.Some? ==> (t.secret <==> MarkedSecret(tag.value, t.defaultLiteral))
  {
    match tag
    case None => ConfigTag("", false)
    case Some(text) =>
      var parts := Split(text, ',');
      var secret := |parts| > 1 && parts[1] == "secret";
      SplitHead(text);
      assert secret <==> MarkedSecret(text, parts[0]) by {
        SecretIsSecondToken(text, parts);
      }
      ConfigTag(parts[0], secret)
  }

  lemma SecretIsSecondToken(text: string, parts: seq<string>)
    requires parts == Split(text, ',')
    ensures (|parts| > 1 && parts[1] == "secret") <==> MarkedSecret(text, parts[0])
  {
    SplitHead(text);
    if |parts| > 1 {
      var tail := Join(parts[1..], ',');
      var r := if |parts| == 2 then "" else [','] + Join(parts[2..], ',');
      assert tail == parts[1] + r by {
        assert parts[1..][1..] == parts[2..];
      }
      if MarkedSecret(text, parts[0]) {
        MarkedSecretToken(text, parts[0], tail, parts[1], r);
      }
      if parts[1] == "secret" {
        SecretTokenMarked(text, parts[0], tail, r);
      }
    }
  }

  /** ",secret" after the head makes "secret" the second token. */
  lemma MarkedSecretToken(text: string, head: string, tail: string, second: string, r: string)
    requires |head| < |text| && text[|head|] == ',' && text[|head| + 1..] == tail
    requires tail == second + r && ',' !in second && (|r| == 0 || r[0] == ',')
    requires MarkedSecret(text, head)
    ensures second == "secret"
  {
    var k := |head|;
    var n := k + 7;
    assert tail[..6] == "secret" by {
      assert tail[..6] == text[k + 1..n];
      assert text[k + 1..n] == text[k..n][1..];
    }
    var q := tail[6..];
    assert tail == "secret" + q;
    assert |q| == 0 || q[0] == ',' by {
      if |q| > 0 {
        assert q[0] == text[n];
      }
    }
    UniqueHead(second, r, "secret", q);
  }

  /** "secret" as the second token puts ",secret" after the head. */
  lemma SecretTokenMarked(text: string, head: string, tail: string, r: string)
    requires |head| < |text| && text[|head|] == ',' && text[|head| + 1..] == tail
    requires tail == "secret" + r && (|r| == 0 || r[0] == ',')
    ensures MarkedSecret(text, head)
  {
    var k := |head|;
    assert text[k..k + 7] == [','] + text[k + 1..k + 7];
    assert text[k + 1..k + 7] == tail[..6];
    if k + 7 < |text| {
      assert text[k + 7] == tail[6] == r[0];
    }
  }

  // ---------------------------------------------------------------------------
  // iterateFields

  /** The descriptor of one field: its tag facts, and its `desc` tag as the
      description ("" when absent). */
  function Describe(d: FieldDecl): (r: Descriptor)
    ensures r.name == d.name && r.kind == d.kind
    ensures d.configTag.None? ==> r.defaultLiteral == "" && !r.secret
    ensures r.defaultLiteral == ParseConfigTag(d.configTag).defaultLiteral && r.secret == ParseConfigTag(d.configTag).secret
    ensures r.description == (if d.descTag.Some? then d.descTag.value else "")
  {
    var tag := ParseConfigTag(d.configTag);
    Descriptor(d.name, d.kind, tag.defaultLiteral, if d.descTag.Some? then d.descTag.value else "", tag.secret)
  }

  /** iterateFields: one descriptor per field, in declaration order. */
  function IterateFields(decls: seq<FieldDecl>): (ds: seq<Descriptor>)
    ensures |ds| == |decls|
    ensures forall i :: 0 <= i < |decls| ==> ds[i] == Describe(decls[i])
  {
    if |decls| == 0 then [] else [Describe(decls[0])] + IterateFields(decls[1..])
  }

  /** Descriptors of declarations written one after the other come out one
      after the other. */
  lemma {:induction false} IterateFieldsAppend(a: seq<FieldDecl>, b: seq<FieldDecl>)
    ensures IterateFields(a + b) == IterateFields(a) + IterateFields(b)
    decreases |a|
  {
    if |a| > 0 {
      assert (a + b)[1..] == a[1..] + b;
      IterateFieldsAppend(a[1..], b);
    } else {
      assert a + b == b;
    }
  }

  /** The names of the fields, in order. */
  function Names(ds: seq<Descriptor>): (ns: seq<string>)
    ensures |ns| == |ds|
    ensures forall i :: 0 <= i < |ds| ==> ns[i] == ds[i].name
  {
    if |ds| == 0 then [] else [ds[0].name] + Names(ds[1..])
  }
}
