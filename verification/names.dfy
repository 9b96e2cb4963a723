/** Naming deriver of the configuration reader (config/config_reader.go).

    A field identifier becomes a command-line flag name by two regular-expression
    rewrites followed by lower-casing (toArgName), and a flag name becomes an
    environment-variable name by upper-casing and turning '-' into '_' (envName).
    The rewrites use leftmost, non-overlapping, greedy matching; they are written
    here as scanners that reproduce exactly that matching. */
module Names {
  import opened Ascii

  // ---------------------------------------------------------------------------
  // Pass 1: "(.)([A-Z][a-z]+)" replaced by "${1}-${2}"

  /** A match of the first pattern starts at the head of `s`. The `.` of the
      pattern matches every character except a newline. */
  predicate FirstCapAt(s: string) {
    |s| >= 3 && s[0] != '\n' && IsUpper(s[1]) && IsLower(s[2])
  }

  /** Length of the longest prefix of lower-case letters (the greedy `[a-z]+`). */
  function LowerRun(s: string): (n: nat)
    ensures n <= |s|
    ensures forall i :: 0 <= i < n ==> IsLower(s[i])
    ensures n < |s| ==> !IsLower(s[n])
  {
    if |s| > 0 && IsLower(s[0]) then 1 + LowerRun(s[1..]) else 0
  }

  /** The first rewrite: each match `c U l..l` becomes `c - U l..l`; scanning
      resumes after the match. */
  function FirstCapPass(s: string): (r: string)
    ensures |r| >= |s|
    decreases |s|
  {
    if |s| < 3 then s
    else if FirstCapAt(s) then
      var n := 2 + LowerRun(s[2..]);
      [s[0], '-'] + s[1..n] + FirstCapPass(s[n..])
    else [s[0]] + FirstCapPass(s[1..])
  }

  // ---------------------------------------------------------------------------
  // Pass 2: "([a-z0-9])([A-Z]+)" replaced by "${1}-${2}"

  predicate AllCapAt(s: string) {
    |s| >= 2 && (IsLower(s[0]) || IsDigit(s[0])) && IsUpper(s[1])
  }

  /** Length of the longest prefix of upper-case letters (the greedy `[A-Z]+`). */
  function UpperRun(s: string): (n: nat)
    ensures n <= |s|
    ensures forall i :: 0 <= i < n ==> IsUpper(s[i])
    ensures n < |s| ==> !IsUpper(s[n])
  {
    if |s| > 0 && IsUpper(s[0]) then 1 + UpperRun(s[1..]) else 0
  }

  function AllCapPass(s: string): (r: string)
    ensures |r| >= |s|
    decreases |s|
  {
    if |s| < 2 then s
    else if AllCapAt(s) then
      var n := 1 + UpperRun(s[1..]);
      [s[0], '-'] + s[1..n] + AllCapPass(s[n..])
    else [s[0]] + AllCapPass(s[1..])
  }

  /** toArgName: the command-line flag name of a field. */
  function ToArgName(fieldName: string): (r: string)
    ensures |r| >= |fieldName|
    ensures forall i :: 0 <= i < |r| ==> !IsUpper(r[i])
  {
    ToLower(AllCapPass(FirstCapPass(fieldName)))
  }

  // ---------------------------------------------------------------------------
  // Environment names

  function EnvChar(c: char): char {
    if c == '-' then '_' else UpperChar(c)
  }

  /** envName: upper-case the flag name and replace every '-' by '_'. */
  function EnvName(flagName: string): (r: string)
    ensures |r| == |flagName|
    ensures '-' !in r
    ensures forall i :: 0 <= i < |r| ==> !IsLower(r[i])
    ensures forall i :: 0 <= i < |r| ==> (flagName[i] == '-' ==> r[i] == '_')
    ensures forall i :: 0 <= i < |r| ==> r[i] == EnvChar(flagName[i])
  {
    if |flagName| == 0 then []
    else [EnvChar(flagName[0])] + EnvName(flagName[1..])
  }

  /** envNameWithPrefix: the reader's prefix in front of the environment name. */
  function EnvNameWithPrefix(prefix: string, flagName: string): (r: string)
    ensures |r| == |prefix| + |flagName|
    ensures r[..|prefix|] == prefix && r[|prefix|..] == EnvName(flagName)
    ensures prefix == "" ==> r == EnvName(flagName)
  {
    prefix + EnvName(flagName)
  }

  // ---------------------------------------------------------------------------
  // toArgName only inserts dashes

  function RemoveDashes(s: string): (r: string)
    ensures '-' !in r
    ensures |r| <= |s|
  {
    if |s| == 0 then []
    else if s[0] == '-' then RemoveDashes(s[1..])
    else [s[0]] + RemoveDashes(s[1..])
  }

  lemma {:induction false} RemoveDashesAppend(a: string, b: string)
    ensures RemoveDashes(a + b) == RemoveDashes(a) + RemoveDashes(b)
    decreases |a|
  {
    if |a| > 0 {
      assert (a + b)[1..] == a[1..] + b;
      RemoveDashesAppend(a[1..], b);
    } else {
      assert a + b == b;
    }
  }

  lemma {:induction false} RemoveDashesOfDashFree(s: string)
    requires '-' !in s
    ensures RemoveDashes(s) == s
    decreases |s|
  {
    if |s| > 0 {
      RemoveDashesOfDashFree(s[1..]);
    }
  }

  /** Splitting a string into a head of `n` characters and the rest. */
  lemma Split3(s: string, n: nat)
    requires 1 <= n <= |s|
    ensures s == [s[0]] + s[1..n] + s[n..]
  {
  }

  lemma {:induction false} FirstCapPassOnlyInsertsDashes(s: string)
    ensures RemoveDashes(FirstCapPass(s)) == RemoveDashes(s)
    decreases |s|
  {
    if |s| < 3 {
    } else if FirstCapAt(s) {
      var n := 2 + LowerRun(s[2..]);
      FirstCapPassOnlyInsertsDashes(s[n..]);
      RemoveDashesAppend([s[0], '-'] + s[1..n], FirstCapPass(s[n..]));
      RemoveDashesAppend([s[0], '-'], s[1..n]);
      RemoveDashesAppend([s[0]] + s[1..n], s[n..]);
      RemoveDashesAppend([s[0]], s[1..n]);
      Split3(s, n);
    } else {
      FirstCapPassOnlyInsertsDashes(s[1..]);
      RemoveDashesAppend([s[0]], FirstCapPass(s[1..]));
      RemoveDashesAppend([s[0]], s[1..]);
      assert s == [s[0]] + s[1..];
    }
  }

  lemma {:induction false} AllCapPassOnlyInsertsDashes(s: string)
    ensures RemoveDashes(AllCapPass(s)) == RemoveDashes(s)
    decreases |s|
  {
    if |s| < 2 {
    } else if AllCapAt(s) {
      var n := 1 + UpperRun(s[1..]);
      AllCapPassOnlyInsertsDashes(s[n..]);
      RemoveDashesAppend([s[0], '-'] + s[1..n], AllCapPass(s[n..]));
      RemoveDashesAppend([s[0], '-'], s[1..n]);
      RemoveDashesAppend([s[0]] + s[1..n], s[n..]);
      RemoveDashesAppend([s[0]], s[1..n]);
      Split3(s, n);
    } else {
      AllCapPassOnlyInsertsDashes(s[1..]);
      RemoveDashesAppend([s[0]], AllCapPass(s[1..]));
      RemoveDashesAppend([s[0]], s[1..]);
      assert s == [s[0]] + s[1..];
    }
  }

  lemma {:induction false} RemoveDashesToLower(s: string)
    ensures RemoveDashes(ToLower(s)) == ToLower(RemoveDashes(s))
    decreases |s|
  {
    if |s| > 0 {
      RemoveDashesToLower(s[1..]);
      assert ToLower(s)[1..] == ToLower(s[1..]);
    }
  }

  /** Deleting every '-' from a flag name gives the lower-cased identifier
      without its own dashes: toArgName inserts dashes and lower-cases, and
      does nothing else. */
  lemma ArgNameOnlyInsertsDashes(fieldName: string)
    ensures RemoveDashes(ToArgName(fieldName)) == ToLower(RemoveDashes(fieldName))
    ensures '-' !in fieldName ==> RemoveDashes(ToArgName(fieldName)) == ToLower(fieldName)
  {
    FirstCapPassOnlyInsertsDashes(fieldName);
    AllCapPassOnlyInsertsDashes(FirstCapPass(fieldName));
    RemoveDashesToLower(AllCapPass(FirstCapPass(fieldName)));
    if '-' !in fieldName {
      RemoveDashesOfDashFree(fieldName);
    }
  }

  // ---------------------------------------------------------------------------
  // Idempotence: a flag name is its own flag name

  lemma {:induction false} FirstCapPassWithoutUpper(s: string)
    requires forall i :: 0 <= i < |s| ==> !IsUpper(s[i])
    ensures FirstCapPass(s) == s
    decreases |s|
  {
    if |s| >= 3 {
      FirstCapPassWithoutUpper(s[1..]);
    }
  }

  lemma {:induction false} AllCapPassWithoutUpper(s: string)
    requires forall i :: 0 <= i < |s| ==> !IsUpper(s[i])
    ensures AllCapPass(s) == s
    decreases |s|
  {
    if |s| >= 2 {
      AllCapPassWithoutUpper(s[1..]);
    }
  }

  /** toArgName leaves a name without upper-case letters unchanged; in
      particular it is idempotent. */
  lemma ArgNameIdempotent(name: string)
    ensures (forall i :: 0 <= i < |name| ==> !IsUpper(name[i])) ==> ToArgName(name) == name
    ensures ToArgName(ToArgName(name)) == ToArgName(name)
  {
    forall s: string | forall i :: 0 <= i < |s| ==> !IsUpper(s[i])
      ensures ToArgName(s) == s
    {
      FirstCapPassWithoutUpper(s);
      AllCapPassWithoutUpper(s);
      ToLowerOfLower(s);
    }
  }

  // ---------------------------------------------------------------------------
  // Environment names: idempotence and the way back to the flag name

  lemma {:induction false} EnvNameIdempotent(flagName: string)
    ensures EnvName(EnvName(flagName)) == EnvName(flagName)
    decreases |flagName|
  {
    if |flagName| > 0 {
      EnvNameIdempotent(flagName[1..]);
    }
  }

  /** The flag name an environment name was derived from, for flag names
      made of lower-case letters, digits and dashes. */
  function FlagNameOf(envName: string): (r: string)
    ensures |r| == |envName|
  {
    if |envName| == 0 then []
    else [if envName[0] == '_' then '-' else LowerChar(envName[0])] + FlagNameOf(envName[1..])
  }

  /** Every character toArgName can produce apart from '_' and upper case. */
  predicate PlainFlagName(flagName: string) {
    forall i :: 0 <= i < |flagName| ==> flagName[i] != '_' && !IsUpper(flagName[i])
  }

  /** envName loses nothing on flag names without '_': the flag name comes
      back from the environment name, so distinct such flags read distinct
      environment variables. */
  lemma {:induction false} EnvNameRoundTrip(flagName: string)
    requires PlainFlagName(flagName)
    ensures FlagNameOf(EnvName(flagName)) == flagName
    decreases |flagName|
  {
    if |flagName| > 0 {
      EnvNameRoundTrip(flagName[1..]);
      assert EnvName(flagName)[1..] == EnvName(flagName[1..]);
    }
  }

  lemma EnvNameInjective(a: string, b: string)
    requires PlainFlagName(a) && PlainFlagName(b)
    requires EnvName(a) == EnvName(b)
    ensures a == b
  {
    EnvNameRoundTrip(a);
    EnvNameRoundTrip(b);
  }

  // ---------------------------------------------------------------------------
  // toArgName on capitalised words: kebab case

  /** A capitalised word: one upper-case letter followed by lower-case letters. */
  predicate IsWord(w: string) {
    |w| >= 2 && IsUpper(w[0]) && forall j :: 1 <= j < |w| ==> IsLower(w[j])
  }

  predicate AllWords(ws: seq<string>) {
    forall k :: 0 <= k < |ws| ==> IsWord(ws[k])
  }

  /** An acronym: a non-empty run of upper-case letters. */
  predicate IsAcronym(a: string) {
    |a| >= 1 && forall j :: 0 <= j < |a| ==> IsUpper(a[j])
  }

  function Concat(ws: seq<string>): string {
    if |ws| == 0 then "" else ws[0] + Concat(ws[1..])
  }

  /** The lower-cased words joined by '-'. */
  function Kebab(ws: seq<string>): string {
    if |ws| == 0 then ""
    else if |ws| == 1 then ToLower(ws[0])
    else ToLower(ws[0]) + "-" + Kebab(ws[1..])
  }

  /** Every word preceded by a dash. */
  function Dashed(ws: seq<string>): string {
    if |ws| == 0 then "" else "-" + (ws[0] + Dashed(ws[1..]))
  }

  /** The words with a dash in front of every other one, starting with the
      first when `dash` holds: the shape the first pass leaves behind. */
  function Alternating(ws: seq<string>, dash: bool): string {
    if |ws| == 0 then ""
    else (if dash then "-" else "") + ws[0] + Alternating(ws[1..], !dash)
  }

  lemma ConcatHead(ws: seq<string>)
    requires |ws| >= 1 && AllWords(ws)
    ensures |Concat(ws)| >= 2 && IsUpper(Concat(ws)[0]) && IsLower(Concat(ws)[1])
  {
    assert IsWord(ws[0]);
  }

  /** A character in front of two strings, regrouped. */
  lemma ConsAssociates(c: char, x: string, t: string, y: string)
    requires y == [c] + x
    ensures [c] + (x + t) == y + t
  {
  }

  lemma FirstCapSkip(s: string)
    requires |s| >= 1 && !FirstCapAt(s)
    ensures FirstCapPass(s) == [s[0]] + FirstCapPass(s[1..])
  {
  }

  /** The first pass copies a prefix in which no upper-case letter follows
      the first character, up to its last character. */
  lemma {:induction false} FirstCapSkipPrefix(x: string, rest: string)
    requires |x| >= 1
    requires forall k :: 1 <= k < |x| ==> !IsUpper(x[k])
    ensures FirstCapPass(x + rest) == x[..|x| - 1] + FirstCapPass([x[|x| - 1]] + rest)
    decreases |x|
  {
    if |x| > 1 {
      var s := x + rest;
      assert !IsUpper(s[1]);
      FirstCapSkip(s);
      assert s[1..] == x[1..] + rest;
      FirstCapSkipPrefix(x[1..], rest);
      assert x[1..][..|x[1..]| - 1] == x[1..|x| - 1];
      var t := FirstCapPass([x[|x| - 1]] + rest);
      assert FirstCapPass(s) == [x[0]] + (x[1..|x| - 1] + t);
      ConsAssociates(x[0], x[1..|x| - 1], t, x[..|x| - 1]);
    } else {
      assert x == [x[0]];
    }
  }

  /** The first pass copies an acronym followed by an upper-case letter up to
      the acronym's last letter. */
  lemma {:induction false} FirstCapSkipAcronym(a: string, rest: string)
    requires IsAcronym(a)
    requires |rest| >= 1 && IsUpper(rest[0])
    ensures FirstCapPass(a + rest) == a[..|a| - 1] + FirstCapPass([a[|a| - 1]] + rest)
    decreases |a|
  {
    if |a| > 1 {
      var s := a + rest;
      assert !IsLower(s[2]);
      FirstCapSkip(s);
      assert s[1..] == a[1..] + rest;
      FirstCapSkipAcronym(a[1..], rest);
      assert a[1..][..|a[1..]| - 1] == a[1..|a| - 1];
      var t := FirstCapPass([a[|a| - 1]] + rest);
      assert FirstCapPass(s) == [a[0]] + (a[1..|a| - 1] + t);
      ConsAssociates(a[0], a[1..|a| - 1], t, a[..|a| - 1]);
    } else {
      assert a == [a[0]];
    }
  }

  lemma FirstCapMatch(s: string)
    requires FirstCapAt(s)
    ensures var n := 2 + LowerRun(s[2..]);
      FirstCapPass(s) == [s[0], '-'] + s[1..n] + FirstCapPass(s[n..])
  {
  }

  /** A letter followed by a word that ends the input or is followed by an
      upper-case letter is one whole match of the first pattern. */
  lemma FirstCapMatchWord(c: char, w: string, rest: string)
    requires c != '\n' && IsWord(w)
    requires |rest| == 0 || IsUpper(rest[0])
    ensures FirstCapPass([c] + w + rest) == [c, '-'] + w + FirstCapPass(rest)
  {
    var s := [c] + w + rest;
    PiecesOfWordAfter(c, w, rest);
    FirstCapMatch(s);
    LowerRunExact(w[1..], rest);
  }

  /** Where the pieces of `c w rest` sit, for a word w. */
  lemma PiecesOfWordAfter(c: char, w: string, rest: string)
    requires |w| >= 2
    ensures var s := [c] + w + rest;
      s[0] == c && s[1] == w[0] && s[2] == w[1] && s[2..] == w[1..] + rest &&
      s[1..|w| + 1] == w && s[|w| + 1..] == rest
  {
  }

  lemma {:induction false} LowerRunExact(t: string, rest: string)
    requires forall j :: 0 <= j < |t| ==> IsLower(t[j])
    requires |rest| == 0 || IsUpper(rest[0])
    ensures LowerRun(t + rest) == |t|
    decreases |t|
  {
    if |t| > 0 {
      assert (t + rest)[1..] == t[1..] + rest;
      LowerRunExact(t[1..], rest);
    } else {
      assert t + rest == rest;
    }
  }

  lemma FirstCapOnWord(w: string)
    requires IsWord(w)
    ensures FirstCapPass(w) == w
  {
    FirstCapSkipPrefix(w, "");
    assert w + "" == w;
    assert w == w[..|w| - 1] + [w[|w| - 1]];
  }

  lemma ConcatTwo(ws: seq<string>)
    requires |ws| >= 2
    ensures Concat(ws) == ws[0] + (ws[1] + Concat(ws[2..]))
  {
    assert Concat(ws[1..]) == ws[1] + Concat(ws[1..][1..]);
    assert ws[1..][1..] == ws[2..];
  }

  /** One step of the first pass over two leading words, given what it does
      on the words after them. */
  lemma FirstCapTwoWords(w0: string, w1: string, rest: string, tailOut: string)
    requires IsWord(w0) && IsWord(w1)
    requires |rest| == 0 || IsUpper(rest[0])
    requires FirstCapPass(rest) == tailOut
    ensures FirstCapPass(w0 + (w1 + rest)) == w0 + ("-" + (w1 + tailOut))
  {
    var c := w0[|w0| - 1];
    var x := w1 + rest;
    var y := [c] + x;
    FirstCapSkipPrefix(w0, x);
    MatchStep(c, w1, rest);
    SplitLast(w0, w1 + tailOut);
  }

  lemma MatchStep(c: char, w1: string, rest: string)
    requires c != '\n' && IsWord(w1)
    requires |rest| == 0 || IsUpper(rest[0])
    ensures FirstCapPass([c] + (w1 + rest)) == [c, '-'] + (w1 + FirstCapPass(rest))
  {
    var out := FirstCapPass(rest);
    Regroup(c, w1, rest);
    FirstCapMatchWord(c, w1, rest);
    RegroupDash(c, w1, out);
  }

  lemma Regroup(c: char, w: string, t: string)
    ensures [c] + (w + t) == [c] + w + t
  {
  }

  lemma RegroupDash(c: char, w: string, t: string)
    ensures [c, '-'] + w + t == [c, '-'] + (w + t)
  {
  }

  lemma SplitLast(w: string, t: string)
    requires |w| >= 1
    ensures w[..|w| - 1] + ([w[|w| - 1], '-'] + t) == w + ("-" + t)
  {
    assert w == w[..|w| - 1] + [w[|w| - 1]];
  }

  /** The first pass on capitalised words puts a dash before every second word. */
  lemma {:induction false} FirstCapOnWords(ws: seq<string>)
    requires |ws| >= 1 && AllWords(ws)
    ensures FirstCapPass(Concat(ws)) == ws[0] + Alternating(ws[1..], true)
    decreases |ws|
  {
    var w0 := ws[0];
    assert IsWord(w0);
    if |ws| == 1 {
      FirstCapOnWord(w0);
      assert ws[1..] == [];
      assert Concat(ws) == w0 + Concat([]) == w0;
      assert Alternating(ws[1..], true) == "";
    } else {
      var w1 := ws[1];
      assert IsWord(w1);
      var rest := Concat(ws[2..]);
      ConcatTwo(ws);
      var tailOut := Alternating(ws[2..], false);
      if |ws| > 2 {
        FirstCapOnWords(ws[2..]);
        assert ws[2..][1..] == ws[3..];
        ConcatHead(ws[2..]);
      }
      FirstCapTwoWords(w0, w1, rest, tailOut);
      assert ws[1..][1..] == ws[2..];
      assert Alternating(ws[1..], true) == "-" + (w1 + tailOut);
    }
  }

  lemma AllCapSkip(s: string)
    requires |s| >= 1 && !AllCapAt(s)
    ensures AllCapPass(s) == [s[0]] + AllCapPass(s[1..])
  {
  }

  lemma AlternatingUnfold(ws: seq<string>, dash: bool)
    requires |ws| >= 1
    ensures dash ==> Alternating(ws, dash) == "-" + (ws[0] + Alternating(ws[1..], !dash))
    ensures !dash ==> Alternating(ws, dash) == ws[0] + Alternating(ws[1..], !dash)
  {
  }

  /** Inside a lower-case run the second pass copies characters one by one. */
  lemma AllCapSkipLower(t: string, rest: string)
    requires |t| >= 2 && IsLower(t[1])
    ensures AllCapPass(t + rest) == [t[0]] + AllCapPass(t[1..] + rest)
  {
    AllCapSkip(t + rest);
    assert (t + rest)[1..] == t[1..] + rest;
  }

  /** A lower-case letter, a dash and a word: nothing to rewrite up to the
      word's first letter. */
  lemma AllCapDashStep(c: char, w: string, more: string)
    requires IsLower(c) && IsWord(w)
    ensures AllCapPass([c] + ("-" + (w + more))) == [c, '-', w[0]] + AllCapPass(w[1..] + more)
  {
    var tail := AllCapPass(w[1..] + more);
    var s2 := w + more;
    var s1 := "-" + s2;
    HeadsOfAppend(w, more);
    HeadsOfCons('-', s2);
    HeadsOfCons(c, s1);
    AllCapSkipOnto(s2, w[1..] + more);
    AllCapSkipOnto(s1, s2);
    AllCapSkipOnto([c] + s1, s1);
    ThreeInFront(c, '-', w[0], tail);
  }

  lemma HeadsOfAppend(w: string, t: string)
    requires |w| >= 2
    ensures (w + t)[0] == w[0] && (w + t)[1] == w[1] && (w + t)[1..] == w[1..] + t
  {
  }

  lemma HeadsOfCons(c: char, t: string)
    ensures ([c] + t)[0] == c && ([c] + t)[1..] == t
    ensures |t| > 0 ==> ([c] + t)[1] == t[0]
  {
  }

  lemma ThreeInFront(a: char, b: char, c: char, t: string)
    ensures [a] + ([b] + ([c] + t)) == [a, b, c] + t
  {
  }

  /** The second pass copies a head at which it has no match. */
  lemma AllCapSkipOnto(s: string, t: string)
    requires |s| >= 1 && !AllCapAt(s) && s[1..] == t
    ensures AllCapPass(s) == [s[0]] + AllCapPass(t)
  {
    AllCapSkip(s);
  }

  /** A lower-case letter directly followed by a word: one match of the second
      pattern, covering the word's capital. */
  lemma AllCapGlueStep(c: char, w: string, more: string)
    requires IsLower(c) && IsWord(w)
    ensures AllCapPass([c] + (w + more)) == [c, '-', w[0]] + AllCapPass(w[1..] + more)
  {
    var s := [c] + (w + more);
    PiecesOfGlued(c, w, more);
    assert AllCapAt(s);
    assert UpperRun(s[1..]) == 1;
  }

  lemma PiecesOfGlued(c: char, w: string, more: string)
    requires |w| >= 2
    ensures var s := [c] + (w + more);
      s[0] == c && s[1] == w[0] && s[2] == w[1] && s[1..2] == [w[0]] && s[2..] == w[1..] + more &&
      s[1..][0] == w[0] && s[1..][1] == w[1]
  {
  }

  lemma JoinWordHead(c: char, w: string, t: string)
    requires |w| >= 1
    ensures [c, '-', w[0]] + (w[1..] + t) == [c] + ("-" + (w + t))
  {
    assert w == [w[0]] + w[1..];
  }

  /** One word of the second pass, given what it does after the word's capital. */
  lemma AllCapOneWord(c: char, ws: seq<string>, dash: bool)
    requires IsLower(c) && |ws| >= 1 && IsWord(ws[0])
    requires AllCapPass(ws[0][1..] + Alternating(ws[1..], !dash)) == ws[0][1..] + Dashed(ws[1..])
    ensures AllCapPass([c] + Alternating(ws, dash)) == [c] + Dashed(ws)
  {
    var w0 := ws[0];
    var more := Alternating(ws[1..], !dash);
    AlternatingUnfold(ws, dash);
    if dash {
      AllCapDashStep(c, w0, more);
    } else {
      AllCapGlueStep(c, w0, more);
    }
    JoinWordHead(c, w0, Dashed(ws[1..]));
  }

  /** The second pass restores the missing dashes: after a lower-case tail,
      words in alternating form come out each preceded by a dash. */
  lemma {:induction false} AllCapOnAlternating(t: string, ws: seq<string>, dash: bool)
    requires |t| >= 1 && forall j :: 0 <= j < |t| ==> IsLower(t[j])
    requires AllWords(ws)
    ensures AllCapPass(t + Alternating(ws, dash)) == t + Dashed(ws)
    decreases |ws|, |t|
  {
    if |t| >= 2 {
      AllCapSkipLower(t, Alternating(ws, dash));
      AllCapOnAlternating(t[1..], ws, dash);
      assert t == [t[0]] + t[1..];
    } else if |ws| == 0 {
      assert t + Alternating(ws, dash) == t;
    } else {
      assert IsWord(ws[0]);
      AllCapOnAlternating(ws[0][1..], ws[1..], !dash);
      AllCapOneWord(t[0], ws, dash);
      assert t == [t[0]];
    }
  }

  lemma {:induction false} AllCapSkipAcronym(a: string, rest: string)
    requires forall j :: 0 <= j < |a| ==> IsUpper(a[j])
    ensures AllCapPass(a + rest) == a + AllCapPass(rest)
    decreases |a|
  {
    if |a| > 0 {
      AllCapSkip(a + rest);
      assert (a + rest)[1..] == a[1..] + rest;
      AllCapSkipAcronym(a[1..], rest);
      ConsAssociates(a[0], a[1..], AllCapPass(rest), a);
    } else {
      assert a + rest == rest;
    }
  }

  lemma {:induction false} KebabIsLowerDashed(ws: seq<string>)
    requires |ws| >= 1
    ensures ToLower(ws[0] + Dashed(ws[1..])) == Kebab(ws)
    decreases |ws|
  {
    if |ws| == 1 {
      assert ws[0] + Dashed(ws[1..]) == ws[0];
    } else {
      KebabIsLowerDashed(ws[1..]);
      assert ws[1..][1..] == ws[2..];
      assert ws[0] + Dashed(ws[1..]) == ws[0] + "-" + (ws[1] + Dashed(ws[2..]));
      ToLowerAppend(ws[0] + "-", ws[1] + Dashed(ws[2..]));
      ToLowerAppend(ws[0], "-");
    }
  }

  /** An upper-case letter never starts a match of the second pattern. */
  lemma AllCapSkipCapital(w: string, rest: string)
    requires |w| >= 1 && IsUpper(w[0])
    ensures AllCapPass(w + rest) == [w[0]] + AllCapPass(w[1..] + rest)
  {
    AllCapSkip(w + rest);
    assert (w + rest)[1..] == w[1..] + rest;
  }

  /** The second pass on the output of the first, for capitalised words. */
  lemma AllCapOnWords(ws: seq<string>)
    requires |ws| >= 1 && AllWords(ws)
    ensures AllCapPass(ws[0] + Alternating(ws[1..], true)) == ws[0] + Dashed(ws[1..])
  {
    var w0 := ws[0];
    assert IsWord(w0);
    AllCapSkipCapital(w0, Alternating(ws[1..], true));
    AllCapOnAlternating(w0[1..], ws[1..], true);
    assert w0 == [w0[0]] + w0[1..];
  }

  /** toArgName turns UpperCamelCase into kebab case: `GracePeriod` becomes
      `grace-period`. */
  lemma ArgNameOfCamelCase(ws: seq<string>)
    requires |ws| >= 1 && AllWords(ws)
    ensures ToArgName(Concat(ws)) == Kebab(ws)
  {
    FirstCapOnWords(ws);
    AllCapOnWords(ws);
    KebabIsLowerDashed(ws);
  }

  /** The first pass on an acronym followed by capitalised words. */
  lemma FirstCapOnAcronymPrefix(a: string, ws: seq<string>)
    requires IsAcronym(a)
    requires |ws| >= 1 && AllWords(ws)
    ensures FirstCapPass(a + Concat(ws)) == a + Alternating(ws, true)
  {
    var w0 := ws[0];
    assert IsWord(w0);
    var rest := Concat(ws[1..]);
    assert Concat(ws) == w0 + rest;
    if |ws| > 1 {
      ConcatHead(ws[1..]);
    }
    var last := a[|a| - 1];
    FirstCapSkipAcronym(a, w0 + rest);
    MatchStep(last, w0, rest);
    var tailOut := Alternating(ws[1..], false);
    assert FirstCapPass(rest) == tailOut by {
      if |ws| == 1 {
        assert ws[1..] == [];
      } else {
        FirstCapOnWords(ws[1..]);
        AlternatingUnfold(ws[1..], false);
      }
    }
    AlternatingUnfold(ws, true);
    SplitLast(a, w0 + tailOut);
  }

  lemma AllCapDashWord(w: string, more: string)
    requires IsWord(w)
    ensures AllCapPass("-" + (w + more)) == "-" + ([w[0]] + AllCapPass(w[1..] + more))
  {
    AllCapSkip("-" + (w + more));
    assert ("-" + (w + more))[1..] == w + more;
    AllCapSkipCapital(w, more);
  }

  /** The second pass on an acronym, a dash and a word, given what it does
      after the word's capital. */
  lemma AllCapOnAcronymPrefix(a: string, w: string, more: string, tailOut: string)
    requires IsAcronym(a) && IsWord(w)
    requires AllCapPass(w[1..] + more) == w[1..] + tailOut
    ensures AllCapPass(a + ("-" + (w + more))) == a + ("-" + (w + tailOut))
  {
    AllCapSkipAcronym(a, "-" + (w + more));
    AllCapDashWord(w, more);
    assert [w[0]] + (w[1..] + tailOut) == w + tailOut by {
      assert w == [w[0]] + w[1..];
    }
  }

  lemma LowerDashed(ws: seq<string>)
    requires |ws| >= 1
    ensures ToLower(Dashed(ws)) == "-" + Kebab(ws)
  {
    ToLowerAppend("-", ws[0] + Dashed(ws[1..]));
    KebabIsLowerDashed(ws);
  }

  lemma BothPassesOnAcronymPrefix(a: string, ws: seq<string>)
    requires IsAcronym(a)
    requires |ws| >= 1 && AllWords(ws)
    ensures AllCapPass(FirstCapPass(a + Concat(ws))) == a + Dashed(ws)
  {
    var w0 := ws[0];
    var more := Alternating(ws[1..], false);
    var tailOut := Dashed(ws[1..]);
    assert IsWord(w0);
    calc {
      AllCapPass(FirstCapPass(a + Concat(ws)));
      { FirstCapOnAcronymPrefix(a, ws); }
      AllCapPass(a + Alternating(ws, true));
      { AlternatingUnfold(ws, true); }
      AllCapPass(a + ("-" + (w0 + more)));
      { AllCapOnAlternating(w0[1..], ws[1..], false);
        AllCapOnAcronymPrefix(a, w0, more, tailOut); }
      a + ("-" + (w0 + tailOut));
      a + Dashed(ws);
    }
  }

  /** An acronym in front of capitalised words stays one word: `APIKey`
      becomes `api-key`. */
  lemma ArgNameOfAcronymPrefix(a: string, ws: seq<string>)
    requires IsAcronym(a)
    requires |ws| >= 1 && AllWords(ws)
    ensures ToArgName(a + Concat(ws)) == ToLower(a) + "-" + Kebab(ws)
  {
    BothPassesOnAcronymPrefix(a, ws);
    ToLowerAppend(a, Dashed(ws));
    LowerDashed(ws);
  }
}
