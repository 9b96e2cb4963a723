/** The configuration resolution engine (config/config_reader.go): defaults
    from the tags, one flag bound per field, the environment pass, the
    command-line pass, and redaction of secret fields.

    Reflection is replaced by the reader's list of field declarations; a
    settings instance is the sequence of its field values in declaration
    order. The flag library is modelled as far as the reader relies on it: a
    FlagSet starts empty, registering a name twice panics, and parsing a
    command line applies its assignments one after the other. */
module Reader {
  import opened Outcomes
  import opened Names
  import opened Schema
  import opened Coercion

  /** A ConfigReader: the declarations of the settings structure and the
      prefix of its environment variables. */
  datatype ConfigReader = ConfigReader(decls: seq<FieldDecl>, envPrefix: string)

  /** The descriptors of the reader's fields, in declaration order. */
  function Fields(reader: ConfigReader): (ds: seq<Descriptor>)
    ensures |ds| == |reader.decls|
  {
    IterateFields(reader.decls)
  }

  /** cfg is a settings instance for the fields: one fitting value per field. */
  predicate Instance(fields: seq<Descriptor>, cfg: seq<Value>) {
    |cfg| == |fields| && forall i :: 0 <= i < |fields| ==> Fits(cfg[i], fields[i].kind)
  }

  // ---------------------------------------------------------------------------
  // defaultValue

  /** The default of one field, as defaultValue's loop body computes it. */
  function DefaultOf(f: Descriptor): Result<Value, Panic> {
    CoerceDefault(f.kind, f.defaultLiteral)
  }

  /** The defaults of all fields, in declaration order; the first field whose
      default panics stops the pass. */
  function DefaultValues(fields: seq<Descriptor>): (r: Result<seq<Value>, Panic>)
    ensures r.Ok? <==> forall i :: 0 <= i < |fields| ==> DefaultOf(fields[i]).Ok?
    ensures r.Ok? ==> Instance(fields, r.value)
    ensures r.Ok? ==> forall i :: 0 <= i < |fields| ==> DefaultOf(fields[i]) == Ok(r.value[i])
    ensures r.Err? ==> r.error.MalformedDefault? || r.error.UnsupportedKind?
    ensures r.Err? ==> exists k :: (0 <= k < |fields| && DefaultOf(fields[k]) == Err(r.error) &&
                                   forall j :: 0 <= j < k ==> DefaultOf(fields[j]).Ok?)
    decreases |fields|
  {
    if |fields| == 0 then Ok([])
    else
      var n := |fields| - 1;
      var front := DefaultValues(fields[..n]);
      assert forall i :: 0 <= i < n ==> fields[..n][i] == fields[i];
      match front
      case Err(p) =>
        FirstMalformedOfFront(fields, n, p);
        Err(p)
      case Ok(vs) =>
        match DefaultOf(fields[n])
        case Err(p) =>
          assert DefaultOf(fields[n]) == Err(p) && forall j :: 0 <= j < n ==> DefaultOf(fields[j]).Ok?;
          Err(p)
        case Ok(v) =>
          DefaultsSnoc(fields, n, vs, v);
          Ok(vs + [v])
  }

  /** One more field's default extends the defaults of the fields before it. */
  lemma DefaultsSnoc(fields: seq<Descriptor>, n: nat, vs: seq<Value>, v: Value)
    requires n + 1 == |fields| && |vs| == n
    requires forall i :: 0 <= i < n ==> DefaultOf(fields[..n][i]) == Ok(vs[i])
    requires DefaultOf(fields[n]) == Ok(v)
    ensures forall i :: 0 <= i < |fields| ==> DefaultOf(fields[i]) == Ok((vs + [v])[i])
    ensures Instance(fields, vs + [v])
  {
    forall i | 0 <= i < |fields|
      ensures DefaultOf(fields[i]) == Ok((vs + [v])[i])
    {
      if i < n {
        assert fields[..n][i] == fields[i];
      }
    }
    forall i | 0 <= i < |fields|
      ensures Fits((vs + [v])[i], fields[i].kind)
    {
      assert DefaultOf(fields[i]).Ok?;
    }
  }

  /** The field that stops the defaults of a prefix stops those of the whole. */
  lemma FirstMalformedOfFront(fields: seq<Descriptor>, n: nat, p: Panic)
    requires n <= |fields|
    requires exists k :: (0 <= k < n && DefaultOf(fields[..n][k]) == Err(p) &&
                          forall j :: 0 <= j < k ==> DefaultOf(fields[..n][j]).Ok?)
    ensures exists k :: (0 <= k < |fields| && DefaultOf(fields[k]) == Err(p) &&
                         forall j :: 0 <= j < k ==> DefaultOf(fields[j]).Ok?)
  {
    var k :| 0 <= k < n && DefaultOf(fields[..n][k]) == Err(p) &&
             forall j :: 0 <= j < k ==> DefaultOf(fields[..n][j]).Ok?;
    assert fields[..n][k] == fields[k];
    assert forall j :: 0 <= j < k ==> fields[..n][j] == fields[j];
  }

  /** DefaultValue: the instance holding every field's default. */
  function DefaultValue(reader: ConfigReader): (r: Result<seq<Value>, Panic>)
    ensures r.Ok? ==> Instance(Fields(reader), r.value)
  {
    DefaultValues(Fields(reader))
  }

  // ---------------------------------------------------------------------------
  // configureFlagSet

  /** A flag of the FlagSet: its name, the kind of its cell, its default value
      (the cell's value when it was bound) and its usage text. */
  datatype Flag = Flag(name: string, kind: Kind, defValue: Value, usage: string)

  /** The flag bound to a field whose cell holds v. */
  function Binding(f: Descriptor, v: Value): Flag {
    Flag(ToArgName(f.name), f.kind, v, f.description)
  }

  /** No two fields share an argument name. */
  predicate DistinctArgNames(fields: seq<Descriptor>) {
    forall i, j :: 0 <= i < j < |fields| ==> ToArgName(fields[i].name) != ToArgName(fields[j].name)
  }

  /** Every field can be bound: its kind is supported and its argument name is
      its own. */
  predicate Bindable(fields: seq<Descriptor>) {
    (forall i :: 0 <= i < |fields| ==> !fields[i].kind.Unsupported?) && DistinctArgNames(fields)
  }

  /** Some flag of the set has this name. */
  predicate Defines(flags: seq<Flag>, name: string) {
    exists i :: 0 <= i < |flags| && flags[i].name == name
  }

  /** configureFlagSet on an empty FlagSet: one flag per field, in declaration
      order, named by toArgName, defaulting to the field's current value. A
      field of an unsupported kind panics, and so does a second field with an
      argument name already taken. */
  function ConfigureFlagSet(fields: seq<Descriptor>, cells: seq<Value>): (r: Result<seq<Flag>, Panic>)
    requires |cells| == |fields|
    ensures r.Ok? <==> Bindable(fields)
    ensures r.Ok? ==> (|r.value| == |fields| &&
                       forall i :: 0 <= i < |fields| ==> r.value[i] == Binding(fields[i], cells[i]))
    ensures r.Err? ==> r.error.UnsupportedKind? || r.error.FlagRedefined?
    decreases |fields|
  {
    if |fields| == 0 then Ok([])
    else
      var n := |fields| - 1;
      var f := fields[n];
      assert forall i :: 0 <= i < n ==> fields[..n][i] == fields[i];
      match ConfigureFlagSet(fields[..n], cells[..n])
      case Err(p) => Err(p)
      case Ok(flags) =>
        if f.kind.Unsupported? then Err(UnsupportedKind(f.kind.goKind))
        else if Defines(flags, ToArgName(f.name)) then Err(FlagRedefined(ToArgName(f.name)))
        else Ok(flags + [Binding(f, cells[n])])
  }

  /** The flags have pairwise distinct names. */
  predicate DistinctFlagNames(flags: seq<Flag>) {
    forall i, j :: 0 <= i < j < |flags| ==> flags[i].name != flags[j].name
  }

  /** A successful binding gives every flag a name of its own and a
      supported kind. */
  lemma BoundFlagsAreDistinct(fields: seq<Descriptor>, cells: seq<Value>)
    requires |cells| == |fields|
    requires ConfigureFlagSet(fields, cells).Ok?
    ensures var flags := ConfigureFlagSet(fields, cells).value;
      DistinctFlagNames(flags) && forall i :: 0 <= i < |flags| ==> !flags[i].kind.Unsupported?
  {
  }

  // ---------------------------------------------------------------------------
  // The environment pass

  /** The environment, as os.LookupEnv sees it. */
  type Env = map<string, string>

  /** Where the environment pass looks for a flag: the prefixed variable, and
      only when that is absent the unprefixed one. */
  function EnvLookup(prefix: string, flagName: string, env: Env): (r: Option<string>)
    ensures EnvNameWithPrefix(prefix, flagName) in env ==> r == Some(env[EnvNameWithPrefix(prefix, flagName)])
    ensures EnvNameWithPrefix(prefix, flagName) !in env && EnvName(flagName) in env ==> r == Some(env[EnvName(flagName)])
    ensures r.None? <==> EnvNameWithPrefix(prefix, flagName) !in env && EnvName(flagName) !in env
  {
    var prefixed := EnvNameWithPrefix(prefix, flagName);
    if prefixed in env then Some(env[prefixed])
    else if EnvName(flagName) in env then Some(env[EnvName(flagName)])
    else None
  }

  /** The environment pass: every flag whose variable is set gets Set with its
      text, the error discarded; the others keep their value. Each flag writes
      its own cell only, so the order VisitAll takes does not matter. */
  function EnvPass(prefix: string, flags: seq<Flag>, cells: seq<Value>, env: Env): (r: seq<Value>)
    requires |cells| == |flags|
    requires forall i :: 0 <= i < |flags| ==> !flags[i].kind.Unsupported?
    ensures |r| == |cells|
    ensures forall i :: 0 <= i < |flags| ==> r[i] == EnvCell(prefix, flags[i], cells[i], env)
    decreases |flags|
  {
    if |flags| == 0 then []
    else
      var rest := EnvPass(prefix, flags[1..], cells[1..], env);
      var r := [EnvCell(prefix, flags[0], cells[0], env)] + rest;
      assert forall i :: 1 <= i < |flags| ==> r[i] == rest[i - 1] && flags[1..][i - 1] == flags[i] && cells[1..][i - 1] == cells[i];
      r
  }

  /** One flag's cell after the environment pass: the variable's text as Set
      leaves it, or the cell unchanged when the variable is unset. */
  function EnvCell(prefix: string, f: Flag, cell: Value, env: Env): Value
    requires !f.kind.Unsupported?
  {
    match EnvLookup(prefix, f.name, env)
    case Some(text) => AfterSet(f.kind, text)
    case None => cell
  }

  // ---------------------------------------------------------------------------
  // The command line

  /** The command line as the flag library tokenises it, up to the first
      argument that is not a flag: explicit assignments (a bare boolean flag
      assigns "true"), or a token it cannot read as a flag. */
  datatype Arg = Assign(name: string, text: string) | Malformed(message: string)

  /** Why FlagSet.Parse fails. */
  datatype FlagError =
    | BadSyntax(message: string)            // a token that is no flag syntax
    | HelpRequested                         // -h or -help, when not defined
    | NotDefined(name: string)              // flag provided but not defined
    | InvalidValue(name: string, text: string) // Set refused the text

  /** The position of the flag with this name. */
  function FlagIndex(flags: seq<Flag>, name: string): (r: Option<nat>)
    ensures r.Some? ==> r.value < |flags| && flags[r.value].name == name
    ensures r.None? <==> !Defines(flags, name)
    ensures r.Some? ==> forall j :: 0 <= j < r.value ==> flags[j].name != name
  {
    if |flags| == 0 then None
    else if flags[0].name == name then Some(0)
    else match FlagIndex(flags[1..], name)
      case None => None
      case Some(i) => Some(i + 1)
  }

  /** The flag library accepts this argument. */
  predicate Accepted(flags: seq<Flag>, a: Arg) {
    a.Assign? && FlagIndex(flags, a.name).Some? &&
    FlagValue(flags[FlagIndex(flags, a.name).value].kind, a.text).Some?
  }

  /** The error Parse reports for an argument it does not accept. */
  function ArgError(flags: seq<Flag>, a: Arg): (e: FlagError)
    requires !Accepted(flags, a)
    ensures e.HelpRequested? <==> a.Assign? && !Defines(flags, a.name) && (a.name == "h" || a.name == "help")
  {
    match a
    case Malformed(m) => BadSyntax(m)
    case Assign(name, text) =>
      if FlagIndex(flags, name).Some? then InvalidValue(name, text)
      else if name == "help" || name == "h" then HelpRequested
      else NotDefined(name)
  }

  /** The text of the last assignment to a flag, if any. */
  function LastAssignment(items: seq<Arg>, name: string): (r: Option<string>)
    ensures r.Some? ==> exists k :: 0 <= k < |items| && items[k] == Assign(name, r.value)
    ensures r.None? <==> forall k :: 0 <= k < |items| ==> !(items[k].Assign? && items[k].name == name)
    decreases |items|
  {
    if |items| == 0 then None
    else match LastAssignment(items[1..], name)
      case Some(t) => Some(t)
      case None => if items[0].Assign? && items[0].name == name then Some(items[0].text) else None
  }

  /** What a flag's cell holds after the command line: the last text assigned
      to it, or the value it had. */
  function Overridden(flag: Flag, cell: Value, items: seq<Arg>): Value
    requires !flag.kind.Unsupported?
  {
    match LastAssignment(items, flag.name)
    case Some(text) => AfterSet(flag.kind, text)
    case None => cell
  }

  /** The argument at k is the first one refused, and refused with e. */
  predicate RefusedAt(flags: seq<Flag>, items: seq<Arg>, k: nat, e: FlagError) {
    k < |items| && !Accepted(flags, items[k]) && e == ArgError(flags, items[k]) &&
    forall j :: 0 <= j < k ==> Accepted(flags, items[j])
  }

  /** Parse reports e for the first argument it refuses. */
  predicate FirstRefused(flags: seq<Flag>, items: seq<Arg>, e: FlagError) {
    exists k :: 0 <= k < |items| && RefusedAt(flags, items, k, e)
  }

  /** FlagSet.Parse: the assignments in order, stopping at the first argument
      the library does not accept. */
  function ParseArgs(flags: seq<Flag>, cells: seq<Value>, items: seq<Arg>): (r: Result<seq<Value>, FlagError>)
    requires |cells| == |flags|
    requires DistinctFlagNames(flags)
    requires forall i :: 0 <= i < |flags| ==> !flags[i].kind.Unsupported?
    ensures r.Ok? <==> forall k :: 0 <= k < |items| ==> Accepted(flags, items[k])
    ensures r.Ok? ==> (|r.value| == |cells| &&
                       forall i :: 0 <= i < |flags| ==> r.value[i] == Overridden(flags[i], cells[i], items))
    ensures r.Err? ==> FirstRefused(flags, items, r.error)
    decreases |items|
  {
    if |items| == 0 then Ok(cells)
    else
      var a := items[0];
      if !Accepted(flags, a) then
        assert RefusedAt(flags, items, 0, ArgError(flags, a));
        Err(ArgError(flags, a))
      else
        var i := FlagIndex(flags, a.name).value;
        var v := FlagValue(flags[i].kind, a.text).value;
        var r := ParseArgs(flags, cells[i := v], items[1..]);
        assert r.Ok? ==> forall j :: 0 <= j < |flags| ==> r.value[j] == Overridden(flags[j], cells[j], items) by {
          if r.Ok? {
            forall j | 0 <= j < |flags|
              ensures r.value[j] == Overridden(flags[j], cells[j], items)
            {
              OverriddenStep(flags, cells, items, i, v, j);
            }
          }
        }
        assert r.Err? ==> FirstRefused(flags, items, r.error) by {
          if r.Err? {
            var k :| 0 <= k < |items| - 1 && RefusedAt(flags, items[1..], k, r.error);
            RefusedLater(flags, items, k, r.error);
          }
        }
        r
  }

  /** An argument refused after an accepted first one is refused one place
      further along the whole command line. */
  lemma RefusedLater(flags: seq<Flag>, items: seq<Arg>, k: nat, e: FlagError)
    requires |items| > 0 && Accepted(flags, items[0])
    requires RefusedAt(flags, items[1..], k, e)
    ensures RefusedAt(flags, items, k + 1, e)
  {
    assert items[1..][k] == items[k + 1];
    forall j | 0 <= j < k + 1
      ensures Accepted(flags, items[j])
    {
      if j > 0 {
        assert items[1..][j - 1] == items[j];
      }
    }
  }

  /** One accepted assignment to flag i followed by the rest of the command
      line leaves every cell as the whole command line would. */
  lemma OverriddenStep(flags: seq<Flag>, cells: seq<Value>, items: seq<Arg>, i: nat, v: Value, j: nat)
    requires |cells| == |flags| && DistinctFlagNames(flags)
    requires forall k :: 0 <= k < |flags| ==> !flags[k].kind.Unsupported?
    requires |items| > 0 && Accepted(flags, items[0])
    requires FlagIndex(flags, items[0].name) == Some(i)
    requires v == FlagValue(flags[i].kind, items[0].text).value
    requires j < |flags|
    ensures Overridden(flags[j], cells[i := v][j], items[1..]) == Overridden(flags[j], cells[j], items)
  {
    assert items[0].name == flags[i].name;
    if i < j {
      assert flags[i].name != flags[j].name;
    }
  }

  // ---------------------------------------------------------------------------
  // readConfig and Read

  /** What a FlagSet does when Parse fails. */
  datatype ErrorHandling = ContinueOnError | ExitOnError | PanicOnError

  /** How a call ends: with a result, a panic, or the process exiting. */
  datatype Run<+T> = Done(result: T) | Panicked(panic: Panic) | Exited(code: int)

  /** readConfig on an empty FlagSet with the given error handling: defaults,
      flag binding, the environment pass, then the command line. A parse
      error is returned with no instance, or exits, or panics, as the FlagSet
      is configured. */
  function ReadConfigValues(reader: ConfigReader, mode: ErrorHandling, env: Env, args: seq<Arg>): (r: Run<Result<seq<Value>, FlagError>>)
    ensures r.Done? && r.result.Ok? ==> Instance(Fields(reader), r.result.value)
    ensures r.Done? && r.result.Err? ==> mode == ContinueOnError
    ensures r.Exited? ==> mode == ExitOnError && (r.code == 0 || r.code == 2)
    ensures r == Panicked(FlagParseFailed) ==> mode == PanicOnError
    ensures r.Panicked? ==>
      r.panic.MalformedDefault? || r.panic.UnsupportedKind? || r.panic.FlagRedefined? || r.panic == FlagParseFailed
  {
    match DefaultValues(Fields(reader))
    case Err(p) => Panicked(p)
    case Ok(defaults) => BindAndParse(Fields(reader), defaults, reader.envPrefix, mode, env, args)
  }

  /** readConfig from the defaults on: binding, the environment pass and the
      command line. */
  function BindAndParse(fields: seq<Descriptor>, defaults: seq<Value>, prefix: string, mode: ErrorHandling, env: Env, args: seq<Arg>): (r: Run<Result<seq<Value>, FlagError>>)
    requires Instance(fields, defaults)
    ensures r.Done? && r.result.Ok? ==> Instance(fields, r.result.value)
    ensures r.Done? && r.result.Err? ==> mode == ContinueOnError
    ensures r.Exited? ==> mode == ExitOnError && (r.code == 0 || r.code == 2)
    ensures r == Panicked(FlagParseFailed) ==> mode == PanicOnError
    ensures r.Panicked? ==> r.panic.UnsupportedKind? || r.panic.FlagRedefined? || r.panic == FlagParseFailed
  {
    match ConfigureFlagSet(fields, defaults)
    case Err(p) => Panicked(p)
    case Ok(flags) =>
      BoundFlagsAreDistinct(fields, defaults);
      var cells := EnvPass(prefix, flags, defaults, env);
      EnvPassFits(fields, defaults, flags, prefix, env);
      match ParseArgs(flags, cells, args)
      case Ok(values) =>
        ParsedIsInstance(fields, defaults, flags, cells, args);
        Done(Ok(values))
      case Err(e) => OnParseError(mode, e)
  }

  /** The environment pass leaves every cell fitting its flag. */
  lemma EnvPassFits(fields: seq<Descriptor>, defaults: seq<Value>, flags: seq<Flag>, prefix: string, env: Env)
    requires Instance(fields, defaults)
    requires ConfigureFlagSet(fields, defaults) == Ok(flags)
    requires forall i :: 0 <= i < |flags| ==> !flags[i].kind.Unsupported?
    ensures forall i :: 0 <= i < |flags| ==> Fits(EnvPass(prefix, flags, defaults, env)[i], flags[i].kind)
  {
    var cells := EnvPass(prefix, flags, defaults, env);
    forall i | 0 <= i < |flags|
      ensures Fits(cells[i], flags[i].kind)
    {
      assert flags[i].kind == fields[i].kind;
    }
  }

  /** What FlagSet.Parse does with an error, by the set's error handling:
      return it, exit (0 when help was asked for, 2 otherwise), or panic. */
  function OnParseError(mode: ErrorHandling, e: FlagError): (r: Run<Result<seq<Value>, FlagError>>)
    ensures r.Done? <==> mode == ContinueOnError
    ensures r.Done? ==> r.result == Err(e)
    ensures r.Exited? ==> mode == ExitOnError && (r.code == 0 <==> e == HelpRequested) && (r.code == 0 || r.code == 2)
    ensures r.Panicked? ==> mode == PanicOnError && r.panic == FlagParseFailed
  {
    match mode
    case ContinueOnError => Done(Err(e))
    case ExitOnError => Exited(if e == HelpRequested then 0 else 2)
    case PanicOnError => Panicked(FlagParseFailed)
  }

  /** Every cell a successful parse leaves fits its field. */
  lemma ParsedIsInstance(fields: seq<Descriptor>, defaults: seq<Value>, flags: seq<Flag>, cells: seq<Value>, args: seq<Arg>)
    requires Instance(fields, defaults)
    requires ConfigureFlagSet(fields, defaults) == Ok(flags)
    requires |cells| == |flags| && DistinctFlagNames(flags)
    requires forall i :: 0 <= i < |flags| ==> !flags[i].kind.Unsupported?
    requires forall i :: 0 <= i < |flags| ==> Fits(cells[i], flags[i].kind)
    requires ParseArgs(flags, cells, args).Ok?
    ensures Instance(fields, ParseArgs(flags, cells, args).value)
  {
    var values := ParseArgs(flags, cells, args).value;
    forall i | 0 <= i < |fields|
      ensures Fits(values[i], fields[i].kind)
    {
      assert flags[i].kind == fields[i].kind;
    }
  }

  /** Where a field's final value comes from. */
  datatype Source = CommandLine(text: string) | PrefixedEnv(text: string) | PlainEnv(text: string) | FromDefault

  /** The precedence of readConfig: an explicit flag, else the prefixed
      variable, else the unprefixed one, else the default. */
  function SourceOf(prefix: string, argName: string, env: Env, args: seq<Arg>): Source {
    match LastAssignment(args, argName)
    case Some(text) => CommandLine(text)
    case None =>
      if EnvNameWithPrefix(prefix, argName) in env then PrefixedEnv(env[EnvNameWithPrefix(prefix, argName)])
      else if EnvName(argName) in env then PlainEnv(env[EnvName(argName)])
      else FromDefault
  }

  /** v is what a field gets from its source: the text of the explicit flag
      (which the flag syntax accepts) or of the environment variable as Set
      makes it, or the coerced default, the zero value when the literal is
      empty. */
  predicate TakenFromSource(f: Descriptor, prefix: string, env: Env, args: seq<Arg>, v: Value)
    requires !f.kind.Unsupported?
  {
    match SourceOf(prefix, ToArgName(f.name), env, args)
    case CommandLine(text) => FlagValue(f.kind, text) == Some(v)
    case PrefixedEnv(text) => v == AfterSet(f.kind, text)
    case PlainEnv(text) => v == AfterSet(f.kind, text)
    case FromDefault => DefaultOf(f) == Ok(v) && (f.defaultLiteral == "" ==> v == Zero(f.kind))
  }

  /** A successful read gives every field the value of its source. */
  lemma Precedence(reader: ConfigReader, mode: ErrorHandling, env: Env, args: seq<Arg>, i: nat)
    requires ReadConfigValues(reader, mode, env, args).Done?
    requires ReadConfigValues(reader, mode, env, args).result.Ok?
    requires i < |reader.decls|
    ensures !Fields(reader)[i].kind.Unsupported?
    ensures TakenFromSource(Fields(reader)[i], reader.envPrefix, env, args,
                            ReadConfigValues(reader, mode, env, args).result.value[i])
  {
    var fields := Fields(reader);
    PrecedenceOfBinding(fields, DefaultValues(fields).value, reader.envPrefix, mode, env, args, i);
  }

  lemma PrecedenceOfBinding(fields: seq<Descriptor>, defaults: seq<Value>, prefix: string, mode: ErrorHandling, env: Env, args: seq<Arg>, i: nat)
    requires Instance(fields, defaults)
    requires forall k :: 0 <= k < |fields| ==> DefaultOf(fields[k]) == Ok(defaults[k])
    requires BindAndParse(fields, defaults, prefix, mode, env, args).Done?
    requires BindAndParse(fields, defaults, prefix, mode, env, args).result.Ok?
    requires i < |fields|
    ensures !fields[i].kind.Unsupported?
    ensures TakenFromSource(fields[i], prefix, env, args, BindAndParse(fields, defaults, prefix, mode, env, args).result.value[i])
  {
    var flags := ConfigureFlagSet(fields, defaults).value;
    BoundFlagsAreDistinct(fields, defaults);
    var cells := EnvPass(prefix, flags, defaults, env);
    assert flags[i] == Binding(fields[i], defaults[i]);
    ParsedCell(flags, cells, args, i);
  }

  /** After a successful parse a flag holds the text last assigned to it, as
      the flag syntax reads it, or the value it had before. */
  lemma ParsedCell(flags: seq<Flag>, cells: seq<Value>, args: seq<Arg>, i: nat)
    requires |cells| == |flags| && DistinctFlagNames(flags)
    requires forall k :: 0 <= k < |flags| ==> !flags[k].kind.Unsupported?
    requires ParseArgs(flags, cells, args).Ok?
    requires i < |flags|
    ensures var v := ParseArgs(flags, cells, args).value[i];
      match LastAssignment(args, flags[i].name)
      case Some(text) => FlagValue(flags[i].kind, text) == Some(v)
      case None => v == cells[i]
  {
    var name := flags[i].name;
    match LastAssignment(args, name)
    case Some(text) =>
      var k :| 0 <= k < |args| && args[k] == Assign(name, text);
      assert Accepted(flags, args[k]);
      assert FlagIndex(flags, name) == Some(i) by {
        var m := FlagIndex(flags, name).value;
        if m != i {
          assert false;
        }
      }
    case None =>
  }

  /** readConfig succeeds exactly when every default parses, every field can
      be bound, and the flag library accepts every argument; the error
      handling matters only when it fails. */
  lemma ReadSucceedsIff(reader: ConfigReader, mode: ErrorHandling, env: Env, args: seq<Arg>)
    ensures var fields := Fields(reader);
      ReadConfigValues(reader, mode, env, args).Done? && ReadConfigValues(reader, mode, env, args).result.Ok?
      <==>
      DefaultValues(fields).Ok? && Bindable(fields) &&
      forall k :: 0 <= k < |args| ==> AcceptedBy(fields, args[k])
  {
    var fields := Fields(reader);
    if DefaultValues(fields).Ok? && Bindable(fields) {
      var defaults := DefaultValues(fields).value;
      var flags := ConfigureFlagSet(fields, defaults).value;
      forall a: Arg
        ensures Accepted(flags, a) <==> AcceptedBy(fields, a)
      {
        AcceptedByFields(fields, defaults, a);
      }
    }
  }

  /** The argument sets a field's flag to text the flag syntax accepts. */
  predicate AcceptedBy(fields: seq<Descriptor>, a: Arg) {
    a.Assign? &&
    exists i :: 0 <= i < |fields| && ToArgName(fields[i].name) == a.name && FlagValue(fields[i].kind, a.text).Some?
  }

  lemma AcceptedByFields(fields: seq<Descriptor>, cells: seq<Value>, a: Arg)
    requires |cells| == |fields| && Bindable(fields)
    ensures Accepted(ConfigureFlagSet(fields, cells).value, a) <==> AcceptedBy(fields, a)
  {
    var flags := ConfigureFlagSet(fields, cells).value;
    if AcceptedBy(fields, a) {
      var i :| 0 <= i < |fields| && ToArgName(fields[i].name) == a.name && FlagValue(fields[i].kind, a.text).Some?;
      assert flags[i].name == a.name;
      var m := FlagIndex(flags, a.name).value;
      if m != i {
        assert false;
      }
    }
    if Accepted(flags, a) {
      var m := FlagIndex(flags, a.name).value;
      assert flags[m] == Binding(fields[m], cells[m]);
    }
  }

  /** Once the defaults parse and every field is bound, a read fails only on
      the command line, and fails as the FlagSet's error handling says. */
  lemma ParseFailure(reader: ConfigReader, mode: ErrorHandling, env: Env, args: seq<Arg>)
    requires DefaultValues(Fields(reader)).Ok? && Bindable(Fields(reader))
    requires !forall k :: 0 <= k < |args| ==> AcceptedBy(Fields(reader), args[k])
    ensures exists e :: ReadConfigValues(reader, mode, env, args) == OnParseError(mode, e)
  {
    var fields := Fields(reader);
    var defaults := DefaultValues(fields).value;
    var flags := ConfigureFlagSet(fields, defaults).value;
    BoundFlagsAreDistinct(fields, defaults);
    var cells := EnvPass(reader.envPrefix, flags, defaults, env);
    EnvPassFits(fields, defaults, flags, reader.envPrefix, env);
    ReadSucceedsIff(reader, mode, env, args);
    var r := ParseArgs(flags, cells, args);
    assert ReadConfigValues(reader, mode, env, args) == OnParseError(mode, r.error);
  }

  /** The argument at k is the first one no field's flag accepts. */
  predicate FirstUnaccepted(fields: seq<Descriptor>, args: seq<Arg>, k: int) {
    0 <= k < |args| && !AcceptedBy(fields, args[k]) && forall j :: 0 <= j < k ==> AcceptedBy(fields, args[j])
  }

  /** The argument asks for help: it sets "h" or "help", which no field's
      flag is named. */
  predicate AsksHelp(fields: seq<Descriptor>, a: Arg) {
    a.Assign? && (a.name == "h" || a.name == "help") &&
    forall i :: 0 <= i < |fields| ==> ToArgName(fields[i].name) != a.name
  }

  /** On a FlagSet that exits on error, a read that fails on the command line
      exits with status 0 exactly when the first argument refused asks for
      help, and with status 2 otherwise. */
  lemma ExitStatus(reader: ConfigReader, env: Env, args: seq<Arg>)
    requires DefaultValues(Fields(reader)).Ok? && Bindable(Fields(reader))
    requires !forall k :: 0 <= k < |args| ==> AcceptedBy(Fields(reader), args[k])
    ensures ReadConfigValues(reader, ExitOnError, env, args).Exited?
    ensures exists k :: (FirstUnaccepted(Fields(reader), args, k) &&
      (ReadConfigValues(reader, ExitOnError, env, args).code == 0 <==> AsksHelp(Fields(reader), args[k])))
  {
    var fields := Fields(reader);
    var defaults := DefaultValues(fields).value;
    var flags := ConfigureFlagSet(fields, defaults).value;
    BoundFlagsAreDistinct(fields, defaults);
    var cells := EnvPass(reader.envPrefix, flags, defaults, env);
    EnvPassFits(fields, defaults, flags, reader.envPrefix, env);
    ReadSucceedsIff(reader, ExitOnError, env, args);
    var r := ParseArgs(flags, cells, args);
    assert ReadConfigValues(reader, ExitOnError, env, args) == OnParseError(ExitOnError, r.error);
    var k :| 0 <= k < |args| && RefusedAt(flags, args, k, r.error);
    RefusedIsFirstUnaccepted(fields, defaults, args, k, r.error);
  }

  /** Only one argument is the first one refused. */
  lemma FirstUnacceptedUnique(fields: seq<Descriptor>, args: seq<Arg>, k: int, m: int)
    requires FirstUnaccepted(fields, args, k) && FirstUnaccepted(fields, args, m)
    ensures k == m
  {
  }

  /** The argument Parse stops at is the first one no field's flag accepts,
      and Parse reports it as a help request exactly when it asks for help. */
  lemma RefusedIsFirstUnaccepted(fields: seq<Descriptor>, defaults: seq<Value>, args: seq<Arg>, k: nat, e: FlagError)
    requires |defaults| == |fields| && Bindable(fields)
    requires RefusedAt(ConfigureFlagSet(fields, defaults).value, args, k, e)
    ensures FirstUnaccepted(fields, args, k)
    ensures e == HelpRequested <==> AsksHelp(fields, args[k])
  {
    var flags := ConfigureFlagSet(fields, defaults).value;
    forall a: Arg
      ensures Accepted(flags, a) <==> AcceptedBy(fields, a)
    {
      AcceptedByFields(fields, defaults, a);
    }
    var a := args[k];
    if a.Assign? {
      if Defines(flags, a.name) {
        var i :| 0 <= i < |flags| && flags[i].name == a.name;
        assert ToArgName(fields[i].name) == a.name;
        assert !AsksHelp(fields, a);
      } else {
        forall i | 0 <= i < |fields|
          ensures ToArgName(fields[i].name) != a.name
        {
          assert flags[i].name == ToArgName(fields[i].name);
        }
      }
    }
  }

  /** Read as written: a parse error that readConfig returns makes it call
      Interface() on the empty reflect.Value, which panics, so the error never
      reaches the caller. */
  function Read(reader: ConfigReader, mode: ErrorHandling, env: Env, args: seq<Arg>): (r: Run<seq<Value>>)
    ensures r.Done? ==> ReadConfigValues(reader, mode, env, args) == Done(Ok(r.result))
  {
    match ReadConfigValues(reader, mode, env, args)
    case Done(Ok(values)) => Done(values)
    case Done(Err(_)) => Panicked(ZeroValueInterface)
    case Panicked(p) => Panicked(p)
    case Exited(code) => Exited(code)
  }

  /** The pair Read hands back: the instance (None for a nil pointer) and the
      error. */
  datatype Returned = Returned(config: Option<seq<Value>>, err: Option<FlagError>)

  /** Read as its signature promises: the instance with no error, or a nil
      instance with readConfig's error. */
  function ReadReportingError(reader: ConfigReader, mode: ErrorHandling, env: Env, args: seq<Arg>): (r: Run<Returned>)
    ensures r.Done? ==> (r.result.config.Some? <==> r.result.err.None?)
    ensures r.Done? && r.result.err.Some? ==> ReadConfigValues(reader, mode, env, args) == Done(Err(r.result.err.value))
    ensures r.Done? && r.result.config.Some? ==> ReadConfigValues(reader, mode, env, args) == Done(Ok(r.result.config.value))
    ensures r.Panicked? ==> Read(reader, mode, env, args) == Panicked(r.panic)
    ensures r.Exited? ==> Read(reader, mode, env, args) == Exited(r.code)
  {
    match ReadConfigValues(reader, mode, env, args)
    case Done(Ok(values)) => Done(Returned(Some(values), None))
    case Done(Err(e)) => Done(Returned(None, Some(e)))
    case Panicked(p) => Panicked(p)
    case Exited(code) => Exited(code)
  }

  /** The two versions of Read differ exactly on parse errors returned by a
      FlagSet that continues on error: there the written one panics. */
  lemma ReadPanicsOnReturnedError(reader: ConfigReader, mode: ErrorHandling, env: Env, args: seq<Arg>)
    ensures Read(reader, mode, env, args) == Panicked(ZeroValueInterface) <==>
      ReadReportingError(reader, mode, env, args).Done? && ReadReportingError(reader, mode, env, args).result.err.Some?
  {
  }

  /** With a FlagSet that exits or panics on error, both versions agree. */
  lemma ReadAgreesUnlessContinuing(reader: ConfigReader, mode: ErrorHandling, env: Env, args: seq<Arg>)
    requires mode != ContinueOnError
    ensures Read(reader, mode, env, args).Done? <==> ReadReportingError(reader, mode, env, args).Done?
    ensures Read(reader, mode, env, args).Done? ==>
      ReadReportingError(reader, mode, env, args).result == Returned(Some(Read(reader, mode, env, args).result), None)
  {
  }

  // ---------------------------------------------------------------------------
  // WithoutSecrets

  /** WithoutSecrets: a fresh zero instance with every non-secret field
      copied over; secret fields keep their zero value, whatever the default. */
  function WithoutSecrets(reader: ConfigReader, cfg: seq<Value>): (r: seq<Value>)
    requires |cfg| == |reader.decls|
    ensures |r| == |cfg|
    ensures forall i :: 0 <= i < |cfg| ==>
      r[i] == (if Fields(reader)[i].secret then Zero(Fields(reader)[i].kind) else cfg[i])
  {
    Redact(Fields(reader), cfg)
  }

  function Redact(fields: seq<Descriptor>, cfg: seq<Value>): (r: seq<Value>)
    requires |cfg| == |fields|
    ensures |r| == |cfg|
    ensures forall i :: 0 <= i < |cfg| ==> r[i] == (if fields[i].secret then Zero(fields[i].kind) else cfg[i])
  {
    if |cfg| == 0 then []
    else [if fields[0].secret then Zero(fields[0].kind) else cfg[0]] + Redact(fields[1..], cfg[1..])
  }

  /** Redaction keeps an instance an instance. */
  lemma RedactedIsInstance(reader: ConfigReader, cfg: seq<Value>)
    requires Instance(Fields(reader), cfg)
    ensures Instance(Fields(reader), WithoutSecrets(reader, cfg))
  {
  }

  /** Redacting twice is redacting once. */
  lemma WithoutSecretsIdempotent(reader: ConfigReader, cfg: seq<Value>)
    requires |cfg| == |reader.decls|
    ensures WithoutSecrets(reader, WithoutSecrets(reader, cfg)) == WithoutSecrets(reader, cfg)
  {
  }

  /** The redacted copy depends on the non-secret fields only: two instances
      that differ in secret fields alone redact to the same copy. */
  lemma SecretsDoNotLeak(reader: ConfigReader, a: seq<Value>, b: seq<Value>)
    requires |a| == |b| == |reader.decls|
    requires forall i :: 0 <= i < |a| && !Fields(reader)[i].secret ==> a[i] == b[i]
    ensures WithoutSecrets(reader, a) == WithoutSecrets(reader, b)
  {
  }

  /** Without secret fields redaction copies everything; and an instance equal
      to its redacted copy holds zero in every secret field. */
  lemma WithoutSecretsIdentityIff(reader: ConfigReader, cfg: seq<Value>)
    requires |cfg| == |reader.decls|
    ensures WithoutSecrets(reader, cfg) == cfg <==>
      forall i :: 0 <= i < |cfg| && Fields(reader)[i].secret ==> cfg[i] == Zero(Fields(reader)[i].kind)
  {
    if forall i :: 0 <= i < |cfg| && Fields(reader)[i].secret ==> cfg[i] == Zero(Fields(reader)[i].kind) {
      assert forall i :: 0 <= i < |cfg| ==> WithoutSecrets(reader, cfg)[i] == cfg[i];
    }
  }
}
