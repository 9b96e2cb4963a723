/** The application's settings (config/config.go): the seven fields of Config
    with their tags, the reader bound to them with an empty environment
    prefix, and the entry points ReadConfig, readConfig, DefaultConfig and
    WithoutSecrets on that schema. */
module AppConfig {
  import opened Outcomes
  import opened Ascii
  import opened Names
  import opened Strconv
  import opened Durations
  import opened Schema
  import opened Coercion
  import opened Reader

  // ---------------------------------------------------------------------------
  // The Config struct

  function HostDecl(): FieldDecl { FieldDecl("Host", StringKind, Some("localhost"), Some("The host to listen on")) }
  function PortDecl(): FieldDecl { FieldDecl("Port", StringKind, Some("8080"), Some("The port to listen on")) }
  function LogLevelDecl(): FieldDecl { FieldDecl("LogLevel", StringKind, Some("error"), Some("The log level")) }
  function TextLoggingDecl(): FieldDecl { FieldDecl("TextLogging", BoolKind, Some("true"), Some("Log in text format instead of json")) }
  function GracePeriodDecl(): FieldDecl { FieldDecl("GracePeriod", DurationKind, Some("5s"), Some("Graceful shutdown grace period")) }
  function APIKeyDecl(): FieldDecl { FieldDecl("APIKey", StringKind, Some(""), Some("The API key")) }
  function APISecretDecl(): FieldDecl { FieldDecl("APISecret", StringKind, Some(""), Some("The API secret")) }

  /** The fields of Config, in declaration order. */
  function ConfigDecls(): seq<FieldDecl> {
    [HostDecl(), PortDecl(), LogLevelDecl(), TextLoggingDecl(), GracePeriodDecl(), APIKeyDecl(), APISecretDecl()]
  }

  /** The package's configReader: Config's fields, no environment prefix. */
  function AppReader(): ConfigReader {
    ConfigReader(ConfigDecls(), "")
  }

  // ---------------------------------------------------------------------------
  // Descriptors

  /** The descriptor of a field whose `config` tag is a single token: the tag
      is the default literal and the field is not secret. */
  function Plain(d: FieldDecl): Descriptor {
    Descriptor(d.name, d.kind, Text(d.configTag), Text(d.descTag), false)
  }

  function Text(t: Option<string>): string {
    if t.Some? then t.value else ""
  }

  /** A supported field with both tags, whose `config` tag has no comma. */
  predicate PlainDecl(d: FieldDecl) {
    d.configTag.Some? && ',' !in d.configTag.value && d.descTag.Some? && !d.kind.Unsupported?
  }

  lemma TagOfPlainLiteral(lit: string)
    requires ',' !in lit
    ensures ParseConfigTag(Some(lit)) == ConfigTag(lit, false)
  {
    SplitOfJoin([lit], ',');
  }

  lemma PlainFields(decls: seq<FieldDecl>)
    requires forall i :: 0 <= i < |decls| ==> PlainDecl(decls[i])
    ensures forall i :: 0 <= i < |decls| ==> IterateFields(decls)[i] == Plain(decls[i])
  {
    forall i | 0 <= i < |decls|
      ensures IterateFields(decls)[i] == Plain(decls[i])
    {
      TagOfPlainLiteral(decls[i].configTag.value);
    }
  }

  lemma ConfigDeclsPlain()
    ensures forall i :: 0 <= i < |ConfigDecls()| ==> PlainDecl(ConfigDecls()[i])
  {
  }

  /** iterateFields on Config: every field is supported, described by its
      `desc` tag, defaults to its `config` tag, and none is secret. */
  lemma FieldOf(i: nat)
    requires i < 7
    ensures |Fields(AppReader())| == 7
    ensures Fields(AppReader())[i] == Plain(ConfigDecls()[i])
    ensures !Fields(AppReader())[i].secret && !Fields(AppReader())[i].kind.Unsupported?
  {
    ConfigDeclsPlain();
    TagOfPlainLiteral(ConfigDecls()[i].configTag.value);
  }

  // ---------------------------------------------------------------------------
  // DefaultConfig

  /** The default instance the tags describe. */
  function Defaults(): seq<Value> {
    [Str("localhost"), Str("8080"), Str("error"), Bool(true), Dur(5 * Second), Str(""), Str("")]
  }

  /** The grace period's literal "5s" is five seconds. */
  lemma DefaultGracePeriod()
    ensures DefaultOf(Plain(GracePeriodDecl())) == Ok(Dur(5 * Second))
  {
    assert FormatDecimal(5) == "5";
    DurationDefaultOfSegment(5, "s", Second);
    assert FormatDecimal(5) + "s" == "5s";
  }

  /** Each field's default literal coerces to its entry of Defaults; the two
      empty literals leave the zero string. */
  lemma DefaultOfField(i: nat)
    requires i < 7
    ensures DefaultOf(Fields(AppReader())[i]) == Ok(Defaults()[i])
  {
    FieldOf(i);
    if i == 0 {
      DefaultOfHost();
    } else if i == 1 {
      DefaultOfPort();
    } else if i == 2 {
      DefaultOfLogLevel();
    } else if i == 3 {
      DefaultOfTextLogging();
    } else if i == 4 {
      DefaultOfGracePeriod();
    } else if i == 5 {
      DefaultOfAPIKey();
    } else {
      DefaultOfAPISecret();
    }
  }

  lemma DefaultOfHost()
    ensures DefaultOf(Plain(ConfigDecls()[0])) == Ok(Defaults()[0])
  {
    assert ConfigDecls()[0] == HostDecl();
  }

  lemma DefaultOfPort()
    ensures DefaultOf(Plain(ConfigDecls()[1])) == Ok(Defaults()[1])
  {
    assert ConfigDecls()[1] == PortDecl();
  }

  lemma DefaultOfLogLevel()
    ensures DefaultOf(Plain(ConfigDecls()[2])) == Ok(Defaults()[2])
  {
    assert ConfigDecls()[2] == LogLevelDecl();
  }

  lemma DefaultOfTextLogging()
    ensures DefaultOf(Plain(ConfigDecls()[3])) == Ok(Defaults()[3])
  {
    assert ConfigDecls()[3] == TextLoggingDecl();
  }

  lemma DefaultOfGracePeriod()
    ensures DefaultOf(Plain(ConfigDecls()[4])) == Ok(Defaults()[4])
  {
    assert ConfigDecls()[4] == GracePeriodDecl();
    DefaultGracePeriod();
  }

  lemma DefaultOfAPIKey()
    ensures DefaultOf(Plain(ConfigDecls()[5])) == Ok(Defaults()[5])
  {
    assert ConfigDecls()[5] == APIKeyDecl();
  }

  lemma DefaultOfAPISecret()
    ensures DefaultOf(Plain(ConfigDecls()[6])) == Ok(Defaults()[6])
  {
    assert ConfigDecls()[6] == APISecretDecl();
  }

  lemma DefaultsOfConfig()
    ensures DefaultValue(AppReader()) == Ok(Defaults())
  {
    DefaultsPointwise();
    DefaultValuesOf(Fields(AppReader()), Defaults());
  }

  lemma DefaultsPointwise()
    ensures |Fields(AppReader())| == |Defaults()|
    ensures forall i :: 0 <= i < |Fields(AppReader())| ==> DefaultOf(Fields(AppReader())[i]) == Ok(Defaults()[i])
  {
    FieldOf(0);
    forall i | 0 <= i < 7
      ensures DefaultOf(Fields(AppReader())[i]) == Ok(Defaults()[i])
    {
      DefaultOfField(i);
    }
  }

  /** Fields whose defaults all coerce have the instance of those values as
      their default. */
  lemma DefaultValuesOf(fields: seq<Descriptor>, values: seq<Value>)
    requires |values| == |fields|
    requires forall i :: 0 <= i < |fields| ==> DefaultOf(fields[i]) == Ok(values[i])
    ensures DefaultValues(fields) == Ok(values)
  {
    var r := DefaultValues(fields);
    assert r.Ok?;
    assert r.value == values;
  }

  /** DefaultConfig: the instance of the tags' defaults; it does not panic. */
  function DefaultConfig(): (r: Result<seq<Value>, Panic>)
    ensures r == Ok(Defaults())
    ensures r.Ok? ==> Instance(Fields(AppReader()), r.value)
  {
    DefaultsOfConfig();
    DefaultValue(AppReader())
  }

  // ---------------------------------------------------------------------------
  // Flag and environment names

  /** toArgName of a field named by two capitalised words. */
  lemma ArgNameOfTwoWords(x: string, y: string, s: string, r: string)
    requires IsWord(x) && IsWord(y)
    requires s == x + y
    requires r == ToLower(x) + "-" + ToLower(y)
    ensures ToArgName(s) == r
  {
    var ws := [x, y];
    assert AllWords(ws);
    assert ws[1..] == [y];
    assert Concat([y]) == y + Concat([]);
    assert Concat(ws) == x + y;
    ArgNameOfCamelCase(ws);
    assert Kebab(ws) == ToLower(x) + "-" + Kebab([y]);
  }

  /** toArgName of a field named by one capitalised word. */
  lemma ArgNameOfOneWord(x: string, r: string)
    requires IsWord(x) && r == ToLower(x)
    ensures ToArgName(x) == r
  {
    var ws := [x];
    assert AllWords(ws);
    assert ws[1..] == [];
    assert Concat(ws) == x + Concat([]);
    assert Concat(ws) == x;
    ArgNameOfCamelCase(ws);
    assert Kebab(ws) == ToLower(x);
  }

  /** toArgName of a field named by an acronym and a capitalised word. */
  lemma ArgNameOfAcronymWord(a: string, x: string, s: string, r: string)
    requires IsAcronym(a) && IsWord(x)
    requires s == a + x
    requires r == ToLower(a) + "-" + ToLower(x)
    ensures ToArgName(s) == r
  {
    var ws := [x];
    assert AllWords(ws);
    assert ws[1..] == [];
    assert Concat(ws) == x + Concat([]);
    assert Concat(ws) == x;
    ArgNameOfAcronymPrefix(a, ws);
    assert Kebab(ws) == ToLower(x);
  }

  /** The flag names of Config's fields. */
  function ArgNames(): seq<string> {
    ["host", "port", "log-level", "text-logging", "grace-period", "api-key", "api-secret"]
  }

  lemma ArgNameOfField(i: nat)
    requires i < 7
    ensures ToArgName(ConfigDecls()[i].name) == ArgNames()[i]
  {
    if i == 0 {
      ArgNameOfHost();
    } else if i == 1 {
      ArgNameOfPort();
    } else if i == 2 {
      ArgNameOfLogLevel();
    } else if i == 3 {
      ArgNameOfTextLogging();
    } else if i == 4 {
      ArgNameOfGracePeriod();
    } else if i == 5 {
      ArgNameOfAPIKey();
    } else {
      ArgNameOfAPISecret();
    }
  }

  lemma ArgNameOfHost()
    ensures ToArgName(ConfigDecls()[0].name) == ArgNames()[0]
  {
    assert ConfigDecls()[0].name == "Host" && ArgNames()[0] == "host";
    ArgNameOfOneInitial("Host", "host");
  }

  lemma ArgNameOfPort()
    ensures ToArgName(ConfigDecls()[1].name) == ArgNames()[1]
  {
    assert ConfigDecls()[1].name == "Port" && ArgNames()[1] == "port";
    ArgNameOfOneInitial("Port", "port");
  }

  lemma ArgNameOfLogLevel()
    ensures ToArgName(ConfigDecls()[2].name) == ArgNames()[2]
  {
    assert ConfigDecls()[2].name == "LogLevel" && ArgNames()[2] == "log-level";
    ArgNameOfTwoInitials("Log", "Level", "LogLevel", "log-level");
  }

  lemma ArgNameOfTextLogging()
    ensures ToArgName(ConfigDecls()[3].name) == ArgNames()[3]
  {
    assert ConfigDecls()[3].name == "TextLogging" && ArgNames()[3] == "text-logging";
    ArgNameOfTwoInitials("Text", "Logging", "TextLogging", "text-logging");
  }

  lemma ArgNameOfGracePeriod()
    ensures ToArgName(ConfigDecls()[4].name) == ArgNames()[4]
  {
    assert ConfigDecls()[4].name == "GracePeriod" && ArgNames()[4] == "grace-period";
    ArgNameOfTwoInitials("Grace", "Period", "GracePeriod", "grace-period");
  }

  lemma ArgNameOfAPIKey()
    ensures ToArgName(ConfigDecls()[5].name) == ArgNames()[5]
  {
    assert ConfigDecls()[5].name == "APIKey" && ArgNames()[5] == "api-key";
    assert ToLower("API") == "api";
    ArgNameOfAcronymInitial("API", "Key", "APIKey", "api-key");
  }

  lemma ArgNameOfAPISecret()
    ensures ToArgName(ConfigDecls()[6].name) == ArgNames()[6]
  {
    assert ConfigDecls()[6].name == "APISecret" && ArgNames()[6] == "api-secret";
    assert ToLower("API") == "api";
    ArgNameOfAcronymInitial("API", "Secret", "APISecret", "api-secret");
  }

  /** The same, with the words' lower-casing spelled out. */
  lemma ArgNameOfTwoInitials(x: string, y: string, s: string, r: string)
    requires IsWord(x) && IsWord(y)
    requires s == x + y
    requires r == [LowerChar(x[0])] + x[1..] + "-" + [LowerChar(y[0])] + y[1..]
    ensures ToArgName(s) == r
  {
    LowerOfWord(x);
    LowerOfWord(y);
    ArgNameOfTwoWords(x, y, s, r);
  }

  lemma ArgNameOfOneInitial(x: string, r: string)
    requires IsWord(x) && r == [LowerChar(x[0])] + x[1..]
    ensures ToArgName(x) == r
  {
    LowerOfWord(x);
    ArgNameOfOneWord(x, r);
  }

  lemma ArgNameOfAcronymInitial(a: string, x: string, s: string, r: string)
    requires IsAcronym(a) && IsWord(x)
    requires s == a + x
    requires r == ToLower(a) + "-" + [LowerChar(x[0])] + x[1..]
    ensures ToArgName(s) == r
  {
    SpelledWithInitial(ToLower(a) + "-", x, r);
    ArgNameOfAcronymWord(a, x, s, r);
  }

  lemma SpelledWithInitial(p: string, x: string, r: string)
    requires IsWord(x) && r == p + [LowerChar(x[0])] + x[1..]
    ensures r == p + ToLower(x)
  {
    LowerOfWord(x);
  }

  /** A capitalised word lower-cases to its lower-case initial and the rest. */
  lemma LowerOfWord(w: string)
    requires IsWord(w)
    ensures ToLower(w) == [LowerChar(w[0])] + w[1..]
  {
    assert w == [w[0]] + w[1..];
    ToLowerAppend([w[0]], w[1..]);
    ToLowerOfLower(w[1..]);
  }

  /** No two of Config's flags share a name. */
  lemma ArgNamesDistinct()
    ensures |ArgNames()| == 7
    ensures forall i, j :: 0 <= i < j < 7 ==> ArgNames()[i] != ArgNames()[j]
  {
    assert forall i :: 0 <= i < 7 ==> |ArgNames()[i]| > 0;
    assert forall i, j :: 0 <= i < j < 7 ==> |ArgNames()[i]| != |ArgNames()[j]| || ArgNames()[i][0] != ArgNames()[j][0];
  }

  /** configureFlagSet binds every field of Config: there is nothing it
      cannot bind and no flag is defined twice. */
  lemma ConfigBindable()
    ensures Bindable(Fields(AppReader()))
  {
    ArgNamesOfFields();
    ArgNamesDistinct();
    BindableOf(Fields(AppReader()), ArgNames());
  }

  /** Supported fields whose argument names are given pairwise distinct names
      can all be bound. */
  lemma BindableOf(fields: seq<Descriptor>, names: seq<string>)
    requires |names| == |fields|
    requires forall i :: 0 <= i < |fields| ==> ToArgName(fields[i].name) == names[i] && !fields[i].kind.Unsupported?
    requires forall i, j :: 0 <= i < j < |names| ==> names[i] != names[j]
    ensures Bindable(fields)
  {
  }

  /** The flag each of Config's fields is bound to. */
  lemma ArgNamesOfFields()
    ensures |Fields(AppReader())| == 7
    ensures forall i :: 0 <= i < 7 ==>
      ToArgName(Fields(AppReader())[i].name) == ArgNames()[i] && !Fields(AppReader())[i].kind.Unsupported?
  {
    FieldOf(0);
    forall i | 0 <= i < 7
      ensures ToArgName(Fields(AppReader())[i].name) == ArgNames()[i] && !Fields(AppReader())[i].kind.Unsupported?
    {
      FieldOf(i);
      ArgNameOfField(i);
    }
  }

  /** The environment variables of Config's fields. */
  function EnvNames(): seq<string> {
    ["HOST", "PORT", "LOG_LEVEL", "TEXT_LOGGING", "GRACE_PERIOD", "API_KEY", "API_SECRET"]
  }

  /** envName of a flag name, character by character. */
  lemma EnvNameIs(n: string, e: string)
    requires |n| == |e| && forall k :: 0 <= k < |n| ==> e[k] == EnvChar(n[k])
    ensures EnvName(n) == e
  {
  }

  /** The variable each of Config's flags reads; with the empty prefix the
      prefixed name is the plain one. */
  lemma EnvNameOfField(i: nat)
    requires i < 7
    ensures EnvName(ArgNames()[i]) == EnvNames()[i]
  {
    if i == 0 {
      EnvNameOfHost();
    } else if i == 1 {
      EnvNameOfPort();
    } else if i == 2 {
      EnvNameOfLogLevel();
    } else if i == 3 {
      EnvNameOfTextLogging();
    } else if i == 4 {
      EnvNameOfGracePeriod();
    } else if i == 5 {
      EnvNameOfAPIKey();
    } else {
      EnvNameOfAPISecret();
    }
  }

  lemma EnvNameOfHost()
    ensures EnvName(ArgNames()[0]) == EnvNames()[0]
  {
    assert ArgNames()[0] == "host" && EnvNames()[0] == "HOST";
    EnvNameIs("host", "HOST");
  }

  lemma EnvNameOfPort()
    ensures EnvName(ArgNames()[1]) == EnvNames()[1]
  {
    assert ArgNames()[1] == "port" && EnvNames()[1] == "PORT";
    EnvNameIs("port", "PORT");
  }

  lemma EnvNameOfLogLevel()
    ensures EnvName(ArgNames()[2]) == EnvNames()[2]
  {
    assert ArgNames()[2] == "log-level" && EnvNames()[2] == "LOG_LEVEL";
    EnvNameIs("log-level", "LOG_LEVEL");
  }

  lemma EnvNameOfTextLogging()
    ensures EnvName(ArgNames()[3]) == EnvNames()[3]
  {
    assert ArgNames()[3] == "text-logging" && EnvNames()[3] == "TEXT_LOGGING";
    EnvNameIs("text-logging", "TEXT_LOGGING");
  }

  lemma EnvNameOfGracePeriod()
    ensures EnvName(ArgNames()[4]) == EnvNames()[4]
  {
    assert ArgNames()[4] == "grace-period" && EnvNames()[4] == "GRACE_PERIOD";
    EnvNameIs("grace-period", "GRACE_PERIOD");
  }

  lemma EnvNameOfAPIKey()
    ensures EnvName(ArgNames()[5]) == EnvNames()[5]
  {
    assert ArgNames()[5] == "api-key" && EnvNames()[5] == "API_KEY";
    EnvNameIs("api-key", "API_KEY");
  }

  lemma EnvNameOfAPISecret()
    ensures EnvName(ArgNames()[6]) == EnvNames()[6]
  {
    assert ArgNames()[6] == "api-secret" && EnvNames()[6] == "API_SECRET";
    EnvNameIs("api-secret", "API_SECRET");
  }

  /** With no prefix the unprefixed variable is never consulted on its own:
      a field's source is its flag, its variable, or its default. */
  lemma NoPlainEnvSource(argName: string, env: Env, args: seq<Arg>)
    ensures !SourceOf(AppReader().envPrefix, argName, env, args).PlainEnv?
  {
    assert EnvNameWithPrefix("", argName) == EnvName(argName);
  }

  // ---------------------------------------------------------------------------
  // WithoutSecrets

  /** Config has no secret field. */
  lemma NoSecretFields()
    ensures |Fields(AppReader())| == 7
    ensures forall i :: 0 <= i < 7 ==> !Fields(AppReader())[i].secret
  {
    FieldOf(0);
    forall i | 0 <= i < 7
      ensures !Fields(AppReader())[i].secret
    {
      FieldOf(i);
    }
  }

  /** Config's WithoutSecrets: with no secret field it copies everything. */
  function ConfigWithoutSecrets(cfg: seq<Value>): (r: seq<Value>)
    requires |cfg| == 7
    ensures r == cfg
  {
    NoSecretFields();
    WithoutSecretsIdentityIff(AppReader(), cfg);
    WithoutSecrets(AppReader(), cfg)
  }

  // ---------------------------------------------------------------------------
  // readConfig and ReadConfig

  /** readConfig's body once Read has run: the single-value type assertion
      config.(*Config) yields the instance inside a non-nil interface and
      panics on a nil one; Read's error is passed on untouched. */
  function ReadConfigOver(read: Run<Returned>): (r: Run<Returned>)
    ensures read.Done? && read.result.config.None? ==> r == Panicked(NilInterfaceAssertion)
    ensures read.Done? && read.result.config.Some? ==> r == read
    ensures !read.Done? ==> r == read
  {
    match read
    case Done(Returned(None, _)) => Panicked(NilInterfaceAssertion)
    case Done(Returned(Some(c), err)) => Done(Returned(Some(c), err))
    case Panicked(p) => Panicked(p)
    case Exited(code) => Exited(code)
  }

  /** The pair the written Read hands back when it returns: it panics rather
      than return an error, so the error is always nil. */
  function WrittenPair(read: Run<seq<Value>>): (r: Run<Returned>)
    ensures r.Done? <==> read.Done?
    ensures r.Done? ==> r.result == Returned(Some(read.result), None)
    ensures r.Panicked? ==> read == Panicked(r.panic)
    ensures r.Exited? ==> read == Exited(r.code)
  {
    match read
    case Done(values) => Done(Returned(Some(values), None))
    case Panicked(p) => Panicked(p)
    case Exited(code) => Exited(code)
  }

  /** readConfig(f, args) as written, on a FlagSet f with the given error
      handling. It returns only with an instance and no error: a refused
      argument exits or panics inside the flag library, or, when the FlagSet
      continues on error, panics inside Read. */
  function ReadConfigWith(mode: ErrorHandling, env: Env, args: seq<Arg>): (r: Run<Returned>)
    ensures r.Done? <==> forall k :: 0 <= k < |args| ==> AcceptedBy(Fields(AppReader()), args[k])
    ensures r.Done? ==> r.result.err.None? && r.result.config.Some?
    ensures r.Done? ==> Instance(Fields(AppReader()), r.result.config.value)
    ensures mode == ContinueOnError && !(forall k :: 0 <= k < |args| ==> AcceptedBy(Fields(AppReader()), args[k])) ==>
      r == Panicked(ZeroValueInterface)
    ensures r.Panicked? ==>
      (mode == PanicOnError && r.panic == FlagParseFailed) || (mode == ContinueOnError && r.panic == ZeroValueInterface)
    ensures r.Exited? ==> mode == ExitOnError
  {
    ReadOfConfig(mode, env, args);
    ReadConfigOver(WrittenPair(Read(AppReader(), mode, env, args)))
  }

  /** Correcting Read alone does not make readConfig report the error: the
      nil interface it would then return fails readConfig's type assertion. */
  lemma AssertionPanicsOnReturnedError(env: Env, args: seq<Arg>)
    requires !forall k :: 0 <= k < |args| ==> AcceptedBy(Fields(AppReader()), args[k])
    ensures ReadConfigOver(ReadReportingError(AppReader(), ContinueOnError, env, args)) == Panicked(NilInterfaceAssertion)
  {
    ReadOfConfig(ContinueOnError, env, args);
  }

  /** readConfig as its signature promises, over the corrected Read: the
      error is checked before the type assertion, so a refused argument on a
      FlagSet that continues on error comes back as a nil *Config with the
      error. */
  function ReadConfigReportingError(mode: ErrorHandling, env: Env, args: seq<Arg>): (r: Run<Returned>)
    ensures r.Done? && r.result.config.Some? <==> forall k :: 0 <= k < |args| ==> AcceptedBy(Fields(AppReader()), args[k])
    ensures r.Done? && r.result.config.Some? ==> Instance(Fields(AppReader()), r.result.config.value)
    ensures r.Done? ==> (r.result.config.Some? <==> r.result.err.None?)
    ensures r.Done? && r.result.err.Some? <==>
      mode == ContinueOnError && !(forall k :: 0 <= k < |args| ==> AcceptedBy(Fields(AppReader()), args[k]))
    ensures r.Panicked? ==> mode == PanicOnError && r.panic == FlagParseFailed
    ensures r.Exited? ==> mode == ExitOnError
  {
    var read := ReadReportingError(AppReader(), mode, env, args);
    ReportingErrorOfConfig(mode, env, args);
    if read.Done? && read.result.err.Some? then read else ReadConfigOver(read)
  }

  /** The corrected Read on Config: an instance exactly when every argument
      is accepted, and an error only from a FlagSet that continues on error. */
  lemma ReportingErrorOfConfig(mode: ErrorHandling, env: Env, args: seq<Arg>)
    ensures var r := ReadReportingError(AppReader(), mode, env, args);
      (r.Done? && r.result.config.Some? <==> forall k :: 0 <= k < |args| ==> AcceptedBy(Fields(AppReader()), args[k])) &&
      (r.Done? && r.result.err.Some? <==>
        mode == ContinueOnError && !(forall k :: 0 <= k < |args| ==> AcceptedBy(Fields(AppReader()), args[k]))) &&
      (r.Panicked? ==> mode == PanicOnError && r.panic == FlagParseFailed) &&
      (r.Exited? ==> mode == ExitOnError)
  {
    ReadOfConfig(mode, env, args);
  }

  /** Config's defaults parse and its fields bind, so readConfig can only fail
      on the command line. */
  lemma ReadOfConfig(mode: ErrorHandling, env: Env, args: seq<Arg>)
    ensures var r := ReadConfigValues(AppReader(), mode, env, args);
      (r.Done? && r.result.Ok? <==> forall k :: 0 <= k < |args| ==> AcceptedBy(Fields(AppReader()), args[k])) &&
      (!(r.Done? && r.result.Ok?) ==> exists e :: r == OnParseError(mode, e))
  {
    DefaultsOfConfig();
    ConfigBindable();
    ReadSucceedsIff(AppReader(), mode, env, args);
    if !forall k :: 0 <= k < |args| ==> AcceptedBy(Fields(AppReader()), args[k]) {
      ParseFailure(AppReader(), mode, env, args);
    }
  }

  /** ReadConfig: readConfig on flag.CommandLine, which exits on a flag error,
      panicking on a returned error. It never panics: a bad command line
      exits, with status 0 when the first argument refused asks for help. */
  function ReadConfig(env: Env, args: seq<Arg>): (r: Run<seq<Value>>)
    ensures !r.Panicked?
    ensures r == Read(AppReader(), ExitOnError, env, args)
    ensures r.Done? ==> ReadConfigValues(AppReader(), ExitOnError, env, args) == Done(Ok(r.result))
    ensures r.Done? <==> forall k :: 0 <= k < |args| ==> AcceptedBy(Fields(AppReader()), args[k])
    ensures r.Done? ==> Instance(Fields(AppReader()), r.result) && |r.result| == 7
    ensures r.Exited? ==> (r.code == 0 || r.code == 2)
    ensures r.Exited? ==> (r.code == 0 <==>
      exists k :: FirstUnaccepted(Fields(AppReader()), args, k) && args[k].Assign? &&
        (args[k].name == "h" || args[k].name == "help"))
  {
    var ret := ReadConfigWith(ExitOnError, env, args);
    ReadConfigWithIsRead(ExitOnError, env, args);
    ReadOnCommandLine(env, args);
    match ret
    case Done(Returned(config, err)) =>
      if err.Some? then Panicked(ConfigError) else Done(config.value)
    case Panicked(p) => Panicked(p)
    case Exited(code) => Exited(code)
  }

  /** readConfig as written hands back exactly what Read did. */
  lemma ReadConfigWithIsRead(mode: ErrorHandling, env: Env, args: seq<Arg>)
    ensures var ret := ReadConfigWith(mode, env, args);
      var read := Read(AppReader(), mode, env, args);
      (ret.Done? <==> read.Done?) &&
      (ret.Done? ==> ret.result == Returned(Some(read.result), None)) &&
      (ret.Panicked? ==> read == Panicked(ret.panic)) &&
      (ret.Exited? ==> read == Exited(ret.code))
  {
  }

  /** Read on a FlagSet that exits on error, for Config: it never panics, and
      it exits exactly when some argument is refused. */
  lemma ReadOnCommandLine(env: Env, args: seq<Arg>)
    ensures var r := Read(AppReader(), ExitOnError, env, args);
      !r.Panicked? &&
      (r.Done? ==> ReadConfigValues(AppReader(), ExitOnError, env, args) == Done(Ok(r.result))) &&
      (r.Done? <==> forall k :: 0 <= k < |args| ==> AcceptedBy(Fields(AppReader()), args[k])) &&
      (r.Done? ==> Instance(Fields(AppReader()), r.result) && |r.result| == 7) &&
      (r.Exited? ==> (r.code == 0 || r.code == 2)) &&
      (r.Exited? ==> (r.code == 0 <==>
        exists k :: FirstUnaccepted(Fields(AppReader()), args, k) && args[k].Assign? &&
          (args[k].name == "h" || args[k].name == "help")))
  {
    ReadOfConfig(ExitOnError, env, args);
    ExitOfConfig(env, args);
    FieldOf(0);
  }

  /** The exit status of a failed ReadConfig, in Config's terms: no field's
      flag is named "h" or "help". */
  lemma ExitOfConfig(env: Env, args: seq<Arg>)
    ensures var r := ReadConfigValues(AppReader(), ExitOnError, env, args);
      r.Exited? ==> (r.code == 0 <==>
        exists k :: FirstUnaccepted(Fields(AppReader()), args, k) && args[k].Assign? &&
          (args[k].name == "h" || args[k].name == "help"))
  {
    var fields := Fields(AppReader());
    var r := ReadConfigValues(AppReader(), ExitOnError, env, args);
    if r.Exited? {
      ReadOfConfig(ExitOnError, env, args);
      DefaultsOfConfig();
      ConfigBindable();
      ExitStatus(AppReader(), env, args);
      var k :| FirstUnaccepted(fields, args, k) && (r.code == 0 <==> AsksHelp(fields, args[k]));
      HelpIsNoField();
      forall m | FirstUnaccepted(fields, args, m)
        ensures m == k
      {
        FirstUnacceptedUnique(fields, args, k, m);
      }
    }
  }

  /** No flag of Config is named "h" or "help", so asking for help is just
      setting one of those names. */
  lemma HelpIsNoField()
    ensures forall a: Arg :: AsksHelp(Fields(AppReader()), a) <==> a.Assign? && (a.name == "h" || a.name == "help")
  {
    ArgNamesOfFields();
    NoHelpName();
    HelpUnshadowed(Fields(AppReader()), ArgNames());
  }

  lemma NoHelpName()
    ensures |ArgNames()| == 7
    ensures forall i :: 0 <= i < 7 ==> ArgNames()[i] != "h" && ArgNames()[i] != "help"
  {
    assert forall i :: 0 <= i < 7 ==> |ArgNames()[i]| >= 4 && (|ArgNames()[i]| != 4 || ArgNames()[i][1] == 'o');
    assert "help"[1] == 'e';
  }

  /** When no field's flag is named "h" or "help", an argument asks for help
      exactly when it sets one of those names. */
  lemma HelpUnshadowed(fields: seq<Descriptor>, names: seq<string>)
    requires |names| == |fields|
    requires forall i :: 0 <= i < |fields| ==> ToArgName(fields[i].name) == names[i]
    requires forall i :: 0 <= i < |names| ==> names[i] != "h" && names[i] != "help"
    ensures forall a: Arg :: AsksHelp(fields, a) <==> a.Assign? && (a.name == "h" || a.name == "help")
  {
  }

  // ---------------------------------------------------------------------------
  // Where each setting comes from

  /** Field i of Config holds v as its source gives it: the text of its
      flag's last assignment, else of its environment variable as the flag
      library reads it, else the field's default. */
  predicate FromItsSource(i: nat, env: Env, args: seq<Arg>, v: Value)
    requires i < 7
  {
    ConfigDeclsPlain();
    var kind := ConfigDecls()[i].kind;
    match LastAssignment(args, ArgNames()[i])
    case Some(text) => FlagValue(kind, text) == Some(v)
    case None =>
      if EnvNames()[i] in env then v == AfterSet(kind, env[EnvNames()[i]]) else v == Defaults()[i]
  }

  /** A successful ReadConfig gives every field the value of its source. */
  lemma ConfigPrecedence(env: Env, args: seq<Arg>, i: nat)
    requires ReadConfig(env, args).Done? && i < 7
    ensures FromItsSource(i, env, args, ReadConfig(env, args).result[i])
  {
    FieldOf(i);
    Precedence(AppReader(), ExitOnError, env, args, i);
    ArgNameOfField(i);
    EnvNameOfField(i);
    DefaultOfField(i);
    assert EnvNameWithPrefix("", ArgNames()[i]) == EnvName(ArgNames()[i]);
  }

  // ---------------------------------------------------------------------------
  // Scenarios

  /** PORT in the environment sets the port when no --port flag does. */
  lemma PortFromEnvironment(env: Env, args: seq<Arg>, v: Value)
    requires "PORT" in env && LastAssignment(args, "port").None?
    requires FromItsSource(1, env, args, v)
    ensures v == Str(env["PORT"])
  {
  }

  /** A --port flag beats PORT in the environment. */
  lemma FlagOverridesEnvironment(env: Env, args: seq<Arg>, t: string, v: Value)
    requires LastAssignment(args, "port") == Some(t)
    requires FromItsSource(1, env, args, v)
    ensures v == Str(t)
  {
  }

  /** With neither --grace-period nor GRACE_PERIOD, the grace period is five
      seconds. */
  lemma GracePeriodByDefault(env: Env, args: seq<Arg>, v: Value)
    requires "GRACE_PERIOD" !in env && LastAssignment(args, "grace-period").None?
    requires FromItsSource(4, env, args, v)
    ensures v == Dur(5 * Second)
  {
  }

  /** GRACE_PERIOD=10s in the environment is ten seconds. */
  lemma GracePeriodFromEnvironment(env: Env, args: seq<Arg>, v: Value)
    requires "GRACE_PERIOD" in env && env["GRACE_PERIOD"] == "10s"
    requires LastAssignment(args, "grace-period").None?
    requires FromItsSource(4, env, args, v)
    ensures v == Dur(10 * Second)
  {
    ParseDurationOfSegment(10, "s", Second);
    assert FormatDecimal(10) + "s" == "10s";
  }
}
