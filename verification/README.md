# trading-shell: configuration reader, console routing and the F value

This project models the sequential core of trading-shell, a console for a crypto exchange, and proves properties of the model. The core has four parts.

- **The configuration reader** (`config/config_reader.go`). It reads a settings structure from struct tags, the environment and the command line:
  - it derives each field's flag name (`GracePeriod` becomes `grace-period`) and environment name (`GRACE_PERIOD`);
  - it coerces the default literal of the `config` tag to the field's kind;
  - it binds one flag per field;
  - it lets the environment override the defaults, then the command line override the environment;
  - it can produce a copy with the secret fields zeroed.

  Reflection is replaced by an explicit, ordered list of field declarations. A settings instance is the sequence of its field values.
- **The application's settings** (`config/config.go`). This is the reader applied to the seven fields of `Config` with an empty environment prefix: `ReadConfig`, `DefaultConfig` and `WithoutSecrets`.
- **The console session** (`session.go`):
  - the price statistics indexed by symbol;
  - the routing of a console line to a handler;
  - symbol selection (`Init`);
  - the guards that refuse trading while no symbol is selected;
  - the multipliers and the orders `Buy`, `SellAllNow` and `SellWall` compose.
- **The value type F** (`tools.go`). It pairs a number with an optional error, and its arithmetic passes the leftmost error on.

Modules, in dependency order:
- `Outcomes`: Option and Result.
- `Ascii`: character classes and case mapping.
- `Strconv`: strconv's ParseInt, ParseUint and ParseBool, and the number ParseInt and ParseUint return beside an error.
- `Durations`: time.ParseDuration on integer segments.
- `Names`: the two regular-expression passes of toArgName, written as scanners, and envName.
- `Schema`: kinds, values, tag parsing and iterateFields.
- `Coercion`: default literals and the flag library's Set syntax.
- `Reader`: the ConfigReader.
- `AppConfig`: `Config`.
- `Tools`: F.
- `Session`: the session.

How a Go call ends is modelled by `Run<T> = Done | Panicked | Exited`. It covers a panic, `os.Exit` from a FlagSet that exits on error, and a normal return.

## Model

| member | source | states |
|---|---|---|
| Schema.Split | config/config_reader.go:176 | strings.Split on a comma: at least one piece, no piece contains the separator, and joining the pieces gives the text back |
| Schema.SplitOfJoin | config/config_reader.go:176 | splitting undoes joining separator-free pieces |
| Schema.ParseConfigTag | config/config_reader.go:171-183 | an absent tag gives the empty default and not secret; otherwise the default literal is the text before the first comma, and the field is secret exactly when the text after it starts with the token `secret` |
| Schema.SecretIsSecondToken | config/config_reader.go:176-182 | the second comma token is exactly "secret" if and only if the tag text marks the field secret; later tokens play no part |
| Schema.Describe | config/config_reader.go:169-189 | a field's descriptor keeps its name and kind; its default literal and secret mark are those of its `config` tag, the empty default and no secret when the tag is absent; its description is the `desc` tag or "" |
| Schema.IterateFields | config/config_reader.go:164-191 | one descriptor per field, the i-th describing the i-th declaration |
| Schema.IterateFieldsAppend | config/config_reader.go:164-191 | declarations written one after another give their descriptors one after another (declaration order) |
| Schema.Zero | config/config_reader.go:96-98 | the zero value of a fresh instance fits its field's kind |
| Ascii.ToLower | config/config_reader.go:199 | lower-casing keeps the length and maps each character through the ASCII lower-case map |
| Ascii.ToUpper | config/config_reader.go:161 | upper-casing keeps the length and maps each character through the ASCII upper-case map |
| Names.FirstCapPass | config/config_reader.go:193-197 | the replace-all of `(.)([A-Z][a-z]+)` by `${1}-${2}` never shortens the text |
| Names.AllCapPass | config/config_reader.go:194-198 | the replace-all of `([a-z0-9])([A-Z]+)` by `${1}-${2}` never shortens the text |
| Names.FirstCapPassOnlyInsertsDashes | config/config_reader.go:193-197 | deleting every '-' from the first pass's output gives the input with its '-' deleted |
| Names.AllCapPassOnlyInsertsDashes | config/config_reader.go:194-198 | the same for the second pass |
| Names.ToArgName | config/config_reader.go:196-200 | a flag name has no upper-case letter and is never shorter than the field name |
| Names.ArgNameOnlyInsertsDashes | config/config_reader.go:196-200 | deleting every '-' from the flag name gives the lower-cased field name (with its own '-' deleted) |
| Names.ArgNameIdempotent | config/config_reader.go:196-200 | a name without upper-case letters is its own flag name, and deriving twice is deriving once |
| Names.FirstCapOnWords | config/config_reader.go:193-197 | on capitalised words the first pass puts a dash before every second word |
| Names.AllCapOnWords | config/config_reader.go:194-198 | the second pass puts back the dashes the first one skipped |
| Names.ArgNameOfCamelCase | config/config_reader.go:196-200 | UpperCamelCase words become their lower-cased words joined by '-' (`GracePeriod` → `grace-period`) |
| Names.ArgNameOfAcronymPrefix | config/config_reader.go:196-200 | an acronym in front of words stays one word (`APIKey` → `api-key`) |
| Names.EnvName | config/config_reader.go:160-162 | envName maps the flag name character by character, upper-casing letters and turning every '-' into '_'; it keeps the length and leaves no '-' and no lower-case letter |
| Names.EnvNameIdempotent | config/config_reader.go:160-162 | applying envName twice is applying it once |
| Names.EnvNameRoundTrip | config/config_reader.go:160-162 | on flag names without '_' or upper case, the flag name is recovered from the environment name |
| Names.EnvNameInjective | config/config_reader.go:160-162 | two such flag names with the same environment name are equal |
| Names.EnvNameWithPrefix | config/config_reader.go:156-158 | the prefixed name is the prefix followed by envName, with lengths adding up; with the empty prefix it is envName itself, so both lookups of the environment pass read the same variable |
| Strconv.ParseUint | config/config_reader.go:82 | a parsed unsigned value fits 64 bits and the text carries no sign; base 10 accepts decimal digits only |
| Strconv.DecimalDigitsOnly | config/config_reader.go:82 | text with a base-10 value consists of decimal digits |
| Strconv.ParseUintOfFormat | config/config_reader.go:82 | the decimal text of any 64-bit unsigned number parses back to it |
| Strconv.ParseInt | config/config_reader.go:75 | a parsed signed value lies in the int64 range |
| Strconv.ParseIntOfFormat | config/config_reader.go:75 | the decimal text of any int64 parses back to it |
| Strconv.ParseUintValue | config/config_reader.go:105-111 | the number ParseUint returns in every case: the value when it parses, MaxUint64 exactly on a range error, 0 exactly on a syntax error |
| Strconv.ParseIntValue | config/config_reader.go:105-111 | the number ParseInt returns in every case: the value when it parses, the int64 bound on the side of the sign on a range error, 0 on a syntax error |
| Strconv.RangeErrorHasNoValue | config/config_reader.go:105-111 | text on which the digit loop overflows has no 64-bit value, so a range error and a parsed value never meet |
| Strconv.IntRangeErrorHasNoValue | config/config_reader.go:105-111 | the same for signed text |
| Strconv.OverflowLeavesNoValue | config/config_reader.go:105-111 | once the left-to-right loop passes MaxUint64, the whole digit string has no 64-bit value |
| Strconv.DigitsValueGrows | config/config_reader.go:105-111 | reading more digits never lowers the value |
| Strconv.ParseBool | config/config_reader.go:134 | the flag library's bool syntax: true exactly for 1, t, T, TRUE, true, True; false exactly for 0, f, F, FALSE, false, False |
| Durations.ParseDuration | config/config_reader.go:65 | a parsed duration lies in the int64 range, and the empty text is refused |
| Durations.ParseDurationOfSegment | config/config_reader.go:65 | "n" followed by a unit parses to n times the unit's length |
| Durations.SegmentsAppend | config/config_reader.go:65 | segments written one after another add up |
| Durations.NegatedDuration | config/config_reader.go:65 | a leading '-' negates an unsigned duration |
| Durations.DurationExamples | config/config.go:21 | "5s" is five seconds, "2m" two minutes, and "notaduration" is refused |
| Coercion.CoerceDefault | config/config_reader.go:52-90 | the cases of one default literal. An empty literal gives the zero value. A string literal is copied. A bool is the literal == "true". A malformed literal panics with MalformedDefault. An unsupported kind panics. Every result fits the kind |
| Coercion.BoolDefaultTrueIff | config/config_reader.go:61-62 | a bool default is true if and only if the literal is exactly "true" |
| Coercion.IntDefaultOfFormat | config/config_reader.go:74-79 | the decimal text of an int64 is a default literal for that number |
| Coercion.UintDefaultOfFormat | config/config_reader.go:81-86 | the decimal text of a uint64 is a default literal for that number |
| Coercion.UintDefaultsAreDecimal | config/config_reader.go:81-86 | a non-empty uint64 default literal consists of decimal digits |
| Coercion.DurationDefaultOfSegment | config/config_reader.go:63-71 | "n" followed by a unit is a duration default of n units |
| Coercion.FlagValue | config/config_reader.go:129-147 | what a bound flag's Set makes of a text fits the flag's kind; a string flag takes the text verbatim |
| Coercion.FlagValueOfFormat | config/config_reader.go:141-144 | an integer flag accepts the decimal text of any int64 |
| Coercion.HexIsFlagSyntaxOnly | config/config_reader.go:75-144 | "0x10" is sixteen as flag text but a panicking default literal |
| Coercion.BoolSyntaxesDiffer | config/config_reader.go:62-134 | "True" and "1" are false as default literals but true as flag text; "yes" is false as a default but refused as flag text |
| Coercion.AfterSet | config/config_reader.go:105-111 | after a Set whose error is discarded, the field holds the parsed value when Set accepts the text; otherwise what the library's parser returned beside its error: false for a bool, 0 for a duration, MaxUint64 or 0 for a uint64 as the error is a range or a syntax error, and for an int the bound on the side of the sign or 0 likewise |
| Coercion.FailedSetLeavesZeroOrBound | config/config_reader.go:105-111 | a refused Set of a number leaves 0 or one of the 64-bit bounds in the field |
| Coercion.FailedSetExamples | config/config_reader.go:105-111 | "12z" leaves 0 in a uint64 field and "yes" leaves false in a bool field |
| Reader.Fields | config/config_reader.go:164-191 | the reader's descriptors, one per declared field |
| Reader.DefaultValues | config/config_reader.go:47-94 | the defaults succeed exactly when every field's literal coerces, then give an instance holding each coerced value; otherwise the panic is that of a field whose literal fails, every earlier field succeeding |
| Reader.DefaultValue | config/config_reader.go:19-21 | DefaultValue gives an instance of the reader's fields |
| Reader.ConfigureFlagSet | config/config_reader.go:122-154 | binding succeeds exactly when every kind is supported and the flag names are distinct; then it binds one flag per field, named by toArgName, with the field's value as default; otherwise it panics on the unsupported kind or the redefined flag |
| Reader.BoundFlagsAreDistinct | config/config_reader.go:122-154 | a successful binding gives every flag a name of its own |
| Reader.EnvLookup | config/config_reader.go:105-110 | the prefixed variable wins; the unprefixed one is used only when the prefixed one is absent; None exactly when both are absent |
| Reader.EnvPass | config/config_reader.go:104-111 | every cell is the Set of its variable's text when a variable is found, and is untouched otherwise; the pass never fails |
| Reader.EnvPassFits | config/config_reader.go:104-111 | after the environment pass every cell still fits its flag's kind |
| Reader.FlagIndex | config/config_reader.go:114 | the position of the first flag with a name; None exactly when no flag has it |
| Reader.ArgError | config/config_reader.go:114 | Parse asks for help exactly on an undefined "h" or "help" |
| Reader.LastAssignment | config/config_reader.go:113-114 | the text of an assignment to a name on the command line, None exactly when there is none |
| Reader.ParseArgs | config/config_reader.go:113-117 | Parse succeeds exactly when every argument is accepted; then each cell holds its flag's last assigned value (or is unchanged); otherwise it reports the error of the first refused argument |
| Reader.ParsedCell | config/config_reader.go:113-114 | after a successful parse a flag holds the text last assigned to it, or its previous value when it was not assigned |
| Reader.OnParseError | config/config_reader.go:114-117 | a parse error is returned on ContinueOnError, exits with 0 for help and 2 otherwise on ExitOnError, and panics on PanicOnError |
| Reader.ReadConfigValues | config/config_reader.go:100-120 | a successful readConfig gives an instance; a returned error happens only on ContinueOnError; an exit only on ExitOnError with status 0 or 2; a panic is a malformed default, an unsupported kind, a redefined flag or a parse failure, never Interface() of the empty value |
| Reader.BindAndParse | config/config_reader.go:102-119 | the same, from given defaults on |
| Reader.ParsedIsInstance | config/config_reader.go:113-119 | every cell a successful parse leaves fits its field |
| Reader.Precedence | config/config_reader.go:100-120 | each field of a successful read holds its explicit flag's text, else the prefixed variable's, else the unprefixed variable's, else its default |
| Reader.PrecedenceOfBinding | config/config_reader.go:102-119 | the same precedence for the binding and parsing steps |
| Reader.ReadSucceedsIff | config/config_reader.go:100-120 | readConfig succeeds exactly when every default coerces, every field binds, and every argument is accepted by some field's flag |
| Reader.AcceptedByFields | config/config_reader.go:122-154 | the bound FlagSet accepts exactly the arguments that set a field's flag to text its syntax accepts |
| Reader.ParseFailure | config/config_reader.go:114-117 | once defaults and binding succeed, a refused argument makes the read end as the error handling dictates |
| Reader.ExitStatus | config/config_reader.go:114-117 | on ExitOnError a refused argument exits: status 0 exactly when the first refused argument asks for help, 2 otherwise |
| Reader.RefusedIsFirstUnaccepted | config/config_reader.go:114 | Parse stops at the first argument no field's flag accepts, and asks for help exactly when that argument is "h" or "help" |
| Reader.Read | config/config_reader.go:23-26 | Read as written: when it returns, readConfig succeeded with that instance |
| Reader.ReadReportingError | config/config_reader.go:23-26 | Read as its signature promises: an instance or an error, never both, each the one readConfig produced; its panics and exits are those of the written Read, with the same panic or status |
| Reader.ReadPanicsOnReturnedError | config/config_reader.go:23-26 | the written Read panics on Interface() of the empty value exactly when readConfig returns an error |
| Reader.ReadAgreesUnlessContinuing | config/config_reader.go:23-26 | on a FlagSet that exits or panics on error, both versions of Read return the same instance |
| Reader.WithoutSecrets | config/config_reader.go:28-45 | the redacted copy holds the source's value in every non-secret field and the zero value in every secret one |
| Reader.Redact | config/config_reader.go:33-42 | the same, field by field over descriptors |
| Reader.RedactedIsInstance | config/config_reader.go:28-45 | a redacted instance is still an instance |
| Reader.WithoutSecretsIdempotent | config/config_reader.go:28-45 | redacting twice is redacting once |
| Reader.SecretsDoNotLeak | config/config_reader.go:28-45 | two instances that differ only in secret fields redact to the same copy |
| Reader.WithoutSecretsIdentityIff | config/config_reader.go:28-45 | redaction returns its input exactly when every secret field already holds the zero value |
| AppConfig.FieldOf | config/config.go:16-25 | Config has seven supported, non-secret fields, each described by its tags |
| AppConfig.DefaultGracePeriod | config/config.go:21 | the grace period's default literal "5s" is five seconds |
| AppConfig.DefaultOfField | config/config.go:17-24 | each field's default literal coerces to localhost, 8080, error, true, 5s, "" and "" |
| AppConfig.DefaultsOfConfig | config/config.go:40-42 | the reader's DefaultValue on Config is that instance |
| AppConfig.DefaultConfig | config/config.go:40-42 | DefaultConfig does not panic and returns that instance |
| AppConfig.ArgNameOfField | config/config.go:17-24 | the flags are host, port, log-level, text-logging, grace-period, api-key, api-secret |
| AppConfig.ArgNamesDistinct | config/config.go:17-24 | no two of Config's flags share a name |
| AppConfig.ConfigBindable | config/config.go:16-25 | binding Config's fields never panics |
| AppConfig.EnvNameOfField | config/config.go:17-24 | the variables are HOST, PORT, LOG_LEVEL, TEXT_LOGGING, GRACE_PERIOD, API_KEY, API_SECRET |
| AppConfig.NoPlainEnvSource | config/config.go:10-13 | with the empty prefix the prefixed and unprefixed lookups name the same variable, so the unprefixed branch is never the source |
| AppConfig.NoSecretFields | config/config.go:17-24 | no field of Config is tagged secret |
| AppConfig.ConfigWithoutSecrets | config/config.go:44-46 | Config's WithoutSecrets is a field-for-field copy, API credentials included |
| AppConfig.ReadConfigWith | config/config.go:35-38 | readConfig as written returns exactly when every argument is accepted, and then with an instance and a nil error; with a FlagSet that continues on error a refused argument panics inside Read instead of coming back as an error; other refusals panic with the parse failure or exit |
| AppConfig.ReadConfigOver | config/config.go:37 | the type assertion `config.(*Config)` panics on a nil interface and otherwise passes the instance and Read's error on |
| AppConfig.WrittenPair | config/config_reader.go:23-26 | the pair the written Read hands back whenever it returns carries the instance and a nil error |
| AppConfig.ReadConfigWithIsRead | config/config.go:35-38 | readConfig as written hands back exactly what Read did, with a nil error |
| AppConfig.AssertionPanicsOnReturnedError | config/config.go:35-38 | with Read corrected alone, a refused argument on a FlagSet that continues on error still panics, at the type assertion on the nil interface |
| AppConfig.ReadConfigReportingError | config/config.go:35-38 | the corrected readConfig: an instance exactly when every argument is accepted, an error instead exactly when some argument is refused on a FlagSet that continues on error, never both |
| AppConfig.ReportingErrorOfConfig | config/config_reader.go:23-26 | the corrected Read on Config returns an instance exactly when every argument is accepted and an error exactly on a refusal by a FlagSet that continues on error |
| AppConfig.ReadOfConfig | config/config.go:35-38 | Config's defaults and binding never fail, so only the command line can make readConfig fail |
| AppConfig.ReadConfig | config/config.go:27-33 | ReadConfig never panics: it returns an instance exactly when every argument is accepted, and otherwise exits with 0 on a help request and 2 on any other refused argument |
| AppConfig.ReadOnCommandLine | config/config.go:27-33 | Read on a FlagSet that exits on error, for Config, never panics; it returns exactly when every argument is accepted and exits with 0 exactly on a help request |
| AppConfig.ExitOfConfig | config/config.go:27-33 | the exit status in Config's terms: 0 exactly when the first refused argument is "h" or "help" |
| AppConfig.HelpIsNoField | config/config.go:17-24 | no field shadows "h" or "help", so any assignment to them asks for help |
| AppConfig.ConfigPrecedence | config/config.go:27-33 | each field of a successful ReadConfig holds its flag's text, else its variable's, else its default |
| AppConfig.PortFromEnvironment | config/config.go:18 | PORT in the environment sets the port when no --port is given |
| AppConfig.FlagOverridesEnvironment | config/config.go:18 | a --port flag beats PORT in the environment |
| AppConfig.GracePeriodByDefault | config/config.go:21 | with neither --grace-period nor GRACE_PERIOD, the grace period is five seconds |
| AppConfig.GracePeriodFromEnvironment | config/config.go:21 | GRACE_PERIOD=10s in the environment makes the grace period ten seconds |
| Tools.FirstError | tools.go:82-133 | the reference for propagation: the error of the leftmost invalid operand, None exactly when all are valid |
| Tools.Valid | tools.go:144-146 | a value is valid exactly when no error is attached |
| Tools.Sub | tools.go:82-92 | an invalid receiver is returned; else an invalid argument is returned; the error is the leftmost operand error |
| Tools.Add | tools.go:94-104 | the same for Add |
| Tools.Mult | tools.go:106-116 | the same for Mult |
| Tools.Div | tools.go:118-133 | the same for Div, and a valid zero divisor gives the "division by zero" error; the quotient is valid exactly when both operands are valid and the divisor is non-zero |
| Tools.Floor | tools.go:135-142 | an invalid value is unchanged, validity is kept, and a valid result is the largest integer not above the value |
| Tools.FromError | tools.go:190-194 | valid exactly when the error is nil |
| Tools.FromF | tools.go:208-212 | a valid value holding the number |
| Tools.FromI | tools.go:214-218 | a valid value holding the integer |
| Tools.ChainCarriesLeftmostError | tools.go:82-133 | without a zero divisor, a left-nested chain carries the error of its leftmost invalid operand |
| Tools.ChainValidIff | tools.go:82-133 | a chain is valid exactly when every operand is valid and no division has a zero divisor |
| Tools.InvalidReceiverSurvives | tools.go:82-133 | an invalid receiver comes out of any chain unchanged |
| Session.IndexStats | session.go:55-57 | the index has a key for exactly the listed symbols; each entry is filed under its own symbol; a later entry with the same symbol replaces an earlier one |
| Session.Start | session.go:29-58 | a new session selects nothing, indexes the listed statistics consistently, invests 50 and uses the multipliers 1.2, 4.5 and 1 |
| Session.SplitLine | session.go:319-323 | the command holds no space; with a space the line is command, space, argument; without one the command is the whole line and the argument "" |
| Session.SplitOfJoined | session.go:319-323 | splitting undoes joining a space-free command to its argument |
| Session.Dispatch | session.go:317-361 | known commands call their handler with the argument; "", init and i select the argument; an unknown command selects itself while nothing is selected and is refused with the whole line otherwise |
| Session.Route | session.go:324-352 | the switch knows exactly the listed command words, and selects on exactly "", "init" and "i" |
| Session.Resolve | session.go:113-121 | a typed symbol resolves to a key of the statistics: the upper-cased symbol when it is a key, else the upper-cased symbol with "BTC"; nothing exactly when neither is a key |
| Session.SetInvestUnreachable | session.go:319-352 | no line reaches the "set invest" case |
| Session.UpperCaseAliasSelects | session.go:354-356 | aliases are case-sensitive: with nothing selected "BUY" selects the symbol BUY |
| Session.UpperCaseAliasRefused | session.go:357-358 | with a symbol selected "BUY 2" is refused as not a command |
| Session.LowerCaseAliasBuys | session.go:335-337 | "b 2" reaches the buy handler with argument "2" |
| Session.Info | session.go:296-300 | Info refuses exactly when nothing is selected |
| Session.Init | session.go:111-132 | keeps the index consistent; "" keeps the session and shows the info; the upper-cased symbol is preferred as key over symbol + "BTC"; a miss changes nothing and answers SYMBOL NOT FOUND; a hit selects the resolved key, sets the recent average and the base price to the key's average price, the 24-hour average to the parsed weighted average and the BTC price to the exchange's, and answers a BTC price error exactly when that price is invalid, followed by the info; the investment and the three multipliers are never changed |
| Session.InitIdempotent | session.go:111-122 | typing the same symbol again keeps the selection it made |
| Session.ReselectInAnyCase | session.go:111-122 | typing the selected symbol in any letter case selects it again |
| Session.ParserOnlyForArguments | session.go:140-143 | without an argument Buy and SellAllNow use the session's multipliers and never consult the number parser; with one, the parsed argument replaces them |
| Session.BuyQuantity | session.go:147 | the buy quantity is valid exactly when investment, BTC price and limit are valid and neither divisor is zero; otherwise it carries the leftmost error |
| Session.QuantityChain | session.go:147 | the two divisions of the quantity as a chain of F |
| Session.BuyOrder | session.go:134-147 | refused exactly when nothing is selected; otherwise a buy of the selected symbol at the base price times the multiplier, for the investment in BTC divided by that limit and rounded down, valid only if limit, BTC price and investment are |
| Session.Multiplier | session.go:140-143 | the multiplier is the session default when no argument is typed, and the parsed argument otherwise |
| Session.SellAllOrder | session.go:176-197 | refused exactly when nothing is selected; otherwise a sell of the selected symbol at the base price times the minimum multiplier or the argument, of the free balance rounded down, valid exactly when the free balance is |
| Session.SellWall | session.go:209-246 | refused exactly when nothing is selected; otherwise sends orders for steps 4, 3, 2, 1 in that order, each of a quarter of the free balance at base price + step × delta, and stops right after the first refused order |
| Session.GuardsRefuseWithoutSymbol | session.go:135-138 | with nothing selected Buy, SellAllNow and Info only answer NO SYMBOL SELECTED! |

## Left out

- Exchange and network calls are parameters:
  - the statistics listing of StartSession;
  - the recent average and BTC prices of Init;
  - the free balance of SellAllNow and SellWall;
  - the exchange's acceptance of each order.

  The exchange-info listing, balances, CancelAllOrders before selling, and the order replies and their messages are not modelled.
- Channels, goroutines and `time.Sleep` are not modelled; dispatch is a per-line classifier. main.go is not part of this model.
- The handlers ShowConfig, CancelAllOrders, Price, OrderHistory and SymbolInfo talk only to the exchange. Dispatch routes to them, and their bodies are left out.
- Floating point: F's values are exact reals. Formatting (`String`, `StringPrice`, `FormatPercent`, ...) and `FromS` (ParseFloat) are left out; `FromS` is the `parse` parameter.
- Tools.Sub: states validity and errors, not the computed difference, because floating-point rounding is not modelled.
- Tools.Add: states validity and errors, not the computed sum, for the same reason.
- Tools.Mult: states validity and errors, not the computed product, for the same reason.
- Tools.Div: states validity and errors, not the computed quotient, for the same reason.
- Durations.ParseDuration: integer segments only; fractional segments such as "1.5h" are refused. Overflow is checked once on the total, not per segment.
- Fields of kind uint, uint8, uint16, uint32, float and the other kinds the default pass does not handle are `Unsupported`, so they panic.
- Case mapping is ASCII only, both in toArgName and in Init's upper-casing of a symbol.
- The command line reaches the model already tokenised as assignments (`Arg`). The flag library's own lexing of `-name value`, `--name=value` and boolean flags is left out, and so is the usage text.
- Strconv.ParseIntValue: for `int` fields the model takes Go's int to be 64 bits wide, as on the 64-bit platforms the program targets.
- Reader.ConfigureFlagSet / Reader.ReadConfigValues: the FlagSet starts empty (main.go registers no flags). Flags another package put on flag.CommandLine before ReadConfig would also be visited by the environment pass and accepted on the command line, and one whose name equals a field's flag name would make configureFlagSet panic with a redefinition.
- Reader.EnvPass: follows the code, which discards Set's error in the environment pass. A malformed variable therefore never fails the read.
- AppConfig.ReadConfig: its `panic(err)` cannot be reached. flag.CommandLine exits on a parse error before readConfig can return one, and the model proves this.

## Findings

| source | as written | input that shows it | evidently intended | confidence | as-written member | corrected member |
|---|---|---|---|---|---|---|
| config/config_reader.go:23-26 | Read calls `c.Interface()` on the empty `reflect.Value` that readConfig returns together with a parse error, which panics | a FlagSet created with ContinueOnError and the argument `-nosuchflag` | return a nil instance together with the parse error, as the `(interface{}, error)` signature promises; readConfig in config/config.go must then check the error before its type assertion, which panics on the nil interface (AppConfig.AssertionPanicsOnReturnedError) | not executed | Reader.Read, AppConfig.ReadConfigWith (discrepancy: Reader.ReadPanicsOnReturnedError) | Reader.ReadReportingError, AppConfig.ReadConfigReportingError |
