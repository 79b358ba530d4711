/**
 * relint's configuration loader. The YAML file is read and parsed by a
 * library; here its outcome is an abstract `Document`, and regular
 * expressions are compiled by an abstract `compile` oracle that reports
 * whether a pattern compiles, fails with a pattern error, or is refused
 * with a value error. The loader turns each entry of the document's list
 * into a `Test` rule, applying defaults, and classifies malformed
 * documents as a soft warning (which keeps the rules loaded so far) or as
 * an error.
 */
module Config {
  import opened Wrappers

  /** A value as the YAML loader produces it. */
  datatype Value =
    | Null
    | Bool(b: bool)
    | Int(i: int)
    | Float(f: real)
    | Str(s: string)
    | List(items: seq<Value>)
    | Mapping(entries: map<string, Value>)

  /** Python truthiness of a loaded value. */
  predicate Truthy(v: Value) {
    match v
    case Null => false
    case Bool(b) => b
    case Int(i) => i != 0
    case Float(f) => f != 0.0
    case Str(s) => s != []
    case List(items) => items != []
    case Mapping(entries) => entries != map[]
  }

  /** The result of parsing the configuration file. */
  datatype Document = ParseError | Parsed(value: Value)

  /** What compiling a regular expression does. */
  datatype Compilation = Compiles | PatternError | ValueRefused

  /** One lint rule. Patterns are kept as their source text. */
  datatype Test = Test(name: Value, pattern: string, hint: Value, filePattern: string, error: bool)

  const ParseErrorMessage := "Error parsing your relint config file."
  const NotAListMessage := "Your relint config is not a valid YAML list of relint tests."
  const EmptyWarning := "Your relint config is empty, no tests were executed."
  const AnyPath := ".*"

  /**
   * Why loading stopped: a `ConfigError`, or one of the failures the loader
   * lets through (a missing key, a pattern that does not compile).
   */
  datatype LoadError = ConfigError(message: string) | KeyError(key: string) | RegexError(pattern: string)

  /** Rules loaded, with the warning emitted if any, or the error raised. */
  datatype Outcome = Loaded(tests: seq<Test>, warning: Option<string>) | Failed(error: LoadError)

  /** What happens to one list entry. */
  datatype Step = Rule(test: Test) | TypeFailure | Raise(error: LoadError)

  /** The value of `key` in `entries`, or `default` when absent. */
  function Get(entries: map<string, Value>, key: string, default: Value): (v: Value)
    ensures key in entries ==> v == entries[key]
    ensures key !in entries ==> v == default
  {
    if key in entries then entries[key] else default
  }

  /**
   * Compiling a value as a regular expression: a non-string is a type
   * failure; a pattern error is let through; a value error becomes the
   * "not a valid list" `ConfigError`.
   */
  function CompileStep(v: Value, compile: string -> Compilation): (r: Option<Step>)
    ensures r.None? <==> v.Str? && compile(v.s) == Compiles
    ensures r == Some(TypeFailure) <==> !v.Str?
    ensures v.Str? ==> (r == Some(Raise(RegexError(v.s))) <==> compile(v.s) == PatternError)
    ensures v.Str? ==> (r == Some(Raise(ConfigError(NotAListMessage))) <==> compile(v.s) == ValueRefused)
  {
    if !v.Str? then Some(TypeFailure)
    else match compile(v.s)
      case Compiles => None
      case PatternError => Some(Raise(RegexError(v.s)))
      case ValueRefused => Some(Raise(ConfigError(NotAListMessage)))
  }

  /**
   * One entry: its `filePattern` (default `.*`) is compiled first, then
   * `name` and `pattern` are looked up, `pattern` is compiled, and `hint`
   * (default null) and `error` (default true, then or-ed with
   * `failWarnings`) are read.
   */
  function LoadEntry(entry: Value, failWarnings: bool, compile: string -> Compilation): (s: Step)
    ensures !entry.Mapping? ==> s == Raise(ConfigError(NotAListMessage))
    ensures s.Raise? && s.error.ConfigError? ==> s.error.message == NotAListMessage
    ensures s.Raise? && s.error.KeyError? ==>
      entry.Mapping? && s.error.key !in entry.entries && (s.error.key == "name" || s.error.key == "pattern")
    ensures entry.Mapping? && Get(entry.entries, "filePattern", Str(AnyPath)).Str?
            && compile(Get(entry.entries, "filePattern", Str(AnyPath)).s) == Compiles ==>
      && ("name" !in entry.entries ==> s == Raise(KeyError("name")))
      && ("name" in entry.entries && "pattern" !in entry.entries ==> s == Raise(KeyError("pattern")))
    ensures s == TypeFailure <==>
      && entry.Mapping?
      && var fp := Get(entry.entries, "filePattern", Str(AnyPath));
        || !fp.Str?
        || (&& compile(fp.s) == Compiles && "name" in entry.entries && "pattern" in entry.entries
            && !entry.entries["pattern"].Str?)
    ensures entry.Mapping? && CompileStep(Get(entry.entries, "filePattern", Str(AnyPath)), compile).Some? ==>
      Some(s) == CompileStep(Get(entry.entries, "filePattern", Str(AnyPath)), compile)
    ensures && entry.Mapping? && CompileStep(Get(entry.entries, "filePattern", Str(AnyPath)), compile).None?
            && "name" in entry.entries && "pattern" in entry.entries
            && CompileStep(entry.entries["pattern"], compile).Some? ==>
      Some(s) == CompileStep(entry.entries["pattern"], compile)
    ensures s.Rule? ==> entry.Mapping?
    ensures s.Rule? ==>
      var m := entry.entries;
      && "name" in m && "pattern" in m
      && s.test.name == m["name"] && m["pattern"] == Str(s.test.pattern)
      && s.test.hint == (if "hint" in m then m["hint"] else Null)
      && (if "filePattern" in m then m["filePattern"] == Str(s.test.filePattern) else s.test.filePattern == AnyPath)
      && (s.test.error <==> failWarnings || "error" !in m || Truthy(m["error"]))
      && compile(s.test.pattern) == Compiles && compile(s.test.filePattern) == Compiles
  {
    if !entry.Mapping? then Raise(ConfigError(NotAListMessage))
    else
      var m := entry.entries;
      var filePattern := Get(m, "filePattern", Str(AnyPath));
      match CompileStep(filePattern, compile)
      case Some(stop) => stop
      case None =>
        if "name" !in m then Raise(KeyError("name"))
        else if "pattern" !in m then Raise(KeyError("pattern"))
        else match CompileStep(m["pattern"], compile)
          case Some(stop) => stop
          case None =>
            Rule(Test(m["name"], m["pattern"].s, Get(m, "hint", Null), filePattern.s,
                      Truthy(Get(m, "error", Bool(true))) || failWarnings))
  }

  /**
   * The entries of a list in order. A type failure ends the loop with the
   * "empty" warning and keeps the rules loaded before it; an error discards
   * them.
   */
  function LoadEntries(entries: seq<Value>, failWarnings: bool, compile: string -> Compilation): (r: Outcome)
    ensures r.Failed? ==> exists i :: && 0 <= i < |entries|
                                      && LoadEntry(entries[i], failWarnings, compile) == Raise(r.error)
                                      && forall j :: 0 <= j < i ==> LoadEntry(entries[j], failWarnings, compile).Rule?
    ensures r.Loaded? ==> |r.tests| <= |entries|
    ensures r.Loaded? ==> forall i :: 0 <= i < |r.tests| ==> LoadEntry(entries[i], failWarnings, compile) == Rule(r.tests[i])
    ensures r.Loaded? && r.warning.None? ==> |r.tests| == |entries|
    ensures r.Loaded? && r.warning.Some? ==>
      |r.tests| < |entries| && LoadEntry(entries[|r.tests|], failWarnings, compile) == TypeFailure && r.warning == Some(EmptyWarning)
  {
    if entries == [] then Loaded([], None)
    else match LoadEntry(entries[0], failWarnings, compile)
      case TypeFailure => Loaded([], Some(EmptyWarning))
      case Raise(e) => Failed(e)
      case Rule(t) =>
        var rest := LoadEntries(entries[1..], failWarnings, compile);
        if rest.Failed? then FailureShifts(entries, failWarnings, compile, rest.error); rest
        else Loaded([t] + rest.tests, rest.warning)
  }

  /** An entry that loads, ahead of entries whose failure is `e`, leaves the failure `e`. */
  lemma FailureShifts(entries: seq<Value>, failWarnings: bool, compile: string -> Compilation, e: LoadError)
    requires entries != [] && LoadEntry(entries[0], failWarnings, compile).Rule?
    requires exists i :: && 0 <= i < |entries[1..]|
                         && LoadEntry(entries[1..][i], failWarnings, compile) == Raise(e)
                         && forall j :: 0 <= j < i ==> LoadEntry(entries[1..][j], failWarnings, compile).Rule?
    ensures exists i :: && 0 <= i < |entries|
                        && LoadEntry(entries[i], failWarnings, compile) == Raise(e)
                        && forall j :: 0 <= j < i ==> LoadEntry(entries[j], failWarnings, compile).Rule?
  {
    var i :| && 0 <= i < |entries[1..]|
             && LoadEntry(entries[1..][i], failWarnings, compile) == Raise(e)
             && forall j :: 0 <= j < i ==> LoadEntry(entries[1..][j], failWarnings, compile).Rule?;
    assert entries[i + 1] == entries[1..][i];
    forall j | 0 <= j < i + 1
      ensures LoadEntry(entries[j], failWarnings, compile).Rule?
    {
      if j > 0 { assert entries[j] == entries[1..][j - 1]; }
    }
  }

  /**
   * `load_config`: iterating a document that is not a list. Null, booleans
   * and numbers are not iterable (a type failure, so the warning); a
   * string iterates over its characters and a mapping over its keys, each a
   * string without `get`, so a non-empty one is an error.
   */
  function LoadConfig(doc: Document, failWarnings: bool, compile: string -> Compilation): (r: Outcome)
    ensures doc.ParseError? <==> r == Failed(ConfigError(ParseErrorMessage))
    ensures r.Failed? && r.error.ConfigError? && !doc.ParseError? ==> r.error.message == NotAListMessage
    ensures doc.Parsed? && doc.value.List? ==> r == LoadEntries(doc.value.items, failWarnings, compile)
    ensures doc.Parsed? && (doc.value.Null? || doc.value.Bool? || doc.value.Int? || doc.value.Float?) ==>
      r == Loaded([], Some(EmptyWarning))
    ensures doc.Parsed? && (doc.value.Str? || doc.value.Mapping?) ==>
      (if Truthy(doc.value) then r == Failed(ConfigError(NotAListMessage)) else r == Loaded([], None))
  {
    match doc
    case ParseError => Failed(ConfigError(ParseErrorMessage))
    case Parsed(v) =>
      match v
      case Null => Loaded([], Some(EmptyWarning))
      case Bool(_) => Loaded([], Some(EmptyWarning))
      case Int(_) => Loaded([], Some(EmptyWarning))
      case Float(_) => Loaded([], Some(EmptyWarning))
      case Str(s) => if s == [] then Loaded([], None) else Failed(ConfigError(NotAListMessage))
      case Mapping(m) => if m == map[] then Loaded([], None) else Failed(ConfigError(NotAListMessage))
      case List(items) => LoadEntries(items, failWarnings, compile)
  }

  /** An entry the loader turns into a rule. */
  predicate WellFormedEntry(entry: Value, compile: string -> Compilation) {
    && entry.Mapping?
    && "name" in entry.entries
    && "pattern" in entry.entries
    && entry.entries["pattern"].Str?
    && compile(entry.entries["pattern"].s) == Compiles
    && Get(entry.entries, "filePattern", Str(AnyPath)).Str?
    && compile(Get(entry.entries, "filePattern", Str(AnyPath)).s) == Compiles
  }

  lemma WellFormedEntryLoads(entry: Value, failWarnings: bool, compile: string -> Compilation)
    ensures LoadEntry(entry, failWarnings, compile).Rule? <==> WellFormedEntry(entry, compile)
  {
  }

  /**
   * A list loads into one rule per entry, in list order and without a
   * warning, exactly when every entry is well formed.
   */
  lemma {:induction false} LoadsEveryEntry(entries: seq<Value>, failWarnings: bool, compile: string -> Compilation)
    ensures (forall i :: 0 <= i < |entries| ==> WellFormedEntry(entries[i], compile)) <==>
      (LoadEntries(entries, failWarnings, compile).Loaded? && LoadEntries(entries, failWarnings, compile).warning.None?)
  {
    var r := LoadEntries(entries, failWarnings, compile);
    if forall i :: 0 <= i < |entries| ==> WellFormedEntry(entries[i], compile) {
      if entries != [] {
        WellFormedEntryLoads(entries[0], failWarnings, compile);
        forall i | 0 <= i < |entries[1..]| ensures WellFormedEntry(entries[1..][i], compile) {
          assert entries[1..][i] == entries[i + 1];
        }
        LoadsEveryEntry(entries[1..], failWarnings, compile);
      }
    }
    if r.Loaded? && r.warning.None? {
      forall i | 0 <= i < |entries| ensures WellFormedEntry(entries[i], compile) {
        WellFormedEntryLoads(entries[i], failWarnings, compile);
      }
    }
  }

  /**
   * A well-formed entry that leaves out `filePattern`, `hint` and `error`
   * gets the defaults: `.*` (which `re.match` accepts at the start of every
   * path), no hint, and an error.
   */
  lemma EntryDefaults(entry: Value, failWarnings: bool, compile: string -> Compilation, accepts: (string, string) -> bool)
    requires WellFormedEntry(entry, compile)
    requires "filePattern" !in entry.entries && "hint" !in entry.entries && "error" !in entry.entries
    requires forall path :: accepts(AnyPath, path)
    ensures LoadEntry(entry, failWarnings, compile).Rule?
    ensures var t := LoadEntry(entry, failWarnings, compile).test;
      t.filePattern == AnyPath && t.hint == Null && t.error && forall path :: accepts(t.filePattern, path)
  {
    WellFormedEntryLoads(entry, failWarnings, compile);
  }

  /** The entry `{name: ..., pattern: ...}` of relint's tests loads with the defaults. */
  lemma NamePatternDefaults(name: Value, pattern: string, failWarnings: bool, compile: string -> Compilation)
    requires compile(pattern) == Compiles && compile(AnyPath) == Compiles
    ensures LoadEntry(Mapping(map["name" := name, "pattern" := Str(pattern)]), failWarnings, compile)
      == Rule(Test(name, pattern, Null, AnyPath, true))
  {
    var m := map["name" := name, "pattern" := Str(pattern)];
    assert "filePattern" !in m && "hint" !in m && "error" !in m;
  }

  /** A rule declared with a false `error` is a warning, unless warnings fail. */
  lemma DeclaredWarning(entry: Value, failWarnings: bool, compile: string -> Compilation)
    requires WellFormedEntry(entry, compile)
    requires "error" in entry.entries && !Truthy(entry.entries["error"])
    ensures LoadEntry(entry, failWarnings, compile).test.error == failWarnings
  {
  }

  /** Every rule loaded with `failWarnings` set, as by `-W`, is an error. */
  function AllErrors(r: Outcome): (e: Outcome)
    ensures e.Failed? == r.Failed? && (r.Failed? ==> e == r)
    ensures e.Loaded? ==> |e.tests| == |r.tests| && e.warning == r.warning
    ensures e.Loaded? ==> forall t :: t in e.tests ==> t.error
    ensures e.Loaded? ==> forall i :: 0 <= i < |e.tests| ==> e.tests[i].(error := r.tests[i].error) == r.tests[i]
  {
    match r
    case Failed(_) => r
    case Loaded(tests, warning) => Loaded(seq(|tests|, i requires 0 <= i < |tests| => tests[i].(error := true)), warning)
  }

  /** `failWarnings` only decides the `error` flag of an entry's rule. */
  lemma EntryFailWarnings(entry: Value, compile: string -> Compilation)
    ensures LoadEntry(entry, false, compile).Rule? <==> LoadEntry(entry, true, compile).Rule?
    ensures LoadEntry(entry, false, compile).Rule? ==>
      LoadEntry(entry, true, compile).test == LoadEntry(entry, false, compile).test.(error := true)
    ensures !LoadEntry(entry, false, compile).Rule? ==> LoadEntry(entry, true, compile) == LoadEntry(entry, false, compile)
  {
  }

  /**
   * Setting `failWarnings` changes nothing but the `error` flag of the
   * loaded rules, which it sets on all of them.
   */
  lemma {:induction false} FailWarningsEntries(entries: seq<Value>, compile: string -> Compilation)
    ensures LoadEntries(entries, true, compile) == AllErrors(LoadEntries(entries, false, compile))
  {
    if entries != [] {
      FailWarningsEntries(entries[1..], compile);
      EntryFailWarnings(entries[0], compile);
      var r := LoadEntries(entries[1..], false, compile);
      var step := LoadEntry(entries[0], false, compile);
      if step.Rule? && r.Loaded? {
        var t := step.test;
        assert LoadEntries(entries, false, compile) == Loaded([t] + r.tests, r.warning);
        assert LoadEntries(entries, true, compile) == Loaded([t.(error := true)] + AllErrors(r).tests, r.warning);
        assert AllErrors(Loaded([t] + r.tests, r.warning)).tests == [t.(error := true)] + AllErrors(r).tests;
      }
    }
  }

  lemma FailWarnings(doc: Document, compile: string -> Compilation)
    ensures LoadConfig(doc, true, compile) == AllErrors(LoadConfig(doc, false, compile))
    ensures LoadConfig(doc, true, compile).Loaded? ==> forall t :: t in LoadConfig(doc, true, compile).tests ==> t.error
  {
    if doc.Parsed? && doc.value.List? {
      FailWarningsEntries(doc.value.items, compile);
    }
  }

  /**
   * The documents of relint's tests: an empty file (null) loads nothing
   * with the "empty" warning; `test:` (a mapping) and a list holding
   * anything but mappings are not a list of rules; a parse failure is
   * reported as such.
   */
  lemma DocumentShapes(failWarnings: bool, compile: string -> Compilation)
    ensures LoadConfig(Parsed(Null), failWarnings, compile) == Loaded([], Some(EmptyWarning))
    ensures LoadConfig(Parsed(Mapping(map["test" := Null])), failWarnings, compile) == Failed(ConfigError(NotAListMessage))
    ensures LoadConfig(Parsed(List([Str("test")])), failWarnings, compile) == Failed(ConfigError(NotAListMessage))
    ensures LoadConfig(ParseError, failWarnings, compile) == Failed(ConfigError(ParseErrorMessage))
  {
    assert map["test" := Null] != map[] by {
      assert "test" in map["test" := Null];
    }
  }
}
