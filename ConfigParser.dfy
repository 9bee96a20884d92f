/**
 * The configuration side of the tracker (config_parser.py): `${NAME}`
 * substitution in the raw text, validation of the parsed document, the branch
 * strategy lookup with per-repository overrides, and the date range with its
 * weekend look-back.  The YAML document is taken as already parsed into the
 * typed record `Config`; the environment, the clock and the operator's answer
 * are parameters.
 */
module ConfigParser {
  import opened Wrappers
  import opened Strings
  import opened Dates

  // ----- `${NAME}` substitution -----

  /** Index of the first `}` at or after `i`, or `|s|` when there is none. */
  function NextBrace(s: string, i: nat): (q: nat)
    requires i <= |s|
    ensures i <= q <= |s|
    ensures q < |s| ==> s[q] == '}'
    ensures forall k :: i <= k < q ==> s[k] != '}'
    decreases |s| - i
  {
    if i == |s| then |s| else if s[i] == '}' then i else NextBrace(s, i + 1)
  }

  /** `s[i..j+1]` is `${NAME}` with NAME non-empty and free of `}`. */
  predicate RefAt(s: string, i: int, j: int) {
    0 <= i && i + 2 < j < |s| && s[i] == '$' && s[i + 1] == '{' && s[j] == '}'
    && forall k :: i + 2 <= k < j ==> s[k] != '}'
  }

  /** Where a reference that starts `s` ends: the index of its `}`. */
  function RefEnd(s: string): (r: Option<nat>)
    ensures r.Some? ==> RefAt(s, 0, r.value)
    ensures r.None? ==> forall j :: !RefAt(s, 0, j)
  {
    if |s| >= 3 && s[0] == '$' && s[1] == '{' then
      var q := NextBrace(s, 2);
      if 2 < q < |s| then Some(q) else None
    else None
  }

  /**
   * `re.sub(r'\$\{([^}]+)\}', ...)`: each `${NAME}` becomes the value of NAME
   * in `env`, or stays as written when NAME is not set; the scan resumes after
   * the reference, so inserted values are never scanned again.
   */
  function ExpandEnvVars(s: string, env: map<string, string>): (r: string)
    ensures '$' !in s ==> r == s
    decreases |s|
  {
    if s == [] then []
    else match RefEnd(s)
      case Some(q) =>
        var name := s[2..q];
        (if name in env then env[name] else s[..q + 1]) + ExpandEnvVars(s[q + 1..], env)
      case None => [s[0]] + ExpandEnvVars(s[1..], env)
  }

  ghost predicate NoRefs(s: string) {
    forall i, j :: !RefAt(s, i, j)
  }

  /** A reference in the tail is a reference in the whole, one place further on. */
  lemma RefInTail(s: string, i: int, j: int)
    requires s != []
    ensures RefAt(s[1..], i, j) ==> RefAt(s, i + 1, j + 1)
  {
  }

  /** Text with no `${NAME}` in it comes back unchanged. */
  lemma {:induction false} ExpandWithoutRefs(s: string, env: map<string, string>)
    requires NoRefs(s)
    ensures ExpandEnvVars(s, env) == s
  {
    if s != [] {
      forall i, j ensures !RefAt(s[1..], i, j) {
        RefInTail(s, i, j);
      }
      ExpandWithoutRefs(s[1..], env);
      assert s == [s[0]] + s[1..];
    }
  }

  /** Text free of `$` is copied, and expansion carries on after it. */
  lemma {:induction false} ExpandPlainPrefix(a: string, b: string, env: map<string, string>)
    requires '$' !in a
    ensures ExpandEnvVars(a + b, env) == a + ExpandEnvVars(b, env)
  {
    if a == [] {
      assert a + b == b;
    } else {
      var head, rest, e := a[..1], a[1..], ExpandEnvVars(b, env);
      NoDollarTail(a);
      PlainStep(a, b, env);
      ExpandPlainPrefix(rest, b, env);
      assert head + (rest + e) == (head + rest) + e;
      assert head + rest == a;
    }
  }

  lemma NoDollarTail(a: string)
    requires a != [] && '$' !in a
    ensures '$' !in a[1..]
  {
    forall i | 0 <= i < |a[1..]| ensures a[1..][i] != '$' {
      assert a[1..][i] == a[i + 1];
    }
  }

  /** One character of `$`-free text is copied, and expansion goes on with the rest. */
  lemma PlainStep(a: string, b: string, env: map<string, string>)
    requires a != [] && a[0] != '$'
    ensures ExpandEnvVars(a + b, env) == a[..1] + ExpandEnvVars(a[1..] + b, env)
  {
    var s := a + b;
    assert s[..1] == a[..1] && s[1..] == a[1..] + b;
    NoRefAtPlain(s);
    ExpandNonRef(s, env);
  }

  /** No reference starts at a character other than `$`. */
  lemma NoRefAtPlain(s: string)
    requires s != [] && s[0] != '$'
    ensures forall j :: !RefAt(s, 0, j)
  {
  }

  /**
   * Where the pattern matches at no length, `re.sub` copies one character,
   * `$` included, and goes on scanning from the next one.
   */
  lemma ExpandNonRef(s: string, env: map<string, string>)
    requires s != [] && forall j :: !RefAt(s, 0, j)
    ensures ExpandEnvVars(s, env) == s[..1] + ExpandEnvVars(s[1..], env)
  {
    assert RefEnd(s).None?;
    assert s[..1] == [s[0]];
  }

  /**
   * A match at the front is unique: it ends at the first `}` after `${`, so
   * `RefEnd` finds exactly the match there is.
   */
  lemma RefEndUnique(s: string, q: int)
    ensures RefEnd(s) == Some(q) <==> RefAt(s, 0, q)
  {
    if RefAt(s, 0, q) {
      var p := NextBrace(s, 2);
      if p > q { assert false; }
      if p < q { assert false; }
    }
  }

  /** A reference after other text is replaced too: `a${X}` with `X` set to `v` gives `av`. */
  lemma ExpandAfterText()
    ensures ExpandEnvVars("a${X}", map["X" := "v"]) == "av"
  {
    var env := map["X" := "v"];
    ExpandRef("X", "", env);
    assert "${" + "X" + "}" + "" == "${X}";
    ExpandPlainPrefix("a", "${X}", env);
    assert "a" + "${X}" == "a${X}";
  }

  /** With nothing set in the environment, every reference stays as written. */
  lemma {:induction false} ExpandEmptyEnv(s: string)
    ensures ExpandEnvVars(s, map[]) == s
    decreases |s|
  {
    if s != [] {
      match RefEnd(s)
      case Some(q) =>
        ExpandEmptyEnv(s[q + 1..]);
        KeepUnsetRef(s, q);
      case None =>
        ExpandEmptyEnv(s[1..]);
        KeepNonRef(s);
    }
  }

  /** With nothing set, a reference at the front stays, so `s` does when its tail does. */
  lemma KeepUnsetRef(s: string, q: nat)
    requires RefEnd(s) == Some(q)
    requires ExpandEnvVars(s[q + 1..], map[]) == s[q + 1..]
    ensures ExpandEnvVars(s, map[]) == s
  {
    RefEndUnique(s, q);
    ExpandAtRef(s, map[], q);
    assert s[..q + 1] + s[q + 1..] == s;
  }

  /** A character that starts no reference stays, so `s` does when its tail does. */
  lemma KeepNonRef(s: string)
    requires s != [] && RefEnd(s).None?
    requires ExpandEnvVars(s[1..], map[]) == s[1..]
    ensures ExpandEnvVars(s, map[]) == s
  {
    ExpandNonRef(s, map[]);
    assert s[..1] + s[1..] == s;
  }

  /**
   * Where the pattern matches `s[..q + 1]` at the front, the match is replaced
   * by the value of its name, or kept when the name is unset, and scanning
   * resumes after the `}`.
   */
  lemma ExpandAtRef(s: string, env: map<string, string>, q: nat)
    requires RefAt(s, 0, q)
    ensures q + 1 <= |s|
    ensures ExpandEnvVars(s, env)
         == (if s[2..q] in env then env[s[2..q]] else s[..q + 1]) + ExpandEnvVars(s[q + 1..], env)
  {
    RefEndUnique(s, q);
  }

  /**
   * A reference at the front is replaced by the variable's value taken
   * verbatim (or kept when unset), and expansion continues after it.
   */
  lemma ExpandRef(name: string, rest: string, env: map<string, string>)
    requires name != [] && '}' !in name
    ensures ExpandEnvVars("${" + name + "}" + rest, env)
         == (if name in env then env[name] else "${" + name + "}") + ExpandEnvVars(rest, env)
  {
    var s := "${" + name + "}" + rest;
    var q := |name| + 2;
    assert s[q] == '}';
    assert forall k :: 2 <= k < q ==> s[k] == name[k - 2];
    assert NextBrace(s, 2) == q;
    assert s[2..q] == name;
    assert s[..q + 1] == "${" + name + "}";
    assert s[q + 1..] == rest;
  }

  // ----- The parsed document -----

  /** A YAML value that should be a list of strings. */
  datatype Listish = AList(items: seq<string>) | NotAList

  /**
   * A `{mode, branches}` mapping; absent keys are `None`.  `modeNull` tells a
   * `mode` key holding null from a missing one: `.get('mode')` reads both as
   * `None`, `.get('mode', 'all')` does not.
   */
  datatype Strategy = Strategy(mode: Option<string>, branches: Option<Listish>, modeNull: bool)

  /** One `overrides` entry, in document order. */
  datatype Override = Override(repo: string, strategy: Strategy)

  /** A non-empty `branch_strategy` mapping. */
  datatype Section = Section(mode: Option<string>, branches: Option<Listish>, overrides: seq<Override>)

  /** The `github` mapping; an absent or empty token is `""`, absent organizations `[]`. */
  datatype GithubSection = GithubSection(token: string, organizations: seq<string>, usernames: Option<Listish>)

  /** The `date_range` mapping; an absent or empty bound is `""`. */
  datatype DateRangeSection = DateRangeSection(from: string, to: string)

  /** A non-empty document.  `branchStrategy` is `None` when absent or empty. */
  datatype Config = Config(github: GithubSection, branchStrategy: Option<Section>, dateRange: DateRangeSection)

  datatype ConfigError =
    | EmptyConfiguration
    | TokenRequired
    | OrganizationRequired
    | UsernameRequired
    | StrategySectionRequired
    | InvalidMode
    | BranchesRequired(mode: string)
    | InvalidRepositoryName(repo: string)
    | InvalidRepositoryMode(repo: string, repoMode: Option<string>)
    | RepositoryBranchesRequired(repo: string, mode: string)
    | InvalidDateFormat(field: string, value: string)

  predicate KnownMode(m: Option<string>) {
    m == Some("all") || m == Some("specific") || m == Some("priority")
  }

  predicate NeedsBranches(m: Option<string>) {
    m == Some("specific") || m == Some("priority")
  }

  /** `value and isinstance(value, list)`. */
  predicate NonEmptyList(b: Option<Listish>) {
    b.Some? && b.value.AList? && b.value.items != []
  }

  // ----- Validation -----

  /** The checks made on one `overrides` entry, in the order they are made. */
  function OverrideError(o: Override): (r: Option<ConfigError>)
    ensures r.None? <==> '/' in o.repo && KnownMode(o.strategy.mode)
                         && (NeedsBranches(o.strategy.mode) ==> NonEmptyList(o.strategy.branches))
  {
    if '/' !in o.repo then Some(InvalidRepositoryName(o.repo))
    else if !KnownMode(o.strategy.mode) then Some(InvalidRepositoryMode(o.repo, o.strategy.mode))
    else if NeedsBranches(o.strategy.mode) && !NonEmptyList(o.strategy.branches) then
      Some(RepositoryBranchesRequired(o.repo, o.strategy.mode.value))
    else None
  }

  /** The error of the first bad entry in document order, if any. */
  function FirstOverrideError(ovs: seq<Override>): (r: Option<ConfigError>)
    ensures r.Some? ==> r.value.InvalidRepositoryName? || r.value.InvalidRepositoryMode?
                        || r.value.RepositoryBranchesRequired?
  {
    if ovs == [] then None
    else if OverrideError(ovs[0]).Some? then OverrideError(ovs[0])
    else FirstOverrideError(ovs[1..])
  }

  /** No error means every entry is good; an error is that of the first bad entry. */
  lemma {:induction false} FirstOverrideErrorSpec(ovs: seq<Override>)
    ensures FirstOverrideError(ovs).None? <==> forall i :: 0 <= i < |ovs| ==> OverrideError(ovs[i]).None?
    ensures FirstOverrideError(ovs).Some? ==>
              exists i :: 0 <= i < |ovs| && FirstOverrideError(ovs) == OverrideError(ovs[i])
                          && forall j :: 0 <= j < i ==> OverrideError(ovs[j]).None?
  {
    if ovs != [] && OverrideError(ovs[0]).None? {
      FirstOverrideErrorSpec(ovs[1..]);
      if FirstOverrideError(ovs).Some? {
        var i :| 0 <= i < |ovs[1..]| && FirstOverrideError(ovs[1..]) == OverrideError(ovs[1..][i])
                 && forall j :: 0 <= j < i ==> OverrideError(ovs[1..][j]).None?;
        assert FirstOverrideError(ovs) == OverrideError(ovs[i + 1]);
        forall j | 0 <= j < i + 1 ensures OverrideError(ovs[j]).None? {
          if j > 0 { assert ovs[j] == ovs[1..][j - 1]; }
        }
      } else {
        forall i | 0 <= i < |ovs| ensures OverrideError(ovs[i]).None? {
          if i > 0 { assert ovs[i] == ovs[1..][i - 1]; }
        }
      }
    }
  }

  /** The loop over `overrides.items()`, stopping at the first bad entry. */
  method CheckOverrides(ovs: seq<Override>) returns (err: Option<ConfigError>)
    ensures err == FirstOverrideError(ovs)
  {
    var i := 0;
    while i < |ovs|
      invariant 0 <= i <= |ovs|
      invariant FirstOverrideError(ovs) == FirstOverrideError(ovs[i..])
    {
      assert ovs[i..][1..] == ovs[i + 1..];
      var e := OverrideError(ovs[i]);
      if e.Some? {
        return e;
      }
      i := i + 1;
    }
    return None;
  }

  /** `strptime` with either accepted format succeeds. */
  predicate DateAccepted(s: string) {
    ParseYmdHm(s).Some? || ParseYmd(s).Some?
  }

  /** `_validate_date_format`: `YYYY-MM-DD HH:MM` is tried first, then `YYYY-MM-DD`. */
  function ValidateDateFormat(s: string, field: string): (r: Option<ConfigError>)
    ensures r.None? <==> DateAccepted(s)
    ensures r.Some? ==> r.value == InvalidDateFormat(field, s)
  {
    if ParseYmdHm(s).Some? then None
    else if ParseYmd(s).Some? then None
    else Some(InvalidDateFormat(field, s))
  }

  /** Every date and every date with time that `strftime` writes is accepted. */
  lemma FormattedDatesValidate(d: Date, t: DateTime, field: string)
    requires ValidDate(d) && ValidDateTime(t)
    ensures ValidateDateFormat(FormatYmd(d), field) == None
    ensures ValidateDateFormat(FormatYmdHm(t), field) == None
  {
    ParseFormatYmd(d);
    ParseFormatYmdHm(t);
  }

  /** `_validate_config`: the checks in the order they are made; the first failure wins. */
  function ConfigErrorOf(c: Option<Config>): (r: Option<ConfigError>)
    ensures r == Some(EmptyConfiguration) <==> c.None?
    ensures r.Some? && r.value.InvalidDateFormat? ==> r.value.field == "from" || r.value.field == "to"
  {
    if c.None? then Some(EmptyConfiguration)
    else
      var g := c.value.github;
      var dr := c.value.dateRange;
      if g.token == "" then Some(TokenRequired)
      else if g.organizations == [] then Some(OrganizationRequired)
      else if !NonEmptyList(g.usernames) then Some(UsernameRequired)
      else if c.value.branchStrategy.None? then Some(StrategySectionRequired)
      else
        var bs := c.value.branchStrategy.value;
        if !KnownMode(bs.mode) then Some(InvalidMode)
        else if NeedsBranches(bs.mode) && !NonEmptyList(bs.branches) then Some(BranchesRequired(bs.mode.value))
        else if FirstOverrideError(bs.overrides).Some? then FirstOverrideError(bs.overrides)
        else if dr.from != "" && !DateAccepted(dr.from) then ValidateDateFormat(dr.from, "from")
        else if dr.to != "" && !DateAccepted(dr.to) then ValidateDateFormat(dr.to, "to")
        else None
  }

  /** A mode and its branches as the validation demands them. */
  predicate StrategyOk(mode: Option<string>, branches: Option<Listish>) {
    KnownMode(mode) && (NeedsBranches(mode) ==> NonEmptyList(branches))
  }

  /** What a document that passes validation looks like, stated field by field. */
  predicate WellFormed(c: Config) {
    && c.github.token != ""
    && c.github.organizations != []
    && NonEmptyList(c.github.usernames)
    && c.branchStrategy.Some?
    && StrategyOk(c.branchStrategy.value.mode, c.branchStrategy.value.branches)
    && (forall o :: o in c.branchStrategy.value.overrides ==>
          '/' in o.repo && StrategyOk(o.strategy.mode, o.strategy.branches))
    && (c.dateRange.from == "" || DateAccepted(c.dateRange.from))
    && (c.dateRange.to == "" || DateAccepted(c.dateRange.to))
  }

  /** Validation passes exactly on well-formed documents. */
  lemma ValidIffWellFormed(c: Option<Config>)
    ensures ConfigErrorOf(c).None? <==> c.Some? && WellFormed(c.value)
  {
    if c.Some? && c.value.branchStrategy.Some? {
      var ovs := c.value.branchStrategy.value.overrides;
      FirstOverrideErrorSpec(ovs);
      if forall i :: 0 <= i < |ovs| ==> OverrideError(ovs[i]).None? {
        forall o | o in ovs ensures '/' in o.repo && StrategyOk(o.strategy.mode, o.strategy.branches) {
          var i :| 0 <= i < |ovs| && ovs[i] == o;
        }
      }
    }
  }

  /** An override key needs only to contain `/`: `"org/"` passes. */
  lemma OverrideKeyNeedsOnlySlash()
    ensures OverrideError(Override("org/", Strategy(Some("all"), None, false))) == None
    ensures OverrideError(Override("repo", Strategy(Some("all"), None, false))) == Some(InvalidRepositoryName("repo"))
  {
    assert "org/"[3] == '/';
  }

  /** The parser object: `load` stores the parsed document and then validates it. */
  class ConfigParser {
    var configPath: string
    var config: Option<Config>

    constructor (configPath: string)
      ensures this.configPath == configPath && config == None
    {
      this.configPath := configPath;
      config := None;
    }

    /** `_validate_config` on the stored document. */
    method ValidateConfig() returns (err: Option<ConfigError>)
      ensures err == ConfigErrorOf(config)
    {
      if config.None? { return Some(EmptyConfiguration); }
      var g := config.value.github;
      if g.token == "" { return Some(TokenRequired); }
      if g.organizations == [] { return Some(OrganizationRequired); }
      if !NonEmptyList(g.usernames) { return Some(UsernameRequired); }
      if config.value.branchStrategy.None? { return Some(StrategySectionRequired); }
      var bs := config.value.branchStrategy.value;
      if !KnownMode(bs.mode) { return Some(InvalidMode); }
      if NeedsBranches(bs.mode) && !NonEmptyList(bs.branches) { return Some(BranchesRequired(bs.mode.value)); }
      err := CheckOverrides(bs.overrides);
      if err.Some? { return; }
      var dr := config.value.dateRange;
      if dr.from != "" {
        err := ValidateDateFormat(dr.from, "from");
        if err.Some? { return; }
      }
      if dr.to != "" {
        err := ValidateDateFormat(dr.to, "to");
      }
    }

    /**
     * `load` once the file is read, expanded and parsed into `document`: the
     * document is stored first, so a rejected document stays stored.
     */
    method Load(document: Option<Config>) returns (err: Option<ConfigError>)
      modifies this
      ensures configPath == old(configPath) && config == document
      ensures err == ConfigErrorOf(document)
    {
      config := document;
      err := ValidateConfig();
    }
  }

  // ----- Branch strategy lookup -----

  /** `overrides[repo]`: the first entry for `repo`. */
  function FindOverride(ovs: seq<Override>, repo: string): (r: Option<Strategy>)
    ensures r.Some? <==> exists i :: 0 <= i < |ovs| && ovs[i].repo == repo
    ensures r.Some? ==> exists i :: 0 <= i < |ovs| && ovs[i] == Override(repo, r.value)
                                    && forall j :: 0 <= j < i ==> ovs[j].repo != repo
  {
    if ovs == [] then None
    else if ovs[0].repo == repo then Some(ovs[0].strategy)
    else
      var r := FindOverride(ovs[1..], repo);
      assert forall i :: 0 < i < |ovs| ==> ovs[i] == ovs[1..][i - 1];
      r
  }

  /** With distinct keys, the override found is the one stored under the key. */
  lemma FindOverrideDistinct(ovs: seq<Override>, i: nat)
    requires i < |ovs|
    requires forall j, k :: 0 <= j < k < |ovs| ==> ovs[j].repo != ovs[k].repo
    ensures FindOverride(ovs, ovs[i].repo) == Some(ovs[i].strategy)
  {
  }

  /**
   * `branch_strategy` with only `mode` and `branches`, the latter defaulting
   * to `[]`; the `mode` key is always there, holding null when the section has no mode.
   */
  function DefaultStrategy(section: Option<Section>): (r: Strategy)
    ensures r.branches.Some? && (r.modeNull <==> r.mode.None?)
    ensures section.None? ==> r.mode.None? && r.branches == Some(AList([]))
    ensures section.Some? ==> r.mode == section.value.mode
                              && r.branches == Some(section.value.branches.GetOr(AList([])))
  {
    match section
    case None => Strategy(None, Some(AList([])), true)
    case Some(bs) => Strategy(bs.mode, Some(bs.branches.GetOr(AList([]))), bs.mode.None?)
  }

  /** What `get_branch_strategy` returns: the whole section, or one strategy. */
  datatype StrategyView = WholeSection(section: Option<Section>) | RepoStrategy(strategy: Strategy)

  /**
   * `get_branch_strategy(repo_full_name)`: without a name (or with an empty
   * one) the whole section, overrides included; with a name that has an
   * override, that override as written; otherwise the default mode and branches.
   */
  function GetBranchStrategy(c: Config, repo: Option<string>): (r: StrategyView)
    ensures (repo == None || repo == Some("")) ==> r == WholeSection(c.branchStrategy)
    ensures repo.Some? && repo.value != "" && c.branchStrategy.Some? ==>
              forall i :: 0 <= i < |c.branchStrategy.value.overrides|
                          && c.branchStrategy.value.overrides[i].repo == repo.value
                          && (forall j :: 0 <= j < |c.branchStrategy.value.overrides| && j != i
                                ==> c.branchStrategy.value.overrides[j].repo != repo.value)
                          ==> r == RepoStrategy(c.branchStrategy.value.overrides[i].strategy)
    ensures r.RepoStrategy? && (c.branchStrategy.None?
              || FindOverride(c.branchStrategy.value.overrides, repo.value).None?) ==>
              r.strategy.mode == (if c.branchStrategy.Some? then c.branchStrategy.value.mode else None)
              && r.strategy.branches.Some?
    ensures repo.Some? && repo.value != "" && (c.branchStrategy.None?
              || FindOverride(c.branchStrategy.value.overrides, repo.value).None?) ==>
              r == RepoStrategy(DefaultStrategy(c.branchStrategy))
  {
    if repo.None? || repo.value == "" then WholeSection(c.branchStrategy)
    else
      var ovs := if c.branchStrategy.Some? then c.branchStrategy.value.overrides else [];
      match FindOverride(ovs, repo.value)
      case Some(st) => RepoStrategy(st)
      case None => RepoStrategy(DefaultStrategy(c.branchStrategy))
  }

  // ----- Date range -----

  predicate IsWeekend(d: Date)
    requires ValidDate(d)
  {
    Weekday(d) == 5 || Weekday(d) == 6
  }

  lemma FirstDateIsMonday()
    ensures Weekday(FirstDate) == 0
  {
  }

  /**
   * The Friday reached by stepping back a day at a time from a Friday,
   * Saturday or Sunday: `d` itself on a Friday, at most two days earlier.
   */
  function FridayOnOrBefore(d: Date): (f: Date)
    requires ValidDate(d) && 4 <= Weekday(d) <= 6
    ensures ValidDate(f) && Weekday(f) == 4
    ensures Ordinal(d) - Ordinal(f) == Weekday(d) - Weekday(f)
    decreases Weekday(d)
  {
    if Weekday(d) == 4 then d
    else
      WeekendDayBefore(d);
      FridayOnOrBefore(PrevDay(d))
  }

  /** The day before a Saturday or a Sunday exists and is one weekday earlier. */
  lemma WeekendDayBefore(d: Date)
    requires ValidDate(d) && 5 <= Weekday(d) <= 6
    ensures d != FirstDate && Weekday(PrevDay(d)) == Weekday(d) - 1
  {
    NotMondayNotFirst(d);
    PrevDayWeekday(d);
    WeekendStepBack(Weekday(d), Weekday(PrevDay(d)));
  }

  /** The first day of the calendar is a Monday, so no other weekday falls on it. */
  lemma NotMondayNotFirst(d: Date)
    requires ValidDate(d) && Weekday(d) != 0
    ensures d != FirstDate
  {
    FirstDateIsMonday();
  }

  lemma WeekendStepBack(w: int, v: int)
    requires 5 <= w <= 6 && v == (w + 6) % 7
    ensures v == w - 1
  {
    if w == 5 {
      assert (5 + 6) % 7 == 4;
    } else {
      assert (6 + 6) % 7 == 5;
    }
  }

  /** The operator's answer, stripped and lower-cased, is one of the affirmatives. */
  predicate Affirmative(response: string)
    ensures Affirmative(response) ==> Strip(response) != [] && Strip(response)[0] in "yYㅇ예"
  {
    var a := Lower(Strip(response));
    a == "y" || a == "yes" || a == "ㅇ" || a == "예"
  }

  /**
   * The answers taken as yes, spelled out on the stripped answer: `y` and
   * `yes` in any letter case, `ㅇ` and `예`; nothing else.
   */
  lemma AffirmativeAnswers(response: string)
    ensures Affirmative(response) <==>
              var a := Strip(response);
              a == "ㅇ" || a == "예" || (|a| == 1 && a[0] in "yY")
              || (|a| == 3 && a[0] in "yY" && a[1] in "eE" && a[2] in "sS")
  {
    var a := Strip(response);
    LowerWordIs(a, "y");
    LowerWordIs(a, "yes");
    LowerWordIs(a, "ㅇ");
    LowerWordIs(a, "예");
  }

  /** `Lower(a)` is the word `w` exactly when `a` lowers to it letter by letter. */
  lemma LowerWordIs(a: string, w: string)
    ensures Lower(a) == w <==> |a| == |w| && forall i :: 0 <= i < |w| ==> LowerChar(a[i]) == w[i]
  {
    if |a| == |w| && forall i :: 0 <= i < |w| ==> LowerChar(a[i]) == w[i] {
      assert Lower(a) == w;
    }
  }

  /**
   * The start date the weekend check settles on: the Friday when yesterday is
   * a weekend day and either the run is a dry run or the operator agrees.
   */
  function StartDate(yesterday: Date, dryRun: bool, response: string): (d: Date)
    requires ValidDate(yesterday)
    ensures ValidDate(d)
    ensures !IsWeekend(yesterday) ==> d == yesterday
    ensures IsWeekend(yesterday) ==>
              (d == FridayOnOrBefore(yesterday) <==> dryRun || Affirmative(response))
    ensures !(dryRun || Affirmative(response)) ==> d == yesterday
  {
    if IsWeekend(yesterday) && (dryRun || Affirmative(response)) then FridayOnOrBefore(yesterday)
    else
      assert IsWeekend(yesterday) ==> Weekday(yesterday) != Weekday(FridayOnOrBefore(yesterday));
      yesterday
  }

  /**
   * `_get_start_date_with_weekend_check`: walk back from yesterday to the
   * Friday, then ask (or, in a dry run, assume) whether to start there.
   */
  method StartDateWithWeekendCheck(yesterday: Date, dryRun: bool, response: string) returns (s: string)
    requires ValidDate(yesterday)
    ensures s == FormatYmd(StartDate(yesterday, dryRun, response))
  {
    if IsWeekend(yesterday) {
      var friday := yesterday;
      FirstDateIsMonday();
      while Weekday(friday) != 4
        invariant ValidDate(friday) && 4 <= Weekday(friday) <= 6
        invariant FridayOnOrBefore(friday) == FridayOnOrBefore(yesterday)
        decreases Weekday(friday)
      {
        PrevDayWeekday(friday);
        friday := PrevDay(friday);
      }
      if dryRun {
        return FormatYmd(friday);
      } else if Affirmative(response) {
        return FormatYmd(friday);
      } else {
        return FormatYmd(yesterday);
      }
    } else {
      return FormatYmd(yesterday);
    }
  }

  /** The resolved `{from, to}`; `None` stands for Python's `None`. */
  datatype DateRange = DateRange(from: Option<string>, to: Option<string>)

  function NoneIfEmpty(s: string): Option<string> {
    if s == "" then None else Some(s)
  }

  /**
   * `get_date_range`, with `today` for the clock and `response` for the line
   * the operator types when asked.  A missing start defaults to yesterday
   * after the weekend check; given bounds are kept as written.
   */
  method GetDateRange(dr: DateRangeSection, dryRun: bool, today: Date, response: string) returns (r: DateRange)
    requires ValidDate(today) && today != FirstDate
    ensures dr.from != "" ==> r == DateRange(Some(dr.from), NoneIfEmpty(dr.to))
    ensures dr.from == "" ==>
              r == DateRange(Some(FormatYmd(StartDate(PrevDay(today), dryRun, response))), NoneIfEmpty(dr.to))
    ensures dr.from == "" && dr.to == "" ==> r.to == None
  {
    if dr.from == "" && dr.to == "" {
      var yesterday := PrevDay(today);
      var from := StartDateWithWeekendCheck(yesterday, dryRun, response);
      return DateRange(Some(from), None);
    }
    var from := dr.from;
    if dr.from == "" {
      var yesterday := PrevDay(today);
      from := StartDateWithWeekendCheck(yesterday, dryRun, response);
    }
    r := DateRange(if from != "" then Some(from) else None, if dr.to != "" then Some(dr.to) else None);
    assert from == "" ==> false by {
      if dr.from == "" { assert |FormatYmd(StartDate(PrevDay(today), dryRun, response))| >= 1; }
    }
  }

  /** The default start date is always in the form the validation accepts. */
  lemma DefaultStartValidates(yesterday: Date, dryRun: bool, response: string)
    requires ValidDate(yesterday)
    ensures ValidateDateFormat(FormatYmd(StartDate(yesterday, dryRun, response)), "from") == None
  {
    ParseFormatYmd(StartDate(yesterday, dryRun, response));
  }

  /** Saturday 2024-06-15 goes back to Friday 2024-06-14. */
  lemma SaturdayExample(response: string)
    ensures Weekday(Date(2024, 6, 15)) == 5
    ensures StartDate(Date(2024, 6, 15), true, response) == Date(2024, 6, 14)
  {
    assert PrevDay(Date(2024, 6, 15)) == Date(2024, 6, 14);
  }

  lemma AnswerExamples()
    ensures Affirmative(" YES ") && !Affirmative("n")
  {
    assert LeadingSpaces(" YES ") == 1;
    assert Strip(" YES ") == "YES";
    assert LeadingSpaces("n") == 0;
    assert TrailingSpaces("n") == 0;
  }

  /** Sunday 2024-06-16 goes back to the Friday when the operator answers " YES ". */
  lemma SundayExample()
    ensures Weekday(Date(2024, 6, 16)) == 6
    ensures StartDate(Date(2024, 6, 16), false, " YES ") == Date(2024, 6, 14)
    ensures StartDate(Date(2024, 6, 16), false, "n") == Date(2024, 6, 16)
  {
    AnswerExamples();
    SundayFriday();
  }

  lemma SundayFriday()
    ensures Weekday(Date(2024, 6, 16)) == 6
    ensures FridayOnOrBefore(Date(2024, 6, 16)) == Date(2024, 6, 14)
  {
    assert PrevDay(Date(2024, 6, 16)) == Date(2024, 6, 15);
    assert PrevDay(Date(2024, 6, 15)) == Date(2024, 6, 14);
  }

  /** Wednesday 2024-06-12 is kept. */
  lemma WeekdayExample(response: string)
    ensures Weekday(Date(2024, 6, 12)) == 2
    ensures StartDate(Date(2024, 6, 12), true, response) == Date(2024, 6, 12)
  {
    JuneWeekday(12);
  }

  /** The weekdays of June 2024: the 1st was a Saturday. */
  lemma JuneWeekday(day: int)
    requires 1 <= day <= 30
    ensures ValidDate(Date(2024, 6, day)) && Weekday(Date(2024, 6, day)) == (day + 4) % 7
  {
    assert DaysBeforeYear(2024) == 738885;
    assert DaysBeforeMonth(2024, 6) == 152;
    assert Ordinal(Date(2024, 6, day)) + 6 == 7 * 105577 + 4 + day;
  }
}
