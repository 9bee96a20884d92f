/**
 * The collecting side of the tracker (github_client.py): the strategy for one
 * repository, the branches it selects, the author filter, and the nested walk
 * organization -> repository -> branch -> commit.  The three remote listings
 * are given as functions; a listing that fails is an empty (or, for commits
 * interrupted midway, a shortened) sequence.
 */
module GithubClient {
  import opened Wrappers
  import opened Strings
  import opened Dates
  import opened ConfigParser

  // ----- Strategy for one repository -----

  function Overrides(section: Option<Section>): seq<Override> {
    if section.Some? then section.value.overrides else []
  }

  /**
   * `_get_repo_specific_strategy`: the override for `repo` as written, or the
   * default mode with the default branches (`[]` when absent), never the
   * overrides.
   */
  function RepoSpecificStrategy(repo: string, section: Option<Section>): (r: Strategy)
    ensures FindOverride(Overrides(section), repo).Some? ==>
              r == FindOverride(Overrides(section), repo).value
    ensures FindOverride(Overrides(section), repo).None? ==>
              r.mode == (if section.Some? then section.value.mode else None)
              && (r.modeNull <==> r.mode.None?)
              && r.branches == Some(if section.Some? && section.value.branches.Some?
                                    then section.value.branches.value else AList([]))
  {
    match FindOverride(Overrides(section), repo)
    case Some(st) => st
    case None => DefaultStrategy(section)
  }

  /** The two copies of the lookup agree whenever a repository name is given. */
  lemma RepoStrategyMatchesConfigParser(c: Config, repo: string)
    requires repo != ""
    ensures GetBranchStrategy(c, Some(repo)) == RepoStrategy(RepoSpecificStrategy(repo, c.branchStrategy))
  {
  }

  // ----- Target branches -----

  /** The strategy's branches can be iterated where its mode reads them. */
  predicate Usable(s: Strategy) {
    NeedsBranches(s.mode) ==> s.branches.None? || s.branches.value.AList?
  }

  predicate SectionUsable(section: Option<Section>) {
    section.Some? ==>
      Usable(Strategy(section.value.mode, section.value.branches, false))
      && forall o :: o in section.value.overrides ==> Usable(o.strategy)
  }

  /**
   * A validated configuration can always be walked: every strategy a mode
   * reads has a list of branches where it needs one.  Sections are mappings
   * here; a null `overrides`, which validation lets through, is not
   * represented.
   */
  lemma WellFormedIsUsable(c: Config)
    requires WellFormed(c)
    ensures SectionUsable(c.branchStrategy)
  {
  }

  lemma RepoStrategyUsable(repo: string, section: Option<Section>)
    requires SectionUsable(section)
    ensures Usable(RepoSpecificStrategy(repo, section))
  {
    var ovs := Overrides(section);
    if FindOverride(ovs, repo).Some? {
      var i :| 0 <= i < |ovs| && ovs[i] == Override(repo, FindOverride(ovs, repo).value)
               && forall j :: 0 <= j < i ==> ovs[j].repo != repo;
      assert ovs[i] in ovs;
    }
  }

  /** `branch_strategy.get('branches', [])` as a list. */
  function Items(b: Option<Listish>): seq<string>
    requires b.None? || b.value.AList?
  {
    if b.None? then [] else b.value.items
  }

  /** `[b for b in configured if b in existing]`. */
  function KeepExisting(configured: seq<string>, existing: seq<string>): (r: seq<string>)
    ensures forall x :: x in r <==> x in configured && x in existing
    ensures (forall i :: 0 <= i < |configured| ==> configured[i] in existing) ==> r == configured
  {
    if configured == [] then []
    else
      var rest := KeepExisting(configured[1..], existing);
      assert configured == [configured[0]] + configured[1..];
      if configured[0] in existing then [configured[0]] + rest else rest
  }

  /**
   * The configured order decides the result: selecting from a concatenation
   * concatenates the selections, one configured branch at a time.
   */
  lemma {:induction false} KeepExistingOrder(a: seq<string>, b: seq<string>, existing: seq<string>)
    ensures KeepExisting(a + b, existing) == KeepExisting(a, existing) + KeepExisting(b, existing)
    ensures |a| == 1 ==> KeepExisting(a, existing) == if a[0] in existing then a else []
  {
    if a == [] {
      assert a + b == b;
    } else {
      assert (a + b)[0] == a[0] && (a + b)[1..] == a[1..] + b;
      KeepExistingOrder(a[1..], b, existing);
    }
  }

  /** The listing's order plays no part: only which branches exist matters. */
  lemma {:induction false} KeepExistingIgnoresListingOrder(configured: seq<string>, e1: seq<string>, e2: seq<string>)
    requires forall x :: x in e1 <==> x in e2
    ensures KeepExisting(configured, e1) == KeepExisting(configured, e2)
  {
    if configured != [] {
      KeepExistingIgnoresListingOrder(configured[1..], e1, e2);
    }
  }

  /** Duplicates in the configured list are kept: each existing branch as often as configured. */
  lemma {:induction false} KeepExistingCounts(configured: seq<string>, existing: seq<string>, x: string)
    ensures multiset(KeepExisting(configured, existing))[x] == if x in existing then multiset(configured)[x] else 0
  {
    if configured != [] {
      KeepExistingCounts(configured[1..], existing, x);
      assert configured == [configured[0]] + configured[1..];
    }
  }

  /** The first configured branch that exists, as a one-element list, or `[]`. */
  function FirstExisting(configured: seq<string>, existing: seq<string>): (r: seq<string>)
    ensures |r| <= 1
    ensures r == [] <==> forall i :: 0 <= i < |configured| ==> configured[i] !in existing
    ensures r != [] ==> exists i :: 0 <= i < |configured| && r == [configured[i]]
                          && configured[i] in existing
                          && forall j :: 0 <= j < i ==> configured[j] !in existing
  {
    if configured == [] then []
    else if configured[0] in existing then [configured[0]]
    else
      var r := FirstExisting(configured[1..], existing);
      assert forall i :: 0 < i < |configured| ==> configured[i] == configured[1..][i - 1];
      r
  }

  /** `branch_strategy.get('mode', 'all')`: `all` only when the key is missing, `None` when it holds null. */
  function ModeOrAll(s: Strategy): Option<string> {
    if s.mode.None? && !s.modeNull then Some("all") else s.mode
  }

  /**
   * The branches a strategy selects: all of them for `all` or a missing mode,
   * the configured ones that exist for `specific`, the first configured one
   * that exists for `priority`, none for any other mode (a null one included).
   */
  function Targets(s: Strategy, existing: seq<string>): (r: seq<string>)
    requires Usable(s)
    ensures forall b :: b in r ==> b in existing
    ensures ModeOrAll(s) == Some("priority") ==> |r| <= 1
  {
    var mode := ModeOrAll(s);
    if mode == Some("all") then existing
    else if mode == Some("specific") then KeepExisting(Items(s.branches), existing)
    else if mode == Some("priority") then FirstExisting(Items(s.branches), existing)
    else []
  }

  /**
   * A section without a mode walks no branch of a repository it has no
   * override for: the default strategy carries its `mode` key, holding null.
   * An override that leaves `mode` out walks every branch.
   */
  lemma ModelessSectionSelectsNothing(repo: string, section: Option<Section>, existing: seq<string>)
    requires section.Some? && section.value.mode.None? && FindOverride(Overrides(section), repo).None?
    ensures Usable(RepoSpecificStrategy(repo, section))
    ensures Targets(RepoSpecificStrategy(repo, section), existing) == []
    ensures forall b :: Targets(Strategy(None, b, false), existing) == existing
  {
  }

  /** `_get_target_branches`, with the repository's branch listing as `existing`. */
  method TargetBranches(s: Strategy, existing: seq<string>) returns (r: seq<string>)
    requires Usable(s)
    ensures r == Targets(s, existing)
  {
    var mode := ModeOrAll(s);
    if mode == Some("all") {
      return existing;
    } else if mode == Some("specific") {
      return KeepExisting(Items(s.branches), existing);
    } else if mode == Some("priority") {
      var priority := Items(s.branches);
      var i := 0;
      while i < |priority|
        invariant 0 <= i <= |priority|
        invariant forall j :: 0 <= j < i ==> priority[j] !in existing
      {
        if priority[i] in existing {
          var f := FirstExisting(priority, existing);
          assert f == [priority[i]];
          return [priority[i]];
        }
        i := i + 1;
      }
      return [];
    }
    return [];
  }

  // ----- Creating the tracker -----

  /** `_parse_date` as written: `%Y-%m-%d` only, read as midnight; `None` where `strptime` raises. */
  function ParseDateAsWritten(s: string): (r: Option<DateTime>)
    ensures r.Some? <==> ParseYmd(s).Some?
    ensures r.Some? ==> ValidDateTime(r.value) && r.value.hour == 0 && r.value.minute == 0
  {
    match ParseYmd(s)
    case Some(d) => Some(DateTime(d, 0, 0))
    case None => None
  }

  /** A date without time reads back as midnight of that day. */
  lemma ParseDateAsWrittenReadsDates(d: Date)
    requires ValidDate(d)
    ensures ParseDateAsWritten(FormatYmd(d)) == Some(DateTime(d, 0, 0))
  {
    ParseFormatYmd(d);
  }

  /**
   * The discrepancy: every date with a time passes the configuration check,
   * and every one is refused by `_parse_date` as written.
   */
  lemma ParseDateAsWrittenRejectsClock(t: DateTime)
    requires ValidDateTime(t)
    ensures ValidateDateFormat(FormatYmdHm(t), "from") == None
    ensures ParseDateAsWritten(FormatYmdHm(t)) == None
  {
    FormattedDatesValidate(t.date, t, "from");
    DateOnlyRejectsClock(t);
  }

  /** `%Y-%m-%d` leaves the time of day unread, so the whole string does not match. */
  lemma DateOnlyRejectsClock(t: DateTime)
    requires ValidDateTime(t)
    ensures ParseYmd(FormatYmdHm(t)) == None
  {
    var tail := " " + PadNat(t.hour, 2) + ":" + PadNat(t.minute, 2);
    assert FormatYmdHm(t) == FormatYmd(t.date) + tail;
    assert tail[0] == ' ';
    YmdPrefixOf(t.date, tail);
  }

  /** The smallest instance: "2024-06-14 09:30" passes the check and is refused. */
  lemma ClockStartExample()
    ensures FormatYmdHm(DateTime(Date(2024, 6, 14), 9, 30)) == "2024-06-14 09:30"
    ensures ValidateDateFormat("2024-06-14 09:30", "from") == None
    ensures NewTrackerAsWritten(["alice"], Some("2024-06-14 09:30"), None) == Err(UnparsableDate("2024-06-14 09:30"))
  {
    var t := DateTime(Date(2024, 6, 14), 9, 30);
    ClockStartText(t);
    ParseDateAsWrittenRejectsClock(t);
  }

  lemma ClockStartText(t: DateTime)
    requires t == DateTime(Date(2024, 6, 14), 9, 30)
    ensures ValidDateTime(t) && FormatYmdHm(t) == "2024-06-14 09:30"
  {
    PadYear();
    PadOneDigit(6);
    PadOneDigit(9);
    PadTwoDigits(14);
    PadTwoDigits(30);
  }

  lemma PadYear()
    ensures PadNat(2024, 4) == "2024"
  {
    assert NatToString(2024) == "2024";
  }

  /** `_parse_date` corrected: both forms the configuration check accepts, the date alone as midnight. */
  function ParseDate(s: string): (r: Option<DateTime>)
    ensures r.Some? <==> DateAccepted(s)
    ensures r.Some? ==> ValidDateTime(r.value)
  {
    match ParseYmdHm(s)
    case Some(t) => Some(t)
    case None => ParseDateAsWritten(s)
  }

  /** The corrected parser reads back both forms as written. */
  lemma ParseDateReadsBoth(d: Date, t: DateTime)
    requires ValidDate(d) && ValidDateTime(t)
    ensures ParseDate(FormatYmd(d)) == Some(DateTime(d, 0, 0))
    ensures ParseDate(FormatYmdHm(t)) == Some(t)
  {
    ParseFormatYmd(d);
    ParseFormatYmdHm(t);
  }

  /** Where the parser as written succeeds, the corrected one gives the same answer. */
  lemma ParseDateExtends(s: string)
    requires ParseDateAsWritten(s).Some?
    ensures ParseDate(s) == ParseDateAsWritten(s)
  {
  }

  /** A date given to the tracker that cannot be read. */
  datatype TrackerError = UnparsableDate(value: string)

  /** One optional bound read by `parse`; an absent or empty bound is no bound. */
  function ReadBound(bound: Option<string>, parse: string -> Option<DateTime>): Result<Option<DateTime>, TrackerError> {
    if bound.None? || bound.value == "" then Ok(None)
    else match parse(bound.value)
      case Some(t) => Ok(Some(t))
      case None => Err(UnparsableDate(bound.value))
  }

  function MakeTracker(usernames: seq<string>, from: Option<string>, to: Option<string>,
                       parse: string -> Option<DateTime>): Result<Tracker, TrackerError>
  {
    match ReadBound(from, parse)
    case Err(e) => Err(e)
    case Ok(fromDate) =>
      match ReadBound(to, parse)
      case Err(e) => Err(e)
      case Ok(toDate) => Ok(Tracker(usernames, fromDate, toDate))
  }

  /** `GitHubCommitTracker.__init__` as written; `Err` where it raises. */
  function NewTrackerAsWritten(usernames: seq<string>, from: Option<string>, to: Option<string>)
    : (r: Result<Tracker, TrackerError>)
    ensures r.Ok? <==> (from.None? || from.value == "" || ParseYmd(from.value).Some?)
                       && (to.None? || to.value == "" || ParseYmd(to.value).Some?)
    ensures r.Ok? ==> r.value.usernames == usernames
                      && r.value.fromDate == (if from.None? || from.value == "" then None else ParseDateAsWritten(from.value))
                      && r.value.toDate == (if to.None? || to.value == "" then None else ParseDateAsWritten(to.value))
    ensures r.Err? && from.Some? && from.value != "" && ParseYmd(from.value).None? ==>
              r.error == UnparsableDate(from.value)
    ensures r.Err? && (from.None? || from.value == "" || ParseYmd(from.value).Some?) ==>
              r.error == UnparsableDate(to.value)
  {
    MakeTracker(usernames, from, to, ParseDateAsWritten)
  }

  /** A validated start with a time of day makes the tracker as written raise. */
  lemma TrackerAsWrittenRejectsValidatedStart(usernames: seq<string>, t: DateTime, to: Option<string>)
    requires ValidDateTime(t)
    ensures ValidateDateFormat(FormatYmdHm(t), "from") == None
    ensures NewTrackerAsWritten(usernames, Some(FormatYmdHm(t)), to) == Err(UnparsableDate(FormatYmdHm(t)))
  {
    ParseDateAsWrittenRejectsClock(t);
  }

  /** `GitHubCommitTracker.__init__` with the corrected date parser. */
  function NewTracker(usernames: seq<string>, from: Option<string>, to: Option<string>): (r: Result<Tracker, TrackerError>)
    ensures r.Ok? <==> (from.None? || from.value == "" || DateAccepted(from.value))
                       && (to.None? || to.value == "" || DateAccepted(to.value))
    ensures r.Ok? ==> r.value.usernames == usernames
                      && r.value.fromDate == (if from.None? || from.value == "" then None else ParseDate(from.value))
                      && r.value.toDate == (if to.None? || to.value == "" then None else ParseDate(to.value))
    ensures r.Err? && from.Some? && from.value != "" && !DateAccepted(from.value) ==>
              r.error == UnparsableDate(from.value)
    ensures r.Err? && (from.None? || from.value == "" || DateAccepted(from.value)) ==>
              r.error == UnparsableDate(to.value)
  {
    MakeTracker(usernames, from, to, ParseDate)
  }

  /**
   * Every date range the configuration yields, given bounds that passed the
   * check or the default start, makes a tracker.
   */
  lemma ValidatedRangeMakesTracker(usernames: seq<string>, dr: DateRangeSection, start: Date)
    requires dr.from == "" || DateAccepted(dr.from)
    requires dr.to == "" || DateAccepted(dr.to)
    requires ValidDate(start)
    ensures NewTracker(usernames, Some(if dr.from != "" then dr.from else FormatYmd(start)), NoneIfEmpty(dr.to)).Ok?
  {
    ParseFormatYmd(start);
  }

  // ----- Commits -----

  /** The git-level author of a commit: name, e-mail and time (seconds). */
  datatype GitAuthor = GitAuthor(name: string, email: string, date: int)

  /** A commit as the remote lists it; `authorLogin` is the platform account, if any. */
  datatype RawCommit = RawCommit(sha: string, authorLogin: Option<string>, gitAuthor: Option<GitAuthor>,
                                 message: string, htmlUrl: string)

  /** The record kept for each collected commit. */
  datatype CommitRecord = CommitRecord(sha: string, repository: string, branch: string, message: string,
                                       authorName: string, authorEmail: string, date: int, url: string)

  /** `_is_user_commit`: the commit has an account whose login is one of `usernames`, exactly. */
  function IsUserCommit(c: RawCommit, usernames: seq<string>): (b: bool)
    ensures b <==> exists i :: 0 <= i < |usernames| && c.authorLogin == Some(usernames[i])
  {
    if c.authorLogin.None? then false
    else c.authorLogin.value in usernames
  }

  /**
   * `_extract_commit_data`; `now` stands for the clock read when the commit
   * carries no git author.  The message is stored stripped.
   */
  function ExtractCommitData(c: RawCommit, repo: string, branch: string, now: int): (r: CommitRecord)
    ensures r.sha == c.sha && r.repository == repo && r.branch == branch && r.url == c.htmlUrl
    ensures c.gitAuthor.None? ==> r.authorName == "Unknown" && r.authorEmail == "Unknown" && r.date == now
    ensures c.gitAuthor.Some? ==> r.authorName == c.gitAuthor.value.name && r.authorEmail == c.gitAuthor.value.email
                                  && r.date == c.gitAuthor.value.date
    ensures r.message == Strip(c.message)
  {
    match c.gitAuthor
    case Some(a) => CommitRecord(c.sha, repo, branch, Strip(c.message), a.name, a.email, a.date, c.htmlUrl)
    case None => CommitRecord(c.sha, repo, branch, Strip(c.message), "Unknown", "Unknown", now, c.htmlUrl)
  }

  /** The stored message is the commit message stripped, and stripping it again changes nothing. */
  lemma ExtractedMessageIsStripped(c: RawCommit, repo: string, branch: string, now: int)
    ensures ExtractCommitData(c, repo, branch, now).message == Strip(c.message)
    ensures Strip(ExtractCommitData(c, repo, branch, now).message) == ExtractCommitData(c, repo, branch, now).message
  {
    StripIdempotent(c.message);
  }

  /** The remote listings: repositories of an organization, branches of a repository, commits of a branch. */
  datatype Remote = Remote(
    listRepos: string -> seq<string>,
    listBranches: string -> seq<string>,
    listCommits: (string, string, Option<DateTime>, Option<DateTime>) -> seq<RawCommit>)

  /** The client's settings, fixed when it is created. */
  datatype Tracker = Tracker(usernames: seq<string>, fromDate: Option<DateTime>, toDate: Option<DateTime>)

  /** The records of the user commits among `raw`, in listing order. */
  function UserRecords(usernames: seq<string>, raw: seq<RawCommit>, repo: string, branch: string, now: int)
    : (rs: seq<CommitRecord>)
    ensures |rs| <= |raw|
    ensures forall x :: x in rs ==> x.repository == repo && x.branch == branch
  {
    if raw == [] then []
    else
      var last := raw[|raw| - 1];
      UserRecords(usernames, raw[..|raw| - 1], repo, branch, now)
      + if IsUserCommit(last, usernames) then [ExtractCommitData(last, repo, branch, now)] else []
  }

  /** Every record comes from a user commit of the listing. */
  lemma {:induction false} UserRecordsFrom(usernames: seq<string>, raw: seq<RawCommit>, repo: string,
                                           branch: string, now: int, r: CommitRecord)
    requires r in UserRecords(usernames, raw, repo, branch, now)
    ensures exists c :: c in raw && IsUserCommit(c, usernames) && r == ExtractCommitData(c, repo, branch, now)
  {
    var last := raw[|raw| - 1];
    if r !in UserRecords(usernames, raw[..|raw| - 1], repo, branch, now) {
      assert r == ExtractCommitData(last, repo, branch, now) && IsUserCommit(last, usernames);
    } else {
      UserRecordsFrom(usernames, raw[..|raw| - 1], repo, branch, now, r);
      var c :| c in raw[..|raw| - 1] && IsUserCommit(c, usernames) && r == ExtractCommitData(c, repo, branch, now);
      assert c in raw;
    }
  }

  /** Every user commit of the listing yields a record. */
  lemma {:induction false} UserRecordsTo(usernames: seq<string>, raw: seq<RawCommit>, repo: string,
                                         branch: string, now: int, c: RawCommit)
    requires c in raw && IsUserCommit(c, usernames)
    ensures ExtractCommitData(c, repo, branch, now) in UserRecords(usernames, raw, repo, branch, now)
  {
    if c != raw[|raw| - 1] {
      assert c in raw[..|raw| - 1] by {
        var i :| 0 <= i < |raw| && raw[i] == c;
        assert raw[..|raw| - 1][i] == c;
      }
      UserRecordsTo(usernames, raw[..|raw| - 1], repo, branch, now, c);
    }
  }

  lemma UserRecordsStep(usernames: seq<string>, raw: seq<RawCommit>, i: nat, repo: string, branch: string,
                        now: int)
    requires i < |raw|
    ensures UserRecords(usernames, raw[..i + 1], repo, branch, now)
         == UserRecords(usernames, raw[..i], repo, branch, now)
            + if IsUserCommit(raw[i], usernames) then [ExtractCommitData(raw[i], repo, branch, now)] else []
  {
    assert raw[..i + 1][..i] == raw[..i];
  }

  /** The commits the tracker collects from one branch. */
  function BranchCommits(t: Tracker, remote: Remote, repo: string, branch: string, now: int): seq<CommitRecord> {
    UserRecords(t.usernames, remote.listCommits(repo, branch, t.fromDate, t.toDate), repo, branch, now)
  }

  /** `get_commits_from_branch`: the user commits of the branch within the date range, in listing order. */
  method GetCommitsFromBranch(t: Tracker, remote: Remote, repo: string, branch: string, now: int)
    returns (commits: seq<CommitRecord>)
    ensures commits == BranchCommits(t, remote, repo, branch, now)
  {
    var branchCommits := remote.listCommits(repo, branch, t.fromDate, t.toDate);
    commits := [];
    for i := 0 to |branchCommits|
      invariant commits == UserRecords(t.usernames, branchCommits[..i], repo, branch, now)
    {
      UserRecordsStep(t.usernames, branchCommits, i, repo, branch, now);
      var commit := branchCommits[i];
      if IsUserCommit(commit, t.usernames) {
        var commitData := ExtractCommitData(commit, repo, branch, now);
        commits := commits + [commitData];
      }
    }
    assert branchCommits[..|branchCommits|] == branchCommits;
  }

  /** The commits of `branches` of one repository, branch after branch. */
  function BranchesCommits(t: Tracker, remote: Remote, repo: string, branches: seq<string>, now: int)
    : (rs: seq<CommitRecord>)
    ensures forall x :: x in rs ==> x.repository == repo && x.branch in branches
  {
    if branches == [] then []
    else BranchesCommits(t, remote, repo, branches[..|branches| - 1], now)
         + BranchCommits(t, remote, repo, branches[|branches| - 1], now)
  }

  /** The commits of one repository: those of each branch its strategy selects. */
  function RepoCommits(t: Tracker, remote: Remote, section: Option<Section>, repo: string, now: int)
    : (rs: seq<CommitRecord>)
    requires SectionUsable(section)
    ensures forall x :: x in rs ==> x.repository == repo && x.branch in remote.listBranches(repo)
  {
    RepoStrategyUsable(repo, section);
    BranchesCommits(t, remote, repo, Targets(RepoSpecificStrategy(repo, section), remote.listBranches(repo)), now)
  }

  function ReposCommits(t: Tracker, remote: Remote, section: Option<Section>, repos: seq<string>, now: int)
    : (rs: seq<CommitRecord>)
    requires SectionUsable(section)
    ensures forall x :: x in rs ==> x.repository in repos && x.branch in remote.listBranches(x.repository)
  {
    if repos == [] then []
    else ReposCommits(t, remote, section, repos[..|repos| - 1], now)
         + RepoCommits(t, remote, section, repos[|repos| - 1], now)
  }

  /** Everything collected: organization order, then repository, branch and commit order. */
  function OrgsCommits(t: Tracker, remote: Remote, section: Option<Section>, orgs: seq<string>, now: int)
    : (rs: seq<CommitRecord>)
    requires SectionUsable(section)
    ensures forall x :: x in rs ==> x.branch in remote.listBranches(x.repository)
  {
    if orgs == [] then []
    else OrgsCommits(t, remote, section, orgs[..|orgs| - 1], now)
         + ReposCommits(t, remote, section, remote.listRepos(orgs[|orgs| - 1]), now)
  }

  lemma BranchesStep(t: Tracker, remote: Remote, repo: string, branches: seq<string>, k: nat, now: int)
    requires k < |branches|
    ensures BranchesCommits(t, remote, repo, branches[..k + 1], now)
         == BranchesCommits(t, remote, repo, branches[..k], now) + BranchCommits(t, remote, repo, branches[k], now)
  {
    assert branches[..k + 1][..k] == branches[..k];
  }

  lemma ReposStep(t: Tracker, remote: Remote, section: Option<Section>, repos: seq<string>, j: nat, now: int)
    requires SectionUsable(section) && j < |repos|
    ensures ReposCommits(t, remote, section, repos[..j + 1], now)
         == ReposCommits(t, remote, section, repos[..j], now) + RepoCommits(t, remote, section, repos[j], now)
  {
    assert repos[..j + 1][..j] == repos[..j];
  }

  lemma OrgsStep(t: Tracker, remote: Remote, section: Option<Section>, orgs: seq<string>, i: nat, now: int)
    requires SectionUsable(section) && i < |orgs|
    ensures OrgsCommits(t, remote, section, orgs[..i + 1], now)
         == OrgsCommits(t, remote, section, orgs[..i], now)
            + ReposCommits(t, remote, section, remote.listRepos(orgs[i]), now)
  {
    assert orgs[..i + 1][..i] == orgs[..i];
  }

  /** An element other than the last is among the earlier ones. */
  lemma InEarlier<T>(s: seq<T>, x: T)
    requires x in s && x != s[|s| - 1]
    ensures x in s[..|s| - 1]
  {
    var i :| 0 <= i < |s| && s[i] == x;
    assert s[..|s| - 1][i] == x;
  }

  /** Appending in two steps is appending once. */
  lemma AppendAssoc<T>(a: seq<T>, b: seq<T>, c: seq<T>)
    ensures (a + b) + c == a + (b + c)
  {
  }

  /** The body of the repository loop of `get_commits_from_organizations`: one repository's commits. */
  method GetCommitsFromRepository(t: Tracker, remote: Remote, section: Option<Section>, repo: string, now: int)
    returns (commits: seq<CommitRecord>)
    requires SectionUsable(section)
    ensures commits == RepoCommits(t, remote, section, repo, now)
  {
    var repoStrategy := RepoSpecificStrategy(repo, section);
    RepoStrategyUsable(repo, section);
    var targetBranches := TargetBranches(repoStrategy, remote.listBranches(repo));
    commits := [];
    for k := 0 to |targetBranches|
      invariant commits == BranchesCommits(t, remote, repo, targetBranches[..k], now)
    {
      BranchesStep(t, remote, repo, targetBranches, k, now);
      var branchCommits := GetCommitsFromBranch(t, remote, repo, targetBranches[k], now);
      commits := commits + branchCommits;
    }
    assert targetBranches[..|targetBranches|] == targetBranches;
  }

  /** The body of the organization loop of `get_commits_from_organizations`: one organization's commits. */
  method GetCommitsFromOrganization(t: Tracker, remote: Remote, section: Option<Section>, org: string, now: int)
    returns (commits: seq<CommitRecord>)
    requires SectionUsable(section)
    ensures commits == ReposCommits(t, remote, section, remote.listRepos(org), now)
  {
    var repositories := remote.listRepos(org);
    commits := [];
    for j := 0 to |repositories|
      invariant commits == ReposCommits(t, remote, section, repositories[..j], now)
    {
      ReposStep(t, remote, section, repositories, j, now);
      var repoCommits := GetCommitsFromRepository(t, remote, section, repositories[j], now);
      commits := commits + repoCommits;
    }
    assert repositories[..|repositories|] == repositories;
  }

  /** `get_commits_from_organizations`: the nested walk, appending as it goes. */
  method GetCommitsFromOrganizations(t: Tracker, remote: Remote, orgs: seq<string>, section: Option<Section>,
                                     now: int)
    returns (allCommits: seq<CommitRecord>)
    requires SectionUsable(section)
    ensures allCommits == OrgsCommits(t, remote, section, orgs, now)
  {
    allCommits := [];
    for i := 0 to |orgs|
      invariant allCommits == OrgsCommits(t, remote, section, orgs[..i], now)
    {
      OrgsStep(t, remote, section, orgs, i, now);
      var orgCommits := GetCommitsFromOrganization(t, remote, section, orgs[i], now);
      allCommits := allCommits + orgCommits;
    }
    assert orgs[..|orgs|] == orgs;
  }

  // ----- Where each collected commit comes from -----

  /** Whatever the mode, only branches the repository has are walked. */
  lemma TargetsExist(s: Strategy, existing: seq<string>, b: string)
    requires Usable(s) && b in Targets(s, existing)
    ensures b in existing
  {
    if ModeOrAll(s) == Some("priority") {
      var i :| 0 <= i < |Items(s.branches)| && Targets(s, existing) == [Items(s.branches)[i]]
               && Items(s.branches)[i] in existing
               && forall j :: 0 <= j < i ==> Items(s.branches)[j] !in existing;
    }
  }

  /** A record of a branch walk comes from a user commit of one of the branches. */
  lemma {:induction false} BranchesCommitsFrom(t: Tracker, remote: Remote, repo: string, branches: seq<string>,
                                               now: int, r: CommitRecord)
    requires r in BranchesCommits(t, remote, repo, branches, now)
    ensures exists b, c :: b in branches && c in remote.listCommits(repo, b, t.fromDate, t.toDate)
                           && IsUserCommit(c, t.usernames) && r == ExtractCommitData(c, repo, b, now)
  {
    var last := branches[|branches| - 1];
    if r in BranchesCommits(t, remote, repo, branches[..|branches| - 1], now) {
      BranchesCommitsFrom(t, remote, repo, branches[..|branches| - 1], now, r);
      var b, c :| b in branches[..|branches| - 1] && c in remote.listCommits(repo, b, t.fromDate, t.toDate)
                  && IsUserCommit(c, t.usernames) && r == ExtractCommitData(c, repo, b, now);
      assert b in branches;
    } else {
      UserRecordsFrom(t.usernames, remote.listCommits(repo, last, t.fromDate, t.toDate), repo, last, now, r);
    }
  }

  /** Every user commit of every walked branch is collected. */
  lemma {:induction false} BranchesCommitsTo(t: Tracker, remote: Remote, repo: string, branches: seq<string>,
                                             now: int, b: string, c: RawCommit)
    requires b in branches && c in remote.listCommits(repo, b, t.fromDate, t.toDate) && IsUserCommit(c, t.usernames)
    ensures ExtractCommitData(c, repo, b, now) in BranchesCommits(t, remote, repo, branches, now)
  {
    var last := branches[|branches| - 1];
    if b == last {
      UserRecordsTo(t.usernames, remote.listCommits(repo, b, t.fromDate, t.toDate), repo, b, now, c);
    } else {
      assert b in branches[..|branches| - 1] by {
        var i :| 0 <= i < |branches| && branches[i] == b;
        assert branches[..|branches| - 1][i] == b;
      }
      BranchesCommitsTo(t, remote, repo, branches[..|branches| - 1], now, b, c);
    }
  }

  /** A record of a repository walk belongs to one of the repositories walked. */
  lemma {:induction false} ReposCommitsFrom(t: Tracker, remote: Remote, section: Option<Section>,
                                            repos: seq<string>, now: int, r: CommitRecord)
    requires SectionUsable(section) && r in ReposCommits(t, remote, section, repos, now)
    ensures exists repo :: repo in repos && r in RepoCommits(t, remote, section, repo, now)
  {
    if r in ReposCommits(t, remote, section, repos[..|repos| - 1], now) {
      ReposCommitsFrom(t, remote, section, repos[..|repos| - 1], now, r);
      var repo :| repo in repos[..|repos| - 1] && r in RepoCommits(t, remote, section, repo, now);
      assert repo in repos;
    } else {
      assert r in RepoCommits(t, remote, section, repos[|repos| - 1], now);
    }
  }

  /** A record of the organization walk belongs to a repository of one of the organizations. */
  lemma {:induction false} OrgsCommitsFrom(t: Tracker, remote: Remote, section: Option<Section>,
                                           orgs: seq<string>, now: int, r: CommitRecord)
    requires SectionUsable(section) && r in OrgsCommits(t, remote, section, orgs, now)
    ensures exists org, repo :: org in orgs && repo in remote.listRepos(org)
                                && r in RepoCommits(t, remote, section, repo, now)
  {
    var last := orgs[|orgs| - 1];
    if r in OrgsCommits(t, remote, section, orgs[..|orgs| - 1], now) {
      OrgsCommitsFrom(t, remote, section, orgs[..|orgs| - 1], now, r);
      var org, repo :| org in orgs[..|orgs| - 1] && repo in remote.listRepos(org)
                       && r in RepoCommits(t, remote, section, repo, now);
      assert org in orgs;
    } else {
      ReposCommitsFrom(t, remote, section, remote.listRepos(last), now, r);
    }
  }

  /**
   * Everything collected is a commit by one of the users, on an existing
   * branch the repository's strategy selects, labelled with that repository
   * and branch.
   */
  lemma CollectedCommitProvenance(t: Tracker, remote: Remote, section: Option<Section>, orgs: seq<string>,
                                  now: int, r: CommitRecord)
    requires SectionUsable(section) && r in OrgsCommits(t, remote, section, orgs, now)
    ensures exists org :: org in orgs && r.repository in remote.listRepos(org)
    ensures r.branch in Targets(RepoSpecificStrategy(r.repository, section), remote.listBranches(r.repository))
    ensures r.branch in remote.listBranches(r.repository)
    ensures exists c :: c in remote.listCommits(r.repository, r.branch, t.fromDate, t.toDate)
                        && IsUserCommit(c, t.usernames) && r == ExtractCommitData(c, r.repository, r.branch, now)
  {
    OrgsCommitsFrom(t, remote, section, orgs, now, r);
    var org, repo :| org in orgs && repo in remote.listRepos(org) && r in RepoCommits(t, remote, section, repo, now);
    RepoStrategyUsable(repo, section);
    var strategy := RepoSpecificStrategy(repo, section);
    BranchesCommitsFrom(t, remote, repo, Targets(strategy, remote.listBranches(repo)), now, r);
    var b, c :| b in Targets(strategy, remote.listBranches(repo))
                && c in remote.listCommits(repo, b, t.fromDate, t.toDate)
                && IsUserCommit(c, t.usernames) && r == ExtractCommitData(c, repo, b, now);
    TargetsExist(strategy, remote.listBranches(repo), b);
  }

  lemma {:induction false} ReposCommitsTo(t: Tracker, remote: Remote, section: Option<Section>,
                                          repos: seq<string>, now: int, repo: string, r: CommitRecord)
    requires SectionUsable(section) && repo in repos && r in RepoCommits(t, remote, section, repo, now)
    ensures r in ReposCommits(t, remote, section, repos, now)
  {
    if repo != repos[|repos| - 1] {
      InEarlier(repos, repo);
      ReposCommitsTo(t, remote, section, repos[..|repos| - 1], now, repo, r);
    }
  }

  lemma {:induction false} OrgsCommitsTo(t: Tracker, remote: Remote, section: Option<Section>,
                                         orgs: seq<string>, now: int, org: string, repo: string, r: CommitRecord)
    requires SectionUsable(section) && org in orgs && repo in remote.listRepos(org)
    requires r in RepoCommits(t, remote, section, repo, now)
    ensures r in OrgsCommits(t, remote, section, orgs, now)
  {
    if org == orgs[|orgs| - 1] {
      ReposCommitsTo(t, remote, section, remote.listRepos(org), now, repo, r);
    } else {
      InEarlier(orgs, org);
      OrgsCommitsTo(t, remote, section, orgs[..|orgs| - 1], now, org, repo, r);
    }
  }

  /**
   * Nothing is missed: a commit by one of the users on a selected branch of a
   * repository of one of the organizations is collected.
   */
  lemma CollectedCommitCompleteness(t: Tracker, remote: Remote, section: Option<Section>, orgs: seq<string>,
                                    now: int, org: string, repo: string, b: string, c: RawCommit)
    requires SectionUsable(section) && org in orgs && repo in remote.listRepos(org)
    requires Usable(RepoSpecificStrategy(repo, section))
             && b in Targets(RepoSpecificStrategy(repo, section), remote.listBranches(repo))
    requires c in remote.listCommits(repo, b, t.fromDate, t.toDate) && IsUserCommit(c, t.usernames)
    ensures ExtractCommitData(c, repo, b, now) in OrgsCommits(t, remote, section, orgs, now)
  {
    BranchesCommitsTo(t, remote, repo, Targets(RepoSpecificStrategy(repo, section), remote.listBranches(repo)),
                      now, b, c);
    OrgsCommitsTo(t, remote, section, orgs, now, org, repo, ExtractCommitData(c, repo, b, now));
  }

  // ----- A worked example -----

  const Alice := Some(GitAuthor("Alice", "alice@example.com", 100))

  /** Two commits by alice and one by bob on `main`, with any messages. */
  function MainCommits(m0: string, m1: string, m2: string): seq<RawCommit> {
    [RawCommit("a1", Some("alice"), Alice, m0, "u1"),
     RawCommit("b1", Some("bob"), None, m1, "u2"),
     RawCommit("a2", Some("alice"), Alice, m2, "u3")]
  }

  /** The organization `acme` with one repository, whose `feature-x` holds one commit by alice. */
  function ExampleRemote(m0: string, m1: string, m2: string): Remote {
    Remote(
      org => if org == "acme" then ["acme/widgets"] else [],
      repo => if repo == "acme/widgets" then ["main", "feature-x"] else [],
      (repo, branch, from, to) =>
        if repo != "acme/widgets" then []
        else if branch == "main" then MainCommits(m0, m1, m2)
        else if branch == "feature-x" then [RawCommit("a3", Some("alice"), Alice, m0, "u4")]
        else [])
  }

  const ExampleTracker := Tracker(["alice"], None, None)
  const ExampleSection := Some(Section(Some("specific"), Some(AList(["main", "dev"])), []))

  /** Alice's commits are the first and the last. */
  lemma ExampleAuthors(m0: string, m1: string, m2: string)
    ensures IsUserCommit(MainCommits(m0, m1, m2)[0], ExampleTracker.usernames)
    ensures !IsUserCommit(MainCommits(m0, m1, m2)[1], ExampleTracker.usernames)
    ensures IsUserCommit(MainCommits(m0, m1, m2)[2], ExampleTracker.usernames)
  {
  }

  /** Of `main`'s listing, the records of alice's two commits. */
  lemma ExampleMainRecords(m0: string, m1: string, m2: string, now: int)
    ensures BranchCommits(ExampleTracker, ExampleRemote(m0, m1, m2), "acme/widgets", "main", now)
         == [ExtractCommitData(MainCommits(m0, m1, m2)[0], "acme/widgets", "main", now),
             ExtractCommitData(MainCommits(m0, m1, m2)[2], "acme/widgets", "main", now)]
  {
    var main := MainCommits(m0, m1, m2);
    var usernames := ["alice"];
    ExampleAuthors(m0, m1, m2);
    var e0 := ExtractCommitData(main[0], "acme/widgets", "main", now);
    var e2 := ExtractCommitData(main[2], "acme/widgets", "main", now);
    assert UserRecords(usernames, main[..1], "acme/widgets", "main", now) == [e0] by {
      assert main[..0] == [];
      UserRecordsStep(usernames, main, 0, "acme/widgets", "main", now);
    }
    assert UserRecords(usernames, main[..2], "acme/widgets", "main", now) == [e0] by {
      UserRecordsStep(usernames, main, 1, "acme/widgets", "main", now);
    }
    assert UserRecords(usernames, main, "acme/widgets", "main", now) == [e0, e2] by {
      assert main[..|main| - 1] == main[..2];
    }
  }

  /** `specific` on `main` and `dev` over the branches `main` and `feature-x` selects `main` alone. */
  lemma ExampleTargets()
    ensures Usable(RepoSpecificStrategy("acme/widgets", ExampleSection))
    ensures Targets(RepoSpecificStrategy("acme/widgets", ExampleSection), ["main", "feature-x"]) == ["main"]
  {
    assert RepoSpecificStrategy("acme/widgets", ExampleSection) == Strategy(Some("specific"), Some(AList(["main", "dev"])), false);
    assert ["main", "dev"][1..] == ["dev"];
  }

  /**
   * With the default strategy `specific` on `main` and `dev`, only `main` is
   * walked (there is no `dev`, and `feature-x` is not configured), and of its
   * commits exactly alice's two are collected, in order.
   */
  lemma SpecificStrategyExample(m0: string, m1: string, m2: string, now: int)
    ensures OrgsCommits(ExampleTracker, ExampleRemote(m0, m1, m2), ExampleSection, ["acme"], now)
         == [ExtractCommitData(MainCommits(m0, m1, m2)[0], "acme/widgets", "main", now),
             ExtractCommitData(MainCommits(m0, m1, m2)[2], "acme/widgets", "main", now)]
  {
    var remote := ExampleRemote(m0, m1, m2);
    ExampleTargets();
    ExampleMainRecords(m0, m1, m2, now);
    var collected := BranchCommits(ExampleTracker, remote, "acme/widgets", "main", now);
    assert remote.listBranches("acme/widgets") == ["main", "feature-x"];
    assert ["main"][..0] == [];
    assert BranchesCommits(ExampleTracker, remote, "acme/widgets", ["main"], now) == collected;
    assert RepoCommits(ExampleTracker, remote, ExampleSection, "acme/widgets", now) == collected;
    assert ["acme/widgets"][..0] == [];
    assert ReposCommits(ExampleTracker, remote, ExampleSection, ["acme/widgets"], now) == collected;
    assert ["acme"][..0] == [];
  }
}
