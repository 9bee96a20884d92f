# GitHub commit tracker: a verified model of its rule sets

The tracker reads a YAML configuration, walks the repositories of some GitHub
organizations, and keeps the commits made by a list of users. For each
repository it walks only the branches the repository's branch strategy selects,
and only the commits inside a date range. It then prints a plain-text report
grouped by repository. This project models the parts of that program that
decide something, in Dafny, and proves what they promise:

- `Strings.dfy`: the pieces of Python's `str` the program relies on.
  - `isspace`, as the exact Unicode whitespace set.
  - `strip`.
  - `lower`, on ASCII letters. This is enough for every comparison the program makes.
  - `split` and `join` on one character.
  - Decimal digits.
- `Dates.dfy`: `datetime` as far as the program uses it. This means
  proleptic Gregorian dates, `toordinal`, `weekday`, stepping back one day,
  `strftime('%Y-%m-%d')` and `strftime('%Y-%m-%d %H:%M')`. It also covers the
  two `strptime` formats, with their leniency written out: one-digit months and
  days, a day padded with a space, and any run of whitespace before the time.
- `ConfigParser.dfy` (config_parser.py):
  - `${NAME}` substitution, with the environment as a map;
  - the ordered chain of validation checks over the parsed document, a typed
    record in which the first failure wins;
  - the `ConfigParser` object, whose `load` stores the document and validates it;
  - branch-strategy lookup with per-repository overrides;
  - the date range, with the weekend look-back. The clock is `today` and the
    operator's typed answer is `response`.
- `GithubClient.dfy` (github_client.py):
  - the strategy of one repository and the branches it selects;
  - the author filter and the commit record;
  - the date parser of the client;
  - the nested collection organization → repository → branch → commit. The
    three remote listings are function parameters.
- `Formatter.dfy` (main.py): the cleaner, `format_text` and `sort_commits`.
  - The cleaner removes a `type(scope): ` prefix from a bullet line.
  - `format_text` groups commits by repository short name, then numbers the
    kept bullets.
  - `sort_commits` is stable.
- `TestRegex.dfy` (test_regex.py): the second copy of the cleaner.
  - It is written as the backtracking match of `^.*\([^)]+\):\s*` that the
    script's comment spells out, with greedy quantifiers tried longest first.
  - It is proved equal to the report's cleaner on every string.
  - The script's eight sample lines are worked through.

The imperative parts keep their form. `ConfigParser` is a class whose `Load`
assigns its `config` field. The override check, the Friday look-back, the
priority search, the commit collection and `format_text` are methods with
loops. Each of these methods is proved equal to a function, and the
properties are proved about that function.

## Model

| member | source | states |
|---|---|---|
| ConfigParser.RefEnd | config_parser.py:47 | A reference starts the text exactly when `${` is followed by a non-empty name free of `}` and then `}`; the result is the index of that `}`. |
| ConfigParser.ExpandEnvVars | config_parser.py:40-47 | Text without a `$` comes back unchanged. Text before a reference is copied (`ExpandPlainPrefix`), and a reference anywhere is replaced (`ExpandRef`). |
| ConfigParser.ExpandPlainPrefix | config_parser.py:40-47 | Text free of `$` in front is copied as it is, and the rest expands as it would alone: `Expand(a + b) == a + Expand(b)`. With `ExpandRef`, this pins down expansion of any text. |
| ConfigParser.ExpandNonRef | config_parser.py:40-47 | Where the pattern `\$\{([^}]+)\}` matches at no length, one character is copied, a `$` included, and the scan goes on from the next character. |
| ConfigParser.ExpandAtRef | config_parser.py:40-47 | Wherever the pattern matches at the front, ending at any `}`, the match becomes the value of its name, or stays as written when the name is unset, and the scan resumes after that `}`. |
| ConfigParser.RefEndUnique | config_parser.py:47 | A match at the front is unique. `RefEnd` returns an index exactly when the pattern matches up to and including the `}` at that index. |
| ConfigParser.ExpandAfterText | config_parser.py:40-47 | A reference after other text is replaced: `a${X}` with `X` set to `v` gives `av`. |
| ConfigParser.ExpandRef | config_parser.py:40-47 | A leading `${NAME}` becomes the value of NAME taken verbatim, or stays as written when NAME is unset. Expansion resumes after the reference, so an inserted value is never rescanned. |
| ConfigParser.ExpandWithoutRefs | config_parser.py:40-47 | Text holding no `${NAME}` comes back unchanged, whatever the environment. |
| ConfigParser.ExpandEmptyEnv | config_parser.py:42-44 | With nothing set, every reference stays as written, so the whole text comes back unchanged. |
| ConfigParser.OverrideError | config_parser.py:86-100 | An override entry is accepted exactly when its key contains `/`, its mode is one of the three, and `specific`/`priority` come with a non-empty list of branches. |
| ConfigParser.FirstOverrideErrorSpec | config_parser.py:86-100 | The overrides check fails exactly when some entry is bad, and then it reports the error of the first bad entry in document order. |
| ConfigParser.FirstOverrideError | config_parser.py:86-100 | An error found among the overrides is always one of the three override errors: bad key, bad mode, or missing branches. |
| ConfigParser.CheckOverrides | config_parser.py:86-100 | The loop over the overrides stops at the first bad entry and returns its error, or none. |
| ConfigParser.OverrideKeyNeedsOnlySlash | config_parser.py:88-89 | A key needs only to contain `/`: `"org/"` passes, while `"repo"` fails naming the key. |
| ConfigParser.ValidateDateFormat | config_parser.py:114-128 | A date string passes exactly when it reads as `%Y-%m-%d %H:%M` or as `%Y-%m-%d`. Otherwise the error names the field and the value. |
| ConfigParser.FormattedDatesValidate | config_parser.py:114-128 | Every valid date and every valid date with time, written by `strftime`, passes the check. |
| ConfigParser.ValidIffWellFormed | config_parser.py:49-112 | Validation passes exactly on documents that are well formed, stated field by field (both directions). |
| ConfigParser.ConfigErrorOf | config_parser.py:49-112 | The empty-configuration error is reported exactly for a missing document. A date error names `from` or `to`. Its full characterisation is `ValidIffWellFormed`. |
| ConfigParser.ConfigParser.constructor | config_parser.py:19-21 | The parser starts with the given path and no document. |
| ConfigParser.ConfigParser.ValidateConfig | config_parser.py:49-112 | The checks run in source order, and the first failure is returned. |
| ConfigParser.ConfigParser.Load | config_parser.py:33-38 | The document is stored before it is validated, so a rejected document stays stored; the path is unchanged. |
| ConfigParser.FindOverride | config_parser.py:163-165 | An override is found exactly when an entry has the repository's name, and the one found is the first such entry. |
| ConfigParser.FindOverrideDistinct | config_parser.py:164-165 | With distinct keys, the lookup returns the strategy stored under the key. |
| ConfigParser.DefaultStrategy | config_parser.py:168-171 | The default strategy carries the section's mode, null when the section has none or there is no section. Its branches are the section's branches, or `[]` when absent. The `mode` key is always present. |
| ConfigParser.GetBranchStrategy | config_parser.py:156-171 | Three cases. With no name or an empty one, the whole section is returned, overrides included. With a name that has an override, that override is returned verbatim. Otherwise the result is exactly the default strategy of the section. |
| ConfigParser.FridayOnOrBefore | config_parser.py:203-207 | From a Friday, Saturday or Sunday, the day reached is a valid Friday. It lies weekday-minus-4 days earlier: Saturday goes back 1 day, Sunday goes back 2. |
| ConfigParser.WeekendDayBefore | config_parser.py:206-207 | The day before a Saturday or a Sunday exists and is one weekday earlier, so the look-back loop ends. |
| ConfigParser.Affirmative | config_parser.py:217-219 | An affirmative answer is non-empty after stripping and starts with `y`, `Y`, `ㅇ` or `예`. The exact set of answers is `AffirmativeAnswers`. |
| ConfigParser.AffirmativeAnswers | config_parser.py:217-219 | An answer is affirmative exactly when, after stripping, it is `ㅇ`, `예`, `y` in either case, or `yes` in any mix of cases. |
| ConfigParser.StartDate | config_parser.py:199-224 | A weekday yesterday is kept. On a weekend day the Friday is chosen exactly when it is a dry run or the answer is affirmative. When the run is not a dry run and the answer is not affirmative, yesterday is kept. |
| ConfigParser.StartDateWithWeekendCheck | config_parser.py:199-224 | The loop walks back to the Friday, and the method returns the chosen day formatted `%Y-%m-%d`. |
| ConfigParser.GetDateRange | config_parser.py:173-197 | A given start is kept verbatim. A missing start becomes yesterday after the weekend check. An empty end becomes `None`. |
| ConfigParser.DefaultStartValidates | config_parser.py:181-192 | The default start always passes `_validate_date_format`. |
| ConfigParser.AnswerExamples | config_parser.py:217-219 | `" YES "` is affirmative after strip and lower; `"n"` is not. |
| ConfigParser.SaturdayExample | config_parser.py:203-214 | Saturday 2024-06-15 in a dry run starts on Friday 2024-06-14. |
| ConfigParser.SundayExample | config_parser.py:215-222 | Sunday 2024-06-16 starts on Friday 2024-06-14 when the answer is `" YES "`, and stays on Sunday when it is `"n"`. |
| ConfigParser.WeekdayExample | config_parser.py:223-224 | Wednesday 2024-06-12 is kept, even in a dry run. |
| Dates.PrevDay | config_parser.py:207 | `- timedelta(days=1)` gives a valid date whose ordinal is one less. |
| Dates.Weekday | config_parser.py:203-206 | `weekday()` lies in 0..6. Stepping back is `PrevDayWeekday`. |
| Dates.FormatYmd | config_parser.py:214-224 | `strftime('%Y-%m-%d')` writes ten characters with `-` at positions 4 and 7. It reads back by `ParseFormatYmd`. |
| Dates.FormatYmdHm | config_parser.py:118 | The date and time take sixteen characters: the date, a space, then `HH:MM`. |
| Dates.ParseYmd | config_parser.py:125 | Whatever `strptime(s, '%Y-%m-%d')` reads is a valid calendar date. Which strings it reads is `ParseYmdShape`. |
| Dates.ParseYmdShape | config_parser.py:125 | `%Y-%m-%d` reads `s` as `d` exactly when `d` is a valid date and `s` is four year digits, `-`, the month in one or two digits, `-`, and the day in one or two digits or as a space and one digit. Nothing may come before or after. |
| Dates.ParseYmdSplit | config_parser.py:125 | Whatever `%Y-%m-%d` reads is spelled by year, month and day fields of the date it returns. |
| Dates.ParseYmdJoin | config_parser.py:125 | The fields of a valid date, joined by `-`, read back as that date, with or without a leading zero. |
| Dates.ParseYmdRefusals | config_parser.py:125 | `20240614` and `2024/06/14` are refused, and `2024-6-4` reads as 4 June 2024. |
| Dates.ParseYmdHm | config_parser.py:118 | Whatever `strptime(s, '%Y-%m-%d %H:%M')` reads is a valid date with an hour in 0..23 and a minute in 0..59. Which strings it reads is `ParseYmdHmShape`. |
| Dates.ParseYmdHmShape | config_parser.py:118 | `%Y-%m-%d %H:%M` reads `s` as `t` exactly when `t` is in range and `s` is a string that `%Y-%m-%d` reads as `t`'s date, then one or more whitespace characters, then the hour in one or two digits, `:`, and the minute in one or two digits. |
| Dates.ParseYmdHmSplit | config_parser.py:118 | Whatever `%Y-%m-%d %H:%M` reads splits into a date `%Y-%m-%d` reads, whitespace, an hour and a minute. |
| Dates.ParseYmdHmJoin | config_parser.py:118 | A date `%Y-%m-%d` reads, whitespace, and an hour and a minute in range read back as that date and time. |
| Dates.YmdPrefixJoin | config_parser.py:118-125 | The date fields followed by text that does not start with a digit read as the date, leaving that text. |
| Dates.YmdPrefixSplit | config_parser.py:118-125 | What the date fields read is spelled by the date's year, month and day, followed by the rest. |
| Dates.ClockSuffixSplit | config_parser.py:118 | What the time part reads is whitespace, the hour's digits, `:` and the minute's digits. |
| Dates.ClockSuffixJoin | config_parser.py:118 | Whitespace, an hour in 0..23 and a minute in 0..59 read back as that hour and minute. |
| Dates.PrevDayWeekday | config_parser.py:206-207 | Stepping back one day steps the weekday back by one, cyclically. |
| Dates.ParseFormatYmd | config_parser.py:125 | `strptime('%Y-%m-%d')` reads back every date that `strftime('%Y-%m-%d')` writes. |
| Dates.ParseFormatYmdHm | config_parser.py:118 | `strptime('%Y-%m-%d %H:%M')` reads back every date with time that the matching `strftime` writes. |
| Strings.Strip | github_client.py:162 | `strip()` removes exactly the leading and trailing whitespace. The result is a slice of the input, neither end of it is whitespace, and stripping twice is stripping once (`StripIdempotent`). |
| Strings.Lower | main.py:107 | `lower()` maps each character independently and keeps the length. |
| Strings.Split | main.py:36 | `split(sep)` gives at least one part, and no part contains the separator. A string without the separator is its own only part. Rejoining the parts gives the string back (`JoinSplit`). |
| GithubClient.RepoSpecificStrategy | github_client.py:103-113 | An override is returned unchanged. Otherwise the result is the default mode, with the `mode` key present, and branches defaulting to `[]`. |
| GithubClient.RepoStrategyMatchesConfigParser | github_client.py:93-113 | Given a repository name, this copy of the lookup agrees with `get_branch_strategy`. |
| GithubClient.WellFormedIsUsable | config_parser.py:75-100 | In a validated configuration whose sections are mappings, every mode that reads branches has a list of branches, so the walk never iterates a non-list. A null `overrides` is not covered (see "## Left out"). |
| GithubClient.KeepExisting | github_client.py:122-125 | `specific` keeps exactly the configured branches that exist. It keeps all of them, in order, when all exist. |
| GithubClient.KeepExistingOrder | github_client.py:125 | The result follows the configured order. Selecting from `a + b` gives the selection from `a` followed by the selection from `b`, and a single configured branch is kept exactly when it exists. |
| GithubClient.KeepExistingIgnoresListingOrder | github_client.py:125 | Two listings holding the same branches give the same result, so the remote listing's order never shows. |
| GithubClient.KeepExistingCounts | github_client.py:125 | Duplicates are kept: an existing branch appears as often as it is configured. |
| GithubClient.FirstExisting | github_client.py:127-137 | `priority` returns at most one branch. It is the first configured branch that exists, or nothing when none exists. |
| GithubClient.TargetBranches | github_client.py:115-139 | Equals `Targets`. A missing mode or `all` gives the listing unchanged, and any other mode (a null one included) gives nothing. |
| GithubClient.ModelessSectionSelectsNothing | github_client.py:110-120 | A section without a mode selects no branch where no override applies, because its default has a null `mode` key. An override without a `mode` key selects every branch. |
| GithubClient.Targets | github_client.py:115-139 | Every selected branch is one the repository has, and `priority` selects at most one. The mode cases are stated by `KeepExisting`, `KeepExistingOrder`, `FirstExisting` and `ModelessSectionSelectsNothing`. |
| GithubClient.TargetsExist | github_client.py:115-139 | Whatever the mode, every selected branch is one the repository has. |
| GithubClient.IsUserCommit | github_client.py:141-150 | A commit is kept exactly when it has an author whose login equals one of the usernames. |
| GithubClient.ExtractCommitData | github_client.py:156-167 | The record carries the commit's sha and URL, the repository and branch it came from, and the stripped message. With a git author, the record takes that author's name, e-mail and date. Without one, name and e-mail are `Unknown` and the date is the clock's. |
| GithubClient.ExtractedMessageIsStripped | github_client.py:162 | The stored message is the stripped message, and stripping it again changes nothing. |
| GithubClient.UserRecordsFrom | github_client.py:59-62 | Every record of a branch comes from a user commit of the listing. |
| GithubClient.UserRecordsTo | github_client.py:59-62 | Every user commit of the listing yields a record. |
| GithubClient.UserRecords | github_client.py:59-62 | At most one record per listed commit. Every record names the repository and branch being walked. Provenance and completeness are `UserRecordsFrom` and `UserRecordsTo`. |
| GithubClient.GetCommitsFromBranch | github_client.py:46-69 | The loop returns the records of the user commits of the branch's listing, in listing order. |
| GithubClient.GetCommitsFromRepository | github_client.py:80-89 | One repository's commits are those of each branch its strategy selects, branch after branch. |
| GithubClient.GetCommitsFromOrganization | github_client.py:77-89 | One organization's commits are those of each of its repositories, in listing order. |
| GithubClient.GetCommitsFromOrganizations | github_client.py:71-91 | The nested loops return the concatenation in organization → repository → branch → commit order. |
| GithubClient.BranchesCommits | github_client.py:86-89 | Every record names the repository walked and one of the walked branches. |
| GithubClient.RepoCommits | github_client.py:80-89 | Every record of a repository names that repository and a branch it has. |
| GithubClient.ReposCommits | github_client.py:79-89 | Every record names one of the walked repositories and a branch of that repository. |
| GithubClient.OrgsCommits | github_client.py:75-89 | Every collected record names a branch its repository has. Full provenance and completeness are `CollectedCommitProvenance` and `CollectedCommitCompleteness`. |
| GithubClient.BranchesCommitsFrom | github_client.py:86-89 | A record of a repository's branch walk comes from a user commit of one of its walked branches. |
| GithubClient.BranchesCommitsTo | github_client.py:86-89 | Every user commit of every walked branch is collected. |
| GithubClient.ReposCommitsFrom | github_client.py:79-89 | A record of the repository walk belongs to one of the repositories walked. |
| GithubClient.ReposCommitsTo | github_client.py:79-89 | Everything a walked repository yields is collected. |
| GithubClient.OrgsCommitsFrom | github_client.py:75-89 | A record of the organization walk belongs to a repository listed for one of the organizations. |
| GithubClient.OrgsCommitsTo | github_client.py:75-89 | Everything a repository of a listed organization yields is collected. |
| GithubClient.CollectedCommitProvenance | github_client.py:71-91 | Every collected record satisfies three things. Its repository is listed for one of the organizations. Its branch exists in that repository and is selected by the repository's strategy. It is the record of a user commit listed on that branch. |
| GithubClient.CollectedCommitCompleteness | github_client.py:71-91 | Every user commit listed on a selected branch of a repository of one of the organizations is collected. |
| GithubClient.ExampleAuthors | github_client.py:147-150 | Among alice's and bob's commits, the filter for `["alice"]` keeps exactly alice's. |
| GithubClient.ExampleMainRecords | github_client.py:59-62 | Of a listing holding alice, bob, then alice, the records of the two commits by alice are kept, in order. |
| GithubClient.ExampleTargets | github_client.py:122-125 | `specific` on `main` and `dev`, over the branches `main` and `feature-x`, selects `main` alone. |
| GithubClient.SpecificStrategyExample | github_client.py:71-91 | The example organization yields exactly alice's two commits on `main`, in order. |
| GithubClient.ParseDateAsWrittenReadsDates | github_client.py:152-154 | `_parse_date` as written reads a date back as midnight of that day. |
| GithubClient.ParseDateAsWritten | github_client.py:152-154 | Succeeds exactly where `strptime(s, '%Y-%m-%d')` does. Its result is a valid date at midnight. |
| GithubClient.NewTrackerAsWritten | github_client.py:15-19 | The constructor as written succeeds exactly when each given bound reads as `%Y-%m-%d`. It keeps the usernames, and each bound is the parsed date or absent when not given or empty. On failure the error names the unreadable start, or else the unreadable end. |
| GithubClient.ParseDateAsWrittenRejectsClock | github_client.py:152-154 | Every date with time passes the configuration check, yet `_parse_date` as written refuses it. |
| GithubClient.DateOnlyRejectsClock | github_client.py:154 | `%Y-%m-%d` leaves the time unread, so no date with time parses. |
| GithubClient.ClockStartExample | github_client.py:15-19 | `"2024-06-14 09:30"` passes the check, and the tracker as written raises on it. |
| GithubClient.TrackerAsWrittenRejectsValidatedStart | github_client.py:15-19 | Given any validated start with a time of day, the constructor as written raises. |
| GithubClient.ParseDate | github_client.py:152-154 | The corrected parser succeeds exactly on the strings the configuration check accepts, and its result is a valid date and time. |
| GithubClient.ParseDateReadsBoth | github_client.py:152-154 | The corrected parser reads back a date as midnight, and a date with time as written. |
| GithubClient.ParseDateExtends | github_client.py:152-154 | Where the parser as written succeeds, the corrected one gives the same answer. |
| GithubClient.NewTracker | github_client.py:15-19 | With the corrected parser, the client is created exactly when each given bound is accepted. It keeps the usernames and the parsed bounds; an unreadable start is reported by value. |
| GithubClient.ValidatedRangeMakesTracker | github_client.py:18-19 | Bounds that passed validation, or the default start, always make a client. |
| CommitFormatter.LastScope | main.py:24 | The search finds the greatest qualifying `(`, and no later position qualifies; when nothing is found, no position qualifies. |
| CommitFormatter.Cut | main.py:24-25 | The result is a suffix of the line. It equals the line exactly when no `(` qualifies. When something is removed, what is left does not start with whitespace. |
| CommitFormatter.CleanLine | main.py:22-25 | The result is a suffix of the stripped line. It equals the stripped line exactly when no scope qualifies, and it never starts with whitespace. |
| CommitFormatter.CutAfterLastScope | main.py:24 | What is removed runs through the `):` of the last qualifying scope and all the whitespace after it. |
| CommitFormatter.CutWithoutParen | main.py:24-25 | A line without `(` is left as it is. |
| CommitFormatter.CutIdempotent | main.py:24-25 | On a single line, cutting a second time changes nothing. |
| CommitFormatter.CleanLineIdempotent | main.py:22-25 | On a line without a line break, cleaning twice equals cleaning once. |
| CommitFormatter.CutAcrossLines | main.py:24-25 | Across a line break the cut is not idempotent. `.*` stops at the break, so a second pass finds the scope on the next line. |
| CommitFormatter.ShortName | main.py:36 | The group key contains no `/`. |
| CommitFormatter.ShortNameAfterLastSlash | main.py:36 | The group key is the suffix after the last `/`, or the whole name when it has none. |
| CommitFormatter.GroupKeys | main.py:34-39 | The group names are distinct, and they are exactly the short names of the commits. |
| CommitFormatter.GroupKeysPrefix | main.py:34-39 | Groups appear in order of first occurrence: the groups of a prefix of the commits form a prefix of the groups. |
| CommitFormatter.GroupMembers | main.py:34-39 | A commit is in a group exactly when its short name is that group's key. |
| CommitFormatter.GroupConcat | main.py:34-39 | The group of a concatenation is the concatenation of the groups, so each group lists its commits in input order. |
| CommitFormatter.GroupsPartition | main.py:34-39 | The group sizes add up to the number of commits, so every commit lands in exactly one group. |
| CommitFormatter.AddToGroup | main.py:36-39 | One turn of the grouping loop. A missing key gets an empty list and its name is recorded, then the commit is appended to its own group only. |
| CommitFormatter.GroupByRepository | main.py:34-39 | The loop yields the keys in first-occurrence order and, for each key, its commits in input order. |
| CommitFormatter.KeptItems | main.py:54-60 | At most one item is kept per line, and every kept item is non-empty and starts with a non-space. |
| CommitFormatter.LineKept | main.py:54-60 | A body line is kept exactly when, stripped, it starts with `*` and its cleaned form is not empty. |
| CommitFormatter.BulletWithoutScopeKept | main.py:54-60 | A bullet without `(` is kept whole, `*` included. |
| CommitFormatter.CollectBodyItems | main.py:53-60 | The inner loop collects exactly the kept items of the lines after the title. |
| CommitFormatter.Numbered | main.py:66-67 | Item k is written as `k. ` followed by the k-th item, with numbering from 1. |
| CommitFormatter.Title | main.py:49-50 | The title is a single line: it contains no line break, and it is the whole stripped message when that has no break. |
| CommitFormatter.CommitLinesShape | main.py:62-69 | A commit gives `- ` plus its title, then its kept items numbered consecutively from 1, then an empty line. |
| CommitFormatter.AppendCommitLines | main.py:47-69 | The lines appended for one commit are exactly its lines. |
| CommitFormatter.AppendGroupLines | main.py:43-69 | A group appends its name, an empty line, then the lines of its commits. |
| CommitFormatter.FormatText | main.py:28-71 | `format_text` equals the report: the groups' lines joined with line breaks, or `No commits found.` when there are no commits. |
| CommitFormatter.Report | main.py:28-71 | The report is `No commits found.` exactly when there are no commits. Otherwise it is the groups' lines joined, with at least one line break. |
| CommitFormatter.SortByDatePermutes | main.py:105-108 | Sorting returns the same commits, as a multiset, in date order. |
| CommitFormatter.SortByDateStable | main.py:108 | Commits with equal dates keep their input order. |
| CommitFormatter.SortCommitsSpec | main.py:105-108 | `sort_commits` returns a stable permutation of its input. It is ascending, or descending when the order reads `desc` in any letter case. |
| CommitFormatter.SortCommits | main.py:105-108 | The result is a permutation of the commits, sorted by date in the direction `sort_order` names. Stability is `SortByDateStable`. |
| CommitFormatter.SortOrderWords | main.py:107 | `asc` sorts ascending; `DESC` and `Desc` sort descending. |
| RegexCheck.DotReach | test_regex.py:19 | `.*` reaches up to the first line break, or the end. |
| RegexCheck.NonCloseRunReachesClose | test_regex.py:20 | `[^)]` runs up to the first `)`. |
| RegexCheck.SpaceRunIsLeading | test_regex.py:21 | `\s*` takes the leading whitespace. |
| RegexCheck.ShorterScopeFails | test_regex.py:20 | Backing `[^)]+` off never completes the match, because what it gives up is not a `)`. |
| RegexCheck.ScopeMatches | test_regex.py:20-21 | Where the report's cleaner says a `(` qualifies, the pattern matches there and ends where the cleaner says. |
| RegexCheck.ScopeFails | test_regex.py:20-21 | Where it does not qualify, no length of `[^)]+` completes the match. |
| RegexCheck.TryAtAgrees | test_regex.py:18-22 | Within the reach of `.*`, the rest of the pattern matches exactly at the qualifying positions. |
| RegexCheck.MatchFromAgrees | test_regex.py:18-22 | Backing off `.*` from any point finds the last qualifying position at or below it. |
| RegexCheck.NothingPastBreak | test_regex.py:19 | No position past the first line break can be matched. |
| RegexCheck.MatchFromReach | test_regex.py:18-22 | The backtracking match ends exactly where the report's cleaner cuts. |
| RegexCheck.SubstituteIsCut | test_regex.py:23-24 | The substitution equals the report's cut on every string. |
| RegexCheck.Substitute | test_regex.py:23-24 | The substitution never lengthens the line. Equality with the report's cut is `SubstituteIsCut`. |
| RegexCheck.CleanCommitMessageLine | test_regex.py:14-25 | The cleaned line is never longer than the stripped line. Agreement with `main.py` is `CopiesAgree`. |
| RegexCheck.CopiesAgree | test_regex.py:14-25 | The two copies of `clean_commit_message_line` agree on every input. |
| RegexCheck.ScopedLineCleaned | test_regex.py:18-25 | `kind(scope): message` cleans to the message when neither the scope nor the message opens another `(`. |
| RegexCheck.EmptyScopeKept | test_regex.py:20 | `kind(): message` stays whole, because the scope needs at least one character. |
| RegexCheck.PlainLineKept | test_regex.py:23-25 | A line without `(` only loses its surrounding whitespace. |
| RegexCheck.TypesSample | test_regex.py:81 | `* feat(types): 유저정보 타입 추가` cleans to `유저정보 타입 추가`. |
| RegexCheck.MocksSample | test_regex.py:82 | `* feat(mocks): 유저정보 목업 추가` cleans to `유저정보 목업 추가`. |
| RegexCheck.ComponentsSample | test_regex.py:83 | `* refactor(components): 코드 정리` cleans to `코드 정리`. |
| RegexCheck.ApiSample | test_regex.py:84 | `* fix(api): 버그 수정` cleans to `버그 수정`. |
| RegexCheck.PlainTextSample | test_regex.py:85 | `일반 텍스트` comes back unchanged. |
| RegexCheck.BulletWithoutScopeSample | test_regex.py:86 | `* 괄호가 없는 메시지` comes back unchanged. |
| RegexCheck.EmptyScopeSample | test_regex.py:87 | `* feat(): 빈 괄호` comes back unchanged. |
| RegexCheck.LongScopeSample | test_regex.py:88 | `* feat(very-long-scope-name): 긴 스코프명` cleans to `긴 스코프명`. |

## Left out

- Reading the configuration file and `yaml.safe_load` (config_parser.py:23-35) are file and library I/O. `ConfigParser.Load` starts from the already-parsed document, and a document that is empty or null is `None`.
- `load_config` and the `__main__` block of config_parser.py, and the getters `get_github_config`, `get_organizations` and `get_usernames`, are dictionary reads with nothing to decide.
- The check that `overrides` is a dictionary (config_parser.py:83-84) is not modelled. Overrides are a list of entries in document order, and a non-dict entry value is not represented.
- `os.getenv`, `datetime.now()`, `input()` and `print` become parameters or are dropped. They are the environment map, `today`, `now` and `response`.
- `ConfigParser.GetDateRange` takes the clock as a date, `today`. The time of day that `datetime.now()` carries is never printed with `%H:%M`, so it is not modelled.
- Every PyGithub call and its exceptions (github_client.py:16-44, 57, 64-67) is replaced by the listing functions of `Remote`. A listing that fails is empty. A commit listing that fails midway is the part read before the failure. The error messages are not modelled.
- Configuration values of YAML types other than the ones the record holds are not represented. An unquoted `from: 2024-06-14` loads as a `datetime.date`. `strptime` then raises `TypeError` at config_parser.py:117-128, which is not a `ValueError`. It therefore escapes as an error rather than a configuration error (main.py:171-173 prints it).
- Sections written with no value are not represented. YAML loads `overrides:` with no value as `None`, which validation skips (`if overrides:`, config_parser.py:81-82). Then `repo_full_name in overrides` raises `TypeError` at github_client.py:106 and config_parser.py:164. The record can hold only `[]` there, so the model walks the default strategy instead.
- A `date_range:` with no value also passes validation (config_parser.py:103-104). Then `date_range.get('from')` raises `AttributeError` at config_parser.py:176. The record holds it as `DateRangeSection("", "")`, so the model defaults the start to yesterday.
- A `github:` with no value raises `AttributeError` at config_parser.py:56 during validation. The record holds it with an empty token, so the model reports `TokenRequired`.
- Overrides are a list of entries in document order, and `ConfigParser.FindOverride` returns the first entry with the name. A YAML mapping cannot hold a repeated key, and PyYAML keeps the last value of one, so the list is read with distinct keys. `ConfigParser.FindOverrideDistinct` states the lookup for that case.
- `GithubClient.TargetBranches`: a `branches` value that is not a list, where `specific` or `priority` reads it, is excluded by `Usable`. Python would iterate it or raise, and validation rejects it.
- `format_json` and `format_csv` (main.py:73-102) are projections through the `json` and `csv` libraries. `main()` (main.py:111-173) is argument parsing and output.
- setup.py is an interactive installer; it is not part of this model.
- `process_test_data` and the printing in `test_sample_patterns` (test_regex.py:28-93) are file reading and console output. Their sample lines are modelled as `RegexCheck.SampleLines`.
- `Strings.Lower` lowers ASCII letters only. Outside ASCII, Python lowers U+212A KELVIN SIGN to `k` and U+0130 to `i` followed by U+0307, and it lowers many non-ASCII letters to other non-ASCII letters. None of these results is one of the words compared with a lowered string (`y`, `yes`, `ㅇ`, `예`, `desc`), since those words contain neither `k` nor `i` and their non-ASCII letters are Hangul, which has no case. So every such comparison decides as in Python.
- `Dates`: `\d` in `strptime` reads ASCII digits only. Python also accepts other Unicode decimal digits there.
- Commit dates are integers (seconds). Only their order matters to `sort_commits`.
- CommitFormatter.CleanLineIdempotent holds for lines without a line break only; `CommitFormatter.CutAcrossLines` shows a line where a second pass removes more. `format_text` cleans only lines split at line breaks.

## Findings

| source | as written | input that shows it | evidently intended | confidence | as-written member | corrected member |
|---|---|---|---|---|---|---|
| github_client.py:152-154 (used at 18-19) | `_parse_date` accepts only `%Y-%m-%d`. Yet `_validate_date_format` (config_parser.py:114-128) accepts `%Y-%m-%d %H:%M` too, so a validated start or end with a time of day makes the client constructor raise `ValueError`. | `date_range.from: "2024-06-14 09:30"` | The client reads both formats the configuration accepts, the date alone as midnight. | high, not executed | GithubClient.ClockStartExample | GithubClient.ValidatedRangeMakesTracker |
