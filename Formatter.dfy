/**
 * The text report of main.py: cleaning a bullet line of its conventional
 * `type(scope):` prefix, grouping the commits by repository, numbering the
 * kept bullets, and sorting the commits by date.
 */
module CommitFormatter {
  import opened Wrappers
  import opened Strings
  import opened GithubClient

  // ----- The pattern `^.*\([^)]+\):\s*` -----

  /** The first `)` at or after `i`, or `|s|` when there is none. */
  function NextClose(s: string, i: nat): (q: nat)
    requires i <= |s|
    ensures i <= q <= |s|
    ensures forall k :: i <= k < q ==> s[k] != ')'
    ensures q < |s| ==> s[q] == ')'
    decreases |s| - i
  {
    if i == |s| || s[i] == ')' then i else NextClose(s, i + 1)
  }

  /**
   * The pattern can match with its `\(` at `p`: `.*` reaches `p` without
   * crossing a line break, at least one non-`)` follows the `(`, and the
   * first `)` after it is directly followed by `:`.
   */
  predicate Qualifies(s: string, p: nat) {
    p < |s| && s[p] == '(' && '\n' !in s[..p]
    && var q := NextClose(s, p + 1);
       p + 2 <= q && q + 1 < |s| && s[q + 1] == ':'
  }

  /** The greatest qualifying position below `n`: greedy `.*` tries the longest prefix first. */
  function LastScope(s: string, n: nat): (r: Option<nat>)
    requires n <= |s|
    ensures r.Some? ==> r.value < n && Qualifies(s, r.value)
                        && forall p: nat :: r.value < p < n ==> !Qualifies(s, p)
    ensures r.None? ==> forall p: nat :: p < n ==> !Qualifies(s, p)
  {
    if n == 0 then None
    else if Qualifies(s, n - 1) then Some(n - 1)
    else LastScope(s, n - 1)
  }

  /** Where the match that puts `\(` at `p` ends: after `):` and the whitespace run. */
  function MatchEnd(s: string, p: nat): (e: nat)
    requires Qualifies(s, p)
    ensures p + 4 <= e <= |s|
  {
    var q := NextClose(s, p + 1);
    q + 2 + LeadingSpaces(s[q + 2..])
  }

  /**
   * `re.sub` of the pattern on `t`: `^` anchors it at the start, so it
   * matches at most once, and then everything up to the end of the match is
   * dropped.
   */
  function Cut(t: string): (r: string)
    ensures |r| <= |t| && r == t[|t| - |r|..]
    ensures r == t <==> forall p: nat :: !Qualifies(t, p)
    ensures r != t && r != [] ==> !IsSpace(r[0])
  {
    match LastScope(t, |t|)
    case None => t
    case Some(p) =>
      MatchEndAtNonSpace(t, p);
      t[MatchEnd(t, p)..]
  }

  /** The match ends at the end of the line or before a non-space. */
  lemma MatchEndAtNonSpace(t: string, p: nat)
    requires Qualifies(t, p)
    ensures MatchEnd(t, p) < |t| ==> !IsSpace(t[MatchEnd(t, p)])
  {
    var q := NextClose(t, p + 1);
    assert t[MatchEnd(t, p)..] == t[q + 2..][LeadingSpaces(t[q + 2..])..];
  }

  /** `clean_commit_message_line`: the pattern removed from the stripped line. */
  function CleanLine(line: string): (r: string)
    ensures |r| <= |Strip(line)| && r == Strip(line)[|Strip(line)| - |r|..]
    ensures r == Strip(line) <==> forall p: nat :: !Qualifies(Strip(line), p)
    ensures r != [] ==> !IsSpace(r[0])
  {
    Cut(Strip(line))
  }

  /**
   * What is removed runs from the start of the line through the `):` of the
   * scope the search settles on (the greatest qualifying `(`, by `LastScope`)
   * and the whole whitespace run after it: what is left starts at a
   * non-space or is empty.
   */
  lemma CutAfterLastScope(t: string, p: nat)
    requires LastScope(t, |t|) == Some(p)
    ensures var q := NextClose(t, p + 1); var e := |t| - |Cut(t)|;
            q + 2 <= e && (forall k :: q + 2 <= k < e ==> IsSpace(t[k])) && (e < |t| ==> !IsSpace(t[e]))
  {
    var q := NextClose(t, p + 1);
    assert |t| - |Cut(t)| == MatchEnd(t, p);
    SpacesFrom(t, q + 2);
  }

  /** The leading whitespace of a suffix is whitespace of the whole line. */
  lemma SpacesFrom(t: string, i: nat)
    requires i <= |t|
    ensures forall k :: i <= k < i + LeadingSpaces(t[i..]) ==> IsSpace(t[k])
  {
    forall k | i <= k < i + LeadingSpaces(t[i..]) ensures IsSpace(t[k]) {
      assert t[k] == t[i..][k - i];
    }
  }

  /** A line without `(` is left as it is. */
  lemma CutWithoutParen(t: string)
    requires '(' !in t
    ensures Cut(t) == t
  {
    forall p: nat ensures !Qualifies(t, p) {
      if p < |t| {
        assert t[p] in t;
      }
    }
  }

  /** Searching a suffix for `)` finds the same `)` as searching the whole line. */
  lemma {:induction false} NextCloseShift(t: string, e: nat, i: nat)
    requires e + i <= |t|
    ensures NextClose(t[e..], i) + e == NextClose(t, e + i)
    decreases |t| - e - i
  {
    if e + i < |t| && t[e + i] != ')' {
      assert t[e..][i] == t[e + i];
      NextCloseShift(t, e, i + 1);
    }
  }

  /** On a single line, a position that qualifies in a suffix qualifies in the whole line. */
  lemma QualifiesShift(t: string, e: nat, p: nat)
    requires '\n' !in t && e <= |t| && Qualifies(t[e..], p)
    ensures Qualifies(t, e + p)
  {
    NextCloseShift(t, e, p + 1);
    var q := NextClose(t[e..], p + 1);
    assert t[e..][p] == t[e + p] && t[e..][q + 1] == t[e + q + 1];
    var n := e + p;
    assert '\n' !in t[..n] by {
      forall k | 0 <= k < n ensures t[..n][k] != '\n' {
        assert t[..n][k] == t[k] && t[k] in t;
      }
    }
  }

  /** On a single line, cutting twice cuts no more than cutting once. */
  lemma CutIdempotent(t: string)
    requires '\n' !in t
    ensures Cut(Cut(t)) == Cut(t)
  {
    var r := Cut(t);
    if r != t {
      var e := |t| - |r|;
      var last := LastScope(t, |t|).value;
      assert e == MatchEnd(t, last);
      forall p: nat ensures !Qualifies(r, p) {
        if Qualifies(r, p) {
          QualifiesShift(t, e, p);
          assert false;
        }
      }
    }
  }

  /**
   * Cleaning a line that holds no line break a second time changes nothing.
   * The lines `format_text` cleans come from splitting at line breaks.
   */
  lemma CleanLineIdempotent(line: string)
    requires '\n' !in line
    ensures CleanLine(CleanLine(line)) == CleanLine(line)
  {
    var t := Strip(line);
    var r := CleanLine(line);
    NoBreakInSlice(line, LeadingSpaces(line), LeadingSpaces(line) + |t|);
    NoBreakInSlice(t, |t| - |r|, |t|);
    if r != [] {
      assert r[|r| - 1] == t[|t| - 1];
    }
    StripUnchanged(r);
    CutIdempotent(t);
  }

  lemma NoBreakInSlice(s: string, i: nat, j: nat)
    requires i <= j <= |s| && '\n' !in s
    ensures '\n' !in s[i..j]
  {
    forall k | i <= k < j ensures s[k] != '\n' {
      assert s[k] in s;
    }
  }

  /** Positions that do not qualify do not change the search. */
  lemma {:induction false} LastScopeSkip(t: string, n: nat, m: nat)
    requires m <= n <= |t|
    requires forall p: nat :: m <= p < n ==> !Qualifies(t, p)
    ensures LastScope(t, n) == LastScope(t, m)
  {
    if m < n {
      LastScopeSkip(t, n - 1, m);
    }
  }

  /** A message whose first line ends in a scope and whose second line has one of its own. */
  const TwoScopedLines: string := "a(b):\nc(d): e"

  /**
   * Across a line break cleaning is not idempotent: the first pass stops at
   * the break, and the second finds the scope on the next line.
   */
  lemma CutAcrossLines()
    ensures Cut(TwoScopedLines) == TwoScopedLines[6..]
    ensures Cut(TwoScopedLines[6..]) == "e"
  {
    var t := TwoScopedLines;
    FirstScopeOfTwoLines(t);
    assert Cut(t) == t[6..];
    CutNextLine(t[6..]);
  }

  lemma FirstScopeOfTwoLines(t: string)
    requires t == "a(b):\nc(d): e"
    ensures LastScope(t, |t|) == Some(1) && MatchEnd(t, 1) == 6
    ensures t[6..] == "c(d): e"
  {
    FirstScopeEnd(t);
    OnlyFirstScopeQualifies(t);
    LastScopeSkip(t, |t|, 2);
  }

  lemma FirstScopeEnd(t: string)
    requires t == "a(b):\nc(d): e"
    ensures Qualifies(t, 1) && MatchEnd(t, 1) == 6
  {
    assert NextClose(t, 2) == 3;
    assert LeadingSpaces(t[5..]) == 1 by {
      assert t[5..][1..] == t[6..];
    }
  }

  lemma OnlyFirstScopeQualifies(t: string)
    requires t == "a(b):\nc(d): e"
    ensures forall p: nat :: 2 <= p < |t| ==> !Qualifies(t, p)
  {
    forall p: nat | 2 <= p < |t| ensures !Qualifies(t, p) {
      if p > 5 {
        assert t[..p][5] == '\n';
      } else {
        assert t[p] != '(';
      }
    }
  }

  lemma CutNextLine(u: string)
    requires u == "c(d): e"
    ensures Cut(u) == "e"
  {
    LastScopeSkip(u, |u|, 2);
    assert Qualifies(u, 1);
  }

  // ----- The text report -----

  /** The last piece of `split(sep)`: a suffix of `s`, after the last separator. */
  lemma SplitLastPart(s: string, sep: char)
    ensures var parts := Split(s, sep); var r := parts[|parts| - 1];
            |r| <= |s| && r == s[|s| - |r|..]
            && (|r| < |s| ==> s[|s| - |r| - 1] == sep)
            && (|parts| == 1 ==> r == s)
            && (|parts| > 1 ==> |r| < |s|)
  {
    var parts := Split(s, sep);
    var r := parts[|parts| - 1];
    JoinSplit(s, sep);
    if |parts| > 1 {
      JoinLast(parts, sep);
      var front := Join(parts[..|parts| - 1], sep);
      assert s == front + [sep] + r;
      assert s[|s| - |r|..] == r;
    }
  }

  /** `repository.split('/')[-1]`: the repository name without its owner. */
  function ShortName(repo: string): (r: string)
    ensures '/' !in r
  {
    var parts := Split(repo, '/');
    parts[|parts| - 1]
  }

  /** The short name is what follows the last `/`, or the whole name when there is none. */
  lemma ShortNameAfterLastSlash(repo: string)
    ensures var r := ShortName(repo);
            |r| <= |repo| && r == repo[|repo| - |r|..]
            && (|r| < |repo| ==> repo[|repo| - |r| - 1] == '/')
            && ('/' !in repo ==> r == repo)
  {
    SplitLastPart(repo, '/');
  }

  /** The group names in the order they first occur, each once. */
  function GroupKeys(cs: seq<CommitRecord>): (keys: seq<string>)
    ensures forall i, j :: 0 <= i < j < |keys| ==> keys[i] != keys[j]
    ensures forall k :: k in keys <==> exists c :: c in cs && ShortName(c.repository) == k
  {
    if cs == [] then []
    else
      var keys := GroupKeys(cs[..|cs| - 1]);
      var k := ShortName(cs[|cs| - 1].repository);
      assert cs == cs[..|cs| - 1] + [cs[|cs| - 1]];
      if k in keys then keys else keys + [k]
  }

  /** Groups appear in order of first occurrence: the groups of a prefix are a prefix of the groups. */
  lemma {:induction false} GroupKeysPrefix(cs: seq<CommitRecord>, n: nat)
    requires n <= |cs|
    ensures GroupKeys(cs[..n]) <= GroupKeys(cs)
    decreases |cs| - n
  {
    if n < |cs| {
      GroupKeysPrefix(cs, n + 1);
      GroupKeysLast(cs[..n + 1]);
      assert cs[..n + 1][..n] == cs[..n];
    } else {
      assert cs[..n] == cs;
    }
  }

  /** One more commit keeps the groups seen so far, in their order. */
  lemma GroupKeysLast(cs: seq<CommitRecord>)
    requires cs != []
    ensures GroupKeys(cs[..|cs| - 1]) <= GroupKeys(cs)
  {
  }

  /** The commits of one group, in input order. */
  function Group(cs: seq<CommitRecord>, key: string): seq<CommitRecord> {
    if cs == [] then []
    else Group(cs[..|cs| - 1], key)
         + if ShortName(cs[|cs| - 1].repository) == key then [cs[|cs| - 1]] else []
  }

  /** Grouping a concatenation concatenates the groups: each group keeps input order. */
  lemma {:induction false} GroupConcat(a: seq<CommitRecord>, b: seq<CommitRecord>, key: string)
    ensures Group(a + b, key) == Group(a, key) + Group(b, key)
  {
    if b == [] {
      assert a + b == a;
    } else {
      var b' := b[..|b| - 1];
      assert (a + b)[..|a + b| - 1] == a + b';
      assert (a + b)[|a + b| - 1] == b[|b| - 1];
      GroupConcat(a, b', key);
    }
  }

  /** Every commit is in the group of its short name, and a group holds only its own commits. */
  lemma {:induction false} GroupMembers(cs: seq<CommitRecord>, key: string, c: CommitRecord)
    ensures c in Group(cs, key) <==> c in cs && ShortName(c.repository) == key
  {
    if cs != [] {
      GroupMembers(cs[..|cs| - 1], key, c);
      assert cs == cs[..|cs| - 1] + [cs[|cs| - 1]];
    }
  }

  /** The groups of all commits share out the commits: their sizes add up to the whole. */
  function GroupSizes(keys: seq<string>, cs: seq<CommitRecord>): nat {
    if keys == [] then 0 else GroupSizes(keys[..|keys| - 1], cs) + |Group(cs, keys[|keys| - 1])|
  }

  /** Adding a commit adds one to the size of its group, if that group is listed, and nothing else. */
  lemma {:induction false} GroupSizesStep(keys: seq<string>, cs: seq<CommitRecord>, c: CommitRecord)
    requires forall i, j :: 0 <= i < j < |keys| ==> keys[i] != keys[j]
    ensures GroupSizes(keys, cs + [c])
         == GroupSizes(keys, cs) + if ShortName(c.repository) in keys then 1 else 0
  {
    if keys != [] {
      var init := keys[..|keys| - 1];
      GroupSizesStep(init, cs, c);
      assert (cs + [c])[..|cs + [c]| - 1] == cs;
      assert keys == init + [keys[|keys| - 1]];
    }
  }

  /** A group no commit belongs to is empty. */
  lemma {:induction false} GroupOfAbsentKey(cs: seq<CommitRecord>, key: string)
    requires forall c :: c in cs ==> ShortName(c.repository) != key
    ensures Group(cs, key) == []
  {
    if cs != [] {
      assert cs[|cs| - 1] in cs;
      assert forall c :: c in cs[..|cs| - 1] ==> c in cs;
      GroupOfAbsentKey(cs[..|cs| - 1], key);
    }
  }

  /** Every commit lands in exactly one group: the group sizes add up to the number of commits. */
  lemma {:induction false} GroupsPartition(cs: seq<CommitRecord>)
    ensures GroupSizes(GroupKeys(cs), cs) == |cs|
  {
    if cs != [] {
      var init := cs[..|cs| - 1];
      var c := cs[|cs| - 1];
      var k := ShortName(c.repository);
      var keys := GroupKeys(init);
      assert cs == init + [c];
      GroupsPartition(init);
      GroupSizesStep(keys, init, c);
      if k !in keys {
        GroupOfAbsentKey(init, k);
        assert (keys + [k])[..|keys + [k]| - 1] == keys;
        assert Group(cs, k) == [c];
      }
    }
  }

  /** The first line of the stripped message. */
  function Title(c: CommitRecord): (t: string)
    ensures '\n' !in t
    ensures '\n' !in Strip(c.message) ==> t == Strip(c.message)
  {
    Split(Strip(c.message), '\n')[0]
  }

  /** Of `lines`, the bullets (`*` after stripping) whose cleaned form is not empty, cleaned. */
  function KeptItems(lines: seq<string>): (items: seq<string>)
    ensures |items| <= |lines|
    ensures forall i :: 0 <= i < |items| ==> items[i] != [] && !IsSpace(items[i][0])
  {
    if lines == [] then []
    else
      var line := Strip(lines[|lines| - 1]);
      KeptItems(lines[..|lines| - 1])
      + if line != [] && line[0] == '*' && CleanLine(line) != [] then [CleanLine(line)] else []
  }

  /** The kept items of a message: its body lines, after the title. */
  function BodyItems(c: CommitRecord): seq<string> {
    KeptItems(Split(Strip(c.message), '\n')[1..])
  }

  /** `items` numbered `1.`, `2.`, ... in order. */
  function Numbered(items: seq<string>): (r: seq<string>)
    ensures |r| == |items|
    ensures forall i :: 0 <= i < |items| ==> r[i] == NatToString(i + 1) + ". " + items[i]
  {
    if items == [] then []
    else Numbered(items[..|items| - 1]) + [NatToString(|items|) + ". " + items[|items| - 1]]
  }

  /** The lines of one commit: its title as `- ` item, its numbered body items, an empty line. */
  function CommitLines(c: CommitRecord): seq<string> {
    ["- " + Title(c)] + Numbered(BodyItems(c)) + [""]
  }

  function CommitsLines(cs: seq<CommitRecord>): seq<string> {
    if cs == [] then [] else CommitsLines(cs[..|cs| - 1]) + CommitLines(cs[|cs| - 1])
  }

  /** Each group: its name, an empty line, then its commits. */
  function GroupsLines(keys: seq<string>, cs: seq<CommitRecord>): seq<string> {
    if keys == [] then []
    else GroupsLines(keys[..|keys| - 1], cs) + [keys[|keys| - 1], ""] + CommitsLines(Group(cs, keys[|keys| - 1]))
  }

  /** The report `format_text` produces. */
  function Report(cs: seq<CommitRecord>): (r: string)
    ensures r == "No commits found." <==> cs == []
  {
    if cs == [] then "No commits found."
    else
      var lines := GroupsLines(GroupKeys(cs), cs);
      SeveralLines(cs);
      JoinHasSeparator(lines, '\n');
      NoBreakInNothingFound();
      Join(lines, '\n')
  }

  lemma NoBreakInNothingFound()
    ensures '\n' !in "No commits found."
  {
  }

  /** A report of some commits has a group name line and an empty line at least. */
  lemma SeveralLines(cs: seq<CommitRecord>)
    requires cs != []
    ensures |GroupsLines(GroupKeys(cs), cs)| >= 2
  {
    assert ShortName(cs[0].repository) in GroupKeys(cs);
  }

  lemma GroupKeysStep(cs: seq<CommitRecord>, i: nat)
    requires i < |cs|
    ensures GroupKeys(cs[..i + 1])
         == if ShortName(cs[i].repository) in GroupKeys(cs[..i]) then GroupKeys(cs[..i])
            else GroupKeys(cs[..i]) + [ShortName(cs[i].repository)]
  {
    assert cs[..i + 1][..i] == cs[..i];
  }

  lemma GroupStep(cs: seq<CommitRecord>, i: nat, key: string)
    requires i < |cs|
    ensures Group(cs[..i + 1], key)
         == Group(cs[..i], key) + if ShortName(cs[i].repository) == key then [cs[i]] else []
  {
    assert cs[..i + 1][..i] == cs[..i];
  }

  lemma KeptItemsStep(lines: seq<string>, i: nat)
    requires 1 <= i < |lines|
    ensures KeptItems(lines[1..i + 1])
         == KeptItems(lines[1..i])
            + if Strip(lines[i]) != [] && Strip(lines[i])[0] == '*' && CleanLine(Strip(lines[i])) != []
              then [CleanLine(Strip(lines[i]))] else []
  {
    assert lines[1..i + 1][..i - 1] == lines[1..i];
  }

  lemma NumberedStep(items: seq<string>, i: nat)
    requires i < |items|
    ensures Numbered(items[..i + 1]) == Numbered(items[..i]) + [NatToString(i + 1) + ". " + items[i]]
  {
    assert items[..i + 1][..i] == items[..i];
  }

  lemma CommitsLinesStep(cs: seq<CommitRecord>, j: nat)
    requires j < |cs|
    ensures CommitsLines(cs[..j + 1]) == CommitsLines(cs[..j]) + CommitLines(cs[j])
  {
    assert cs[..j + 1][..j] == cs[..j];
  }

  lemma GroupsLinesStep(keys: seq<string>, g: nat, cs: seq<CommitRecord>)
    requires g < |keys|
    ensures GroupsLines(keys[..g + 1], cs)
         == GroupsLines(keys[..g], cs) + [keys[g], ""] + CommitsLines(Group(cs, keys[g]))
  {
    assert keys[..g + 1][..g] == keys[..g];
  }

  /**
   * One turn of the grouping loop of `format_text`: the commit is appended to
   * the list of its short name, which is first created (and its name recorded)
   * when absent.
   */
  method AddToGroup(keys: seq<string>, groups: map<string, seq<CommitRecord>>, c: CommitRecord)
    returns (keys': seq<string>, groups': map<string, seq<CommitRecord>>)
    ensures var name := ShortName(c.repository);
      keys' == (if name in groups then keys else keys + [name])
      && name in groups' && groups'[name] == (if name in groups then groups[name] else []) + [c]
      && (forall k :: k in groups' <==> k in groups || k == name)
      && (forall k :: k in groups' && k != name ==> groups'[k] == groups[k])
  {
    var parts := Split(c.repository, '/');
    var repoName := parts[|parts| - 1];
    keys', groups' := keys, groups;
    if repoName !in groups' {
      groups' := groups'[repoName := []];
      keys' := keys' + [repoName];
    }
    groups' := groups'[repoName := groups'[repoName] + [c]];
  }

  /** One turn of the grouping loop keeps the groups of the commits seen so far. */
  lemma GroupingStep(cs: seq<CommitRecord>, i: nat, keys: seq<string>, groups: map<string, seq<CommitRecord>>,
                     keys': seq<string>, groups': map<string, seq<CommitRecord>>)
    requires i < |cs|
    requires keys == GroupKeys(cs[..i])
    requires forall k :: k in groups <==> k in keys
    requires forall k :: k in groups ==> groups[k] == Group(cs[..i], k)
    requires var name := ShortName(cs[i].repository);
      keys' == (if name in groups then keys else keys + [name])
      && name in groups' && groups'[name] == (if name in groups then groups[name] else []) + [cs[i]]
      && (forall k :: k in groups' <==> k in groups || k == name)
      && (forall k :: k in groups' && k != name ==> groups'[k] == groups[k])
    ensures keys' == GroupKeys(cs[..i + 1])
    ensures forall k :: k in groups' <==> k in keys'
    ensures forall k :: k in groups' ==> groups'[k] == Group(cs[..i + 1], k)
  {
    var name := ShortName(cs[i].repository);
    GroupKeysStep(cs, i);
    if name !in groups {
      GroupOfAbsentKey(cs[..i], name);
    }
    forall k | k in groups' ensures groups'[k] == Group(cs[..i + 1], k) {
      GroupStep(cs, i, k);
    }
  }

  /** The body items of one commit, as the inner loop of `format_text` collects them. */
  method CollectBodyItems(messageLines: seq<string>) returns (bodyLines: seq<string>)
    requires |messageLines| >= 1
    ensures bodyLines == KeptItems(messageLines[1..])
  {
    bodyLines := [];
    for m := 1 to |messageLines|
      invariant bodyLines == KeptItems(messageLines[1..m])
    {
      KeptItemsStep(messageLines, m);
      var line := Strip(messageLines[m]);
      if line != [] && line[0] == '*' {
        var cleanLine := CleanLine(line);
        if cleanLine != [] {
          bodyLines := bodyLines + [cleanLine];
        }
      }
    }
    assert messageLines[1..|messageLines|] == messageLines[1..];
  }

  /**
   * The grouping loop of `format_text`: the short names in order of first
   * occurrence (the insertion order of the dictionary) and, for each, its
   * commits in input order.
   */
  method GroupByRepository(commits: seq<CommitRecord>)
    returns (keys: seq<string>, repoCommits: map<string, seq<CommitRecord>>)
    ensures keys == GroupKeys(commits)
    ensures forall k :: k in repoCommits <==> k in keys
    ensures forall k :: k in repoCommits ==> repoCommits[k] == Group(commits, k)
  {
    keys := [];
    repoCommits := map[];
    for i := 0 to |commits|
      invariant keys == GroupKeys(commits[..i])
      invariant forall k :: k in repoCommits <==> k in keys
      invariant forall k :: k in repoCommits ==> repoCommits[k] == Group(commits[..i], k)
    {
      var keys', repoCommits' := AddToGroup(keys, repoCommits, commits[i]);
      GroupingStep(commits, i, keys, repoCommits, keys', repoCommits');
      keys, repoCommits := keys', repoCommits';
    }
    assert commits[..|commits|] == commits;
  }

  /** The lines `format_text` appends for one commit. */
  method AppendCommitLines(lines: seq<string>, commit: CommitRecord) returns (out: seq<string>)
    ensures out == lines + CommitLines(commit)
  {
    var messageLines := Split(Strip(commit.message), '\n');
    var title := messageLines[0];
    var bodyLines := CollectBodyItems(messageLines);
    out := lines + ["- " + title];
    for idx := 0 to |bodyLines|
      invariant out == lines + ["- " + title] + Numbered(bodyLines[..idx])
    {
      NumberedStep(bodyLines, idx);
      AppendAssoc(lines + ["- " + title], Numbered(bodyLines[..idx]), [NatToString(idx + 1) + ". " + bodyLines[idx]]);
      out := out + [NatToString(idx + 1) + ". " + bodyLines[idx]];
    }
    assert bodyLines[..|bodyLines|] == bodyLines;
    AppendAssoc(lines, ["- " + title], Numbered(bodyLines));
    AppendAssoc(lines, ["- " + title] + Numbered(bodyLines), [""]);
    out := out + [""];
  }

  /** The lines `format_text` appends for one group: its name, an empty line, its commits. */
  method AppendGroupLines(lines: seq<string>, repoName: string, repoCommitList: seq<CommitRecord>)
    returns (out: seq<string>)
    ensures out == lines + [repoName, ""] + CommitsLines(repoCommitList)
  {
    out := lines + [repoName, ""];
    for j := 0 to |repoCommitList|
      invariant out == lines + [repoName, ""] + CommitsLines(repoCommitList[..j])
    {
      CommitsLinesStep(repoCommitList, j);
      AppendAssoc(lines + [repoName, ""], CommitsLines(repoCommitList[..j]), CommitLines(repoCommitList[j]));
      out := AppendCommitLines(out, repoCommitList[j]);
    }
    assert repoCommitList[..|repoCommitList|] == repoCommitList;
  }

  /**
   * `format_text`: each group's name and an empty line, then the lines of
   * its commits, all joined with line breaks.
   */
  method FormatText(commits: seq<CommitRecord>) returns (out: string)
    ensures out == Report(commits)
    ensures commits == [] ==> out == "No commits found."
  {
    if commits == [] {
      return "No commits found.";
    }
    var keys, repoCommits := GroupByRepository(commits);
    var lines: seq<string> := [];
    for g := 0 to |keys|
      invariant lines == GroupsLines(keys[..g], commits)
    {
      GroupsLinesStep(keys, g, commits);
      lines := AppendGroupLines(lines, keys[g], repoCommits[keys[g]]);
    }
    assert keys[..|keys|] == keys;
    out := Join(lines, '\n');
  }

  // ----- What the report says -----

  /**
   * A commit's lines: `- ` and its title, then `k. ` and its k-th kept body
   * item for each k from 1, then an empty line.
   */
  lemma CommitLinesShape(c: CommitRecord)
    ensures |CommitLines(c)| == |BodyItems(c)| + 2
    ensures CommitLines(c)[0] == "- " + Title(c) && CommitLines(c)[|CommitLines(c)| - 1] == ""
    ensures forall k :: 1 <= k <= |BodyItems(c)| ==>
              CommitLines(c)[k] == NatToString(k) + ". " + BodyItems(c)[k - 1]
  {
  }

  /** A body line is kept exactly when, stripped, it is a `*` bullet that cleaning leaves non-empty. */
  lemma LineKept(lines: seq<string>, line: string)
    ensures KeptItems(lines + [line])
         == KeptItems(lines) + if Strip(line) != [] && Strip(line)[0] == '*' && CleanLine(Strip(line)) != []
                               then [CleanLine(Strip(line))] else []
    ensures |KeptItems(lines + [line])| == |KeptItems(lines)| + 1
            <==> Strip(line) != [] && Strip(line)[0] == '*' && CleanLine(Strip(line)) != []
  {
    assert (lines + [line])[..|lines + [line]| - 1] == lines;
  }

  /** A bullet without a `(` is kept whole, `*` included. */
  lemma BulletWithoutScopeKept(lines: seq<string>, line: string)
    requires Strip(line) != [] && Strip(line)[0] == '*' && '(' !in Strip(line)
    ensures KeptItems(lines + [line]) == KeptItems(lines) + [Strip(line)]
  {
    StripIdempotent(line);
    CutWithoutParen(Strip(line));
    LineKept(lines, line);
  }

  // ----- Sorting -----

  /** `a` may stand before `b`: by date, ascending, or descending when `desc`. */
  predicate Precedes(a: CommitRecord, b: CommitRecord, desc: bool) {
    if desc then a.date >= b.date else a.date <= b.date
  }

  predicate SortedBy(cs: seq<CommitRecord>, desc: bool) {
    forall i, j :: 0 <= i < j < |cs| ==> Precedes(cs[i], cs[j], desc)
  }

  /** `c` put before the first element it may precede. */
  function Insert(c: CommitRecord, sorted: seq<CommitRecord>, desc: bool): (r: seq<CommitRecord>)
    ensures |r| == |sorted| + 1
  {
    if sorted == [] then [c]
    else if Precedes(c, sorted[0], desc) then [c] + sorted
    else [sorted[0]] + Insert(c, sorted[1..], desc)
  }

  lemma {:induction false} InsertPermutes(c: CommitRecord, sorted: seq<CommitRecord>, desc: bool)
    ensures multiset(Insert(c, sorted, desc)) == multiset(sorted) + multiset{c}
  {
    if sorted != [] && !Precedes(c, sorted[0], desc) {
      InsertPermutes(c, sorted[1..], desc);
      assert sorted == [sorted[0]] + sorted[1..];
    }
  }

  lemma {:induction false} InsertSorted(c: CommitRecord, sorted: seq<CommitRecord>, desc: bool)
    requires SortedBy(sorted, desc)
    ensures SortedBy(Insert(c, sorted, desc), desc)
  {
    if sorted != [] && !Precedes(c, sorted[0], desc) {
      var rest := Insert(c, sorted[1..], desc);
      InsertSorted(c, sorted[1..], desc);
      InsertedAfterHead(c, sorted, desc);
      ConsSorted(sorted[0], rest, desc);
    } else if sorted != [] {
      forall x | x in sorted ensures Precedes(c, x, desc) {
        var k :| 0 <= k < |sorted| && sorted[k] == x;
        assert k == 0 || Precedes(sorted[0], sorted[k], desc);
      }
      ConsSorted(c, sorted, desc);
    }
  }

  /** What `c` is inserted into behind the head still comes after the head. */
  lemma InsertedAfterHead(c: CommitRecord, sorted: seq<CommitRecord>, desc: bool)
    requires SortedBy(sorted, desc) && sorted != [] && !Precedes(c, sorted[0], desc)
    ensures forall x | x in Insert(c, sorted[1..], desc) :: Precedes(sorted[0], x, desc)
  {
    var rest := Insert(c, sorted[1..], desc);
    InsertPermutes(c, sorted[1..], desc);
    forall x | x in rest ensures Precedes(sorted[0], x, desc) {
      assert x in multiset(rest);
      if x != c {
        assert x in multiset(sorted[1..]);
        var k :| 0 <= k < |sorted[1..]| && sorted[1..][k] == x;
        assert sorted[k + 1] == x;
      }
    }
  }

  /** A head that may precede everything in front of a sorted sequence keeps it sorted. */
  lemma ConsSorted(h: CommitRecord, rest: seq<CommitRecord>, desc: bool)
    requires SortedBy(rest, desc) && forall x | x in rest :: Precedes(h, x, desc)
    ensures SortedBy([h] + rest, desc)
  {
    var r := [h] + rest;
    forall i, j | 0 <= i < j < |r| ensures Precedes(r[i], r[j], desc) {
      if i == 0 {
        assert r[j] == rest[j - 1] && rest[j - 1] in rest;
      } else {
        assert r[i] == rest[i - 1] && r[j] == rest[j - 1];
      }
    }
  }

  /**
   * Python's `sorted` by date: each commit is inserted, from the last to the
   * first, ahead of those it may precede, so equal dates keep their input order.
   */
  function SortByDate(cs: seq<CommitRecord>, desc: bool): seq<CommitRecord> {
    if cs == [] then [] else Insert(cs[0], SortByDate(cs[1..], desc), desc)
  }

  /** `sort_commits`: descending exactly when the order reads `desc` in any letter case. */
  function SortCommits(commits: seq<CommitRecord>, sortOrder: string): (r: seq<CommitRecord>)
    ensures multiset(r) == multiset(commits)
    ensures SortedBy(r, Lower(sortOrder) == "desc")
  {
    SortByDatePermutes(commits, Lower(sortOrder) == "desc");
    SortByDate(commits, Lower(sortOrder) == "desc")
  }

  /** The commits with date `d`, in order. */
  function WithDate(cs: seq<CommitRecord>, d: int): seq<CommitRecord> {
    if cs == [] then [] else (if cs[0].date == d then [cs[0]] else []) + WithDate(cs[1..], d)
  }

  /** Sorting returns the same commits, in date order. */
  lemma {:induction false} SortByDatePermutes(cs: seq<CommitRecord>, desc: bool)
    ensures multiset(SortByDate(cs, desc)) == multiset(cs)
    ensures SortedBy(SortByDate(cs, desc), desc)
  {
    if cs != [] {
      SortByDatePermutes(cs[1..], desc);
      InsertPermutes(cs[0], SortByDate(cs[1..], desc), desc);
      InsertSorted(cs[0], SortByDate(cs[1..], desc), desc);
      assert cs == [cs[0]] + cs[1..];
    }
  }

  /** Inserting keeps the commits of each date in order, the inserted one ahead of its equals. */
  lemma {:induction false} InsertStable(c: CommitRecord, sorted: seq<CommitRecord>, desc: bool, d: int)
    ensures WithDate(Insert(c, sorted, desc), d) == (if c.date == d then [c] else []) + WithDate(sorted, d)
  {
    if sorted != [] && !Precedes(c, sorted[0], desc) {
      InsertStable(c, sorted[1..], desc, d);
      assert ([sorted[0]] + Insert(c, sorted[1..], desc))[1..] == Insert(c, sorted[1..], desc);
    } else if sorted != [] {
      assert ([c] + sorted)[1..] == sorted;
    }
  }

  /** Sorting is stable: the commits of any one date keep their input order. */
  lemma {:induction false} SortByDateStable(cs: seq<CommitRecord>, desc: bool, d: int)
    ensures WithDate(SortByDate(cs, desc), d) == WithDate(cs, d)
  {
    if cs != [] {
      SortByDateStable(cs[1..], desc, d);
      InsertStable(cs[0], SortByDate(cs[1..], desc), desc, d);
    }
  }

  /** `sort_commits` returns its input reordered: ascending, or descending for `desc` in any case, stably. */
  lemma SortCommitsSpec(commits: seq<CommitRecord>, sortOrder: string, d: int)
    ensures multiset(SortCommits(commits, sortOrder)) == multiset(commits)
    ensures SortedBy(SortCommits(commits, sortOrder), Lower(sortOrder) == "desc")
    ensures WithDate(SortCommits(commits, sortOrder), d) == WithDate(commits, d)
  {
    SortByDatePermutes(commits, Lower(sortOrder) == "desc");
    SortByDateStable(commits, Lower(sortOrder) == "desc", d);
  }

  /** `asc`, as `main` passes it, sorts ascending; `DESC` and `Desc` sort descending. */
  lemma SortOrderWords()
    ensures Lower("asc") != "desc"
    ensures Lower("DESC") == "desc" && Lower("Desc") == "desc"
  {
    assert Lower("asc")[0] == 'a';
  }
}
