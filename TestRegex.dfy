/**
 * The copy of the cleaner in test_regex.py, modelled the way its comment
 * documents the pattern `^.*\([^)]+\):\s*`: piece by piece, as a
 * backtracking matcher that tries the greedy quantifiers longest first.
 * It is shown to agree with the cleaner of the report on every line, and
 * the script's sample lines are worked through.
 */
module RegexCheck {
  import opened Wrappers
  import opened Strings
  import CommitFormatter

  /** How far `.*` can reach: up to the first line break, or the end. */
  function DotReach(t: string): (n: nat)
    ensures n <= |t| && '\n' !in t[..n]
    ensures n < |t| ==> t[n] == '\n'
  {
    if t == [] || t[0] == '\n' then 0
    else
      var n := 1 + DotReach(t[1..]);
      assert t[..n] == [t[0]] + t[1..][..n - 1];
      n
  }

  /** How many characters `[^)]` can take from `i` on. */
  function NonCloseRun(t: string, i: nat): (n: nat)
    requires i <= |t|
    ensures i + n <= |t|
    decreases |t| - i
  {
    if i < |t| && t[i] != ')' then 1 + NonCloseRun(t, i + 1) else 0
  }

  /** How many characters `\s*` takes from `i` on. */
  function SpaceRun(t: string, i: nat): (n: nat)
    requires i <= |t|
    ensures i + n <= |t|
    decreases |t| - i
  {
    if i < |t| && IsSpace(t[i]) then 1 + SpaceRun(t, i + 1) else 0
  }

  /**
   * `[^)]+\):\s*` after the `(` at `n`, with `[^)]+` taking `len` characters
   * and, failing that, fewer (never none): where the match ends.
   */
  function ScopeWithin(t: string, n: nat, len: nat): Option<nat>
    requires n + 1 + len <= |t|
  {
    if len == 0 then None
    else
      var close := n + 1 + len;
      if close + 1 < |t| && t[close] == ')' && t[close + 1] == ':' then Some(close + 2 + SpaceRun(t, close + 2))
      else ScopeWithin(t, n, len - 1)
  }

  /** The rest of the pattern once `.*` has taken `n` characters. */
  function TryAt(t: string, n: nat): Option<nat>
    requires n <= |t|
  {
    if n < |t| && t[n] == '(' then ScopeWithin(t, n, NonCloseRun(t, n + 1)) else None
  }

  /** `.*` backing off from `n` characters to none until the rest matches. */
  function MatchFrom(t: string, n: nat): Option<nat>
    requires n <= |t|
  {
    match TryAt(t, n)
    case Some(e) => Some(e)
    case None => if n == 0 then None else MatchFrom(t, n - 1)
  }

  /** `re.sub(pattern, '', t)`: the anchored match, if any, removed. */
  function Substitute(t: string): (r: string)
    ensures |r| <= |t|
  {
    match MatchFrom(t, DotReach(t))
    case None => t
    case Some(e) => if e <= |t| then t[e..] else t
  }

  /** `clean_commit_message_line` of test_regex.py. */
  function CleanCommitMessageLine(line: string): (r: string)
    ensures |r| <= |Strip(line)|
  {
    Substitute(Strip(line))
  }

  // ----- Agreement with the report's cleaner -----

  lemma {:induction false} NonCloseRunReachesClose(t: string, i: nat)
    requires i <= |t|
    ensures i + NonCloseRun(t, i) == CommitFormatter.NextClose(t, i)
    decreases |t| - i
  {
    if i < |t| && t[i] != ')' {
      NonCloseRunReachesClose(t, i + 1);
    }
  }

  lemma {:induction false} SpaceRunIsLeading(t: string, i: nat)
    requires i <= |t|
    ensures SpaceRun(t, i) == LeadingSpaces(t[i..])
    decreases |t| - i
  {
    if i < |t| && IsSpace(t[i]) {
      SpaceRunIsLeading(t, i + 1);
      assert t[i..][1..] == t[i + 1..];
    }
  }

  /** Backing `[^)]+` off never helps: what it gave up is not a `)`. */
  lemma {:induction false} ShorterScopeFails(t: string, n: nat, len: nat)
    requires n + 1 + len <= |t|
    requires len < NonCloseRun(t, n + 1)
    ensures ScopeWithin(t, n, len) == None
  {
    if len > 0 {
      NonCloseRunReachesClose(t, n + 1);
      assert t[n + 1 + len] != ')';
      ShorterScopeFails(t, n, len - 1);
    }
  }

  /** Where the cleaner's pattern qualifies, the longest `[^)]+` completes the match, ending where it says. */
  lemma ScopeMatches(t: string, n: nat)
    requires CommitFormatter.Qualifies(t, n)
    ensures ScopeWithin(t, n, NonCloseRun(t, n + 1)) == Some(CommitFormatter.MatchEnd(t, n))
  {
    var len := NonCloseRun(t, n + 1);
    NonCloseRunReachesClose(t, n + 1);
    var close := n + 1 + len;
    ScopeClosesAt(t, n, len);
    SpaceRunIsLeading(t, close + 2);
  }

  /** With `)` and `:` right after `len` characters, `[^)]+` taking them all completes the match. */
  lemma ScopeClosesAt(t: string, n: nat, len: nat)
    requires 0 < len && n + 1 + len + 1 < |t|
    requires t[n + 1 + len] == ')' && t[n + 1 + len + 1] == ':'
    ensures ScopeWithin(t, n, len) == Some(n + 1 + len + 2 + SpaceRun(t, n + 1 + len + 2))
  {
  }

  /** Where it does not, no length of `[^)]+` completes the match. */
  lemma ScopeFails(t: string, n: nat)
    requires n < |t| && t[n] == '(' && '\n' !in t[..n]
    requires !CommitFormatter.Qualifies(t, n)
    ensures ScopeWithin(t, n, NonCloseRun(t, n + 1)) == None
  {
    var len := NonCloseRun(t, n + 1);
    NonCloseRunReachesClose(t, n + 1);
    if len > 0 {
      var close := n + 1 + len;
      assert !(close + 1 < |t| && t[close + 1] == ':') by {
        assert close == CommitFormatter.NextClose(t, n + 1);
      }
      ShorterScopeFails(t, n, len - 1);
      ScopeMisses(t, n, len);
    }
  }

  /** Without `:` after the `)` that `len` characters reach, `[^)]+` must back off. */
  lemma ScopeMisses(t: string, n: nat, len: nat)
    requires 0 < len && n + 1 + len <= |t|
    requires !(n + 1 + len + 1 < |t| && t[n + 1 + len + 1] == ':')
    ensures ScopeWithin(t, n, len) == ScopeWithin(t, n, len - 1)
  {
  }

  /** Below the reach of `.*`, the rest of the pattern matches exactly where the report's cleaner says. */
  lemma TryAtAgrees(t: string, n: nat)
    requires n <= DotReach(t) && n < |t|
    ensures TryAt(t, n) == if CommitFormatter.Qualifies(t, n) then Some(CommitFormatter.MatchEnd(t, n)) else None
  {
    assert t[..n] == t[..DotReach(t)][..n];
    if CommitFormatter.Qualifies(t, n) {
      ScopeMatches(t, n);
    } else if t[n] == '(' {
      ScopeFails(t, n);
    }
  }

  lemma {:induction false} MatchFromAgrees(t: string, n: nat)
    requires n <= DotReach(t) && n < |t|
    ensures MatchFrom(t, n) == match CommitFormatter.LastScope(t, n + 1)
                               case Some(p) => Some(CommitFormatter.MatchEnd(t, p))
                               case None => None
  {
    TryAtAgrees(t, n);
    if n > 0 && !CommitFormatter.Qualifies(t, n) {
      MatchFromAgrees(t, n - 1);
    }
  }

  /** No position past the first line break qualifies: `.*` cannot cross it. */
  lemma NothingPastBreak(t: string)
    ensures forall p: nat :: DotReach(t) < p < |t| ==> !CommitFormatter.Qualifies(t, p)
  {
    forall p: nat | DotReach(t) < p < |t| ensures !CommitFormatter.Qualifies(t, p) {
      assert t[..p][DotReach(t)] == '\n';
    }
  }

  /** From the reach of `.*`, backing off finds the match at the cleaner's scope. */
  lemma MatchFromReach(t: string)
    requires |t| > 0
    ensures MatchFrom(t, DotReach(t)) == match CommitFormatter.LastScope(t, |t|)
                                         case Some(p) => Some(CommitFormatter.MatchEnd(t, p))
                                         case None => None
  {
    var d := DotReach(t);
    if d < |t| {
      assert CommitFormatter.LastScope(t, |t|) == CommitFormatter.LastScope(t, d + 1) by {
        NothingPastBreak(t);
        CommitFormatter.LastScopeSkip(t, |t|, d + 1);
      }
      MatchFromAgrees(t, d);
    } else {
      assert MatchFrom(t, d) == MatchFrom(t, d - 1);
      MatchFromAgrees(t, d - 1);
    }
  }

  /** The matcher agrees with the report's cleaner on every line. */
  lemma SubstituteIsCut(t: string)
    ensures Substitute(t) == CommitFormatter.Cut(t)
  {
    if |t| > 0 {
      MatchFromReach(t);
    }
  }

  /** Both copies of `clean_commit_message_line` give the same result on every input. */
  lemma CopiesAgree(line: string)
    ensures CleanCommitMessageLine(line) == CommitFormatter.CleanLine(line)
  {
    SubstituteIsCut(Strip(line));
  }

  // ----- The sample lines -----

  /** A qualifying `(` with no other `(` after it is where the match puts `\(`. */
  lemma CutAtLastOpen(t: string, p: nat)
    requires CommitFormatter.Qualifies(t, p)
    requires forall k :: p < k < |t| ==> t[k] != '('
    ensures CommitFormatter.Cut(t) == t[CommitFormatter.MatchEnd(t, p)..]
  {
    CommitFormatter.LastScopeSkip(t, |t|, p + 1);
  }

  /** A `(`, one or more non-`)`, then `):` and one space before a non-space: where the match ends. */
  lemma ScopeAt(t: string, p: nat, q: nat)
    requires p + 2 <= q && q + 2 < |t| && '\n' !in t[..p]
    requires t[p] == '(' && t[q] == ')' && t[q + 1] == ':' && t[q + 2] == ' '
    requires forall k :: p < k < q ==> t[k] != ')'
    requires q + 3 < |t| ==> !IsSpace(t[q + 3])
    ensures CommitFormatter.Qualifies(t, p) && CommitFormatter.MatchEnd(t, p) == q + 3
  {
    assert CommitFormatter.NextClose(t, p + 1) == q;
    assert LeadingSpaces(t[q + 2..]) == 1 by {
      assert t[q + 2..][1..] == t[q + 3..];
    }
  }

  /** `kind(scope): message` with `(` nowhere after the scope's: the match ends at the message. */
  lemma ScopedCut(kind: string, scope: string, m: string)
    requires '\n' !in kind
    requires scope != [] && ')' !in scope && '(' !in scope
    requires (m != [] ==> !IsSpace(m[0])) && '(' !in m
    ensures CommitFormatter.Cut(kind + "(" + scope + "): " + m) == m
  {
    var t := kind + ("(" + (scope + ("): " + m)));
    assert t == kind + "(" + scope + "): " + m;
    var p := |kind|;
    var q := p + 1 + |scope|;
    assert t[..p] == kind;
    assert t[q + 3..] == m;
    forall k | p < k < |t| ensures t[k] != '(' && (k < q ==> t[k] != ')') {
      if k < q {
        assert t[k] == scope[k - p - 1];
      } else if k >= q + 3 {
        assert t[k] == m[k - q - 3];
      }
    }
    ScopeAt(t, p, q);
    CutAtLastOpen(t, p);
  }

  /**
   * A conventional-commit line `kind(scope): message` loses everything up
   * to the message, whatever `kind` holds, as long as neither the scope nor
   * the message opens another `(`.
   */
  lemma ScopedLineCleaned(line: string, kind: string, scope: string, m: string)
    requires line == kind + "(" + scope + "): " + m
    requires kind != [] && !IsSpace(kind[0]) && '\n' !in kind
    requires scope != [] && ')' !in scope && '(' !in scope
    requires m != [] && !IsSpace(m[0]) && !IsSpace(m[|m| - 1]) && '(' !in m
    ensures CleanCommitMessageLine(line) == m
  {
    assert line[0] == kind[0] && line[|line| - 1] == m[|m| - 1];
    StripUnchanged(line);
    CopiesAgree(line);
    ScopedCut(kind, scope, m);
  }

  /** No `(` qualifies in `kind(): message` when the `(` of `()` is the only one. */
  lemma EmptyScopeCut(kind: string, m: string)
    requires '(' !in kind && '(' !in m
    ensures CommitFormatter.Cut(kind + "(): " + m) == kind + "(): " + m
  {
    var t := kind + ("(): " + m);
    assert t == kind + "(): " + m;
    var p := |kind|;
    assert t[p] == '(' && t[p + 1] == ')';
    forall k: nat ensures !CommitFormatter.Qualifies(t, k) {
      if k < p {
        assert t[k] == kind[k];
      } else if k == p {
        assert CommitFormatter.NextClose(t, p + 1) == p + 1;
      } else if p + 4 <= k < |t| {
        assert t[k] == m[k - p - 4];
      }
    }
  }

  /** `kind(): message` is left whole: `[^)]+` needs at least one character. */
  lemma EmptyScopeKept(line: string, kind: string, m: string)
    requires line == kind + "(): " + m
    requires kind != [] && !IsSpace(kind[0]) && '(' !in kind
    requires m != [] && !IsSpace(m[|m| - 1]) && '(' !in m
    ensures CleanCommitMessageLine(line) == line
  {
    assert line[0] == kind[0] && line[|line| - 1] == m[|m| - 1];
    StripUnchanged(line);
    CopiesAgree(line);
    EmptyScopeCut(kind, m);
  }

  /** The lines `test_sample_patterns` cleans, in its order. */
  const SampleLines: seq<string> := [
    "* feat(types): 유저정보 타입 추가",
    "* feat(mocks): 유저정보 목업 추가",
    "* refactor(components): 코드 정리",
    "* fix(api): 버그 수정",
    "일반 텍스트",
    "* 괄호가 없는 메시지",
    "* feat(): 빈 괄호",
    "* feat(very-long-scope-name): 긴 스코프명"
  ]

  /** A scoped sample line keeps only its message. */
  lemma TypesSample()
    ensures CleanCommitMessageLine(SampleLines[0]) == "유저정보 타입 추가"
  {
    ScopedLineCleaned(SampleLines[0], "* feat", "types", "유저정보 타입 추가");
  }

  lemma MocksSample()
    ensures CleanCommitMessageLine(SampleLines[1]) == "유저정보 목업 추가"
  {
    ScopedLineCleaned(SampleLines[1], "* feat", "mocks", "유저정보 목업 추가");
  }

  lemma ComponentsSample()
    ensures CleanCommitMessageLine(SampleLines[2]) == "코드 정리"
  {
    ScopedLineCleaned(SampleLines[2], "* refactor", "components", "코드 정리");
  }

  lemma ApiSample()
    ensures CleanCommitMessageLine(SampleLines[3]) == "버그 수정"
  {
    ScopedLineCleaned(SampleLines[3], "* fix", "api", "버그 수정");
  }

  /** The long scope is cut like any other. */
  lemma LongScopeSample()
    ensures CleanCommitMessageLine(SampleLines[7]) == "긴 스코프명"
  {
    var scope := "very-long-scope-name";
    assert SampleLines[7] == "* feat" + "(" + scope + "): " + "긴 스코프명" by {
      LongScopeLine();
    }
    assert ')' !in scope && '(' !in scope;
    ScopedLineCleaned(SampleLines[7], "* feat", scope, "긴 스코프명");
  }

  lemma LongScopeLine()
    ensures SampleLines[7] == "* feat" + "(" + "very-long-scope-name" + "): " + "긴 스코프명"
  {
  }

  /** Lines without a `(` only lose surrounding whitespace, and these have none. */
  lemma PlainTextSample()
    ensures CleanCommitMessageLine(SampleLines[4]) == SampleLines[4]
  {
    var line := SampleLines[4];
    NoParen(line, 4);
    NoPadding(line, 4);
    PlainLineKept(line);
  }

  lemma BulletWithoutScopeSample()
    ensures CleanCommitMessageLine(SampleLines[5]) == SampleLines[5]
  {
    var line := SampleLines[5];
    NoParen(line, 5);
    NoPadding(line, 5);
    PlainLineKept(line);
  }

  /** The unscoped sample lines hold no `(` and no surrounding whitespace. */
  lemma NoParen(line: string, i: nat)
    requires i in {4, 5} && line == SampleLines[i]
    ensures '(' !in line
  {
  }

  lemma NoPadding(line: string, i: nat)
    requires i in {4, 5} && line == SampleLines[i]
    ensures Strip(line) == line
  {
    StripUnchanged(line);
  }

  /** An empty scope does not match, so the line stays whole. */
  lemma EmptyScopeSample()
    ensures CleanCommitMessageLine(SampleLines[6]) == SampleLines[6]
  {
    EmptyScopeKept(SampleLines[6], "* feat", "빈 괄호");
  }

  /** A line without `(` only loses its surrounding whitespace. */
  lemma PlainLineKept(line: string)
    requires '(' !in line
    ensures CleanCommitMessageLine(line) == Strip(line)
  {
    var t := Strip(line);
    assert '(' !in t by {
      forall k | 0 <= k < |t| ensures t[k] != '(' {
        assert t[k] == line[LeadingSpaces(line) + k];
      }
    }
    CommitFormatter.CutWithoutParen(t);
    CopiesAgree(line);
  }
}
