/**
 * check_whitelist_duplicates.py: its own `clean_and_normalize_domain`
 * (lines 6-32), which unwraps the same rule forms as app.py's but has no URL
 * or `www.` step and a different domain pattern, and `clean_personal_whitelist`
 * (lines 34-75), which rewrites the personal whitelist with its distinct
 * domains in ascending order under a three-line header.
 *
 * A file's lines are given without their line terminators: `for line in f`
 * keeps the `\n`, but every line is stripped first and a line break is
 * whitespace, so the terminator changes nothing (TerminatorIgnored).
 */
module WhitelistCleaner {
  import opened Wrappers
  import opened PyStr
  import opened Ordering
  import opened RuleSyntax
  import opened AppDomain
  import opened DomainSets

  /** `[a-z]{2,}`: the top-level label, letters only and with no upper bound on its length. */
  predicate TopLabel(l: string) {
    |l| >= 2 && forall i :: 0 <= i < |l| ==> IsLetter(l[i])
  }

  /**
   * A full match of the pattern of line 29. Every label before the last is
   * `[a-z0-9](?:[a-z0-9-]{0,61}[a-z0-9])?`: 1 to 63 letters, digits and
   * hyphens, with no hyphen at either end, the shape app.py asks of its
   * first label only. No label holds a dot, so the string's dots are the
   * separators.
   */
  predicate IsDomain(s: string) {
    var ls := Split(s, '.');
    |ls| >= 2
    && (forall i :: 0 <= i < |ls| - 1 ==> FirstLabel(ls[i]))
    && TopLabel(ls[|ls| - 1])
  }

  /** `re.match` with the final `$`, which also matches before a final newline. */
  predicate MatchesAsWritten(s: string) {
    IsDomain(s) || (s != [] && s[|s| - 1] == '\n' && IsDomain(s[..|s| - 1]))
  }

  /** Lines 11-25: trim, lower-case and unwrap a rule; `None` is the `return None` of line 25. */
  function Candidate(line: string): Option<string> {
    StripRule(Lower(Strip(line)))
  }

  /** The function with the pattern read as a full match. */
  function Clean(line: string): Option<string> {
    var c := Candidate(line);
    if c.None? || Rejected(c.value, IsDomain(c.value)) then None else c
  }

  /** The function as written, `$` included: what the script runs. */
  function CleanAsWritten(line: string): Option<string> {
    var c := Candidate(line);
    if c.None? || Rejected(c.value, MatchesAsWritten(c.value)) then None else c
  }

  /** Every character of a domain is a letter, digit, hyphen or dot. */
  lemma DomainChars(s: string)
    requires IsDomain(s)
    ensures s != [] && forall i :: 0 <= i < |s| ==> DomainChar(s[i])
  {
    var ls := Split(s, '.');
    forall i, k | 0 <= i < |ls| && 0 <= k < |ls[i]| ensures DomainChar(ls[i][k]) {
      if i < |ls| - 1 {
        assert FirstLabel(ls[i]);
      } else {
        assert TopLabel(ls[i]);
      }
    }
    JoinAll(ls, '.', DomainChar);
    JoinSplit(s, '.');
    assert ls[0] != [] by {
      assert FirstLabel(ls[0]);
    }
    assert |s| >= |ls[0]| by {
      assert Join(ls, '.') == ls[0] + ['.'] + Join(ls[1..], '.');
    }
  }

  /** A domain passes the guard of lines 28-29. */
  lemma DomainAccepted(d: string)
    requires IsDomain(d)
    ensures !Rejected(d, IsDomain(d)) && !Rejected(d, MatchesAsWritten(d))
  {
    DomainChars(d);
    assert DomainChar(d[0]);
    assert d[..1][0] == d[0];
    assert ' ' !in d by {
      forall i | 0 <= i < |d| ensures d[i] != ' ' {
        assert DomainChar(d[i]);
      }
    }
  }

  /** A result is a domain of the pattern: trimmed, lower-case, of letters, digits, hyphens and dots. */
  lemma CleanedIsDomain(line: string)
    requires Clean(line).Some?
    ensures var d := Clean(line).value;
      IsDomain(d) && d != [] && forall i :: 0 <= i < |d| ==> DomainChar(d[i])
  {
    DomainChars(Clean(line).value);
  }

  /** A domain is left as it is, so cleaning is idempotent: there is no `www.` step to repeat. */
  lemma DomainIsFixedPoint(d: string)
    requires IsDomain(d)
    ensures Clean(d) == Some(d) && CleanAsWritten(d) == Some(d)
  {
    DomainChars(d);
    PlainTextUntouched(d);
    DomainAccepted(d);
  }

  lemma CleanIdempotent(line: string)
    requires Clean(line).Some?
    ensures Clean(Clean(line).value) == Clean(line)
  {
    CleanedIsDomain(line);
    DomainIsFixedPoint(Clean(line).value);
  }

  /** What the script runs keeps to domains on every line without a line break, which is every line of a file. */
  lemma AsWrittenCleanedIsDomain(line: string)
    requires CleanAsWritten(line).Some? && '\n' !in line
    ensures var d := CleanAsWritten(line).value;
      IsDomain(d) && d != [] && forall i :: 0 <= i < |d| ==> DomainChar(d[i])
  {
    CleanAgrees(line);
    CleanedIsDomain(line);
  }

  /** On such lines cleaning as written is idempotent too. */
  lemma AsWrittenCleanIdempotent(line: string)
    requires CleanAsWritten(line).Some? && '\n' !in line
    ensures CleanAsWritten(CleanAsWritten(line).value) == CleanAsWritten(line)
  {
    CleanAgrees(line);
    CleanedIsDomain(line);
    DomainIsFixedPoint(Clean(line).value);
  }

  /**
   * A line break inside a rule breaks both: `||d` newline `^` cleans to `d`
   * plus the break, which is no domain, and cleaning that again gives `d`.
   */
  lemma AsWrittenNotIdempotent(d: string)
    requires IsDomain(d)
    ensures CleanAsWritten(BlockRule(d + "\n")) == Some(d + "\n") && !IsDomain(d + "\n")
    ensures CleanAsWritten(d + "\n") == Some(d)
    ensures Clean(BlockRule(d + "\n")) == None
  {
    NewlineRuleCandidate(d);
    NewlineOnlyAsWritten(d);
    TerminatorIgnored(d);
    DomainIsFixedPoint(d);
  }

  lemma NewlineRuleCandidate(d: string)
    requires IsDomain(d)
    ensures Candidate(BlockRule(d + "\n")) == Some(d + "\n")
  {
    DomainChars(d);
    NewlineRulePlain(d);
    StripRuleUnwraps(d + "\n");
  }

  /** `d` plus a line break passes the guard only through the `$` reading. */
  lemma NewlineOnlyAsWritten(d: string)
    requires IsDomain(d)
    ensures MatchesAsWritten(d + "\n") && !Rejected(d + "\n", true) && !IsDomain(d + "\n")
  {
    var e := d + "\n";
    DomainChars(d);
    assert e[..|e| - 1] == d;
    assert e[..1][0] == d[0] && DomainChar(d[0]);
    assert ' ' !in e by {
      forall i | 0 <= i < |e| ensures e[i] != ' ' {
        if i < |d| {
          assert e[i] == d[i] && DomainChar(d[i]);
        }
      }
    }
    if IsDomain(e) {
      DomainChars(e);
      assert false;
    }
  }

  /** Lines 14-18: a block rule and an allow rule both give the bare domain. */
  lemma RulesGiveDomain(d: string)
    requires IsDomain(d)
    ensures Clean(BlockRule(d)) == Some(d) && CleanAsWritten(BlockRule(d)) == Some(d)
    ensures Clean("@@||" + d + "^") == Some(d) && CleanAsWritten("@@||" + d + "^") == Some(d)
  {
    WrappedCandidate("||", d);
    Accepted(BlockRule(d), d);
    WrappedCandidate("@@||", d);
    Accepted("@@||" + d + "^", d);
  }

  lemma WrappedCandidate(p: string, d: string)
    requires p == "||" || p == "@@||"
    requires IsDomain(d)
    ensures Candidate(p + d + "^") == Some(d)
  {
    DomainChars(d);
    StripRuleUnwraps(d);
    WrappedText(p, d);
  }

  /** Lines 20-23: a hosts line gives its domain, however much whitespace follows the address. */
  lemma HostsLineGivesDomain(p: string, ws: string, d: string)
    requires p == "0.0.0.0 " || p == "127.0.0.1 "
    requires forall i :: 0 <= i < |ws| ==> IsSpace(ws[i])
    requires IsDomain(d)
    ensures Clean(p + ws + d) == Some(d) && CleanAsWritten(p + ws + d) == Some(d)
  {
    var t := p + ws + d;
    DomainChars(d);
    assert Candidate(t) == Some(d) by {
      HostsLineStrips(p, ws, d);
      HostsLineText(p, ws, d);
    }
    Accepted(t, d);
  }

  /** A candidate that is a domain is the result, under either reading of the pattern. */
  lemma Accepted(line: string, d: string)
    requires Candidate(line) == Some(d) && IsDomain(d)
    ensures Clean(line) == Some(d) && CleanAsWritten(line) == Some(d)
  {
    DomainAccepted(d);
  }

  /** Lines 28-29: a comment line, one whose trimmed text starts with `#` or `!`, gives `None`. */
  lemma CommentLineRejected(line: string)
    requires Strip(line) != [] && (Strip(line)[0] == '#' || Strip(line)[0] == '!')
    ensures Clean(line) == None && CleanAsWritten(line) == None
  {
    var t := Lower(Strip(line));
    assert t[0] == Strip(line)[0];
    PlainComment(t);
    assert t[..1] == [t[0]];
  }

  /** A blank line gives `None`. */
  lemma BlankLineRejected(line: string)
    requires Strip(line) == []
    ensures Clean(line) == None && CleanAsWritten(line) == None
  {
    BlankCandidate(line);
  }

  lemma BlankCandidate(line: string)
    requires Strip(line) == []
    ensures Candidate(line) == Some([])
  {
    assert Lower(Strip(line)) == [];
    assert StripRule([]) == Some([]);
  }

  /** Lines 11-25 introduce no character the line lacks but lower-case letters. */
  lemma CandidateChars(line: string, c: char)
    requires Candidate(line).Some?
    requires c !in line && !('a' <= c <= 'z')
    ensures c !in Candidate(line).value
  {
    StripChars(line);
    LowerChars(Strip(line));
    StripRuleChars(Lower(Strip(line)));
  }

  /**
   * The `$` of line 29 makes no difference to a line without a line break:
   * no line read from a file holds one once its terminator is gone.
   */
  lemma CleanAgrees(line: string)
    requires '\n' !in line
    ensures CleanAsWritten(line) == Clean(line)
  {
    var c := Candidate(line);
    if c.Some? {
      CandidateChars(line, '\n');
      if c.value != [] {
        assert c.value[|c.value| - 1] in c.value;
      }
    }
  }

  /** Stripping makes the line terminator irrelevant. */
  lemma TerminatorIgnored(line: string)
    ensures Clean(line + "\n") == Clean(line)
    ensures CleanAsWritten(line + "\n") == CleanAsWritten(line)
  {
    StripNewline(line);
  }

  /** The header of lines 58-60. */
  const Bang := "!"

  function Header(timestamp: string): (h: seq<string>)
    ensures |h| == 3 && forall i :: 0 <= i < 3 ==> h[i] != [] && h[i][0] == '!'
  {
    [Bang + " Personal Whitelist (Cleaned and Sorted)", Bang + " Last Updated: " + timestamp, Bang]
  }

  /** What `clean_personal_whitelist` reports: the file is missing, or it was rewritten. */
  datatype Report =
    | FileMissing
    | Cleaned(lines: seq<string>, initialCount: nat, finalCount: nat)

  /** The rewritten file and its two counts, as a function of the lines read. */
  ghost function CleanedFile(lines: seq<string>, timestamp: string): Report {
    var unique := Collected(CleanAsWritten, lines);
    Cleaned(Header(timestamp) + SortedList(Plain, unique), Count(CleanAsWritten, lines), |unique|)
  }

  /**
   * Lines 34-65. `file` is the whitelist's lines, `None` when it does not
   * exist (lines 37-40); `timestamp` is the `time.strftime` text of line 59.
   */
  method CleanPersonalWhitelist(file: Option<seq<string>>, timestamp: string) returns (r: Report)
    ensures file.None? ==> r == FileMissing
    ensures file.Some? ==> r == CleanedFile(file.value, timestamp)
  {
    if file.None? {
      return FileMissing;
    }
    var lines := file.value;
    var unique: set<string> := {};
    var initial := 0;
    var i := 0;
    while i < |lines|
      invariant 0 <= i <= |lines|
      invariant unique == Collected(CleanAsWritten, lines[..i])
      invariant initial == Count(CleanAsWritten, lines[..i])
    {
      CollectedStep(CleanAsWritten, lines, i);
      CountStep(CleanAsWritten, lines, i);
      unique, initial := AddClean(unique, initial, lines[i]);
      i := i + 1;
    }
    assert lines[..i] == lines;
    var sorted := Sort(Plain, unique);
    r := Cleaned(Header(timestamp) + sorted, initial, |unique|);
  }

  /** One turn of the loop of lines 49-53. */
  method AddClean(unique: set<string>, initial: nat, line: string) returns (unique': set<string>, initial': nat)
    ensures unique' == unique + Found(CleanAsWritten, line)
    ensures initial' == initial + |Found(CleanAsWritten, line)|
  {
    var clean := CleanAsWritten(line);
    unique', initial' := unique, initial;
    if clean.Some? && clean.value != [] {
      unique' := unique + {clean.value};
      initial' := initial + 1;
    }
  }

  /** Lines 65 and 71: the final count never exceeds the initial one; the difference is the duplicates. */
  lemma FinalAtMostInitial(lines: seq<string>, timestamp: string)
    ensures CleanedFile(lines, timestamp).finalCount <= CleanedFile(lines, timestamp).initialCount
  {
    CollectedAtMostCount(CleanAsWritten, lines);
  }

  /** Every domain the script keeps from lines read from a file is a domain of the pattern. */
  lemma KeptAreDomains(lines: seq<string>)
    requires forall i :: 0 <= i < |lines| ==> '\n' !in lines[i]
    ensures forall d :: d in Collected(CleanAsWritten, lines) ==> IsDomain(d)
  {
    forall d | d in Collected(CleanAsWritten, lines) ensures IsDomain(d) {
      CollectedMeans(CleanAsWritten, lines, d);
      var i :| 0 <= i < |lines| && CleanAsWritten(lines[i]) == Some(d) && d != [];
      CleanAgrees(lines[i]);
      CleanedIsDomain(lines[i]);
    }
  }

  /**
   * The rewritten file: the header, then every kept domain once, in
   * ascending order; the final count is the number of domains written.
   */
  lemma CleanedFileShape(lines: seq<string>, timestamp: string)
    requires forall i :: 0 <= i < |lines| ==> '\n' !in lines[i]
    ensures var r := CleanedFile(lines, timestamp);
      |r.lines| == 3 + r.finalCount && r.lines[..3] == Header(timestamp)
      && SortedOf(Plain, r.lines[3..], Collected(CleanAsWritten, lines))
      && forall i :: 3 <= i < |r.lines| ==> IsDomain(r.lines[i])
  {
    var unique := Collected(CleanAsWritten, lines);
    var sorted := SortedList(Plain, unique);
    var r := CleanedFile(lines, timestamp);
    assert r.lines[3..] == sorted;
    SortedLength(Plain, sorted, unique);
    KeptAreDomains(lines);
    forall i | 3 <= i < |r.lines| ensures IsDomain(r.lines[i]) {
      assert r.lines[i] == sorted[i - 3];
      assert sorted[i - 3] in unique;
    }
  }

  /** The header's three lines are comments: cleaning keeps nothing of them. */
  lemma HeaderIgnored(timestamp: string)
    ensures Collected(CleanAsWritten, Header(timestamp)) == {} && Count(CleanAsWritten, Header(timestamp)) == 0
  {
    var h := Header(timestamp);
    forall i | 0 <= i < |h| ensures CleanAsWritten(h[i]) == None {
      StripFront(h[i]);
      CommentLineRejected(h[i]);
    }
    CollectedNothing(CleanAsWritten, h);
  }

  /**
   * Cleaning a cleaned file again, at any later time, writes the same
   * domains in the same order and finds no duplicate or invalid line.
   */
  lemma RecleanIsStable(lines: seq<string>, timestamp: string, later: string)
    requires forall i :: 0 <= i < |lines| ==> '\n' !in lines[i]
    ensures var r := CleanedFile(lines, timestamp);
      var again := CleanedFile(r.lines, later);
      again.lines[3..] == r.lines[3..]
      && again.initialCount == again.finalCount == r.finalCount
  {
    var unique := Collected(CleanAsWritten, lines);
    KeptAreDomains(lines);
    RereadCleaned(unique, timestamp);
  }

  /** Reading a file written from a set of domains gives the set back, each domain counted once. */
  lemma RereadCleaned(unique: set<string>, timestamp: string)
    requires forall d :: d in unique ==> IsDomain(d)
    ensures var written := Header(timestamp) + SortedList(Plain, unique);
      Collected(CleanAsWritten, written) == unique && Count(CleanAsWritten, written) == |unique|
  {
    SortedReread(unique);
    HeaderIgnored(timestamp);
    IgnoredPrefix(CleanAsWritten, Header(timestamp), SortedList(Plain, unique));
  }

  /** The domain lines alone give the set back. */
  lemma SortedReread(unique: set<string>)
    requires forall d :: d in unique ==> IsDomain(d)
    ensures var sorted := SortedList(Plain, unique);
      Collected(CleanAsWritten, sorted) == unique && Count(CleanAsWritten, sorted) == |unique|
  {
    var sorted := SortedList(Plain, unique);
    SortedFixedPoints(sorted, unique);
    CollectedFixedPoints(CleanAsWritten, sorted);
    SortedElements(sorted, unique);
    SortedLength(Plain, sorted, unique);
  }

  lemma SortedFixedPoints(sorted: seq<string>, unique: set<string>)
    requires forall d :: d in unique ==> IsDomain(d)
    requires forall i :: 0 <= i < |sorted| ==> sorted[i] in unique
    ensures forall i :: 0 <= i < |sorted| ==> CleanAsWritten(sorted[i]) == Some(sorted[i]) && sorted[i] != []
  {
    forall i | 0 <= i < |sorted| ensures CleanAsWritten(sorted[i]) == Some(sorted[i]) && sorted[i] != [] {
      DomainIsFixedPoint(sorted[i]);
      DomainChars(sorted[i]);
    }
  }

  /** The elements of a sorted list of a set are the set. */
  lemma SortedElements(sorted: seq<string>, s: set<string>)
    requires SortedOf(Plain, sorted, s)
    ensures (set i | 0 <= i < |sorted| :: sorted[i]) == s
  {
    forall x | x in s ensures x in set i | 0 <= i < |sorted| :: sorted[i] {
      var i :| 0 <= i < |sorted| && sorted[i] == x;
    }
  }
}
