/**
 * `clean_and_normalize_domain` of app.py (lines 14-35): one line of a
 * whitelist or of the web form to a bare lower-case domain, or `None`.
 */
module AppDomain {
  import opened Wrappers
  import opened PyStr
  import opened RuleSyntax

  predicate IsLetter(c: char) {
    'a' <= c <= 'z'
  }

  predicate IsDigit(c: char) {
    '0' <= c <= '9'
  }

  /** `[a-z0-9-]` */
  predicate IsLdh(c: char) {
    IsLetter(c) || IsDigit(c) || c == '-'
  }

  /** The characters a domain accepted by the pattern can hold. */
  predicate DomainChar(c: char) {
    IsLdh(c) || c == '.'
  }

  /** `[a-z0-9-]{1,63}` */
  predicate LdhRun(l: string) {
    1 <= |l| <= 63 && forall i :: 0 <= i < |l| ==> IsLdh(l[i])
  }

  /** `(?!-)[a-z0-9-]{1,63}(?<!-)`: the first label, no hyphen at either end. */
  predicate FirstLabel(l: string) {
    LdhRun(l) && l[0] != '-' && l[|l| - 1] != '-'
  }

  /** `\.[a-z0-9-]{1,63}(?<!-)`: a later label, which may start with a hyphen. */
  predicate InnerLabel(l: string) {
    LdhRun(l) && l[|l| - 1] != '-'
  }

  /** `\.[a-z]{2,63}`: the top-level label. */
  predicate TopLabel(l: string) {
    2 <= |l| <= 63 && forall i :: 0 <= i < |l| ==> IsLetter(l[i])
  }

  predicate EndsWithDigit(l: string) {
    l != [] && IsDigit(l[|l| - 1])
  }

  /**
   * A full match of the pattern of line 31. No label holds a dot, so a match
   * cuts the string at its dots: a first label, later labels, a top-level
   * label, and `(?<!\d)` rules out a digit just before the last dot.
   */
  predicate IsDomain(s: string) {
    var ls := Split(s, '.');
    |ls| >= 2 && FirstLabel(ls[0])
    && (forall i :: 1 <= i < |ls| - 1 ==> InnerLabel(ls[i]))
    && TopLabel(ls[|ls| - 1])
    && !EndsWithDigit(ls[|ls| - 2])
  }

  /** What `re.match` does with that pattern: its final `$` also matches just before a final newline. */
  predicate MatchesAsWritten(s: string) {
    IsDomain(s) || (s != [] && s[|s| - 1] == '\n' && IsDomain(s[..|s| - 1]))
  }

  predicate IsUrl(d: string) {
    StartsWith(d, "http://") || StartsWith(d, "https://")
  }

  /**
   * `urlparse(url).netloc` for an `http://` or `https://` URL: `urlsplit`
   * deletes tabs and line breaks, then takes the text after `//` up to the
   * first `/`, `?` or `#`. `None` is the `ValueError` it raises when the
   * netloc holds one of `[` and `]` without the other.
   */
  function Netloc(url: string): Option<string>
    requires IsUrl(url)
  {
    var rest := RemoveAll(url[if StartsWith(url, "http://") then 7 else 8..], {'\t', '\r', '\n'});
    var n := rest[..Find(rest, {'/', '?', '#'})];
    if ('[' in n) != (']' in n) then None else Some(n)
  }

  /** Lines 16-21: a URL is replaced by its netloc; an empty netloc or a parse error gives `None`. */
  function FromUrl(d: string): Option<string> {
    if !IsUrl(d) then Some(d)
    else
      match Netloc(d)
      case None => None
      case Some(n) => if n == [] then None else Some(n)
  }

  /** Lines 28-29: one leading `www.` and one trailing `/` come off. */
  function Tidy(d: string): (r: string)
    ensures StartsWith(d, "www.") ==> r + (if EndsWith(d[4..], "/") then "/" else "") == d[4..]
    ensures !StartsWith(d, "www.") ==> r + (if EndsWith(d, "/") then "/" else "") == d
  {
    var d' := if StartsWith(d, "www.") then d[4..] else d;
    if EndsWith(d', "/") then d'[..|d'| - 1] else d'
  }

  /** Lines 15-29: everything before the final guard; `None` is an early `return None`. */
  function Candidate(line: string): Option<string> {
    match FromUrl(Lower(Strip(line)))
    case None => None
    case Some(d) =>
      match StripRule(d)
      case None => None
      case Some(d') => Some(Tidy(d'))
  }

  /** The function with the pattern read as the full match its authors meant (see Findings). */
  function Normalize(line: string): Option<string> {
    match Candidate(line)
    case None => None
    case Some(d) => if Rejected(d, IsDomain(d)) then None else Some(d)
  }

  /** The function as written, `$` included. */
  function NormalizeAsWritten(line: string): Option<string> {
    match Candidate(line)
    case None => None
    case Some(d) => if Rejected(d, MatchesAsWritten(d)) then None else Some(d)
  }

  /** Every character of a domain is a letter, digit, hyphen or dot. */
  lemma DomainChars(s: string)
    requires IsDomain(s)
    ensures s != [] && forall i :: 0 <= i < |s| ==> DomainChar(s[i])
  {
    var ls := Split(s, '.');
    forall i, k | 0 <= i < |ls| && 0 <= k < |ls[i]| ensures DomainChar(ls[i][k]) {
      if i == 0 {
        assert FirstLabel(ls[0]);
      } else if i < |ls| - 1 {
        assert InnerLabel(ls[i]);
      } else {
        assert TopLabel(ls[i]);
      }
    }
    JoinAll(ls, '.', DomainChar);
    JoinSplit(s, '.');
  }

  lemma DomainCharsIn(s: string)
    requires IsDomain(s)
    ensures forall c :: c in s ==> DomainChar(c)
  {
    DomainChars(s);
    forall c | c in s ensures DomainChar(c) {
      var k :| 0 <= k < |s| && s[k] == c;
    }
  }

  /** A domain passes the guard, and a domain without `www.` is left alone by lines 28-29. */
  lemma DomainAccepted(d: string)
    requires IsDomain(d)
    ensures !Rejected(d, true) && !Rejected(d, IsDomain(d))
    ensures !StartsWith(d, "www.") ==> Tidy(d) == d
  {
    DomainChars(d);
    assert ' ' !in d by {
      forall i | 0 <= i < |d| ensures d[i] != ' ' {
        assert DomainChar(d[i]);
      }
    }
    assert !StartsWith(d, "#") && !StartsWith(d, "!") && !StartsWith(d, "/") by {
      assert DomainChar(d[0]) && d[..1][0] == d[0];
    }
    assert !EndsWith(d, "/") by {
      assert DomainChar(d[|d| - 1]) && d[|d| - 1..][0] == d[|d| - 1];
    }
  }

  /** A candidate that is a domain is the result. */
  lemma CandidateAccepted(line: string, d: string)
    requires Candidate(line) == Some(d) && IsDomain(d)
    ensures Normalize(line) == Some(d)
  {
    DomainAccepted(d);
  }

  /** The steps of lines 15-29 ending in a domain give that domain. */
  lemma Accepted(line: string, t: string, d: string)
    requires FromUrl(Lower(Strip(line))) == Some(t) && StripRule(t) == Some(d)
    requires IsDomain(d) && !StartsWith(d, "www.")
    ensures Normalize(line) == Some(d)
  {
    DomainAccepted(d);
    CandidateSteps(line, t, d);
    CandidateAccepted(line, d);
  }

  /** Lines 15-29 step by step. */
  lemma CandidateSteps(line: string, t: string, u: string)
    requires FromUrl(Lower(Strip(line))) == Some(t) && StripRule(t) == Some(u)
    ensures Candidate(line) == Some(Tidy(u))
  {
  }

  /** A string of domain characters passes lines 15-29 untouched. */
  lemma PlainTextUntouched(d: string)
    requires d != [] && forall i :: 0 <= i < |d| ==> DomainChar(d[i])
    ensures Lower(Strip(d)) == d && FromUrl(d) == Some(d) && StripRule(d) == Some(d)
  {
    StripUnchanged(d);
    LowerUnchanged(d);
    PlainNotRule(d);
  }

  lemma PlainNotRule(d: string)
    requires d != [] && forall i :: 0 <= i < |d| ==> DomainChar(d[i])
    ensures FromUrl(d) == Some(d) && StripRule(d) == Some(d)
  {
    assert DomainChar(d[0]);
    assert |d| > 5 ==> DomainChar(d[4]) && DomainChar(d[5]);
    assert |d| > 9 ==> DomainChar(d[9]);
    assert |d| > 7 ==> DomainChar(d[7]);
    NotUrl(d);
    NotAllowRule(d);
    NotBlockRule(d);
    NotHostsLine(d);
    NotRule(d);
  }

  lemma NotUrl(d: string)
    requires |d| > 5 ==> d[4] != ':' && d[5] != ':'
    ensures !IsUrl(d)
  {
    assert |d| >= 7 ==> d[..7][4] == d[4];
    assert |d| >= 8 ==> d[..8][5] == d[5];
  }

  lemma NotAllowRule(d: string)
    requires d != [] && d[0] != '@'
    ensures !IsAllowRule(d)
  {
    assert |d| >= 4 ==> d[..4][0] == d[0];
  }

  lemma NotBlockRule(d: string)
    requires d != [] && d[0] != '|'
    ensures !IsBlockRule(d)
  {
    assert |d| >= 2 ==> d[..2][0] == d[0];
  }

  lemma NotHostsLine(d: string)
    requires |d| > 7 ==> d[7] != ' '
    requires |d| > 9 ==> d[9] != ' '
    ensures !IsHostsLine(d)
  {
    assert |d| >= 8 ==> d[..8][7] == d[7];
    assert |d| >= 10 ==> d[..10][9] == d[9];
  }

  /** Text in none of the three rule forms passes lines 22-27 unchanged. */
  lemma NotRule(d: string)
    requires !IsAllowRule(d) && !IsBlockRule(d) && !IsHostsLine(d)
    ensures StripRule(d) == Some(d)
  {
  }

  /** A domain that does not begin with `www.` normalizes to itself. */
  lemma DomainIsFixedPoint(d: string)
    requires IsDomain(d) && !StartsWith(d, "www.")
    ensures Normalize(d) == Some(d)
  {
    DomainChars(d);
    PlainTextUntouched(d);
    DomainAccepted(d);
    CandidateSteps(d, d, d);
    CandidateAccepted(d, d);
  }

  /**
   * A result is a domain of the pattern: at least two labels, a letters-only
   * top label of 2 to 63 characters, no hyphen at the ends of the first
   * label nor at the end of a later one, no digit before the last dot; so it
   * holds no space and does not start with `#`, `!` or `/`.
   */
  lemma NormalizedIsDomain(line: string)
    requires Normalize(line).Some?
    ensures var d := Normalize(line).value;
      IsDomain(d) && d != [] && NoSpace(d)
      && d[0] != '#' && d[0] != '!' && d[0] != '/'
      && forall i :: 0 <= i < |d| ==> DomainChar(d[i])
  {
    NormalizeResult(line);
    DomainShape(Normalize(line).value);
  }

  lemma DomainShape(d: string)
    requires IsDomain(d)
    ensures d != [] && NoSpace(d) && d[0] != '#' && d[0] != '!' && d[0] != '/'
    ensures forall i :: 0 <= i < |d| ==> DomainChar(d[i])
  {
    DomainChars(d);
  }

  /** A result is a candidate that passed the guard. */
  lemma NormalizeResult(line: string)
    requires Normalize(line).Some?
    ensures Candidate(line) == Normalize(line)
    ensures !Rejected(Normalize(line).value, IsDomain(Normalize(line).value))
  {
  }

  /** Re-normalizing a result that does not begin with `www.` changes nothing. */
  lemma NormalizeIdempotent(line: string)
    requires Normalize(line).Some? && !StartsWith(Normalize(line).value, "www.")
    ensures Normalize(Normalize(line).value) == Normalize(line)
  {
    NormalizedIsDomain(line);
    DomainIsFixedPoint(Normalize(line).value);
  }

  /** Lines 22-23: a block rule and an allow rule both give the bare domain, untagged. */
  lemma RulesGiveDomain(d: string)
    requires IsDomain(d) && !StartsWith(d, "www.")
    ensures Normalize(BlockRule(d)) == Some(d)
    ensures Normalize("@@||" + d + "^") == Some(d)
  {
    DomainChars(d);
    StripRuleUnwraps(d);
    Wrapped("||", d);
    Wrapped("@@||", d);
  }

  lemma Wrapped(p: string, d: string)
    requires p == "||" || p == "@@||"
    requires IsDomain(d) && !StartsWith(d, "www.")
    requires d != [] && forall i :: 0 <= i < |d| ==> DomainChar(d[i])
    requires StripRule(p + d + "^") == Some(d)
    ensures Normalize(p + d + "^") == Some(d)
  {
    WrappedText(p, d);
    Accepted(p + d + "^", p + d + "^", d);
  }

  /** A wrapped domain is already trimmed, lower-case and not a URL. */
  lemma WrappedText(p: string, d: string)
    requires p == "||" || p == "@@||"
    requires d != [] && forall i :: 0 <= i < |d| ==> DomainChar(d[i])
    ensures Lower(Strip(p + d + "^")) == p + d + "^" && FromUrl(p + d + "^") == Some(p + d + "^")
  {
    var t := p + d + "^";
    WrappedLower(p, d);
    assert t[0] == '|' || t[0] == '@';
    PlainLine(t);
  }

  lemma WrappedLower(p: string, d: string)
    requires p == "||" || p == "@@||"
    requires forall i :: 0 <= i < |d| ==> DomainChar(d[i])
    ensures forall i :: 0 <= i < |p + d + "^"| ==> !IsUpper((p + d + "^")[i])
  {
    var t := p + d + "^";
    forall i | 0 <= i < |t| ensures !IsUpper(t[i]) {
      if |p| <= i < |p| + |d| {
        assert t[i] == d[i - |p|];
      }
    }
  }

  /** Text that is already trimmed, lower-case and not a URL passes lines 15-21 unchanged. */
  lemma PlainLine(t: string)
    requires t != [] && !IsSpace(t[0]) && !IsSpace(t[|t| - 1])
    requires forall i :: 0 <= i < |t| ==> !IsUpper(t[i])
    requires t[0] != 'h'
    ensures Lower(Strip(t)) == t && FromUrl(t) == Some(t)
  {
    PlainLower(t);
    assert !IsUrl(t) by {
      assert |t| >= 7 ==> t[..7][0] == t[0];
      assert |t| >= 8 ==> t[..8][0] == t[0];
    }
  }

  lemma NotHostsAddress(d: string)
    requires d != [] && d[0] != '0' && d[0] != '1'
    ensures !IsHostsLine(d)
  {
    assert |d| >= 8 ==> d[..8][0] == d[0];
    assert |d| >= 10 ==> d[..10][0] == d[0];
  }

  /**
   * Lines 24-25: a hosts line `0.0.0.0 d` or `127.0.0.1 d`, however much
   * whitespace separates the two, gives its domain.
   */
  lemma HostsLineGivesDomain(p: string, ws: string, d: string)
    requires p == "0.0.0.0 " || p == "127.0.0.1 "
    requires forall i :: 0 <= i < |ws| ==> IsSpace(ws[i])
    requires IsDomain(d) && !StartsWith(d, "www.")
    ensures Normalize(p + ws + d) == Some(d)
  {
    DomainShape(d);
    HostsLineStrips(p, ws, d);
    HostsLineText(p, ws, d);
    Accepted(p + ws + d, p + ws + d, d);
  }

  lemma HostsLineStrips(p: string, ws: string, d: string)
    requires p == "0.0.0.0 " || p == "127.0.0.1 "
    requires forall i :: 0 <= i < |ws| ==> IsSpace(ws[i])
    requires d != [] && !IsSpace(d[0]) && !IsSpace(d[|d| - 1])
    ensures StripRule(p + ws + d) == Some(d)
  {
    assert p + ws + d == p + (ws + d);
    HostsLineRule(p, ws + d);
    StripLeadingSpace(ws, d);
  }

  /** Lines 24-26: a hosts line gives the trimmed text after its address. */
  lemma HostsLineRule(p: string, r: string)
    requires p == "0.0.0.0 " || p == "127.0.0.1 "
    ensures StripRule(p + r) == Some(Strip(r))
  {
    HostsLineShape(p, r);
    HostsBranchNeverFails(p + r);
  }

  lemma HostsLineShape(p: string, r: string)
    requires p == "0.0.0.0 " || p == "127.0.0.1 "
    ensures IsHostsLine(p + r) && !IsAllowRule(p + r) && !IsBlockRule(p + r)
    ensures HostsSpace(p + r) + 1 == |p| && (p + r)[|p|..] == r
  {
    var t := p + r;
    assert t[0] == p[0];
    NotAllowRule(t);
    NotBlockRule(t);
    assert t[..|p|] == p;
  }

  lemma HostsLineText(p: string, ws: string, d: string)
    requires p == "0.0.0.0 " || p == "127.0.0.1 "
    requires forall i :: 0 <= i < |ws| ==> IsSpace(ws[i])
    requires d != [] && forall i :: 0 <= i < |d| ==> DomainChar(d[i])
    ensures Lower(Strip(p + ws + d)) == p + ws + d && FromUrl(p + ws + d) == Some(p + ws + d)
  {
    var t := p + ws + d;
    assert t[|t| - 1] == d[|d| - 1];
    forall i | 0 <= i < |t| ensures !IsUpper(t[i]) {
      if i >= |p| + |ws| {
        assert t[i] == d[i - |p| - |ws|];
      } else if i >= |p| {
        assert t[i] == ws[i - |p|];
      }
    }
    PlainLine(t);
  }

  /** Lines 28-29: a leading `www.` and a trailing `/` are dropped around a domain. */
  lemma WwwGivesDomain(line: string, d: string)
    requires Lower(Strip(line)) == "www." + d || Lower(Strip(line)) == "www." + d + "/"
    requires IsDomain(d)
    ensures Normalize(line) == Some(d)
  {
    var t := Lower(Strip(line));
    WwwTidy(t, d);
    WwwRule(t);
    CandidateSteps(line, t, t);
    CandidateAccepted(line, d);
  }

  /** Text starting with `www.` is neither a URL nor a rule. */
  lemma WwwRule(t: string)
    requires |t| >= 4 && t[..4] == "www."
    ensures FromUrl(t) == Some(t) && StripRule(t) == Some(t)
  {
    assert t[0] == 'w';
    assert !IsUrl(t) by {
      assert |t| >= 7 ==> t[..7][0] == t[0];
      assert |t| >= 8 ==> t[..8][0] == t[0];
    }
    NotAllowRule(t);
    NotBlockRule(t);
    NotHostsAddress(t);
    NotRule(t);
  }

  lemma WwwTidy(t: string, d: string)
    requires t == "www." + d || t == "www." + d + "/"
    requires IsDomain(d)
    ensures |t| >= 4 && t[..4] == "www." && Tidy(t) == d
  {
    var slash := if t == "www." + d then "" else "/";
    assert t == "www." + d + slash;
    DomainShape(d);
    assert t[..4] == "www." && t[4..] == d + slash;
    assert (d + slash)[..|d|] == d;
    assert d[|d| - 1] != '/';
  }

  /** Lines 16-21: a URL whose netloc is a domain gives that domain. */
  lemma UrlGivesNetloc(line: string, n: string)
    requires IsUrl(Lower(Strip(line))) && Netloc(Lower(Strip(line))) == Some(n)
    requires IsDomain(n) && !StartsWith(n, "www.")
    ensures Normalize(line) == Some(n)
  {
    DomainShape(n);
    PlainTextUntouched(n);
    Accepted(line, n, n);
  }

  /** Lines 28-29 only cut off characters, and never any but `w`, `.` and `/`. */
  lemma TidyChars(u: string, c: char)
    ensures c in Tidy(u) ==> c in u
    ensures c in u && c != 'w' && c != '.' && c != '/' ==> c in Tidy(u)
  {
    if c in u && c != 'w' && c != '.' && c != '/' {
      var k :| 0 <= k < |u| && u[k] == c;
      if StartsWith(u, "www.") {
        assert u[..4] == "www.";
        assert k >= 4;
        assert u[4..][k - 4] == c;
      }
      var u' := if StartsWith(u, "www.") then u[4..] else u;
      assert c in u';
      var j :| 0 <= j < |u'| && u'[j] == c;
      if EndsWith(u', "/") {
        assert j != |u'| - 1 by {
          assert u'[|u'| - 1..][0] == u'[|u'| - 1];
        }
        assert u'[..|u'| - 1][j] == c;
      }
    }
  }

  /**
   * A character no domain holds and no step of lines 15-29 removes (a port's
   * `:`, the `@` of credentials, a bracket, an underscore, any non-ASCII
   * character) makes the line fail the guard.
   */
  lemma ForeignCharRejected(line: string, t: string, c: char)
    requires FromUrl(Lower(Strip(line))) == Some(t) && c in t
    requires !DomainChar(c) && !IsSpace(c) && c != '|' && c != '^' && c != '/'
    requires c == '@' ==> !IsAllowRule(t)
    ensures Normalize(line) == None
  {
    StripRuleKeeps(t, c);
    var u := StripRule(t).value;
    TidyChars(u, c);
    CandidateSteps(line, t, u);
    if IsDomain(Tidy(u)) {
      DomainCharsIn(Tidy(u));
    }
  }

  /** Lines 18-19: a URL with a port is refused, the netloc keeping its `:`. */
  lemma UrlWithPortRejected(line: string, n: string)
    requires IsUrl(Lower(Strip(line))) && FromUrl(Lower(Strip(line))) == Some(n) && ':' in n
    ensures Normalize(line) == None
  {
    ForeignCharRejected(line, n, ':');
  }

  /** The labels a domain is cut into put it back together. */
  lemma LabelsDomain(s: string, ls: seq<string>)
    requires Split(s, '.') == ls
    requires |ls| >= 2 && FirstLabel(ls[0]) && (forall i :: 1 <= i < |ls| - 1 ==> InnerLabel(ls[i]))
    requires TopLabel(ls[|ls| - 1]) && !EndsWithDigit(ls[|ls| - 2])
    ensures IsDomain(s)
  {
  }

  lemma ExampleLabels()
    ensures FirstLabel("example") && TopLabel("com") && !EndsWithDigit("example")
    ensures '.' !in "example" && '.' !in "com"
  {
  }

  /** `example.com` is a domain: WwwTwice is about a real input. */
  lemma ExampleDomain()
    ensures IsDomain("example.com")
  {
    ExampleLabels();
    ExampleJoins();
    SplitJoin(["example", "com"], '.');
    LabelsDomain("example.com", ["example", "com"]);
  }

  /** Putting a label in front of a domain gives a domain. */
  lemma SubdomainIsDomain(l: string, d: string)
    requires FirstLabel(l) && '.' !in l && IsDomain(d)
    ensures IsDomain(l + "." + d)
  {
    var s := l + "." + d;
    SplitFront(l, '.', d);
    var ds := Split(d, '.');
    var ls := [l] + ds;
    forall i | 1 <= i < |ls| - 1 ensures InnerLabel(ls[i]) {
      assert ls[i] == ds[i - 1];
      if i == 1 {
        assert FirstLabel(ds[0]);
      }
    }
    assert ls[|ls| - 1] == ds[|ds| - 1] && ls[|ls| - 2] == ds[|ds| - 2];
    LabelsDomain(s, ls);
  }

  lemma ExampleJoins()
    ensures Join(["example", "com"], '.') == "example.com"
  {
  }

  lemma PlainLower(t: string)
    requires t != [] && !IsSpace(t[0]) && !IsSpace(t[|t| - 1])
    requires forall i :: 0 <= i < |t| ==> !IsUpper(t[i])
    ensures Lower(Strip(t)) == t
  {
    StripUnchanged(t);
    LowerUnchanged(t);
  }

  /**
   * Line 28 strips one `www.` only, so normalizing twice can strip a second:
   * the function is not idempotent on such results (`d` = `example.com`,
   * see ExampleDomain, gives `www.www.example.com`).
   */
  lemma WwwTwice(d: string)
    requires IsDomain(d)
    ensures Normalize("www." + ("www." + d)) == Some("www." + d)
    ensures Normalize("www." + d) == Some(d)
  {
    assert FirstLabel("www") && '.' !in "www";
    SubdomainIsDomain("www", d);
    assert "www" + "." + d == "www." + d;
    WwwOnce(d);
    WwwOnce("www." + d);
  }

  /** A domain behind `www.` normalizes to the domain. */
  lemma WwwOnce(d: string)
    requires IsDomain(d)
    ensures Normalize("www." + d) == Some(d)
  {
    DomainShape(d);
    WwwLine(d);
    WwwGivesDomain("www." + d, d);
  }

  lemma WwwLine(d: string)
    requires d != [] && forall i :: 0 <= i < |d| ==> DomainChar(d[i])
    ensures Lower(Strip("www." + d)) == "www." + d
  {
    var t := "www." + d;
    forall i | 0 <= i < |t| ensures !IsUpper(t[i]) {
      if i >= 4 {
        assert t[i] == d[i - 4];
      }
    }
    assert t[|t| - 1] == d[|d| - 1];
    PlainLower(t);
  }

  /**
   * The finding of lines 31-34: `re.match` lets `$` match before a final
   * newline, so a block rule whose domain ends in a newline passes the guard
   * and the newline stays in the result; the full match refuses it.
   */
  lemma AsWrittenKeepsNewline(d: string)
    requires IsDomain(d) && !StartsWith(d, "www.")
    ensures NormalizeAsWritten(BlockRule(d + "\n")) == Some(d + "\n")
    ensures Normalize(BlockRule(d + "\n")) == None
  {
    var e := d + "\n";
    DomainShape(d);
    NewlineCandidate(d);
    NewlineGuard(d);
  }

  lemma NewlineCandidate(d: string)
    requires d != [] && !StartsWith(d, "www.") && forall i :: 0 <= i < |d| ==> DomainChar(d[i])
    ensures Candidate(BlockRule(d + "\n")) == Some(d + "\n")
  {
    var e := d + "\n";
    var t := BlockRule(e);
    NewlineRuleText(d);
    StripRuleUnwraps(e);
    NewlineTidy(d);
    CandidateSteps(t, t, e);
  }

  lemma NewlineGuard(d: string)
    requires IsDomain(d)
    ensures MatchesAsWritten(d + "\n") && !Rejected(d + "\n", true) && !IsDomain(d + "\n")
  {
    var e := d + "\n";
    DomainShape(d);
    assert e[..|e| - 1] == d;
    assert e[..1][0] == d[0];
    assert ' ' !in e by {
      DomainCharsIn(d);
    }
    assert e[|e| - 1] == '\n';
    assert '\n' in e;
    if IsDomain(e) {
      DomainCharsIn(e);
    }
  }

  lemma NewlineRuleText(d: string)
    requires d != [] && forall i :: 0 <= i < |d| ==> DomainChar(d[i])
    ensures FromUrl(Lower(Strip(BlockRule(d + "\n")))) == Some(BlockRule(d + "\n"))
  {
    NewlineRulePlain(d);
  }

  /** The block rule of a domain plus a line break is trimmed, lower-case text and no URL. */
  lemma NewlineRulePlain(d: string)
    requires d != [] && forall i :: 0 <= i < |d| ==> DomainChar(d[i])
    ensures Lower(Strip(BlockRule(d + "\n"))) == BlockRule(d + "\n") && FromUrl(BlockRule(d + "\n")) == Some(BlockRule(d + "\n"))
  {
    var t := BlockRule(d + "\n");
    assert t == "||" + d + "\n^";
    forall i | 0 <= i < |t| ensures !IsUpper(t[i]) {
      if 2 <= i < 2 + |d| {
        assert t[i] == d[i - 2];
      }
    }
    PlainLine(t);
  }

  lemma NewlineTidy(d: string)
    requires d != [] && !StartsWith(d, "www.") && forall i :: 0 <= i < |d| ==> DomainChar(d[i])
    ensures Tidy(d + "\n") == d + "\n"
  {
    var e := d + "\n";
    assert e[|e| - 1..] == "\n";
    assert !StartsWith(e, "www.") by {
      if |d| >= 4 {
        assert e[..4] == d[..4];
      } else {
        assert |e| < 4 || e[|d|] == '\n';
      }
    }
  }

  /**
   * The `$` reading accepts everything the full match accepts, and on a
   * result that is a domain the two agree.
   */
  lemma AsWrittenAcceptsMore(line: string)
    ensures Normalize(line).Some? ==> NormalizeAsWritten(line) == Normalize(line)
    ensures NormalizeAsWritten(line).Some? && IsDomain(NormalizeAsWritten(line).value) ==>
              Normalize(line) == NormalizeAsWritten(line)
  {
  }

  /** Without a newline in the line the two readings of the pattern agree. */
  lemma AsWrittenAgrees(line: string)
    requires '\n' !in line
    ensures NormalizeAsWritten(line) == Normalize(line)
  {
    if Candidate(line).Some? {
      CandidateChars(line, '\n');
      MatchesWithoutNewline(Candidate(line).value);
    }
  }

  /** Text without a line break matches under the `$` reading exactly when it matches in full. */
  lemma MatchesWithoutNewline(d: string)
    requires '\n' !in d
    ensures MatchesAsWritten(d) == IsDomain(d)
  {
    if d != [] {
      assert d[|d| - 1] in d;
    }
  }

  /** Lines 15-29 introduce no character the line lacks, and lose no line break unless it is in a URL. */
  lemma CandidateChars(line: string, c: char)
    requires Candidate(line).Some?
    requires c !in line && !('a' <= c <= 'z')
    ensures c !in Candidate(line).value
  {
    var t := FromUrl(Lower(Strip(line))).value;
    StripChars(line);
    LowerChars(Strip(line));
    FromUrlChars(Lower(Strip(line)), c);
    var u := StripRule(t).value;
    StripRuleChars(t);
    TidyChars(u, c);
    CandidateSteps(line, t, u);
  }

  lemma FromUrlChars(d: string, c: char)
    requires FromUrl(d).Some?
    ensures c in FromUrl(d).value ==> c in d
  {
    if IsUrl(d) {
      var k := if StartsWith(d, "http://") then 7 else 8;
      var rest := RemoveAll(d[k..], {'\t', '\r', '\n'});
      var n := rest[..Find(rest, {'/', '?', '#'})];
      RemoveAllChars(d[k..], {'\t', '\r', '\n'});
      if c in n {
        var j :| 0 <= j < |n| && n[j] == c;
        assert rest[j] == c;
        assert c in d[k..];
        var i :| 0 <= i < |d[k..]| && d[k..][i] == c;
        assert d[k + i] == c;
      }
    }
  }

  /** Lines 33-34: a comment, a line whose trimmed text starts with `#` or `!`, gives `None`. */
  lemma CommentLineRejected(line: string)
    requires Strip(line) != [] && (Strip(line)[0] == '#' || Strip(line)[0] == '!')
    ensures Normalize(line) == None && NormalizeAsWritten(line) == None
  {
    var t := Lower(Strip(line));
    assert t[0] == Strip(line)[0];
    PlainComment(t);
    CandidateSteps(line, t, t);
    CommentTidy(t);
  }

  lemma PlainComment(t: string)
    requires t != [] && (t[0] == '#' || t[0] == '!')
    ensures FromUrl(t) == Some(t) && StripRule(t) == Some(t)
  {
    assert |t| >= 7 ==> t[..7][0] == t[0];
    assert |t| >= 8 ==> t[..8][0] == t[0];
    NotAllowRule(t);
    NotBlockRule(t);
    NotHostsAddress(t);
    NotRule(t);
  }

  lemma CommentTidy(t: string)
    requires t != [] && (t[0] == '#' || t[0] == '!')
    ensures Rejected(Tidy(t), true) && Rejected(Tidy(t), false)
  {
    assert t[..1] != "w";
    assert !StartsWith(t, "www.");
    var u := Tidy(t);
    assert |t| == 1 ==> t[|t| - 1..] != "/";
    assert u != [] && u[0] == t[0];
    assert u[..1] == [t[0]];
  }

  /** Lines 33-34: a blank line gives `None`. */
  lemma BlankLineRejected(line: string)
    requires Strip(line) == []
    ensures Normalize(line) == None && NormalizeAsWritten(line) == None
  {
    assert Lower(Strip(line)) == [];
    assert FromUrl([]) == Some([]) && StripRule([]) == Some([]);
    CandidateSteps(line, [], []);
  }
}
