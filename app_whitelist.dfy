/**
 * The `/add_to_whitelist` handler of app.py (lines 52-123): normalize the
 * submitted domain, read the personal whitelist, and, when the domain is new,
 * write the merged, sorted list back under a three-line header. The GitHub
 * round trip is reduced to its data: the lines of the current file come in as
 * a parameter and the lines of the new file go out in the response.
 */
module AppWhitelist {
  import opened Wrappers
  import opened PyStr
  import opened Ordering
  import opened RuleSyntax
  import opened AppDomain
  import opened DomainSets

  /** The handler's outcomes, each with the HTTP status it answers with. */
  datatype Response =
    | NotConfigured                              // 500: no GitHub token
    | MissingDomain                              // 400: no `domain`, or an empty one
    | InvalidDomain(raw: string)                 // 400: the domain does not normalize
    | AlreadyListed(domain: string)              // 200: nothing to write
    | Updated(domain: string, lines: seq<string>)  // 200: the file is rewritten with `lines`
    | ServerError                                // 500: an exception inside the `try`

  function Status(r: Response): (code: int)
    ensures code == 200 <==> r.AlreadyListed? || r.Updated?
    ensures code == 400 <==> r.MissingDomain? || r.InvalidDomain?
  {
    match r
    case NotConfigured => 500
    case MissingDomain => 400
    case InvalidDomain(_) => 400
    case AlreadyListed(_) => 200
    case Updated(_, _) => 200
    case ServerError => 500
  }

  /** The start of a comment line of an AdGuard list. */
  const Bang := "! "

  const Title := Bang + "Personal Whitelist (Cleaned, Homogenized, and Sorted)"

  /** Lines 97-100: the title, the time stamp and an empty line. */
  function Header(timestamp: string): (h: seq<string>)
    ensures |h| == 3 && h[0] == Title && h[2] == ""
    ensures |h[0]| > 0 && h[0][0] == '!' && |h[1]| > 0 && h[1][0] == '!'
  {
    [Title, Bang + "Last Updated: " + timestamp, ""]
  }

  /** Lines 85-89: the set of domains already in the file. */
  function Existing(lines: seq<string>): set<string> {
    Collected(Normalize, lines)
  }

  /** A domain is already in the file exactly when one of its lines normalizes to it. */
  lemma ExistingMeans(lines: seq<string>, d: string)
    ensures d in Existing(lines) <==> exists i :: 0 <= i < |lines| && Normalize(lines[i]) == Some(d) && d != []
  {
    CollectedMeans(Normalize, lines, d);
  }

  /** Lines 85-89: the loop that collects the file's domains. */
  method ReadDomains(current: seq<string>) returns (existing: set<string>)
    ensures existing == Existing(current)
  {
    existing := CollectAll(Normalize, current);
  }

  /** The lines of the file the handler writes for a new domain. */
  ghost function Rewritten(domains: set<string>, timestamp: string): seq<string> {
    Header(timestamp) + SortedList(Plain, domains)
  }

  /**
   * The handler. `configured` says whether a GitHub token is set, `raw` is
   * the request's `domain` field, `current` the lines of the whitelist file.
   */
  method AddToWhitelist(configured: bool, raw: Option<string>, current: seq<string>, timestamp: string)
    returns (r: Response)
    ensures r == Outcome(configured, raw, current, timestamp)
  {
    if !configured {
      return NotConfigured;
    }
    if raw == None || raw.value == "" {
      return MissingDomain;
    }
    var normalized := Normalize(raw.value);
    if normalized == None {
      return InvalidDomain(raw.value);
    }
    var d := normalized.value;
    var existing := ReadDomains(current);
    if d in existing {
      return AlreadyListed(d);
    }
    existing := existing + {d};
    var sorted := Sort(Plain, existing);
    r := Updated(d, Header(timestamp) + sorted);
  }

  /**
   * What the handler answers: the early returns of lines 54-66, then
   * lines 91-92 for a domain already present, else the rewritten file.
   */
  ghost function Outcome(configured: bool, raw: Option<string>, current: seq<string>, timestamp: string): Response {
    if !configured then NotConfigured
    else if raw == None || raw == Some("") then MissingDomain
    else if Normalize(raw.value) == None then InvalidDomain(raw.value)
    else
      var d := Normalize(raw.value).value;
      if d in Existing(current) then AlreadyListed(d)
      else Updated(d, Rewritten(Existing(current) + {d}, timestamp))
  }

  /**
   * Lines 85-89 as written: the file's lines go through the same
   * `$`-reading normalizer as the submitted field.
   */
  function ExistingAsWritten(lines: seq<string>): set<string> {
    Collected(NormalizeAsWritten, lines)
  }

  /**
   * The handler as written. It normalizes with the `$` reading of line 31,
   * and line 99 calls `time.strftime` although app.py never imports `time`:
   * every new domain ends in the `NameError` that the `except Exception` of
   * lines 121-123 turns into a 500 (see Findings).
   */
  method AddToWhitelistAsWritten(configured: bool, raw: Option<string>, current: seq<string>, timestamp: string)
    returns (r: Response)
    ensures r == OutcomeAsWritten(configured, raw, current, timestamp)
  {
    if !configured {
      return NotConfigured;
    }
    if raw == None || raw.value == "" {
      return MissingDomain;
    }
    var normalized := NormalizeAsWritten(raw.value);
    if normalized == None {
      return InvalidDomain(raw.value);
    }
    var d := normalized.value;
    var existing := CollectAll(NormalizeAsWritten, current);
    if d in existing {
      return AlreadyListed(d);
    }
    r := ServerError;
  }

  /** What the handler as written answers: the same early returns, then a 500 where the file would be rewritten. */
  ghost function OutcomeAsWritten(configured: bool, raw: Option<string>, current: seq<string>, timestamp: string): Response {
    if !configured then NotConfigured
    else if raw == None || raw == Some("") then MissingDomain
    else if NormalizeAsWritten(raw.value) == None then InvalidDomain(raw.value)
    else
      var d := NormalizeAsWritten(raw.value).value;
      if d in ExistingAsWritten(current) then AlreadyListed(d)
      else ServerError
  }

  /**
   * As written, no request ever adds a domain: every field the `$` reading
   * accepts and the file does not list gets a 500, and so does every
   * request the corrected handler would answer by rewriting the file.
   */
  lemma AsWrittenNeverUpdates(configured: bool, raw: Option<string>, current: seq<string>, timestamp: string)
    ensures !OutcomeAsWritten(configured, raw, current, timestamp).Updated?
    ensures configured && raw.Some? && raw.value != "" && NormalizeAsWritten(raw.value).Some?
              && NormalizeAsWritten(raw.value).value !in ExistingAsWritten(current) ==>
              Status(OutcomeAsWritten(configured, raw, current, timestamp)) == 500
    ensures Outcome(configured, raw, current, timestamp).Updated? ==>
              OutcomeAsWritten(configured, raw, current, timestamp) == ServerError
  {
    if Outcome(configured, raw, current, timestamp).Updated? {
      SameDomainAsWritten(raw.value, current);
    }
  }

  /** A field the full match accepts gives the same domain as written, listed or not alike. */
  lemma SameDomainAsWritten(raw: string, current: seq<string>)
    requires Normalize(raw).Some?
    ensures NormalizeAsWritten(raw) == Normalize(raw)
    ensures Normalize(raw).value in ExistingAsWritten(current) <==> Normalize(raw).value in Existing(current)
  {
    AsWrittenAcceptsMore(raw);
    NormalizedIsDomain(raw);
    ListedAlike(current, Normalize(raw).value);
  }

  /** For a domain, the file lists it under the `$` reading exactly when it lists it under the full match. */
  lemma ListedAlike(lines: seq<string>, d: string)
    requires IsDomain(d)
    ensures d in ExistingAsWritten(lines) <==> d in Existing(lines)
  {
    CollectedMeans(Normalize, lines, d);
    CollectedMeans(NormalizeAsWritten, lines, d);
    forall i | 0 <= i < |lines| ensures NormalizeAsWritten(lines[i]) == Some(d) <==> Normalize(lines[i]) == Some(d) {
      AsWrittenAcceptsMore(lines[i]);
    }
  }

  /** Lines split off a file hold no line break, and for them both readings of the file agree. */
  lemma ExistingAgree(lines: seq<string>)
    requires forall i :: 0 <= i < |lines| ==> '\n' !in lines[i]
    ensures ExistingAsWritten(lines) == Existing(lines)
  {
    forall i | 0 <= i < |lines| ensures NormalizeAsWritten(lines[i]) == Normalize(lines[i]) {
      AsWrittenAgrees(lines[i]);
    }
    CollectedAgree(NormalizeAsWritten, Normalize, lines);
  }

  /**
   * Apart from the rewrite that line 99 turns into a 500, the handler as
   * written answers as the corrected one whenever the field holds no line break.
   */
  lemma AsWrittenOtherwiseAgrees(configured: bool, raw: Option<string>, current: seq<string>, timestamp: string)
    requires raw.Some? ==> '\n' !in raw.value
    requires forall i :: 0 <= i < |current| ==> '\n' !in current[i]
    ensures var intended := Outcome(configured, raw, current, timestamp);
      OutcomeAsWritten(configured, raw, current, timestamp) == if intended.Updated? then ServerError else intended
  {
    if raw.Some? {
      AsWrittenAgrees(raw.value);
    }
    ExistingAgree(current);
  }

  /**
   * A field holding the block rule of a domain with a line break before its
   * `^` is refused with a 400 by the corrected handler but reaches line 99 as
   * written, and gets a 500.
   */
  lemma NewlineFieldReachesTime(d: string, timestamp: string)
    requires IsDomain(d) && !StartsWith(d, "www.")
    ensures Outcome(true, Some(BlockRule(d + "\n")), [], timestamp) == InvalidDomain(BlockRule(d + "\n"))
    ensures OutcomeAsWritten(true, Some(BlockRule(d + "\n")), [], timestamp) == ServerError
  {
    AsWrittenKeepsNewline(d);
    assert BlockRule(d + "\n")[0] == '|';
  }

  /** Every domain read from a file is a domain of the pattern. */
  lemma ExistingAreDomains(lines: seq<string>)
    ensures forall d :: d in Existing(lines) ==> IsDomain(d)
  {
    forall d | d in Existing(lines) ensures IsDomain(d) {
      ExistingMeans(lines, d);
      var i :| 0 <= i < |lines| && Normalize(lines[i]) == Some(d);
      NormalizedIsDomain(lines[i]);
    }
  }

  /** A domain is reported as present exactly when some line of the file normalizes to it. */
  lemma AlreadyListedMeans(configured: bool, raw: Option<string>, current: seq<string>, timestamp: string)
    requires configured && raw.Some? && raw.value != ""
    ensures Outcome(configured, raw, current, timestamp).AlreadyListed? <==>
      Normalize(raw.value).Some? && exists i :: 0 <= i < |current| && Normalize(current[i]) == Normalize(raw.value)
  {
    var n := Normalize(raw.value);
    if n.Some? {
      NormalizedIsDomain(raw.value);
      ExistingMeans(current, n.value);
      OutcomeListed(configured, raw, current, timestamp);
    }
  }

  lemma OutcomeListed(configured: bool, raw: Option<string>, current: seq<string>, timestamp: string)
    requires configured && raw.Some? && raw.value != "" && Normalize(raw.value).Some?
    ensures Outcome(configured, raw, current, timestamp).AlreadyListed? <==> Normalize(raw.value).value in Existing(current)
  {
  }

  /**
   * A rewritten file holds the header, then the old domains and the new one,
   * each once, in ascending order; the new domain was not there before.
   */
  lemma UpdatedFile(configured: bool, raw: Option<string>, current: seq<string>, timestamp: string)
    requires Outcome(configured, raw, current, timestamp).Updated?
    ensures var r := Outcome(configured, raw, current, timestamp);
      raw.Some? && Normalize(raw.value) == Some(r.domain) && IsDomain(r.domain)
      && r.domain !in Existing(current)
      && |r.lines| == 3 + |Existing(current)| + 1
      && r.lines[..3] == Header(timestamp)
      && SortedOf(Plain, r.lines[3..], Existing(current) + {r.domain})
  {
    var r := Outcome(configured, raw, current, timestamp);
    UpdatedParts(configured, raw, current, timestamp);
    assert IsDomain(r.domain) by {
      NormalizedIsDomain(raw.value);
    }
    HeadedSorted(Plain, Header(timestamp), Existing(current) + {r.domain});
  }

  lemma UpdatedParts(configured: bool, raw: Option<string>, current: seq<string>, timestamp: string)
    requires Outcome(configured, raw, current, timestamp).Updated?
    ensures var r := Outcome(configured, raw, current, timestamp);
      raw.Some? && Normalize(raw.value) == Some(r.domain) && r.domain !in Existing(current)
      && r.lines == Header(timestamp) + SortedList(Plain, Existing(current) + {r.domain})
  {
  }

  /** No domain starts with `www.`: the case where reading a written file gives its domains back. */
  ghost predicate NoWww(domains: set<string>) {
    forall d :: d in domains ==> !StartsWith(d, "www.")
  }

  /** The header the handler writes contributes no domain when the file is read again. */
  lemma HeaderHasNoDomain(timestamp: string)
    ensures Existing(Header(timestamp)) == {}
  {
    var h := Header(timestamp);
    BangLine(h[0]);
    BangLine(h[1]);
    BlankLineRejected(h[2]);
    assert forall i :: 0 <= i < |h| ==> Normalize(h[i]) == None by {
      forall i | 0 <= i < |h| ensures Normalize(h[i]) == None {
        assert i == 0 || i == 1 || i == 2;
      }
    }
    CollectedNothing(Normalize, h);
  }

  /** A line starting with `!`, like the first two of the header, normalizes to nothing. */
  lemma BangLine(line: string)
    requires line != [] && line[0] == '!'
    ensures Normalize(line) == None
  {
    StripFront(line);
    CommentLineRejected(line);
  }

  /** Reading a rewritten file gives back exactly the domains it was written from. */
  lemma RereadRewritten(domains: set<string>, timestamp: string)
    requires forall d :: d in domains ==> IsDomain(d)
    requires NoWww(domains)
    ensures Existing(Rewritten(domains, timestamp)) == domains
  {
    SortedReread(domains);
    HeaderHasNoDomain(timestamp);
    IgnoredPrefix(Normalize, Header(timestamp), SortedList(Plain, domains));
  }

  /** The domain lines alone give the set back. */
  lemma SortedReread(domains: set<string>)
    requires forall d :: d in domains ==> IsDomain(d)
    requires NoWww(domains)
    ensures Collected(Normalize, SortedList(Plain, domains)) == domains
  {
    var sorted := SortedList(Plain, domains);
    forall i | 0 <= i < |sorted| ensures Normalize(sorted[i]) == Some(sorted[i]) && sorted[i] != [] {
      assert sorted[i] in domains;
      DomainIsFixedPoint(sorted[i]);
      DomainShape(sorted[i]);
    }
    CollectedFixedPoints(Normalize, sorted);
  }

  /**
   * Adding a domain and reading the file back gives the old domains plus the
   * new one, unless a `www.` domain gets stripped again on the way.
   */
  lemma UpdateThenReread(configured: bool, raw: Option<string>, current: seq<string>, timestamp: string)
    requires Outcome(configured, raw, current, timestamp).Updated?
    requires NoWww(Existing(current) + {Outcome(configured, raw, current, timestamp).domain})
    ensures var r := Outcome(configured, raw, current, timestamp);
      Existing(r.lines) == Existing(current) + {r.domain}
  {
    var r := Outcome(configured, raw, current, timestamp);
    UpdatedParts(configured, raw, current, timestamp);
    var all := Existing(current) + {r.domain};
    assert forall d :: d in all ==> IsDomain(d) by {
      ExistingAreDomains(current);
      NormalizedIsDomain(raw.value);
    }
    RereadRewritten(all, timestamp);
  }
}
