/**
 * generate_combined_list.py: the manifest of block-list URLs and the file
 * name each download is saved under, the whitelist, the order-sensitive
 * filter `extract_and_add_domain` over the downloaded and the custom block
 * lists, and the combined list it writes. Downloads, directory listings and
 * the clock are not modelled: the contents of the files, in the order the
 * directory listing gives them, and the time stamp are parameters.
 */
module CombinedList {
  import opened Wrappers
  import opened PyStr
  import opened Ordering
  import opened RuleSyntax
  import opened Folds

  /**
   * Line 34: a manifest line gives its trimmed text when that is not empty
   * and the raw line does not start with `#`.
   */
  function UrlOf(line: string): Option<string> {
    if Strip(line) != [] && !StartsWith(line, "#") then Some(Strip(line)) else None
  }

  /** Line 34: the trimmed URL lines, in manifest order. */
  function ManifestUrls(lines: seq<string>): (urls: seq<string>)
    ensures |urls| <= |lines|
  {
    Kept(UrlOf, lines)
  }

  /** A URL is downloaded exactly when some manifest line is not a comment and trims to it. */
  lemma ManifestUrlsMeans(lines: seq<string>, u: string)
    ensures u in ManifestUrls(lines) <==>
      exists i :: 0 <= i < |lines| && Strip(lines[i]) == u && u != [] && !StartsWith(lines[i], "#")
  {
    KeptMeans(UrlOf, lines, u);
  }

  /**
   * Only the raw line's first character is checked, so a comment indented
   * by whitespace is taken for a URL, and its `#` is kept.
   */
  lemma IndentedCommentKept(ws: string, text: string)
    requires ws != [] && forall i :: 0 <= i < |ws| ==> IsSpace(ws[i])
    requires text != [] && text[0] == '#' && !IsSpace(text[|text| - 1])
    ensures ManifestUrls([ws + text]) == [text]
  {
    var line := ws + text;
    StripLeadingSpace(ws, text);
    assert line[..1] == [ws[0]];
    var lines: seq<string> := [line];
    assert lines[..0] == [];
  }

  /** `os.path.basename`: the text after the last `/`. */
  function Basename(p: string): (b: string)
    ensures '/' !in b
    ensures |b| <= |p| && b == p[|p| - |b|..]
  {
    var i := RFind(p, '/') + 1;
    assert forall k :: 0 <= k < |p| - i ==> p[i..][k] == p[i + k];
    p[i..]
  }

  /** Lines 37-39: the file a URL is downloaded to, the query cut off and `.txt` added when missing. */
  function DestinationName(url: string): (name: string)
    ensures EndsWith(name, ".txt") && '/' !in name && '?' !in name
  {
    var path := Split(url, '?')[0];
    var base := Basename(path);
    assert forall c :: c in base ==> c in path by {
      forall c | c in base ensures c in path {
        var k :| 0 <= k < |base| && base[k] == c;
        assert path[|path| - |base| + k] == c;
      }
    }
    if EndsWith(base, ".txt") then base
    else
      var name := base + ".txt";
      assert name[|name| - 4..] == ".txt";
      name
  }

  /** The last segment of a path that ends in a segment without `/`. */
  lemma LastSegment(dir: string, file: string)
    requires '/' !in file
    ensures Basename(dir + "/" + file) == file
  {
    var path := dir + "/" + file;
    assert path[|dir| + 1..] == file;
    RFindAt(path, '/', |dir|);
  }

  /**
   * A URL whose last path segment already ends in `.txt` is saved under that
   * segment, whatever query follows it.
   */
  lemma TxtFileKeepsItsName(dir: string, file: string, query: string)
    requires '?' !in dir && '/' !in file && '?' !in file && EndsWith(file, ".txt")
    requires query == [] || query[0] == '?'
    ensures DestinationName(dir + "/" + file + query) == file
  {
    var path := dir + "/" + file;
    var url := path + query;
    assert '?' !in path;
    assert forall k :: 0 <= k < |path| ==> url[k] == path[k] && url[k] in path;
    FindAt(url, {'?'}, |path|);
    assert url[..|path|] == path;
    assert Split(url, '?')[0] == path;
    LastSegment(dir, file);
  }

  /** Any other segment gets `.txt` appended. */
  lemma OtherFileGetsTxt(dir: string, file: string)
    requires '?' !in dir && '/' !in file && '?' !in file && !EndsWith(file, ".txt")
    ensures DestinationName(dir + "/" + file) == file + ".txt"
  {
    var path := dir + "/" + file;
    assert '?' !in path;
    assert forall k :: 0 <= k < |path| ==> path[k] in path;
    FindAt(path, {'?'}, |path|);
    LastSegment(dir, file);
  }

  /** Lines 50-55: what a whitelist line contributes, `||d^` being stored as `d` and anything else as it is. */
  function WhitelistEntry(line: string): Option<string> {
    Entry(Lower(Strip(line)))
  }

  /** Lines 51-54 on the trimmed, lower-cased line. */
  function Entry(d: string): Option<string> {
    RuleLengths(d);
    if d == [] || StartsWith(d, "#") then None
    else if IsBlockRule(d) then Some(d[2..|d| - 1])
    else Some(d)
  }

  /** Line 51: a line gives no entry exactly when it is blank or a `#` comment once trimmed and lower-cased. */
  lemma NoEntry(line: string)
    ensures WhitelistEntry(line).None? <==> Lower(Strip(line)) == [] || StartsWith(Lower(Strip(line)), "#")
  {
    EntryNone(Lower(Strip(line)));
  }

  lemma EntryNone(d: string)
    ensures Entry(d).None? <==> d == [] || StartsWith(d, "#")
  {
  }

  /** Lines 45-55: the whitelist the files' lines give. */
  function WhitelistOf(lines: seq<string>): set<string> {
    Gathered(WhitelistEntry, lines)
  }

  /** An entry is in the whitelist exactly when some line gives it. */
  lemma WhitelistOfMeans(lines: seq<string>, d: string)
    ensures d in WhitelistOf(lines) <==> exists i :: 0 <= i < |lines| && WhitelistEntry(lines[i]) == Some(d)
  {
    GatheredMeans(WhitelistEntry, lines, d);
  }

  /** The whitelist does not depend on the order the directory listing gives the files in. */
  lemma WhitelistAnyOrder(files: seq<seq<string>>, shuffled: seq<seq<string>>)
    requires multiset(Concat(files)) == multiset(Concat(shuffled))
    ensures WhitelistOf(Concat(files)) == WhitelistOf(Concat(shuffled))
  {
    GatheredAnyOrder(WhitelistEntry, Concat(files), Concat(shuffled));
  }

  /** A whitelisted block rule is stored as its domain. */
  lemma WhitelistedRule(d: string)
    requires Bare(d)
    ensures WhitelistEntry(BlockRule(d)) == Some(d)
  {
    PlainWrapped("||", d);
    EntryOfRule(d);
  }

  lemma EntryOfRule(d: string)
    ensures Entry(BlockRule(d)) == Some(d)
  {
    var t := BlockRule(d);
    assert t[..2] == "||" && t[|t| - 1..] == "^";
    assert t[..1] == "|";
    assert t[2..|t| - 1] == d;
  }

  /** Lines 74-78: the text that is never added to the block list. */
  predicate Skipped(d: string) {
    d == [] || StartsWith(d, "#") || StartsWith(d, "!") || StartsWith(d, "/")
    || StartsWith(d, "127.0.0.1") || StartsWith(d, "0.0.0.0") || '.' !in d || ' ' in d
  }

  /** What a block-list line says: exempt a domain, block a domain, or nothing. */
  datatype Kind = Exempt(domain: string) | Block(domain: string) | Ignore

  /** Lines 73-78 applied to the text left after unwrapping. */
  function Filter(d: string): Kind {
    if Skipped(d) then Ignore else Block(d)
  }

  /** Lines 62-78: trim and lower-case, then unwrap and filter. */
  function Classify(line: string): Kind {
    Unwrap(Lower(Strip(line)))
  }

  /** Lines 65-78: unwrap `||d^` and filter `d`, unwrap `@@||d^` to an exemption, or filter the text as it is. */
  function Unwrap(d: string): Kind {
    RuleLengths(d);
    if IsBlockRule(d) then Filter(d[2..|d| - 1])
    else if IsAllowRule(d) then Exempt(d[4..|d| - 1])
    else Filter(d)
  }

  /** A line only ever asks to block text the filter lets through. */
  lemma ClassifyPasses(line: string)
    ensures Classify(line).Block? ==> !Skipped(Classify(line).domain)
  {
    UnwrapPasses(Lower(Strip(line)));
  }

  lemma UnwrapPasses(d: string)
    ensures Unwrap(d).Block? ==> !Skipped(Unwrap(d).domain)
  {
  }

  /** The two sets the filter updates: the exemptions and the domains to block. */
  datatype Lists = Lists(whitelist: set<string>, combined: set<string>)

  /** Lines 69-82: the effect of what a line says. `check` is `is_whitelist_check`. */
  function Apply(s: Lists, k: Kind, check: bool): Lists {
    match k
    case Exempt(d) => if check then Lists(s.whitelist + {d}, s.combined) else s
    case Block(d) => if d in s.whitelist then s else Lists(s.whitelist, s.combined + {d})
    case Ignore => s
  }

  /** Lines 61-82: one line's effect. */
  function Process(s: Lists, line: string, check: bool): Lists {
    Apply(s, Classify(line), check)
  }

  function Step(check: bool): (Lists, string) -> Lists {
    (t: Lists, line: string) => Process(t, line, check)
  }

  /** The lines processed in order. */
  function ProcessAll(s: Lists, lines: seq<string>, check: bool): Lists {
    Fold(Step(check), s, lines)
  }

  /** Only an exemption read with `check` changes the whitelist, and only by its domain. */
  lemma ApplyWhitelist(s: Lists, k: Kind, check: bool)
    ensures Apply(s, k, check).whitelist == if check && k.Exempt? then s.whitelist + {k.domain} else s.whitelist
  {
  }

  /** Only a block of a domain not exempt at that moment changes the block list, and only by that domain. */
  lemma ApplyCombined(s: Lists, k: Kind, check: bool)
    ensures Apply(s, k, check).combined ==
      if k.Block? && k.domain !in s.whitelist then s.combined + {k.domain} else s.combined
  {
  }

  /** An `@@||d^` line never adds to the block list; it exempts `d` from then on when `check` holds, and does nothing otherwise. */
  lemma ExemptNeverBlocked(s: Lists, line: string, check: bool)
    requires Classify(line).Exempt?
    ensures Process(s, line, check).combined == s.combined
    ensures Process(s, line, check).whitelist == if check then s.whitelist + {Classify(line).domain} else s.whitelist
  {
    ApplyWhitelist(s, Classify(line), check);
    ApplyCombined(s, Classify(line), check);
  }

  /** A line adds at most its own domain, and only one that passes the filter and is not exempt at that moment. */
  lemma ProcessAdds(s: Lists, line: string, check: bool, d: string)
    requires d in Process(s, line, check).combined && d !in s.combined
    ensures Classify(line) == Block(d) && d !in s.whitelist && !Skipped(d)
  {
    ApplyCombined(s, Classify(line), check);
    ClassifyPasses(line);
  }

  /** Lines 74-78: text the filter skips is never added, whether bare or wrapped in `||^`. */
  lemma SkippedNeverAdded(s: Lists, line: string, check: bool)
    requires SkippedText(Lower(Strip(line)))
    ensures Process(s, line, check) == s
  {
    UnwrapSkipped(Lower(Strip(line)));
  }

  /** Trimmed, lower-cased text the filter skips, bare or inside `||^`. */
  predicate SkippedText(d: string) {
    if IsBlockRule(d) then |d| >= 3 && Skipped(d[2..|d| - 1]) else !IsAllowRule(d) && Skipped(d)
  }

  lemma UnwrapSkipped(d: string)
    requires SkippedText(d)
    ensures Unwrap(d) == Ignore
  {
  }

  /** A property every kind of line keeps is kept by every line. */
  lemma StepKeeps(inv: Lists -> bool, check: bool)
    requires forall t, k :: inv(t) ==> inv(Apply(t, k, check))
    ensures forall t, line :: inv(t) ==> inv(Step(check)(t, line))
  {
    forall t, line | inv(t) ensures inv(Step(check)(t, line)) {
      var k := Classify(line);
      assert Step(check)(t, line) == Apply(t, k, check);
    }
  }

  /** Lines 55, 70 and 82: both sets only grow. */
  lemma Grows(s: Lists, lines: seq<string>, check: bool)
    ensures s.whitelist <= ProcessAll(s, lines, check).whitelist
    ensures s.combined <= ProcessAll(s, lines, check).combined
  {
    var inv := (t: Lists) => s.whitelist <= t.whitelist && s.combined <= t.combined;
    forall t, k | inv(t) ensures inv(Apply(t, k, check)) {
      ApplyWhitelist(t, k, check);
      ApplyCombined(t, k, check);
    }
    StepKeeps(inv, check);
    FoldKeeps(Step(check), inv, s, lines);
  }

  /** A domain exempt before the lines are read, and not yet blocked, is never blocked by them. */
  lemma ExemptStaysOut(s: Lists, lines: seq<string>, check: bool, d: string)
    requires d in s.whitelist && d !in s.combined
    ensures d !in ProcessAll(s, lines, check).combined
  {
    var inv := (t: Lists) => d in t.whitelist && d !in t.combined;
    forall t, k | inv(t) ensures inv(Apply(t, k, check)) {
      ApplyWhitelist(t, k, check);
      ApplyCombined(t, k, check);
    }
    StepKeeps(inv, check);
    FoldKeeps(Step(check), inv, s, lines);
  }

  /** Every blocked domain passed the filter. */
  lemma BlockedPassFilter(s: Lists, lines: seq<string>, check: bool)
    requires forall d :: d in s.combined ==> !Skipped(d)
    ensures forall d :: d in ProcessAll(s, lines, check).combined ==> !Skipped(d)
  {
    var inv := (t: Lists) => forall d :: d in t.combined ==> !Skipped(d);
    forall t, line | inv(t) ensures inv(Step(check)(t, line)) {
      var k := Classify(line);
      ClassifyPasses(line);
      PassesKept(t, k, check);
      assert Step(check)(t, line) == Apply(t, k, check);
    }
    FoldKeeps(Step(check), inv, s, lines);
  }

  lemma PassesKept(t: Lists, k: Kind, check: bool)
    requires forall d :: d in t.combined ==> !Skipped(d)
    requires k.Block? ==> !Skipped(k.domain)
    ensures forall d :: d in Apply(t, k, check).combined ==> !Skipped(d)
  {
    ApplyCombined(t, k, check);
  }

  /** The exemptions the lines carry, each line's own. */
  function ExemptionOf(line: string): Option<string> {
    if Classify(line).Exempt? then Some(Classify(line).domain) else None
  }

  /** With `check` the whitelist gains exactly the lines' exemptions; without it, nothing. */
  lemma {:induction false} WhitelistAfter(s: Lists, lines: seq<string>, check: bool)
    ensures ProcessAll(s, lines, check).whitelist ==
      s.whitelist + if check then Gathered(ExemptionOf, lines) else {}
    decreases |lines|
  {
    if lines != [] {
      var init := lines[..|lines| - 1];
      WhitelistAfter(s, init, check);
      ProcessLast(s, lines, check);
      ApplyWhitelist(ProcessAll(s, init, check), Classify(lines[|lines| - 1]), check);
    }
  }

  /** The last line is processed last. */
  lemma ProcessLast(s: Lists, lines: seq<string>, check: bool)
    requires lines != []
    ensures ProcessAll(s, lines, check) == Process(ProcessAll(s, lines[..|lines| - 1], check), lines[|lines| - 1], check)
  {
    FoldLast(Step(check), s, lines);
  }

  /**
   * Every line that asks to block a domain leaves it either blocked or
   * exempt: it is blocked unless an exemption came first.
   */
  lemma BlockedOrExempt(s: Lists, lines: seq<string>, check: bool, i: nat)
    requires i < |lines| && Classify(lines[i]).Block?
    ensures var r := ProcessAll(s, lines, check);
      Classify(lines[i]).domain in r.combined || Classify(lines[i]).domain in r.whitelist
  {
    var k := Classify(lines[i]);
    var inv := (t: Lists) => k.domain in t.combined || k.domain in t.whitelist;
    forall t ensures inv(Step(check)(t, lines[i])) {
      ApplyCombined(t, k, check);
      assert Step(check)(t, lines[i]) == Apply(t, k, check);
    }
    forall t, k' | inv(t) ensures inv(Apply(t, k', check)) {
      ApplyWhitelist(t, k', check);
      ApplyCombined(t, k', check);
    }
    StepKeeps(inv, check);
    FoldEstablishes(Step(check), inv, s, lines, i);
  }

  /** A domain is newly blocked only by a line that asks to block it. */
  lemma {:induction false} BlockedByALine(s: Lists, lines: seq<string>, check: bool, d: string)
    requires d in ProcessAll(s, lines, check).combined && d !in s.combined
    ensures exists i :: 0 <= i < |lines| && Classify(lines[i]) == Block(d)
    decreases |lines|
  {
    var init := lines[..|lines| - 1];
    var mid := ProcessAll(s, init, check);
    ProcessLast(s, lines, check);
    if d in mid.combined {
      BlockedByALine(s, init, check, d);
      var i :| 0 <= i < |init| && Classify(init[i]) == Block(d);
      assert lines[i] == init[i];
    } else {
      ProcessAdds(mid, lines[|lines| - 1], check, d);
    }
  }

  /** Text that trimming and lower-casing leave alone. */
  predicate Bare(d: string) {
    d != [] && forall i :: 0 <= i < |d| ==> !IsSpace(d[i]) && !IsUpper(d[i])
  }

  lemma PlainWrapped(p: string, d: string)
    requires p == "||" || p == "@@||"
    requires Bare(d)
    ensures Lower(Strip(p + d + "^")) == p + d + "^"
  {
    var t := p + d + "^";
    forall i | 0 <= i < |t| ensures !IsSpace(t[i]) && !IsUpper(t[i]) {
      if |p| <= i < |p| + |d| {
        assert t[i] == d[i - |p|];
      }
    }
    StripUnchanged(t);
    LowerUnchanged(t);
  }

  /** A `||d^` line asks to block `d` when the filter lets `d` through. */
  lemma BlockLine(d: string)
    requires Bare(d) && !Skipped(d)
    ensures Classify(BlockRule(d)) == Block(d)
  {
    PlainWrapped("||", d);
    UnwrapBlock(d);
  }

  lemma UnwrapBlock(d: string)
    ensures Unwrap(BlockRule(d)) == Filter(d)
  {
    var t := BlockRule(d);
    assert t[..2] == "||" && t[|t| - 1..] == "^";
    assert t[2..|t| - 1] == d;
  }

  /** An `@@||d^` line exempts `d`. */
  lemma AllowLine(d: string)
    requires Bare(d)
    ensures Classify("@@||" + d + "^") == Exempt(d)
  {
    PlainWrapped("@@||", d);
    UnwrapAllow(d);
  }

  lemma UnwrapAllow(d: string)
    ensures Unwrap("@@||" + d + "^") == Exempt(d)
  {
    var t := "@@||" + d + "^";
    assert t[..4] == "@@||" && t[|t| - 1..] == "^";
    assert t[0] == '@';
    assert t[4..|t| - 1] == d;
  }

  /**
   * The exemption is not retroactive: in `||a^`, `@@||a^`, `||b^` the first
   * line blocks `a` before the second exempts it, so both `a` and `b` are
   * blocked (`b` may equal `a`).
   */
  lemma NotRetroactive(a: string, b: string)
    requires Bare(a) && !Skipped(a) && Bare(b) && !Skipped(b)
    ensures var r := ProcessAll(Lists({}, {}), [BlockRule(a), "@@||" + a + "^", BlockRule(b)], true);
      r.combined == {a, b} && r.whitelist == {a}
  {
    BlockLine(a);
    AllowLine(a);
    BlockLine(b);
    Three(Lists({}, {}), BlockRule(a), "@@||" + a + "^", BlockRule(b), true);
    BlockExemptBlock(a, b);
  }

  lemma BlockExemptBlock(a: string, b: string)
    ensures Apply(Apply(Apply(Lists({}, {}), Block(a), true), Exempt(a), true), Block(b), true) == Lists({a}, {a, b})
  {
  }

  lemma Three(s: Lists, x: string, y: string, z: string, check: bool)
    ensures ProcessAll(s, [x, y, z], check) ==
      Apply(Apply(Apply(s, Classify(x), check), Classify(y), check), Classify(z), check)
  {
    FoldThree(Step(check), s, x, y, z);
  }

  /** The example of the comment above with `a.com` and `b.com`. */
  lemma NotRetroactiveExample()
    ensures ProcessAll(Lists({}, {}), ["||a.com^", "@@||a.com^", "||b.com^"], true).combined == {"a.com", "b.com"}
  {
    assert !Skipped("a.com") by {
      assert "a.com"[..1] == "a";
    }
    assert !Skipped("b.com") by {
      assert "b.com"[..1] == "b";
    }
    NotRetroactive("a.com", "b.com");
    ExampleLines();
  }

  lemma ExampleLines()
    ensures [BlockRule("a.com"), "@@||" + "a.com" + "^", BlockRule("b.com")] == ["||a.com^", "@@||a.com^", "||b.com^"]
  {
    assert BlockRule("a.com") == "||a.com^";
    assert "@@||" + "a.com" + "^" == "@@||a.com^";
    assert BlockRule("b.com") == "||b.com^";
  }

  /** Lines 100-105, the time stamp being the text of `time.strftime`. */
  function Header(timestamp: string): (h: seq<string>)
    ensures |h| == 6
  {
    ["! Title: Combined AdGuard Home Blocklist",
     "! Last Updated: " + timestamp,
     "! Expires: 1 day",
     "! Homepage: https://github.com/O_TEU_UTILIZADOR/adguard-blocklists",
     "! Version: 1.0",
     "!"]
  }

  /** Lines 99-111: the header, then one `||d^` line per blocked domain in ascending order. */
  ghost function Output(combined: set<string>, timestamp: string): seq<string> {
    Header(timestamp) + RuleLines(SortedList(Plain, combined))
  }

  /** The combined list holds the header and each blocked domain once, in ascending order. */
  lemma OutputShape(combined: set<string>, timestamp: string)
    ensures var out := Output(combined, timestamp);
      |out| == 6 + |combined| && out[..6] == Header(timestamp)
      && (forall i :: 6 <= i < |out| ==> exists d :: d in combined && out[i] == BlockRule(d))
      && (forall d :: d in combined ==> BlockRule(d) in out[6..])
  {
    var sorted := SortedList(Plain, combined);
    SortedLength(Plain, sorted, combined);
    RulesAfter(Header(timestamp), sorted, combined);
  }

  lemma RulesAfter(h: seq<string>, sorted: seq<string>, combined: set<string>)
    requires forall x :: x in sorted <==> x in combined
    ensures var out := h + RuleLines(sorted);
      out[..|h|] == h
      && (forall i :: |h| <= i < |out| ==> exists d :: d in combined && out[i] == BlockRule(d))
      && (forall d :: d in combined ==> BlockRule(d) in out[|h|..])
  {
    var out := h + RuleLines(sorted);
    assert out[|h|..] == RuleLines(sorted);
    forall i | |h| <= i < |out| ensures exists d :: d in combined && out[i] == BlockRule(d) {
      assert out[i] == BlockRule(sorted[i - |h|]);
    }
    forall d | d in combined ensures BlockRule(d) in out[|h|..] {
      var k :| 0 <= k < |sorted| && sorted[k] == d;
      assert out[|h|..][k] == BlockRule(d);
    }
  }

  /** Lines 45-55: every whitelist file, line by line, into a set that starts empty. */
  method LoadWhitelist(files: seq<seq<string>>) returns (whitelist: set<string>)
    ensures whitelist == WhitelistOf(Concat(files))
  {
    whitelist := {};
    var f := 0;
    while f < |files|
      invariant 0 <= f <= |files|
      invariant whitelist == WhitelistOf(Concat(files[..f]))
    {
      whitelist := GatherFrom(WhitelistEntry, whitelist, Concat(files[..f]), files[f]);
      ConcatStep(files, f);
      f := f + 1;
    }
    assert files[..f] == files;
  }

  /**
   * Lines 61-82: one line through the filter, `s` holding `whitelist_domains`
   * and `target_set` before the call and `r` after it.
   */
  method ExtractAndAddDomain(s: Lists, line: string, check: bool) returns (r: Lists)
    ensures r == Process(s, line, check)
  {
    r := AddDomain(s, Lower(Strip(line)), check);
  }

  /** Lines 65-82, on the trimmed, lower-cased line. */
  method AddDomain(s: Lists, text: string, check: bool) returns (r: Lists)
    ensures r == Apply(s, Unwrap(text), check)
  {
    r := s;
    var domain := text;
    RuleLengths(domain);
    if IsBlockRule(domain) {
      domain := domain[2..|domain| - 1];
    } else if IsAllowRule(domain) {
      domain := domain[4..|domain| - 1];
      if check {
        r := r.(whitelist := r.whitelist + {domain});
      }
      return;
    }
    if Skipped(domain) {
      return;
    }
    if domain !in r.whitelist {
      r := r.(combined := r.combined + {domain});
    }
  }

  /** Lines 85-96: every line of every file of one directory, in order. */
  method ProcessFiles(s: Lists, files: seq<seq<string>>, check: bool) returns (r: Lists)
    ensures r == ProcessAll(s, Concat(files), check)
  {
    r := s;
    var f := 0;
    while f < |files|
      invariant 0 <= f <= |files|
      invariant r == ProcessAll(s, Concat(files[..f]), check)
    {
      var lines := files[f];
      var j := 0;
      assert Concat(files[..f]) + lines[..j] == Concat(files[..f]);
      while j < |lines|
        invariant 0 <= j <= |lines|
        invariant r == ProcessAll(s, Concat(files[..f]) + lines[..j], check)
      {
        r := ExtractAndAddDomain(r, lines[j], check);
        FoldStep(Step(check), s, Concat(files[..f]), lines, j);
        j := j + 1;
      }
      assert lines[..j] == lines;
      ConcatStep(files, f);
      f := f + 1;
    }
    assert files[..f] == files;
  }

  /** Lines 99-111: the lines written and the count printed. */
  method WriteOutput(combined: set<string>, timestamp: string) returns (out: seq<string>, count: nat)
    ensures out == Output(combined, timestamp) && count == |combined|
  {
    var sorted := Sort(Plain, combined);
    out := Header(timestamp);
    count := 0;
    while count < |sorted|
      invariant 0 <= count <= |sorted|
      invariant out == Header(timestamp) + RuleLines(sorted[..count])
    {
      RuleLinesStep(sorted, count);
      out := out + [BlockRule(sorted[count])];
      count := count + 1;
    }
    assert sorted[..count] == sorted;
    SortedLength(Plain, sorted, combined);
  }

  /** The state after loading the whitelist and filtering the downloaded, then the custom lists. */
  function Filtered(whitelistFiles: seq<seq<string>>, downloaded: seq<seq<string>>, custom: seq<seq<string>>): Lists {
    var loaded := Lists(WhitelistOf(Concat(whitelistFiles)), {});
    ProcessAll(ProcessAll(loaded, Concat(downloaded), true), Concat(custom), false)
  }

  /** The destination of each URL, in order. */
  function Destinations(urls: seq<string>): (names: seq<string>)
    ensures |names| == |urls|
    ensures forall i :: 0 <= i < |urls| ==> names[i] == DestinationName(urls[i])
  {
    Mapped(DestinationName, urls)
  }

  /**
   * `generate_combined_list`: the files the manifest's URLs are saved to
   * (none when there is no manifest), the lines of the combined list and
   * its domain count.
   */
  method GenerateCombinedList(manifest: Option<seq<string>>, whitelistFiles: seq<seq<string>>,
                              downloaded: seq<seq<string>>, custom: seq<seq<string>>, timestamp: string)
    returns (destinations: seq<string>, out: seq<string>, count: nat)
    ensures destinations == if manifest.None? then [] else Destinations(ManifestUrls(manifest.value))
    ensures out == Output(Filtered(whitelistFiles, downloaded, custom).combined, timestamp)
    ensures count == |Filtered(whitelistFiles, downloaded, custom).combined|
  {
    destinations := [];
    if manifest.Some? {
      destinations := Download(ManifestUrls(manifest.value));
    }
    var whitelist := LoadWhitelist(whitelistFiles);
    var lists := ProcessFiles(Lists(whitelist, {}), downloaded, true);
    lists := ProcessFiles(lists, custom, false);
    out, count := WriteOutput(lists.combined, timestamp);
  }

  /** Lines 36-42: the file each URL is saved to, in order; the download itself is left out. */
  method Download(urls: seq<string>) returns (destinations: seq<string>)
    ensures destinations == Destinations(urls)
  {
    destinations := [];
    var i := 0;
    while i < |urls|
      invariant 0 <= i <= |urls|
      invariant destinations == Destinations(urls[..i])
    {
      MappedNext(DestinationName, urls, i);
      destinations := destinations + [DestinationName(urls[i])];
      i := i + 1;
    }
    assert urls[..i] == urls;
  }

  /** A domain in one of the whitelist files is never in the output. */
  lemma WhitelistedNeverOutput(whitelistFiles: seq<seq<string>>, downloaded: seq<seq<string>>, custom: seq<seq<string>>, d: string)
    requires d in WhitelistOf(Concat(whitelistFiles))
    ensures d !in Filtered(whitelistFiles, downloaded, custom).combined
  {
    var loaded := Lists(WhitelistOf(Concat(whitelistFiles)), {});
    var mid := ProcessAll(loaded, Concat(downloaded), true);
    ExemptStaysOut(loaded, Concat(downloaded), true, d);
    Grows(loaded, Concat(downloaded), true);
    ExemptStaysOut(mid, Concat(custom), false, d);
  }

  /** An exemption in a custom list has no effect: custom lists are read without `is_whitelist_check`. */
  lemma CustomExemptionIgnored(s: Lists, line: string)
    requires Classify(line).Exempt?
    ensures Process(s, line, false) == s
  {
    ApplyWhitelist(s, Classify(line), false);
    ApplyCombined(s, Classify(line), false);
  }
}
