/**
 * scripts/gerar.py: read a whitelist and a consolidated block list, keep the
 * `||d^` domains that are not whitelisted, and drop every domain that is a
 * subdomain of one already kept, walking the domains sorted by their reversed
 * text so that a parent always comes before its subdomains. Reading and
 * writing the files is not modelled: the lines of the whitelist (none when
 * the file does not exist) and of the consolidated list are parameters, and
 * the lines of `blocklists/final.txt` are the result.
 */
module FinalBlocklist {
  import opened Wrappers
  import opened PyStr
  import opened Ordering
  import opened RuleSyntax
  import opened Folds

  /** Line 11: a non-blank line gives its trimmed, lower-cased text. */
  function Listed(line: string): Option<string> {
    if Strip(line) != [] then Some(Lower(Strip(line))) else None
  }

  /** Lines 8-11: the whitelist, empty when the file does not exist. */
  function Whitelist(file: Option<seq<string>>): set<string> {
    if file.None? then {} else Gathered(Listed, file.value)
  }

  /** An entry is whitelisted exactly when some non-blank line trims and lower-cases to it. */
  lemma WhitelistMeans(file: Option<seq<string>>, w: string)
    ensures w in Whitelist(file) <==>
      file.Some? && exists i :: 0 <= i < |file.value| && Strip(file.value[i]) != [] && Lower(Strip(file.value[i])) == w
  {
    if file.Some? {
      GatheredMeans(Listed, file.value, w);
    }
  }

  /** No whitelist entry is empty. */
  lemma WhitelistNonEmpty(file: Option<seq<string>>, w: string)
    requires w in Whitelist(file)
    ensures w != []
  {
    WhitelistMeans(file, w);
  }

  /** Lines 18-20: the lower-cased interior of a trimmed `||d^` line. */
  function RuleDomain(line: string): Option<string> {
    var t := Strip(line);
    RuleLengths(t);
    if IsBlockRule(t) then Some(Lower(t[2..|t| - 1])) else None
  }

  /** Lines 15-22: the rule domains of the input that are not whitelisted, by exact match. */
  function Domains(whitelist: set<string>, lines: seq<string>): set<string> {
    Gathered(RuleDomain, lines) - whitelist
  }

  /** A domain is kept exactly when some line is a rule for it and it is not itself whitelisted. */
  lemma DomainsMeans(whitelist: set<string>, lines: seq<string>, d: string)
    ensures d in Domains(whitelist, lines) <==>
      d !in whitelist && exists i :: 0 <= i < |lines| && RuleDomain(lines[i]) == Some(d)
  {
    GatheredMeans(RuleDomain, lines, d);
  }

  /** Lines 15-22: the loop that collects the domains. */
  method ReadBlocklist(whitelist: set<string>, lines: seq<string>) returns (domains: set<string>)
    ensures domains == Domains(whitelist, lines)
  {
    domains := {};
    var i := 0;
    while i < |lines|
      invariant 0 <= i <= |lines|
      invariant domains == Domains(whitelist, lines[..i])
    {
      DomainsStep(whitelist, lines, i);
      domains := AddRuleDomain(domains, whitelist, lines[i]);
      i := i + 1;
    }
    assert lines[..i] == lines;
  }

  /** Lines 18-22: one turn of that loop. */
  method AddRuleDomain(domains: set<string>, whitelist: set<string>, line: string) returns (r: set<string>)
    ensures var n := RuleDomain(line);
      r == domains + if n.Some? && n.value !in whitelist then {n.value} else {}
  {
    var t := Strip(line);
    RuleLengths(t);
    r := domains;
    if IsBlockRule(t) {
      var domain := Lower(t[2..|t| - 1]);
      if domain !in whitelist {
        r := domains + {domain};
      }
    }
  }

  lemma DomainsStep(whitelist: set<string>, lines: seq<string>, i: nat)
    requires i < |lines|
    ensures var n := RuleDomain(lines[i]);
      Domains(whitelist, lines[..i + 1]) ==
      Domains(whitelist, lines[..i]) + if n.Some? && n.value !in whitelist then {n.value} else {}
  {
    GatheredNext(RuleDomain, lines, i);
  }

  /** Text that trimming and lower-casing leave alone. */
  predicate Bare(d: string) {
    d != [] && forall i :: 0 <= i < |d| ==> !IsSpace(d[i]) && !IsUpper(d[i])
  }

  /** A `||d^` line gives `d` when `d` has no whitespace and no capitals. */
  lemma RuleLineDomain(d: string)
    requires Bare(d)
    ensures RuleDomain(BlockRule(d)) == Some(d)
  {
    var t := BlockRule(d);
    forall i | 0 <= i < |t| ensures !IsSpace(t[i]) {
      if 2 <= i < |t| - 1 {
        assert t[i] == d[i - 2];
      }
    }
    StripUnchanged(t);
    assert t[..2] == "||" && t[|t| - 1..] == "^";
    assert t[2..|t| - 1] == d;
    LowerUnchanged(d);
  }

  /** A `www.` prefix is kept: the domain is not canonicalised beyond trimming and lower-casing. */
  lemma WwwKept(d: string)
    requires Bare(d)
    ensures RuleDomain(BlockRule("www." + d)) == Some("www." + d)
  {
    var w := "www." + d;
    forall i | 0 <= i < |w| ensures !IsSpace(w[i]) && !IsUpper(w[i]) {
      if i >= 4 {
        assert w[i] == d[i - 4];
      }
    }
    RuleLineDomain(w);
  }

  /** Line 28. */
  predicate IsSub(sub: string, dom: string) {
    sub != dom && EndsWith(sub, "." + dom)
  }

  lemma IsSubIrreflexive(d: string)
    ensures !IsSub(d, d)
  {
  }

  /** A subdomain is longer than its parent, by the dot and at least the parent itself. */
  lemma IsSubLonger(sub: string, dom: string)
    requires IsSub(sub, dom)
    ensures |sub| > |dom| && forall j :: 0 <= j < |dom| ==> sub[|sub| - |dom| + j] == dom[j]
  {
    var s := sub[|sub| - |dom| - 1..];
    forall j | 0 <= j < |dom| ensures sub[|sub| - |dom| + j] == dom[j] {
      assert s[j + 1] == ("." + dom)[j + 1];
    }
  }

  lemma IsSubTransitive(a: string, b: string, c: string)
    requires IsSub(a, b) && IsSub(b, c)
    ensures IsSub(a, c)
  {
    IsSubLonger(a, b);
    IsSubLonger(b, c);
    var p := "." + c;
    var t := a[|a| - |p|..];
    forall k | 0 <= k < |p| ensures t[k] == p[k] {
      assert t[k] == a[|a| - |b| + (|b| - |p| + k)];
      assert b[|b| - |p|..][k] == p[k];
    }
    assert t == p;
  }

  /** Line 31: a parent sorts strictly before its subdomains when the keys are the reversed texts. */
  lemma IsSubBefore(sub: string, dom: string)
    requires IsSub(sub, dom)
    ensures Before(Reversed, dom, sub)
  {
    IsSubLonger(sub, dom);
    var rs, rd := Reverse(sub), Reverse(dom);
    forall i | 0 <= i < |rd| ensures rs[i] == rd[i] {
      assert rs[i] == sub[|sub| - |dom| + (|dom| - 1 - i)];
    }
    assert rs[..|rd|] == rd;
    PrefixLess(rd, rs);
  }

  /** Lines 32-36 read as a definition: each domain in turn is kept unless it is a subdomain of one kept before. */
  function Reduced(sorted: seq<string>): (result: seq<string>)
    ensures |result| <= |sorted|
  {
    if sorted == [] then []
    else
      var kept := Reduced(sorted[..|sorted| - 1]);
      var d := sorted[|sorted| - 1];
      if Covered(d, kept) then kept else kept + [d]
  }

  /** Line 35: `any(is_sub(domain, d) for d in result)`. */
  predicate Covered(d: string, result: seq<string>) {
    exists i :: 0 <= i < |result| && IsSub(d, result[i])
  }

  /** Lines 31-36: the loop that builds `result`. */
  method RemoveRedundant(sorted: seq<string>) returns (result: seq<string>)
    ensures result == Reduced(sorted)
  {
    result := [];
    var n := 0;
    while n < |sorted|
      invariant 0 <= n <= |sorted|
      invariant result == Reduced(sorted[..n])
    {
      var domain := sorted[n];
      var covered := AnySub(domain, result);
      assert sorted[..n + 1][..n] == sorted[..n];
      if !covered {
        result := result + [domain];
      }
      n := n + 1;
    }
    assert sorted[..n] == sorted;
  }

  /** Line 35: the scan over `result`. */
  method AnySub(domain: string, result: seq<string>) returns (found: bool)
    ensures found <==> Covered(domain, result)
  {
    found := false;
    var k := 0;
    while k < |result| && !found
      invariant 0 <= k <= |result|
      invariant found <==> exists i :: 0 <= i < k && IsSub(domain, result[i])
    {
      found := domain != result[k] && EndsWith(domain, "." + result[k]);
      k := k + 1;
    }
  }

  /** The result keeps only input domains. */
  lemma {:induction false} ReducedFrom(sorted: seq<string>)
    ensures forall d :: d in Reduced(sorted) ==> d in sorted
    decreases |sorted|
  {
    if sorted != [] {
      var init := sorted[..|sorted| - 1];
      ReducedFrom(init);
      forall d | d in Reduced(init) ensures d in sorted {
        var i :| 0 <= i < |init| && init[i] == d;
        assert sorted[i] == d;
      }
    }
  }

  /** On ascending input the result is ascending too, and so holds each domain once. */
  lemma {:induction false} ReducedAscending(sorted: seq<string>)
    requires Ascending(Reversed, sorted)
    ensures Ascending(Reversed, Reduced(sorted))
    decreases |sorted|
  {
    if sorted != [] {
      var init := sorted[..|sorted| - 1];
      var d := sorted[|sorted| - 1];
      var kept := Reduced(init);
      ReducedAscending(init);
      ReducedFrom(init);
      if !Covered(d, kept) {
        forall j | 0 <= j < |kept| ensures Before(Reversed, kept[j], d) {
          assert kept[j] in kept;
          var i :| 0 <= i < |init| && init[i] == kept[j];
          assert sorted[i] == init[i];
        }
        AppendAscending(Reversed, kept, d);
      }
    }
  }

  lemma AppendAscending(k: SortKey, s: seq<string>, x: string)
    requires Ascending(k, s) && forall j :: 0 <= j < |s| ==> Before(k, s[j], x)
    ensures Ascending(k, s + [x])
  {
  }

  /** No element of `r` is a subdomain of another. */
  predicate Independent(r: seq<string>) {
    forall i, j :: 0 <= i < |r| && 0 <= j < |r| ==> !IsSub(r[i], r[j])
  }

  /**
   * Lines 34-36 on input sorted by reversed text: no kept domain is a
   * subdomain of another kept domain.
   */
  lemma {:induction false} ReducedIndependent(sorted: seq<string>)
    requires Ascending(Reversed, sorted)
    ensures Independent(Reduced(sorted))
    decreases |sorted|
  {
    if sorted != [] {
      var init := sorted[..|sorted| - 1];
      var d := sorted[|sorted| - 1];
      var kept := Reduced(init);
      ReducedIndependent(init);
      ReducedFrom(init);
      if !Covered(d, kept) {
        var r := kept + [d];
        forall i, j | 0 <= i < |r| && 0 <= j < |r| ensures !IsSub(r[i], r[j]) {
          if i < |kept| && j == |kept| {
            assert r[i] == kept[i] && r[j] == d;
            assert kept[i] in kept;
            var m :| 0 <= m < |init| && init[m] == kept[i];
            assert sorted[m] == init[m];
            if IsSub(kept[i], d) {
              IsSubBefore(kept[i], d);
              BeforeAsymmetric(Reversed, d, kept[i]);
            }
          } else if i == |kept| && j == |kept| {
            IsSubIrreflexive(d);
          } else if i == |kept| {
            assert r[i] == d && r[j] == kept[j];
            assert !IsSub(d, kept[j]);
          } else {
            assert r[i] == kept[i] && r[j] == kept[j];
          }
        }
      }
    }
  }

  /** Lines 34-36: every input domain is kept or is a subdomain of a kept one. */
  lemma {:induction false} ReducedCovers(sorted: seq<string>)
    ensures var r := Reduced(sorted);
      forall d :: d in sorted ==> d in r || Covered(d, r)
    decreases |sorted|
  {
    if sorted != [] {
      var init := sorted[..|sorted| - 1];
      var kept := Reduced(init);
      ReducedCovers(init);
      var r := Reduced(sorted);
      assert r[..|kept|] == kept;
      forall d | d in sorted ensures d in r || Covered(d, r) {
        var k :| 0 <= k < |sorted| && sorted[k] == d;
        if k < |init| {
          assert init[k] == d;
          assert d in init;
          if d in kept {
            var i :| 0 <= i < |kept| && kept[i] == d;
            assert r[i] == d;
          } else {
            var i :| 0 <= i < |kept| && IsSub(d, kept[i]);
            assert IsSub(d, r[i]);
          }
        } else if Covered(d, kept) {
          var i :| 0 <= i < |kept| && IsSub(d, kept[i]);
          assert IsSub(d, r[i]);
        } else {
          assert r[|kept|] == d;
        }
      }
    }
  }

  /**
   * Without the sort the loop can keep both a domain and its parent: a
   * subdomain met first is kept, and so is its parent after it.
   */
  lemma UnsortedKeepsBoth(sub: string, dom: string)
    requires IsSub(sub, dom)
    ensures Reduced([sub, dom]) == [sub, dom]
  {
    IsSubLonger(sub, dom);
    var s := [sub, dom];
    assert s[..1] == [sub];
    assert [sub][..0] == [];
    assert Reduced([sub]) == [sub];
    assert !IsSub(dom, sub);
  }

  /** The domains written to the final list. */
  ghost function FinalDomains(whitelistFile: Option<seq<string>>, input: seq<string>): seq<string> {
    Reduced(SortedList(Reversed, Domains(Whitelist(whitelistFile), input)))
  }

  /**
   * The final list is a minimal cover of the kept domains: each is listed
   * or is a subdomain of a listed one, nothing listed is a subdomain of
   * anything else listed, and each listed domain appears once.
   */
  lemma FinalIsMinimalCover(whitelistFile: Option<seq<string>>, input: seq<string>)
    ensures var ds := Domains(Whitelist(whitelistFile), input);
      var r := FinalDomains(whitelistFile, input);
      (forall d :: d in r ==> d in ds)
      && (forall d :: d in ds ==> d in r || Covered(d, r))
      && (forall i, j :: 0 <= i < |r| && 0 <= j < |r| ==> !IsSub(r[i], r[j]))
      && (forall i, j :: 0 <= i < j < |r| ==> r[i] != r[j])
  {
    var ds := Domains(Whitelist(whitelistFile), input);
    var sorted := SortedList(Reversed, ds);
    ReducedFrom(sorted);
    ReducedCovers(sorted);
    ReducedIndependent(sorted);
    ReducedAscending(sorted);
    AscendingDistinct(Reversed, Reduced(sorted));
  }

  /** A whitelisted parent does not exempt its subdomains: the match is exact. */
  lemma ParentDoesNotExempt(whitelistFile: Option<seq<string>>, sub: string, dom: string)
    requires IsSub(sub, dom) && Bare(sub)
    requires sub !in Whitelist(whitelistFile)
    ensures sub in Domains(Whitelist(whitelistFile), [BlockRule(sub)])
  {
    RuleLineDomain(sub);
    DomainsMeans(Whitelist(whitelistFile), [BlockRule(sub)], sub);
  }

  /** Lines 40-42: one `||d^` line per domain of `result`, in order. */
  method WriteFinal(result: seq<string>) returns (out: seq<string>)
    ensures out == RuleLines(result)
  {
    out := [];
    var n := 0;
    while n < |result|
      invariant 0 <= n <= |result|
      invariant out == RuleLines(result[..n])
    {
      RuleLinesStep(result, n);
      out := out + [BlockRule(result[n])];
      n := n + 1;
    }
    assert result[..n] == result;
  }

  /** The whole script: the lines of the final list. */
  method Gerar(whitelistFile: Option<seq<string>>, input: seq<string>) returns (out: seq<string>)
    ensures out == RuleLines(FinalDomains(whitelistFile, input))
  {
    var whitelist := Whitelist(whitelistFile);
    var domains := ReadBlocklist(whitelist, input);
    var sorted := Sort(Reversed, domains);
    var result := RemoveRedundant(sorted);
    out := WriteFinal(result);
  }
}
