/**
 * The rule syntaxes both copies of `clean_and_normalize_domain` take apart
 * (app.py lines 22-27, check_whitelist_duplicates.py lines 14-25, which are
 * the same code): an allow rule `@@||d^`, a block rule `||d^`, and a hosts
 * line `0.0.0.0 d` / `127.0.0.1 d`; plus the guard both apply before
 * returning, and the `||d^` form the list generators write.
 */
module RuleSyntax {
  import opened Wrappers
  import opened PyStr

  predicate IsAllowRule(d: string) {
    StartsWith(d, "@@||") && EndsWith(d, "^")
  }

  predicate IsBlockRule(d: string) {
    StartsWith(d, "||") && EndsWith(d, "^")
  }

  predicate IsHostsLine(d: string) {
    StartsWith(d, "0.0.0.0 ") || StartsWith(d, "127.0.0.1 ")
  }

  /** The wrapping of a rule never overlaps: `@@||^` and `||^` are the shortest rules. */
  lemma RuleLengths(d: string)
    ensures IsAllowRule(d) ==> |d| >= 5
    ensures IsBlockRule(d) ==> |d| >= 3
  {
    if StartsWith(d, "@@||") {
      assert d[3] == d[..4][3] == '|';
    }
    if StartsWith(d, "||") {
      assert d[1] == d[..2][1] == '|';
    }
  }

  /**
   * The `if/elif/elif` chain: unwrap an allow or block rule, keep the trimmed
   * text after the first space of a hosts line, pass anything else through.
   * `None` is the hosts branch's `return None`, taken when the split yields
   * one part.
   */
  function StripRule(d: string): Option<string> {
    RuleLengths(d);
    if IsAllowRule(d) then Some(d[4..|d| - 1])
    else if IsBlockRule(d) then Some(d[2..|d| - 1])
    else if IsHostsLine(d) then
      var parts := SplitOnce(d, ' ');
      if |parts| > 1 then Some(Strip(parts[1])) else None
    else Some(d)
  }

  /** The index of the space that ends a hosts line's address. */
  function HostsSpace(d: string): nat {
    if StartsWith(d, "0.0.0.0 ") then 7 else 9
  }

  /** The first space of a hosts line is the one after its address. */
  lemma HostsSplit(d: string)
    requires IsHostsLine(d)
    ensures HostsSpace(d) < |d| && SplitOnce(d, ' ') == [d[..HostsSpace(d)], d[HostsSpace(d) + 1..]]
  {
    var k := HostsSpace(d);
    var p := if k == 7 then "0.0.0.0 " else "127.0.0.1 ";
    assert d[..k + 1] == p;
    assert forall i :: 0 <= i < k ==> d[i] == p[i] != ' ';
    assert d[k] == ' ';
    assert Find(d, {' '}) == k;
  }

  /** The `return None` of the hosts branch is dead code: both prefixes end in a space. */
  lemma HostsBranchNeverFails(d: string)
    ensures StripRule(d).Some?
    ensures IsHostsLine(d) && !IsAllowRule(d) && !IsBlockRule(d) ==>
              StripRule(d) == Some(Strip(d[HostsSpace(d) + 1..]))
  {
    if IsHostsLine(d) {
      HostsSplit(d);
    }
  }

  /** The stripped text is drawn from the input's characters. */
  lemma StripRuleChars(d: string)
    requires StripRule(d).Some?
    ensures forall c :: c in StripRule(d).value ==> c in d
  {
    HostsBranchNeverFails(d);
    if !IsAllowRule(d) && !IsBlockRule(d) && IsHostsLine(d) {
      StripChars(d[HostsSpace(d) + 1..]);
    }
  }

  /**
   * A character other than the ones the three rule forms consume (the
   * wrapping `@@||` and `^`, the hosts addresses, whitespace) survives
   * stripping; `@` is consumed only by an allow rule.
   */
  lemma StripRuleKeeps(d: string, c: char)
    requires c in d && !IsSpace(c)
    requires c != '|' && c != '^' && c != '0' && c != '.' && c != '1' && c != '2' && c != '7'
    requires c == '@' ==> !IsAllowRule(d)
    ensures StripRule(d).Some? && c in StripRule(d).value
  {
    HostsBranchNeverFails(d);
    RuleLengths(d);
    var k :| 0 <= k < |d| && d[k] == c;
    if IsAllowRule(d) {
      assert c !in "@@||";
      KeptInside(d, "@@||", k);
    } else if IsBlockRule(d) {
      assert c !in "||";
      KeptInside(d, "||", k);
    } else if IsHostsLine(d) {
      HostsKeeps(d, k);
    }
  }

  lemma HostsKeeps(d: string, k: nat)
    requires IsHostsLine(d) && k < |d| && !IsSpace(d[k])
    requires d[k] != '0' && d[k] != '.' && d[k] != '1' && d[k] != '2' && d[k] != '7'
    ensures HostsSpace(d) < |d| && d[k] in Strip(d[HostsSpace(d) + 1..])
  {
    var p := if StartsWith(d, "0.0.0.0 ") then "0.0.0.0 " else "127.0.0.1 ";
    var n := |p|;
    assert d[k] !in p;
    KeptAfterPrefix(d, p, k);
    StripChars(d[n..]);
  }

  /** Between a rule's prefix and its final `^` lies every other character. */
  lemma KeptInside(d: string, p: string, k: nat)
    requires StartsWith(d, p) && EndsWith(d, "^") && |p| < |d| && k < |d|
    requires d[k] !in p && d[k] != '^'
    ensures d[k] in d[|p|..|d| - 1]
  {
    KeptAfterPrefix(d, p, k);
    assert d[|p|..|d| - 1][k - |p|] == d[k];
  }

  /** A position holding a character the prefix does not contain lies past the prefix. */
  lemma KeptAfterPrefix(d: string, p: string, k: nat)
    requires StartsWith(d, p) && k < |d| && d[k] !in p
    ensures k >= |p| && d[k] in d[|p|..]
  {
    assert d[|p|..][k - |p|] == d[k];
  }

  /**
   * The guard of app.py lines 33-34 and check_whitelist_duplicates.py lines
   * 28-29: `matched` is the verdict of the domain regular expression.
   */
  predicate Rejected(d: string, matched: bool) {
    d == [] || StartsWith(d, "#") || StartsWith(d, "!") || StartsWith(d, "/") || ' ' in d || !matched
  }

  /** `f"||{d}^"`: the block-rule line the generators write for a domain. */
  function BlockRule(d: string): string {
    "||" + d + "^"
  }

  /** Unwrapping undoes both wrappings, whatever `d` is. */
  lemma StripRuleUnwraps(d: string)
    ensures StripRule(BlockRule(d)) == Some(d)
    ensures StripRule("@@||" + d + "^") == Some(d)
  {
    var b := BlockRule(d);
    assert b[..2] == "||" && b[|b| - 1..] == "^" && b[0] == '|';
    assert b[2..|b| - 1] == d;
    var a := "@@||" + d + "^";
    assert a[..4] == "@@||" && a[|a| - 1..] == "^";
    assert a[4..|a| - 1] == d;
  }

  /** One `||d^` line per domain, in order. */
  function RuleLines(ds: seq<string>): (lines: seq<string>)
    ensures |lines| == |ds|
    ensures forall i :: 0 <= i < |ds| ==> lines[i] == BlockRule(ds[i])
  {
    if ds == [] then [] else [BlockRule(ds[0])] + RuleLines(ds[1..])
  }

  /** One more rule line. */
  lemma RuleLinesStep(ds: seq<string>, n: nat)
    requires n < |ds|
    ensures RuleLines(ds[..n + 1]) == RuleLines(ds[..n]) + [BlockRule(ds[n])]
  {
    var l := RuleLines(ds[..n + 1]);
    var r := RuleLines(ds[..n]) + [BlockRule(ds[n])];
    assert |l| == |r|;
    forall i | 0 <= i < |l| ensures l[i] == r[i] {
      if i < n {
        assert ds[..n + 1][i] == ds[..n][i];
      }
    }
  }
}
