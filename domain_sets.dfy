/**
 * The loop both whitelist readers run over a file's lines (app.py lines
 * 85-89, check_whitelist_duplicates.py lines 48-53): normalize each line and
 * keep the non-empty results in a set. The normalizer is a parameter, so the
 * facts below hold for either script's.
 */
module DomainSets {
  import opened Wrappers

  /** One line's contribution: its normalized domain, unless it has none or an empty one. */
  function Found(norm: string -> Option<string>, line: string): (s: set<string>)
    ensures forall d :: d in s <==> norm(line) == Some(d) && d != []
  {
    var n := norm(line);
    if n.Some? && n.value != [] then {n.value} else {}
  }

  /** The set the loop ends with. */
  function Collected(norm: string -> Option<string>, lines: seq<string>): (s: set<string>)
    ensures lines == [] ==> s == {}
  {
    if lines == [] then {}
    else Collected(norm, lines[..|lines| - 1]) + Found(norm, lines[|lines| - 1])
  }

  /** The loop itself: `if domain: unique.add(domain)` for each line in turn. */
  method CollectAll(norm: string -> Option<string>, lines: seq<string>) returns (s: set<string>)
    ensures s == Collected(norm, lines)
  {
    s := {};
    var i := 0;
    while i < |lines|
      invariant 0 <= i <= |lines|
      invariant s == Collected(norm, lines[..i])
    {
      var domain := norm(lines[i]);
      CollectedStep(norm, lines, i);
      if domain.Some? && domain.value != [] {
        s := s + {domain.value};
      }
      i := i + 1;
    }
    assert lines[..i] == lines;
  }

  /** A domain is collected exactly when some line normalizes to it and it is not empty. */
  lemma {:induction false} CollectedMeans(norm: string -> Option<string>, lines: seq<string>, d: string)
    ensures d in Collected(norm, lines) <==> exists i :: 0 <= i < |lines| && norm(lines[i]) == Some(d) && d != []
    decreases |lines|
  {
    if lines != [] {
      var init := lines[..|lines| - 1];
      CollectedMeans(norm, init, d);
      if d in Collected(norm, init) {
        var i :| 0 <= i < |init| && norm(init[i]) == Some(d) && d != [];
        assert lines[i] == init[i];
      }
      if exists i :: 0 <= i < |lines| && norm(lines[i]) == Some(d) && d != [] {
        var i :| 0 <= i < |lines| && norm(lines[i]) == Some(d) && d != [];
        if i < |init| {
          assert init[i] == lines[i];
        }
      }
    }
  }

  /** How many lines have a non-empty normalized domain: what check_whitelist_duplicates.py counts on line 53. */
  function Count(norm: string -> Option<string>, lines: seq<string>): (n: nat)
    ensures n <= |lines|
  {
    if lines == [] then 0
    else Count(norm, lines[..|lines| - 1]) + |Found(norm, lines[|lines| - 1])|
  }

  /** Duplicates only shrink the set: it never holds more domains than were counted. */
  lemma {:induction false} CollectedAtMostCount(norm: string -> Option<string>, lines: seq<string>)
    ensures |Collected(norm, lines)| <= Count(norm, lines)
    decreases |lines|
  {
    if lines != [] {
      var init := lines[..|lines| - 1];
      CollectedAtMostCount(norm, init);
      var a := Collected(norm, init);
      var f := Found(norm, lines[|lines| - 1]);
      assert |a + f| <= |a| + |f| by {
        assert |a + f| + |a * f| == |a| + |f|;
      }
    }
  }

  /** One more turn of the counting loop. */
  lemma CountStep(norm: string -> Option<string>, lines: seq<string>, i: nat)
    requires i < |lines|
    ensures Count(norm, lines[..i + 1]) == Count(norm, lines[..i]) + |Found(norm, lines[i])|
  {
    assert lines[..i + 1][..i] == lines[..i];
  }

  /** Two normalizers that agree on every line collect and count the same. */
  lemma {:induction false} CollectedAgree(n1: string -> Option<string>, n2: string -> Option<string>, lines: seq<string>)
    requires forall i :: 0 <= i < |lines| ==> n1(lines[i]) == n2(lines[i])
    ensures Collected(n1, lines) == Collected(n2, lines) && Count(n1, lines) == Count(n2, lines)
    decreases |lines|
  {
    if lines != [] {
      var init := lines[..|lines| - 1];
      assert forall i :: 0 <= i < |init| ==> init[i] == lines[i];
      CollectedAgree(n1, n2, init);
    }
  }

  /** One more turn of the loop. */
  lemma CollectedStep(norm: string -> Option<string>, lines: seq<string>, i: nat)
    requires i < |lines|
    ensures Collected(norm, lines[..i + 1]) == Collected(norm, lines[..i]) + Found(norm, lines[i])
  {
    assert lines[..i + 1][..i] == lines[..i];
  }

  /** Reading two pieces one after the other collects the union and adds up the counts. */
  lemma {:induction false} CollectedAppend(norm: string -> Option<string>, a: seq<string>, b: seq<string>)
    ensures Collected(norm, a + b) == Collected(norm, a) + Collected(norm, b)
    ensures Count(norm, a + b) == Count(norm, a) + Count(norm, b)
    decreases |b|
  {
    if b != [] {
      assert (a + b)[..|a + b| - 1] == a + b[..|b| - 1];
      CollectedAppend(norm, a, b[..|b| - 1]);
    } else {
      assert a + b == a;
    }
  }

  /** Lines in front that give no domain leave the set as it is. */
  lemma IgnoredPrefix(norm: string -> Option<string>, h: seq<string>, r: seq<string>)
    requires Collected(norm, h) == {}
    ensures Collected(norm, h + r) == Collected(norm, r) && Count(norm, h + r) == Count(norm, h) + Count(norm, r)
  {
    CollectedAppend(norm, h, r);
  }

  /** Lines that each normalize to themselves are collected as they are. */
  lemma CollectedFixedPoints(norm: string -> Option<string>, ds: seq<string>)
    requires forall i :: 0 <= i < |ds| ==> norm(ds[i]) == Some(ds[i]) && ds[i] != []
    ensures Collected(norm, ds) == set i | 0 <= i < |ds| :: ds[i]
    ensures Count(norm, ds) == |ds|
  {
    CountAll(norm, ds);
    forall d ensures d in Collected(norm, ds) <==> d in set i | 0 <= i < |ds| :: ds[i] {
      CollectedMeans(norm, ds, d);
    }
  }

  /** Lines that normalize to nothing contribute nothing. */
  lemma CollectedNothing(norm: string -> Option<string>, lines: seq<string>)
    requires forall i :: 0 <= i < |lines| ==> norm(lines[i]) == None
    ensures Collected(norm, lines) == {} && Count(norm, lines) == 0
  {
    CountNone(norm, lines);
    forall d ensures d !in Collected(norm, lines) {
      CollectedMeans(norm, lines, d);
    }
  }

  lemma {:induction false} CountAll(norm: string -> Option<string>, ds: seq<string>)
    requires forall i :: 0 <= i < |ds| ==> norm(ds[i]) == Some(ds[i]) && ds[i] != []
    ensures Count(norm, ds) == |ds|
    decreases |ds|
  {
    if ds != [] {
      var init := ds[..|ds| - 1];
      assert forall i :: 0 <= i < |init| ==> init[i] == ds[i];
      CountAll(norm, init);
      assert Found(norm, ds[|ds| - 1]) == {ds[|ds| - 1]};
    }
  }

  lemma {:induction false} CountNone(norm: string -> Option<string>, lines: seq<string>)
    requires forall i :: 0 <= i < |lines| ==> norm(lines[i]) == None
    ensures Count(norm, lines) == 0
    decreases |lines|
  {
    if lines != [] {
      var init := lines[..|lines| - 1];
      assert forall i :: 0 <= i < |init| ==> init[i] == lines[i];
      CountNone(norm, init);
      assert Found(norm, lines[|lines| - 1]) == {};
    }
  }
}
