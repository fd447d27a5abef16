/**
 * Python's `sorted` on strings. Strings compare by code point, a proper
 * prefix first; `sorted(xs, key=lambda x: x[::-1])` compares the reversed
 * strings instead. The scripts always sort a set, so the result is the unique
 * strictly ascending sequence of the set's elements.
 */
module Ordering {
  import opened PyStr

  /** Python's `a < b` on `str`. */
  predicate Less(a: string, b: string)
    decreases |a|
  {
    if a == [] then b != []
    else if b == [] then false
    else if a[0] != b[0] then a[0] < b[0]
    else Less(a[1..], b[1..])
  }

  lemma {:induction false} LessIrreflexive(a: string)
    ensures !Less(a, a)
    decreases |a|
  {
    if a != [] {
      LessIrreflexive(a[1..]);
    }
  }

  lemma {:induction false} LessAsymmetric(a: string, b: string)
    requires Less(a, b)
    ensures !Less(b, a)
    decreases |a|
  {
    if a != [] && b != [] && a[0] == b[0] {
      LessAsymmetric(a[1..], b[1..]);
    }
  }

  lemma {:induction false} LessTransitive(a: string, b: string, c: string)
    requires Less(a, b) && Less(b, c)
    ensures Less(a, c)
    decreases |a|
  {
    if a != [] && b != [] && c != [] && a[0] == b[0] && b[0] == c[0] {
      LessTransitive(a[1..], b[1..], c[1..]);
    }
  }

  lemma {:induction false} LessTotal(a: string, b: string)
    requires a != b
    ensures Less(a, b) || Less(b, a)
    decreases |a|
  {
    if a != [] && b != [] && a[0] == b[0] {
      assert a == [a[0]] + a[1..] && b == [b[0]] + b[1..];
      LessTotal(a[1..], b[1..]);
    }
  }

  /** A proper prefix sorts first. */
  lemma {:induction false} PrefixLess(a: string, b: string)
    requires |a| < |b| && b[..|a|] == a
    ensures Less(a, b)
    decreases |a|
  {
    if a != [] {
      assert a[0] == b[0];
      assert b[1..][..|a| - 1] == a[1..];
      PrefixLess(a[1..], b[1..]);
    }
  }

  /** The two sort keys the scripts use: the string itself, or `x[::-1]`. */
  datatype SortKey = Plain | Reversed

  function KeyOf(k: SortKey, s: string): string {
    match k
    case Plain => s
    case Reversed => Reverse(s)
  }

  /** `a` sorts strictly before `b` under key `k`. */
  predicate Before(k: SortKey, a: string, b: string) {
    Less(KeyOf(k, a), KeyOf(k, b))
  }

  lemma BeforeIrreflexive(k: SortKey, a: string)
    ensures !Before(k, a, a)
  {
    LessIrreflexive(KeyOf(k, a));
  }

  lemma BeforeAsymmetric(k: SortKey, a: string, b: string)
    requires Before(k, a, b)
    ensures !Before(k, b, a)
  {
    LessAsymmetric(KeyOf(k, a), KeyOf(k, b));
  }

  lemma BeforeTransitive(k: SortKey, a: string, b: string, c: string)
    requires Before(k, a, b) && Before(k, b, c)
    ensures Before(k, a, c)
  {
    LessTransitive(KeyOf(k, a), KeyOf(k, b), KeyOf(k, c));
  }

  /** Both keys are injective, so distinct strings never tie. */
  lemma BeforeTotal(k: SortKey, a: string, b: string)
    requires a != b
    ensures Before(k, a, b) || Before(k, b, a)
  {
    if KeyOf(k, a) == KeyOf(k, b) {
      ReverseInjective(a, b);
    }
    LessTotal(KeyOf(k, a), KeyOf(k, b));
  }

  predicate Ascending(k: SortKey, s: seq<string>) {
    forall i, j :: 0 <= i < j < |s| ==> Before(k, s[i], s[j])
  }

  /** `r` lists exactly the elements of `s`, strictly ascending under `k`. */
  ghost predicate SortedOf(k: SortKey, r: seq<string>, s: set<string>) {
    Ascending(k, r) && forall x :: x in r <==> x in s
  }

  /** A strictly ascending sequence has no repeated element. */
  lemma AscendingDistinct(k: SortKey, r: seq<string>)
    requires Ascending(k, r)
    ensures forall i, j :: 0 <= i < j < |r| ==> r[i] != r[j]
  {
    forall i, j | 0 <= i < j < |r| ensures r[i] != r[j] {
      BeforeIrreflexive(k, r[i]);
    }
  }

  predicate IsLeast(k: SortKey, m: string, s: set<string>) {
    m in s && forall x :: x in s && x != m ==> Before(k, m, x)
  }

  lemma {:induction false} LeastExists(k: SortKey, s: set<string>)
    requires s != {}
    ensures exists m :: IsLeast(k, m, s)
    decreases s
  {
    var x :| x in s;
    if s != {x} {
      LeastExists(k, s - {x});
      var m :| IsLeast(k, m, s - {x});
      if Before(k, x, m) {
        forall y | y in s && y != x ensures Before(k, x, y) {
          if y != m {
            BeforeTransitive(k, x, m, y);
          }
        }
        assert IsLeast(k, x, s);
      } else {
        BeforeTotal(k, x, m);
        assert IsLeast(k, m, s);
      }
    } else {
      assert IsLeast(k, x, s);
    }
  }

  /** `sorted(s, key)` for a set `s`: the least element first, then the rest. */
  ghost function SortedList(k: SortKey, s: set<string>): (r: seq<string>)
    ensures SortedOf(k, r, s)
    decreases s
  {
    if s == {} then []
    else
      LeastExists(k, s);
      var m :| IsLeast(k, m, s);
      var rest := SortedList(k, s - {m});
      assert forall j :: 0 <= j < |rest| ==> rest[j] in s - {m};
      [m] + rest
  }

  /** Sorting a set has exactly one outcome. */
  lemma {:induction false} SortedOfUnique(k: SortKey, r1: seq<string>, r2: seq<string>, s: set<string>)
    requires SortedOf(k, r1, s) && SortedOf(k, r2, s)
    ensures r1 == r2
    decreases |r1|
  {
    if r1 == [] {
      SortedLength(k, r1, s);
      SortedLength(k, r2, s);
    } else {
      assert r1[0] in s;
      assert r2 != [];
      assert r2[0] in s;
      if r1[0] != r2[0] {
        var i :| 0 <= i < |r2| && r2[i] == r1[0];
        var j :| 0 <= j < |r1| && r1[j] == r2[0];
        assert Before(k, r2[0], r1[0]);
        assert Before(k, r1[0], r2[0]);
        BeforeAsymmetric(k, r1[0], r2[0]);
      }
      AscendingDistinct(k, r1);
      AscendingDistinct(k, r2);
      var s' := s - {r1[0]};
      forall x ensures x in r1[1..] <==> x in s' {
        if x in r1[1..] {
          var t :| 1 <= t < |r1| && r1[t] == x;
        }
        if x in s' {
          var t :| 0 <= t < |r1| && r1[t] == x;
          assert t != 0;
          assert r1[1..][t - 1] == x;
        }
      }
      forall x ensures x in r2[1..] <==> x in s' {
        if x in r2[1..] {
          var t :| 1 <= t < |r2| && r2[t] == x;
        }
        if x in s' {
          var t :| 0 <= t < |r2| && r2[t] == x;
          assert t != 0;
          assert r2[1..][t - 1] == x;
        }
      }
      SortedOfUnique(k, r1[1..], r2[1..], s');
      assert r1 == [r1[0]] + r1[1..] && r2 == [r2[0]] + r2[1..];
    }
  }

  /** A file of header lines followed by a sorted set. */
  lemma HeadedSorted(k: SortKey, h: seq<string>, s: set<string>)
    ensures var l := h + SortedList(k, s);
      |l| == |h| + |s| && l[..|h|] == h && SortedOf(k, l[|h|..], s)
  {
    var r := SortedList(k, s);
    SortedLength(k, r, s);
    assert (h + r)[|h|..] == r;
  }

  /** A sorted sequence of a set has one entry per element. */
  lemma {:induction false} SortedLength(k: SortKey, r: seq<string>, s: set<string>)
    requires SortedOf(k, r, s)
    ensures |r| == |s|
    decreases |r|
  {
    if r != [] {
      AscendingDistinct(k, r);
      var s' := s - {r[0]};
      forall x ensures x in r[1..] <==> x in s' {
        if x in r[1..] {
          var t :| 1 <= t < |r| && r[t] == x;
        }
        if x in s' {
          var t :| 0 <= t < |r| && r[t] == x;
          assert t != 0;
          assert r[1..][t - 1] == x;
        }
      }
      SortedLength(k, r[1..], s');
    } else {
      assert forall x :: x !in s;
      assert s == {};
    }
  }

  /** Insertion of a new element into a strictly ascending sequence. */
  function Insert(k: SortKey, x: string, r: seq<string>): (r': seq<string>)
    requires Ascending(k, r) && x !in r
    ensures Ascending(k, r')
    ensures forall y :: y in r' <==> y == x || y in r
  {
    if r == [] then [x]
    else if Before(k, x, r[0]) then
      LeastOfAscending(k, x, r);
      PrependAscending(k, x, r);
      [x] + r
    else
      BeforeTotal(k, x, r[0]);
      var rest := Insert(k, x, r[1..]);
      assert forall j :: 0 <= j < |rest| ==> Before(k, r[0], rest[j]) by {
        forall j | 0 <= j < |rest| ensures Before(k, r[0], rest[j]) {
          assert rest[j] in rest;
        }
      }
      PrependAscending(k, r[0], rest);
      [r[0]] + rest
  }

  /** What sorts before the head of an ascending sequence sorts before all of it. */
  lemma LeastOfAscending(k: SortKey, x: string, r: seq<string>)
    requires Ascending(k, r) && r != [] && Before(k, x, r[0])
    ensures forall j :: 0 <= j < |r| ==> Before(k, x, r[j])
  {
    forall j | 0 < j < |r| ensures Before(k, x, r[j]) {
      BeforeTransitive(k, x, r[0], r[j]);
    }
  }

  lemma PrependAscending(k: SortKey, h: string, s: seq<string>)
    requires Ascending(k, s) && forall j :: 0 <= j < |s| ==> Before(k, h, s[j])
    ensures Ascending(k, [h] + s)
  {
    var t := [h] + s;
    forall i, j | 0 <= i < j < |t| ensures Before(k, t[i], t[j]) {
      assert t[j] == s[j - 1];
      if i > 0 {
        assert t[i] == s[i - 1];
      }
    }
  }

  /** `sorted(s, key=...)` on a set. */
  method Sort(k: SortKey, s: set<string>) returns (r: seq<string>)
    ensures r == SortedList(k, s)
  {
    r := [];
    var rest := s;
    while rest != {}
      invariant rest <= s
      invariant SortedOf(k, r, s - rest)
      decreases rest
    {
      var x :| x in rest;
      r := Insert(k, x, r);
      rest := rest - {x};
    }
    SortedOfUnique(k, r, SortedList(k, s), s);
  }
}
