/**
 * The Python `str` operations the blocklist scripts rely on. A Python 3 `str`
 * is a sequence of code points; here it is a `string`, a sequence of Unicode
 * scalar values, and the operations below follow CPython's definitions.
 */
module PyStr {

  /** The characters `str.isspace` accepts: what `strip()` removes from either end. */
  predicate IsSpace(c: char) {
    c == ' ' || ('\t' <= c <= '\r') || ('\U{1C}' <= c <= '\U{1F}') || c == '\U{85}' || c == '\U{A0}'
    || c == '\U{1680}' || ('\U{2000}' <= c <= '\U{200A}') || c == '\U{2028}' || c == '\U{2029}'
    || c == '\U{202F}' || c == '\U{205F}' || c == '\U{3000}'
  }

  predicate NoSpace(s: string) {
    forall i :: 0 <= i < |s| ==> !IsSpace(s[i])
  }

  /** `s.lstrip()`: the longest suffix of `s` that does not start with whitespace. */
  function StripLeft(s: string): (r: string)
    ensures |r| <= |s| && r == s[|s| - |r|..]
    ensures forall i :: 0 <= i < |s| - |r| ==> IsSpace(s[i])
    ensures r != [] ==> !IsSpace(r[0])
  {
    if s != [] && IsSpace(s[0]) then StripLeft(s[1..]) else s
  }

  /** `s.rstrip()`: the longest prefix of `s` that does not end with whitespace. */
  function StripRight(s: string): (r: string)
    ensures |r| <= |s| && r == s[..|r|]
    ensures forall i :: |r| <= i < |s| ==> IsSpace(s[i])
    ensures r != [] ==> !IsSpace(r[|r| - 1])
  {
    if s != [] && IsSpace(s[|s| - 1]) then StripRight(s[..|s| - 1]) else s
  }

  /** `s.strip()` with no argument. */
  function Strip(s: string): string {
    StripRight(StripLeft(s))
  }

  /** `strip()` cuts a whitespace-only prefix and suffix off and keeps the middle. */
  lemma StripSlice(s: string) returns (i: nat)
    ensures i + |Strip(s)| <= |s| && Strip(s) == s[i..i + |Strip(s)|]
    ensures forall k :: 0 <= k < i ==> IsSpace(s[k])
    ensures forall k :: i + |Strip(s)| <= k < |s| ==> IsSpace(s[k])
    ensures Strip(s) != [] ==> !IsSpace(Strip(s)[0]) && !IsSpace(Strip(s)[|Strip(s)| - 1])
  {
    var l := StripLeft(s);
    i := |s| - |l|;
  }

  /** A string that neither starts nor ends with whitespace is its own `strip()`. */
  lemma StripUnchanged(s: string)
    requires s != [] ==> !IsSpace(s[0]) && !IsSpace(s[|s| - 1])
    ensures Strip(s) == s
  {
  }

  /** Leading whitespace goes, the rest stays when it has no whitespace at its ends. */
  lemma {:induction false} StripLeadingSpace(ws: string, s: string)
    requires forall i :: 0 <= i < |ws| ==> IsSpace(ws[i])
    requires s != [] && !IsSpace(s[0]) && !IsSpace(s[|s| - 1])
    ensures Strip(ws + s) == s
  {
    if ws != [] {
      assert (ws + s)[1..] == ws[1..] + s;
      StripLeadingSpace(ws[1..], s);
    } else {
      assert ws + s == s;
    }
  }

  /** A line terminator makes no difference once the line is stripped. */
  lemma StripNewline(s: string)
    ensures Strip(s + "\n") == Strip(s)
  {
    StripLeftNewline(s);
    var l := StripLeft(s);
    if l != [] {
      var ln := l + "\n";
      assert IsSpace(ln[|ln| - 1]) && ln[..|ln| - 1] == l;
      assert StripRight(ln) == StripRight(l);
    }
  }

  lemma {:induction false} StripLeftNewline(s: string)
    ensures StripLeft(s + "\n") == if StripLeft(s) == [] then [] else StripLeft(s) + "\n"
  {
    if s != [] && IsSpace(s[0]) {
      assert (s + "\n")[1..] == s[1..] + "\n";
      StripLeftNewline(s[1..]);
    } else if s == [] {
      assert StripLeft("\n") == StripLeft([]);
    }
  }

  /** A string that does not start with whitespace keeps its first character. */
  lemma StripFront(s: string)
    requires s != [] && !IsSpace(s[0])
    ensures Strip(s) != [] && Strip(s)[0] == s[0]
  {
    assert StripLeft(s) == s;
  }

  lemma StripIdempotent(s: string)
    ensures Strip(Strip(s)) == Strip(s)
  {
    var _ := StripSlice(s);
    StripUnchanged(Strip(s));
  }

  /** `strip()` keeps every character that is not whitespace, and adds none. */
  lemma StripChars(s: string)
    ensures forall c :: c in Strip(s) ==> c in s
    ensures forall c :: c in s && !IsSpace(c) ==> c in Strip(s)
  {
    var i := StripSlice(s);
    var r := Strip(s);
    forall c | c in s && !IsSpace(c) ensures c in r {
      var k :| 0 <= k < |s| && s[k] == c;
      assert r[k - i] == c;
    }
  }

  predicate IsUpper(c: char) {
    'A' <= c <= 'Z'
  }

  /** ASCII case folding of one character. */
  function LowerChar(c: char): (r: char)
    ensures !IsUpper(r)
    ensures IsUpper(c) || r == c
  {
    if IsUpper(c) then (c as int + 32) as char else c
  }

  /** `s.lower()`, restricted to ASCII letters. */
  function Lower(s: string): (r: string)
    ensures |r| == |s|
    ensures forall i :: 0 <= i < |s| ==> r[i] == LowerChar(s[i])
  {
    if s == [] then [] else [LowerChar(s[0])] + Lower(s[1..])
  }

  lemma LowerUnchanged(s: string)
    requires forall i :: 0 <= i < |s| ==> !IsUpper(s[i])
    ensures Lower(s) == s
  {
  }

  lemma LowerIdempotent(s: string)
    ensures Lower(Lower(s)) == Lower(s)
  {
    LowerUnchanged(Lower(s));
  }

  /** Only ASCII capitals change; in particular whitespace and punctuation survive. */
  lemma LowerChars(s: string)
    ensures forall c :: c in Lower(s) && !('a' <= c <= 'z') ==> c in s
    ensures forall c :: c in s && !IsUpper(c) ==> c in Lower(s)
  {
    forall c | c in Lower(s) && !('a' <= c <= 'z') ensures c in s {
      var k :| 0 <= k < |s| && Lower(s)[k] == c;
    }
    forall c | c in s && !IsUpper(c) ensures c in Lower(s) {
      var k :| 0 <= k < |s| && s[k] == c;
      assert Lower(s)[k] == c;
    }
  }

  predicate StartsWith(s: string, p: string) {
    |p| <= |s| && s[..|p|] == p
  }

  predicate EndsWith(s: string, p: string) {
    |p| <= |s| && s[|s| - |p|..] == p
  }

  /** The first index of a character of `cs` in `s`, or `|s|` when there is none. */
  function Find(s: string, cs: set<char>): (i: nat)
    ensures i <= |s|
    ensures i < |s| ==> s[i] in cs
    ensures forall k :: 0 <= k < i ==> s[k] !in cs
  {
    if s == [] then 0 else if s[0] in cs then 0 else 1 + Find(s[1..], cs)
  }

  /** `s.rfind(c)`: the last index of `c` in `s`, or -1. */
  function RFind(s: string, c: char): (i: int)
    ensures -1 <= i < |s|
    ensures 0 <= i ==> s[i] == c
    ensures forall k :: i < k < |s| ==> s[k] != c
  {
    if s == [] then -1 else if s[|s| - 1] == c then |s| - 1 else RFind(s[..|s| - 1], c)
  }

  /** The index of the first character of `cs`, or `|s|` when there is none, is what `find` returns. */
  lemma FindAt(s: string, cs: set<char>, i: nat)
    requires i <= |s| && (i < |s| ==> s[i] in cs)
    requires forall k :: 0 <= k < i ==> s[k] !in cs
    ensures Find(s, cs) == i
  {
  }

  /** The index of a `c` with no `c` after it is what `rfind` returns. */
  lemma RFindAt(s: string, c: char, i: nat)
    requires i < |s| && s[i] == c && c !in s[i + 1..]
    ensures RFind(s, c) == i
  {
    assert forall k :: i < k < |s| ==> s[k] == s[i + 1..][k - i - 1];
  }

  /** `s.split(sep, 1)`: the text before the first `sep` and the text after it. */
  function SplitOnce(s: string, sep: char): (parts: seq<string>)
    ensures |parts| == 1 || |parts| == 2
    ensures |parts| == 2 <==> sep in s
    ensures |parts| == 1 ==> parts[0] == s
    ensures |parts| == 2 ==> parts[0] + [sep] + parts[1] == s && sep !in parts[0]
  {
    var i := Find(s, {sep});
    if i < |s| then
      assert s[..i] + [sep] + s[i + 1..] == s;
      [s[..i], s[i + 1..]]
    else [s]
  }

  /** `s.split(sep)`: the maximal runs between separators, empty runs included. */
  function Split(s: string, sep: char): (parts: seq<string>)
    ensures |parts| >= 1
    ensures forall i :: 0 <= i < |parts| ==> sep !in parts[i]
    decreases |s|
  {
    var i := Find(s, {sep});
    if i == |s| then [s] else [s[..i]] + Split(s[i + 1..], sep)
  }

  /** `sep.join(parts)`. */
  function Join(parts: seq<string>, sep: char): string
    requires |parts| >= 1
  {
    if |parts| == 1 then parts[0] else parts[0] + [sep] + Join(parts[1..], sep)
  }

  /** Joining the pieces of a split gives the string back. */
  lemma {:induction false} JoinSplit(s: string, sep: char)
    ensures Join(Split(s, sep), sep) == s
    decreases |s|
  {
    var i := Find(s, {sep});
    if i < |s| {
      var tail := Split(s[i + 1..], sep);
      var parts := [s[..i]] + tail;
      assert Split(s, sep) == parts;
      assert parts[0] == s[..i] && parts[1..] == tail;
      JoinSplit(s[i + 1..], sep);
      assert Join(parts, sep) == s[..i] + [sep] + s[i + 1..];
      assert s[..i] + [sep] + s[i + 1..] == s;
    }
  }

  /** A separator-free piece in front splits off as the first piece. */
  lemma SplitFront(p: string, sep: char, rest: string)
    requires sep !in p
    ensures Split(p + [sep] + rest, sep) == [p] + Split(rest, sep)
  {
    var s := p + [sep] + rest;
    assert s[..|p|] == p && s[|p|] == sep && s[|p| + 1..] == rest;
    forall k | 0 <= k < |p| ensures s[k] !in {sep} {
      assert s[k] == p[k] && p[k] in p;
    }
    FindAt(s, {sep}, |p|);
  }

  /** Splitting a join of separator-free pieces gives the pieces back. */
  lemma {:induction false} SplitJoin(parts: seq<string>, sep: char)
    requires |parts| >= 1
    requires forall i :: 0 <= i < |parts| ==> sep !in parts[i]
    ensures Split(Join(parts, sep), sep) == parts
  {
    var s := Join(parts, sep);
    if |parts| == 1 {
      FindAt(s, {sep}, |s|);
    } else {
      var p := parts[0];
      var rest := Join(parts[1..], sep);
      assert s == p + [sep] + rest;
      SplitFront(p, sep, rest);
      SplitJoin(parts[1..], sep);
      assert [p] + parts[1..] == parts;
    }
  }

  /** A character property shared by the separator and every piece holds all along the join. */
  lemma {:induction false} JoinAll(parts: seq<string>, sep: char, p: char -> bool)
    requires |parts| >= 1 && p(sep)
    requires forall i, k :: 0 <= i < |parts| && 0 <= k < |parts[i]| ==> p(parts[i][k])
    ensures forall k :: 0 <= k < |Join(parts, sep)| ==> p(Join(parts, sep)[k])
  {
    if |parts| > 1 {
      JoinAll(parts[1..], sep, p);
      var rest := Join(parts[1..], sep);
      var s := Join(parts, sep);
      assert s == parts[0] + [sep] + rest;
      forall k | 0 <= k < |s| ensures p(s[k]) {
        if k < |parts[0]| {
          assert s[k] == parts[0][k];
        } else if k > |parts[0]| {
          assert s[k] == rest[k - |parts[0]| - 1];
        }
      }
    }
  }

  /** `s.replace(c, "")` for every `c` in `cs`. */
  function RemoveAll(s: string, cs: set<char>): (r: string)
    ensures |r| <= |s|
  {
    if s == [] then []
    else if s[0] in cs then RemoveAll(s[1..], cs)
    else [s[0]] + RemoveAll(s[1..], cs)
  }

  /** What survives is drawn from `s` and lies outside `cs`. */
  lemma {:induction false} RemoveAllChars(s: string, cs: set<char>)
    ensures forall i :: 0 <= i < |RemoveAll(s, cs)| ==> RemoveAll(s, cs)[i] in s && RemoveAll(s, cs)[i] !in cs
  {
    if s != [] {
      RemoveAllChars(s[1..], cs);
      var r := RemoveAll(s, cs);
      var t := RemoveAll(s[1..], cs);
      forall i | 0 <= i < |r| ensures r[i] in s && r[i] !in cs {
        if s[0] !in cs && i > 0 {
          assert r[i] == t[i - 1];
          assert t[i - 1] in s[1..];
        } else if s[0] in cs {
          assert t[i] in s[1..];
        }
      }
    }
  }

  /** Every character outside `cs` survives. */
  lemma {:induction false} RemoveAllKeeps(s: string, cs: set<char>, c: char)
    requires c in s && c !in cs
    ensures c in RemoveAll(s, cs)
  {
    if s[0] != c {
      RemoveAllKeeps(s[1..], cs, c);
    }
  }

  /** A string without characters of `cs` is left as it is. */
  lemma {:induction false} RemoveAllNone(s: string, cs: set<char>)
    requires forall i :: 0 <= i < |s| ==> s[i] !in cs
    ensures RemoveAll(s, cs) == s
  {
    if s != [] {
      RemoveAllNone(s[1..], cs);
    }
  }

  /** `s[::-1]`. */
  function Reverse(s: string): (r: string)
    ensures |r| == |s|
    ensures forall i :: 0 <= i < |s| ==> r[i] == s[|s| - 1 - i]
  {
    if s == [] then [] else Reverse(s[1..]) + [s[0]]
  }

  lemma ReverseInjective(a: string, b: string)
    requires Reverse(a) == Reverse(b)
    ensures a == b
  {
    assert |a| == |b|;
    forall i | 0 <= i < |a| ensures a[i] == b[i] {
      assert Reverse(a)[|a| - 1 - i] == Reverse(b)[|a| - 1 - i];
    }
  }

  lemma ReverseAppend(a: string, b: string)
    ensures Reverse(a + b) == Reverse(b) + Reverse(a)
  {
    var l, r := Reverse(a + b), Reverse(b) + Reverse(a);
    forall i | 0 <= i < |l| ensures l[i] == r[i] {
      if i < |b| {
        assert r[i] == Reverse(b)[i];
      } else {
        assert r[i] == Reverse(a)[i - |b|];
      }
    }
  }
}
