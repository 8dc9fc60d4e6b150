/** The parts of Python's `str` behaviour that the firewall wrapper in xwall.py relies on:
    `strip()`, `split(sep)`, `split(sep, 1)`, `lower()`, `replace(a, b)` and the `in`
    substring test, plus the `rfind` that pathlib's `suffix` and `stem` use. `EndsWith` only
    serves to characterise `suffix`. Strings are sequences of Dafny `char`s, which are
    Unicode scalar values: a Python `str` may also hold lone surrogates, which are left out. */
module PyText {

  /** Characters for which Python's `str.isspace()` holds; `str.strip()` with no argument
      removes exactly these from both ends. */
  predicate IsSpace(c: char)
    ensures (c == ' ' || '\t' <= c <= '\r') ==> IsSpace(c)
    ensures '!' <= c <= '~' ==> !IsSpace(c)
  {
    || c == ' '
    || ('\t' <= c <= '\r')                    // \t \n \x0b \x0c \r
    || ('\U{1C}' <= c <= '\U{1F}')            // file, group, record and unit separators
    || c == '\U{85}' || c == '\U{A0}' || c == '\U{1680}'
    || ('\U{2000}' <= c <= '\U{200A}')
    || c == '\U{2028}' || c == '\U{2029}' || c == '\U{202F}' || c == '\U{205F}' || c == '\U{3000}'
  }

  predicate AllSpace(s: string) {
    forall i :: 0 <= i < |s| ==> IsSpace(s[i])
  }

  /** `s == s.strip()`: neither end is a whitespace character. */
  predicate IsStripped(s: string) {
    s == [] || (!IsSpace(s[0]) && !IsSpace(s[|s| - 1]))
  }

  /** The position of the first non-whitespace character of `s` at or after `i`, or `|s|`. */
  function SpaceEnd(s: string, i: nat): (n: nat)
    requires i <= |s|
    ensures i <= n <= |s|
    ensures forall k :: i <= k < n ==> IsSpace(s[k])
    ensures n < |s| ==> !IsSpace(s[n])
    decreases |s| - i
  {
    if i < |s| && IsSpace(s[i]) then SpaceEnd(s, i + 1) else i
  }

  /** The position just after the last non-whitespace character of `s` before `j`, or 0. */
  function SpaceStart(s: string, j: nat): (n: nat)
    requires j <= |s|
    ensures n <= j
    ensures forall k :: n <= k < j ==> IsSpace(s[k])
    ensures n > 0 ==> !IsSpace(s[n - 1])
  {
    if j > 0 && IsSpace(s[j - 1]) then SpaceStart(s, j - 1) else j
  }

  /** Python's `s.lstrip()`: the longest suffix of `s` that does not start with whitespace. */
  function LStrip(s: string): (r: string)
    ensures |r| <= |s| && r == s[|s| - |r|..]
    ensures forall i :: 0 <= i < |s| - |r| ==> IsSpace(s[i])
    ensures r == [] || !IsSpace(r[0])
  {
    s[SpaceEnd(s, 0)..]
  }

  /** Python's `s.rstrip()`: the longest prefix of `s` that does not end with whitespace. */
  function RStrip(s: string): (r: string)
    ensures |r| <= |s| && r == s[..|r|]
    ensures forall i :: |r| <= i < |s| ==> IsSpace(s[i])
    ensures r == [] || !IsSpace(r[|r| - 1])
  {
    s[..SpaceStart(s, |s|)]
  }

  /** Python's `s.strip()`: `s` with its leading and trailing whitespace removed. */
  function Strip(s: string): (r: string)
    ensures IsStripped(r)
    ensures |r| <= |s|
  {
    RStrip(LStrip(s))
  }

  /** `s.strip() == ""` exactly when `s` is blank: every character of it is whitespace. */
  lemma StripEmptyIffBlank(s: string)
    ensures Strip(s) == [] <==> AllSpace(s)
  {
    var l := LStrip(s);
    if l != [] {
      assert l[0] == s[|s| - |l|];
      assert !IsSpace(s[|s| - |l|]);
    }
  }

  /** A prefix `r` of a suffix `l` of `s` is the slice of `s` where `l` starts. */
  lemma PrefixOfSuffix(s: string, l: string, r: string)
    requires |l| <= |s| && l == s[|s| - |l|..]
    requires |r| <= |l| && r == l[..|r|]
    ensures r == s[|s| - |l|..|s| - |l| + |r|]
    ensures forall i :: |s| - |l| <= i < |s| ==> s[i] == l[i - (|s| - |l|)]
  {
  }

  /** `strip()` keeps a contiguous slice of `s`, starting where `lstrip()` starts. */
  lemma StripSlice(s: string) returns (a: nat)
    ensures a == |s| - |LStrip(s)|
    ensures a + |Strip(s)| <= |s|
    ensures Strip(s) == s[a..a + |Strip(s)|]
  {
    a := |s| - |LStrip(s)|;
    PrefixOfSuffix(s, LStrip(s), Strip(s));
  }

  /** What `strip()` drops on either side of the slice it keeps is whitespace only. */
  lemma StripDropsSpace(s: string, a: nat)
    requires a == |s| - |LStrip(s)|
    ensures a + |Strip(s)| <= |s|
    ensures forall i :: 0 <= i < a ==> IsSpace(s[i])
    ensures forall i :: a + |Strip(s)| <= i < |s| ==> IsSpace(s[i])
  {
    var l := LStrip(s);
    var r := Strip(s);
    forall i | a + |r| <= i < |s| ensures IsSpace(s[i]) {
      PrefixOfSuffix(s, l, r);
      assert s[i] == l[i - a];
    }
  }

  /** `strip()` introduces no character: one absent from `s` is absent from `s.strip()`. */
  lemma StripKeepsAbsent(s: string, c: char)
    requires c !in s
    ensures c !in Strip(s)
  {
    var a := StripSlice(s);
    var r := Strip(s);
    forall j | 0 <= j < |r| ensures r[j] != c {
      assert r[j] == s[a + j];
    }
  }

  /** A string that is already stripped is left alone, so `strip()` is idempotent. */
  lemma StripStripped(s: string)
    requires IsStripped(s)
    ensures Strip(s) == s
  {
    assert LStrip(s) == s;
  }

  lemma StripIdempotent(s: string)
    ensures Strip(Strip(s)) == Strip(s)
  {
    StripStripped(Strip(s));
  }

  predicate IsAsciiUpper(c: char) {
    'A' <= c <= 'Z'
  }

  /** Python's `s.lower()` on the ASCII letters (other characters are modelled as unchanged). */
  function Lower(s: string): (r: string)
    ensures |r| == |s|
    ensures forall i :: 0 <= i < |s| ==> !IsAsciiUpper(r[i])
    ensures forall i :: 0 <= i < |s| && !IsAsciiUpper(s[i]) ==> r[i] == s[i]
    ensures forall i :: 0 <= i < |s| && IsAsciiUpper(s[i]) ==> 'a' <= r[i] <= 'z' && r[i] as int == s[i] as int + 32
  {
    seq(|s|, i requires 0 <= i < |s| => if IsAsciiUpper(s[i]) then (s[i] as int + 32) as char else s[i])
  }

  /** Python's `s.replace(a, b)` where `a` and `b` are one character each. */
  function ReplaceChar(s: string, a: char, b: char): (r: string)
    ensures |r| == |s|
    ensures forall i :: 0 <= i < |s| ==> (s[i] == a ==> r[i] == b) && (s[i] != a ==> r[i] == s[i])
    ensures a != b ==> a !in r
  {
    seq(|s|, i requires 0 <= i < |s| => if s[i] == a then b else s[i])
  }

  /** The index of the first `c` in `s`, or `|s|` when there is none (Python's `find`, with
      "not found" written as `len(s)` rather than -1). */
  function IndexOf(s: string, c: char): (r: nat)
    ensures r <= |s|
    ensures r < |s| ==> s[r] == c
    ensures c !in s[..r]
    ensures r == |s| <==> c !in s
  {
    IndexFrom(s, c, 0)
  }

  /** The index of the first `c` in `s` at or after `i`, or `|s|`. */
  function IndexFrom(s: string, c: char, i: nat): (r: nat)
    requires i <= |s|
    ensures i <= r <= |s|
    ensures r < |s| ==> s[r] == c
    ensures forall k :: i <= k < r ==> s[k] != c
    decreases |s| - i
  {
    if i < |s| && s[i] != c then IndexFrom(s, c, i + 1) else i
  }

  /** The first occurrence of `c` is found in `a + [c] + b` when `a` holds no `c`. */
  lemma IndexOfFirst(a: string, c: char, b: string)
    requires c !in a
    ensures IndexOf(a + [c] + b, c) == |a|
  {
    var s := a + [c] + b;
    assert s[|a|] == c;
    assert s[..|a|] == a;
  }

  /** Python's `s.split(c, 1)` for a string known to contain `c`: the text before the first
      `c` and everything after it, later occurrences of `c` included. */
  function SplitFirst(s: string, c: char): (r: (string, string))
    requires c in s
    ensures s == r.0 + [c] + r.1
    ensures c !in r.0
  {
    var i := IndexOf(s, c);
    assert s == s[..i] + [c] + s[i + 1..];
    (s[..i], s[i + 1..])
  }

  /** The two halves of `SplitFirst` are determined: a decomposition `a + [c] + b` with no
      `c` in `a` is the one it returns. */
  lemma SplitFirstUnique(a: string, c: char, b: string)
    requires c !in a
    ensures SplitFirst(a + [c] + b, c) == (a, b)
  {
    IndexOfFirst(a, c, b);
    var s := a + [c] + b;
    assert s[..|a|] == a;
    assert s[|a| + 1..] == b;
  }

  /** `parts[0] + c + parts[1] + ... + c + parts[n-1]`, Python's `c.join(parts)`. */
  function Join(parts: seq<string>, c: char): string
    requires |parts| >= 1
  {
    if |parts| == 1 then parts[0] else parts[0] + [c] + Join(parts[1..], c)
  }

  /** Python's `s.split(c)`: the pieces of `s` between the occurrences of `c`; never empty. */
  function SplitOn(s: string, c: char): (r: seq<string>)
    ensures |r| >= 1
    decreases |s|
  {
    var i := IndexOf(s, c);
    if i == |s| then [s]
    else [s[..i]] + SplitOn(s[i + 1..], c)
  }

  /** Where `s` holds a `c`, splitting yields the text before the first `c` and then the
      pieces of the text after it. */
  lemma SplitOnCut(s: string, c: char)
    requires c in s
    ensures var i := IndexOf(s, c);
      && i < |s| && s == s[..i] + [c] + s[i + 1..] && c !in s[..i]
      && SplitOn(s, c) == [s[..i]] + SplitOn(s[i + 1..], c)
  {
    var i := IndexOf(s, c);
    assert s == s[..i] + [c] + s[i + 1..];
  }

  /** No piece of `s.split(c)` holds `c`. */
  lemma {:induction false} SplitOnPieces(s: string, c: char)
    ensures forall i :: 0 <= i < |SplitOn(s, c)| ==> c !in SplitOn(s, c)[i]
    decreases |s|
  {
    if c in s {
      SplitOnCut(s, c);
      var i := IndexOf(s, c);
      var rest := SplitOn(s[i + 1..], c);
      SplitOnPieces(s[i + 1..], c);
      forall k | 0 <= k < |SplitOn(s, c)| ensures c !in SplitOn(s, c)[k] {
        if k > 0 { assert SplitOn(s, c)[k] == rest[k - 1]; }
      }
    } else {
      SplitOnAbsent(s, c);
    }
  }

  /** Joining the pieces of `s.split(c)` with `c` gives back `s`. */
  lemma {:induction false} SplitOnJoin(s: string, c: char)
    ensures Join(SplitOn(s, c), c) == s
    decreases |s|
  {
    if c in s {
      SplitOnCut(s, c);
      var i := IndexOf(s, c);
      var r := SplitOn(s, c);
      SplitOnJoin(s[i + 1..], c);
      assert r[1..] == SplitOn(s[i + 1..], c);
    } else {
      SplitOnAbsent(s, c);
    }
  }

  /** A string without `c` splits into itself alone. */
  lemma SplitOnAbsent(s: string, c: char)
    requires c !in s
    ensures SplitOn(s, c) == [s]
  {
    assert IndexOf(s, c) == |s|;
  }

  /** Splitting `a + [c] + b`, where `a` holds no `c`, gives `a` and then the pieces of `b`. */
  lemma SplitOnFirst(a: string, c: char, b: string)
    requires c !in a
    ensures SplitOn(a + [c] + b, c) == [a] + SplitOn(b, c)
  {
    IndexOfFirst(a, c, b);
    var s := a + [c] + b;
    assert s[..|a|] == a;
    assert s[|a| + 1..] == b;
  }

  /** Splitting a join of several pieces peels off the first piece. */
  lemma SplitJoinStep(parts: seq<string>, c: char)
    requires |parts| > 1 && c !in parts[0]
    ensures SplitOn(Join(parts, c), c) == [parts[0]] + SplitOn(Join(parts[1..], c), c)
  {
    var rest := Join(parts[1..], c);
    assert Join(parts, c) == parts[0] + [c] + rest;
    SplitOnFirst(parts[0], c, rest);
  }

  /** Splitting undoes joining when no piece contains the separator. */
  lemma {:induction false} SplitJoin(parts: seq<string>, c: char)
    requires |parts| >= 1
    requires forall i :: 0 <= i < |parts| ==> c !in parts[i]
    ensures SplitOn(Join(parts, c), c) == parts
    decreases |parts|
  {
    if |parts| == 1 {
      SplitOnAbsent(parts[0], c);
    } else {
      SplitJoinStep(parts, c);
      SplitJoinTail(parts, c);
      SplitJoin(parts[1..], c);
      SeqHeadTail(parts);
    }
  }

  lemma SplitJoinTail(parts: seq<string>, c: char)
    requires |parts| >= 1
    requires forall i :: 0 <= i < |parts| ==> c !in parts[i]
    ensures forall i :: 0 <= i < |parts[1..]| ==> c !in parts[1..][i]
  {
    forall i | 0 <= i < |parts[1..]| ensures c !in parts[1..][i] {
      assert parts[1..][i] == parts[i + 1];
    }
  }

  lemma SeqHeadTail<T>(p: seq<T>)
    requires p != []
    ensures p == [p[0]] + p[1..]
  {
  }

  /** Python's `pat in s`: `pat` occurs in `s` as a contiguous substring. */
  predicate Contains(s: string, pat: string)
    ensures Contains(s, pat) ==> |pat| <= |s|
    ensures |pat| <= |s| && s[..|pat|] == pat ==> Contains(s, pat)
    decreases |s|
  {
    |pat| <= |s| && (s[..|pat|] == pat || Contains(s[1..], pat))
  }

  predicate OccursAt(s: string, pat: string, i: int) {
    0 <= i && i + |pat| <= |s| && s[i..i + |pat|] == pat
  }

  /** `Contains` holds exactly when `pat` occurs at some position of `s`. */
  lemma {:induction false} ContainsAt(s: string, pat: string)
    ensures Contains(s, pat) <==> exists i :: OccursAt(s, pat, i)
    decreases |s|
  {
    if |pat| <= |s| {
      if s[..|pat|] == pat {
        assert OccursAt(s, pat, 0);
      } else {
        ContainsAt(s[1..], pat);
        if i :| OccursAt(s, pat, i) {
          assert i != 0;
          assert s[1..][i - 1..i - 1 + |pat|] == s[i..i + |pat|];
          assert OccursAt(s[1..], pat, i - 1);
        }
        if j :| OccursAt(s[1..], pat, j) {
          assert s[j + 1..j + 1 + |pat|] == s[1..][j..j + |pat|];
          assert OccursAt(s, pat, j + 1);
        }
      }
    }
  }

  /** Python's `s.endswith(suffix)`. */
  predicate EndsWith(s: string, suffix: string) {
    |suffix| <= |s| && s[|s| - |suffix|..] == suffix
  }

  /** The index of the last `c` in `s`, or -1 when there is none (Python's `rfind`). */
  function RFind(s: string, c: char): (r: int)
    ensures -1 <= r < |s|
    ensures r >= 0 ==> s[r] == c
    ensures forall j :: r < j < |s| ==> s[j] != c
  {
    if s == [] then -1
    else if s[|s| - 1] == c then |s| - 1
    else RFind(s[..|s| - 1], c)
  }
}
