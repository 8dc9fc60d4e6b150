/** How `Firewall.listrules` (xwall.py) reads the text printed by
    `netsh advfirewall firewall show rule name=all verbose`, one line at a time: the text is
    cut into cleaned lines, and each line is a `Key Name: value` field, a `----` separator
    or something the parser skips. */
module NetshLines {
  import opened PyText

  /** What one cleaned line means to the parser, checked in the source's order: a colon
      first, then a dash run; any other line is skipped. */
  datatype Line = KeyValue(key: string, value: string) | Separator | Other

  const SeparatorMark: string := "----"

  /** Non-empty, already stripped and free of newlines: what every line handed to the
      parser looks like. */
  predicate IsCleanLine(line: string) {
    line != [] && IsStripped(line) && '\n' !in line
  }

  /** `[l.strip() for l in lines if l.strip() != ""]`. */
  function CleanEach(lines: seq<string>): (r: seq<string>)
    ensures |r| <= |lines|
  {
    if lines == [] then []
    else
      var s := Strip(lines[0]);
      (if s != [] then [s] else []) + CleanEach(lines[1..])
  }

  /** A single line is kept, stripped, exactly when it is not blank. */
  lemma CleanEachSingle(line: string)
    ensures CleanEach([line]) == if AllSpace(line) then [] else [Strip(line)]
  {
    StripEmptyIffBlank(line);
    assert [line][1..] == [];
  }

  /** Cleaning a non-empty run of lines cleans its first line on its own, then the rest. */
  lemma CleanEachCons(lines: seq<string>)
    requires lines != []
    ensures CleanEach(lines) == CleanEach([lines[0]]) + CleanEach(lines[1..])
  {
    assert [lines[0]][1..] == [];
  }

  /** The cleaning goes line by line: cleaning two runs of lines one after the other cleans
      each run on its own, so every non-blank line is kept, in its place. */
  lemma {:induction false} CleanEachConcat(p: seq<string>, q: seq<string>)
    ensures CleanEach(p + q) == CleanEach(p) + CleanEach(q)
    decreases |p|
  {
    if p == [] {
      assert p + q == q;
    } else {
      CleanEachConcat(p[1..], q);
      CleanEachConcatStep(p, q);
    }
  }

  lemma CleanEachConcatStep(p: seq<string>, q: seq<string>)
    requires p != []
    requires CleanEach(p[1..] + q) == CleanEach(p[1..]) + CleanEach(q)
    ensures CleanEach(p + q) == CleanEach(p) + CleanEach(q)
  {
    CleanEachCons(p);
    CleanEachCons(p + q);
    SeqConcatParts(p, q);
    SeqAppendAssoc(CleanEach([p[0]]), CleanEach(p[1..]), CleanEach(q));
  }

  lemma SeqAppendAssoc<T>(a: seq<T>, b: seq<T>, c: seq<T>)
    ensures a + (b + c) == (a + b) + c
  {
  }

  lemma SeqConcatIndex<T>(a: seq<T>, b: seq<T>, i: nat)
    requires i < |a| + |b|
    ensures (a + b)[i] == if i < |a| then a[i] else b[i - |a|]
  {
  }

  lemma SeqConcatParts<T>(p: seq<T>, q: seq<T>)
    requires p != []
    ensures (p + q)[0] == p[0] && (p + q)[1..] == p[1..] + q
  {
  }

  /** Every line the cleaning keeps is the non-blank `strip()` of some input line. */
  lemma {:induction false} CleanEachOrigin(lines: seq<string>, i: nat) returns (j: nat)
    requires i < |CleanEach(lines)|
    ensures j < |lines| && CleanEach(lines)[i] == Strip(lines[j]) && Strip(lines[j]) != []
  {
    assert lines != [];
    var s, rest := Strip(lines[0]), CleanEach(lines[1..]);
    var head := if s != [] then [s] else [];
    assert CleanEach(lines) == head + rest;
    SeqConcatIndex(head, rest, i);
    if i < |head| {
      assert CleanEach(lines)[i] == s;
      j := 0;
    } else {
      var j' := CleanEachOrigin(lines[1..], i - |head|);
      assert CleanEach(lines)[i] == Strip(lines[1..][j']);
      assert lines[1..][j'] == lines[j' + 1];
      j := j' + 1;
    }
  }

  /** No kept line is empty, and every kept line equals its own `strip()`. */
  lemma CleanEachLines(lines: seq<string>)
    ensures forall i :: 0 <= i < |CleanEach(lines)| ==>
      CleanEach(lines)[i] != [] && IsStripped(CleanEach(lines)[i])
  {
    forall i | 0 <= i < |CleanEach(lines)|
      ensures CleanEach(lines)[i] != [] && IsStripped(CleanEach(lines)[i])
    {
      var j := CleanEachOrigin(lines, i);
    }
  }

  /** Cleaning keeps lines free of a character that no input line holds. */
  lemma CleanEachKeepsAbsent(lines: seq<string>, c: char)
    requires forall i :: 0 <= i < |lines| ==> c !in lines[i]
    ensures forall i :: 0 <= i < |CleanEach(lines)| ==> c !in CleanEach(lines)[i]
  {
    forall i | 0 <= i < |CleanEach(lines)| ensures c !in CleanEach(lines)[i] {
      var j := CleanEachOrigin(lines, i);
      StripKeepsAbsent(lines[j], c);
    }
  }

  /** Cleaning a list of lines that are already clean changes nothing. */
  lemma {:induction false} CleanEachClean(lines: seq<string>)
    requires forall i :: 0 <= i < |lines| ==> lines[i] != [] && IsStripped(lines[i])
    ensures CleanEach(lines) == lines
  {
    if lines != [] {
      StripStripped(lines[0]);
      CleanEachClean(lines[1..]);
      assert CleanEach(lines) == [Strip(lines[0])] + CleanEach(lines[1..]);
      assert lines == [lines[0]] + lines[1..];
    }
  }

  /** Cleaning is idempotent. */
  lemma CleanEachIdempotent(lines: seq<string>)
    ensures CleanEach(CleanEach(lines)) == CleanEach(lines)
  {
    CleanEachLines(lines);
    CleanEachClean(CleanEach(lines));
  }

  /** The line cleaning of xwall.py line 112: strip the whole output, split it at `\n`,
      strip every piece and drop those left empty. */
  function CleanOutput(output: string): (r: seq<string>)
    ensures forall i :: 0 <= i < |r| ==> IsCleanLine(r[i])
  {
    var pieces := SplitOn(Strip(output), '\n');
    SplitOnPieces(Strip(output), '\n');
    CleanEachLines(pieces);
    CleanEachKeepsAbsent(pieces, '\n');
    CleanEach(pieces)
  }

  /** The first and last characters of a join are those of the first and last pieces. */
  lemma {:induction false} JoinEnds(parts: seq<string>, c: char)
    requires |parts| >= 1
    requires forall i :: 0 <= i < |parts| ==> parts[i] != []
    ensures var j := Join(parts, c); var last := parts[|parts| - 1];
      j != [] && j[0] == parts[0][0] && j[|j| - 1] == last[|last| - 1]
    decreases |parts|
  {
    if |parts| > 1 {
      var tail := parts[1..];
      forall i | 0 <= i < |tail| ensures tail[i] != [] {
        assert tail[i] == parts[i + 1];
      }
      assert tail[|tail| - 1] == parts[|parts| - 1];
      JoinEnds(tail, c);
      var rest := Join(tail, c);
      var j := parts[0] + [c] + rest;
      assert Join(parts, c) == j;
      assert j[0] == parts[0][0];
      assert j[|j| - 1] == rest[|rest| - 1];
    }
  }

  /** Cleaning the newline-joined text of clean lines gives those lines back. */
  lemma CleanOutputJoin(lines: seq<string>)
    requires |lines| >= 1
    requires forall i :: 0 <= i < |lines| ==> IsCleanLine(lines[i])
    ensures CleanOutput(Join(lines, '\n')) == lines
  {
    var text := Join(lines, '\n');
    JoinEnds(lines, '\n');
    StripStripped(text);
    SplitJoin(lines, '\n');
    CleanEachClean(lines);
  }

  /** Trimmed, with no upper-case ASCII letter and no space. */
  predicate IsNormalizedKey(k: string) {
    IsStripped(k) && ' ' !in k && forall i :: 0 <= i < |k| ==> !IsAsciiUpper(k[i])
  }

  /** Field-name normalisation, `key.strip().lower().replace(" ", "_")`. */
  function NormalizeKey(raw: string): (k: string)
    ensures IsNormalizedKey(k)
  {
    var s := Strip(raw);
    var k := ReplaceChar(Lower(s), ' ', '_');
    NormalizeKeyParts(s, k);
    k
  }

  /** Lower-casing keeps whitespace where it is, and `_` is neither whitespace nor an
      upper-case letter, so the normalised key is trimmed and has no upper-case letter. */
  lemma NormalizeKeyParts(s: string, k: string)
    requires IsStripped(s) && k == ReplaceChar(Lower(s), ' ', '_')
    ensures IsNormalizedKey(k)
  {
    var l := Lower(s);
    if s != [] {
      var n := |s| - 1;
      assert !IsSpace(l[0]) && !IsSpace(l[n]);
      assert k[0] == l[0] && k[n] == l[n];
    }
    forall i | 0 <= i < |k| ensures !IsAsciiUpper(k[i]) {
      assert !IsAsciiUpper(l[i]);
    }
  }

  /** A key that is already normalised is left alone, so normalising twice changes nothing. */
  lemma NormalizedKeyFixed(k: string)
    requires IsNormalizedKey(k)
    ensures NormalizeKey(k) == k
  {
    StripStripped(k);
    var l := Lower(k);
    assert l == k;
    assert ReplaceChar(l, ' ', '_') == k;
  }

  lemma NormalizeKeyIdempotent(raw: string)
    ensures NormalizeKey(NormalizeKey(raw)) == NormalizeKey(raw)
  {
    NormalizedKeyFixed(NormalizeKey(raw));
  }

  /** How `listrules` reads one line: when it holds a colon, the text before the first
      colon gives the normalised key and the rest, trimmed, the value; otherwise it is a
      separator exactly when it contains `----`. */
  function Classify(line: string): (r: Line)
    ensures r.KeyValue? <==> ':' in line
    ensures r.Separator? <==> ':' !in line && Contains(line, SeparatorMark)
  {
    if ':' in line then
      var (rawKey, rawValue) := SplitFirst(line, ':');
      KeyValue(NormalizeKey(rawKey), Strip(rawValue))
    else if Contains(line, SeparatorMark) then Separator
    else Other
  }

  /** A field read from a line has a normalised key and a trimmed value. */
  lemma ClassifyClean(line: string)
    ensures Classify(line).KeyValue? ==> IsNormalizedKey(Classify(line).key) && IsStripped(Classify(line).value)
  {
  }

  /** A line `rawKey:rawValue` whose key part holds no colon stores the whole rest of the
      line, later colons included, under the normalised key. */
  lemma ClassifySplitsAtFirstColon(rawKey: string, rawValue: string)
    requires ':' !in rawKey
    ensures Classify(rawKey + ":" + rawValue) == KeyValue(NormalizeKey(rawKey), Strip(rawValue))
  {
    SplitFirstUnique(rawKey, ':', rawValue);
  }

  /** Each line read as `listrules` reads it. */
  function ClassifyAll(lines: seq<string>): (r: seq<Line>)
    ensures |r| == |lines|
    ensures forall i :: 0 <= i < |lines| ==> r[i] == Classify(lines[i])
  {
    seq(|lines|, i requires 0 <= i < |lines| => Classify(lines[i]))
  }

  /** Lines are read independently of one another. */
  lemma ClassifyAllConcat(p: seq<string>, q: seq<string>)
    ensures ClassifyAll(p + q) == ClassifyAll(p) + ClassifyAll(q)
  {
    var l, r := ClassifyAll(p + q), ClassifyAll(p) + ClassifyAll(q);
    forall i | 0 <= i < |l| ensures l[i] == r[i] {
      if i < |p| {
        assert (p + q)[i] == p[i];
      } else {
        assert (p + q)[i] == q[i - |p|];
      }
    }
  }
}
