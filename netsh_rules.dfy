/** The record-building part of `Firewall.listrules` (xwall.py lines 115-130): key/value
    lines fill the current rule, a `----` line closes it, and every rule that received at
    least one field is returned in order, the last one even without a closing `----`. */
module NetshRules {
  import opened PyText
  import opened NetshLines

  /** One firewall rule as the parser builds it: normalised field name to trimmed value. */
  type Rule = map<string, string>

  /** A field the parser stores: (normalised key, trimmed value). */
  type Field = (string, string)

  function SeparatorCount(ls: seq<Line>): nat {
    if ls == [] then 0
    else (if ls[0].Separator? then 1 else 0) + SeparatorCount(ls[1..])
  }

  /** The fields of the key/value lines of `ls`, in order. */
  function FieldsOf(ls: seq<Line>): (fs: seq<Field>)
    ensures |fs| <= |ls|
  {
    if ls == [] then []
    else if ls[0].KeyValue? then [(ls[0].key, ls[0].value)] + FieldsOf(ls[1..])
    else FieldsOf(ls[1..])
  }

  /** The rule blocks of `ls`: the runs of lines between separator lines, each reduced to
      the fields of its key/value lines in order. There is one more block than there are
      separators. */
  function Blocks(ls: seq<Line>): (bs: seq<seq<Field>>)
    ensures |bs| == SeparatorCount(ls) + 1
  {
    if ls == [] then [[]]
    else
      var rest := Blocks(ls[1..]);
      match ls[0]
      case Separator => [[]] + rest
      case KeyValue(k, v) => [[(k, v)] + rest[0]] + rest[1..]
      case Other => rest
  }

  /** The rule a block stands for: its fields entered one after the other, so that a later
      field overwrites an earlier one with the same key. Its keys are those of the fields. */
  function RuleOf(fields: seq<Field>): (r: Rule)
    ensures r.Keys == set i | 0 <= i < |fields| :: fields[i].0
  {
    if fields == [] then map[]
    else
      var n := |fields| - 1;
      var r := RuleOf(fields[..n])[fields[n].0 := fields[n].1];
      assert (set i | 0 <= i < |fields| :: fields[i].0) == (set i | 0 <= i < n :: fields[..n][i].0) + {fields[n].0};
      r
  }

  /** The rules of a sequence of blocks: one per block that has at least one field. */
  function RulesOf(bs: seq<seq<Field>>): (rs: seq<Rule>)
    ensures |rs| <= |bs|
    ensures forall i :: 0 <= i < |rs| ==> rs[i] != map[]
  {
    if bs == [] then []
    else
      var n := |bs| - 1;
      var last := RuleOf(bs[n]);
      RulesOf(bs[..n]) + (if last != map[] then [last] else [])
  }

  lemma RulesOfSnoc(bs: seq<seq<Field>>, b: seq<Field>)
    ensures RulesOf(bs + [b]) == RulesOf(bs) + (if RuleOf(b) != map[] then [RuleOf(b)] else [])
  {
    assert (bs + [b])[..|bs|] == bs;
  }

  /** What `listrules` returns for the cleaned lines `lines`: the rule of every block that
      has a field, in order. No rule is empty, and there is at most one more rule than there
      are separator lines. */
  function RuleRecords(lines: seq<string>): (rs: seq<Rule>)
    ensures |rs| <= SeparatorCount(ClassifyAll(lines)) + 1
    ensures forall i :: 0 <= i < |rs| ==> rs[i] != map[]
  {
    RulesOf(Blocks(ClassifyAll(lines)))
  }

  /** Runs `bp` and `bq` of blocks joined so that the last block of `bp` and the first of
      `bq` run together into one. */
  function JoinBlocks(bp: seq<seq<Field>>, bq: seq<seq<Field>>): seq<seq<Field>>
    requires |bp| >= 1 && |bq| >= 1
  {
    bp[..|bp| - 1] + [bp[|bp| - 1] + bq[0]] + bq[1..]
  }

  /** A new empty block in front commutes with joining. */
  lemma JoinBlocksOpen(bp: seq<seq<Field>>, bq: seq<seq<Field>>)
    requires |bp| >= 1 && |bq| >= 1
    ensures [[]] + JoinBlocks(bp, bq) == JoinBlocks([[]] + bp, bq)
  {
    var e: seq<Field> := [];
    assert ([e] + bp)[..|bp|] == [e] + bp[..|bp| - 1];
  }

  /** A field added to the first block commutes with joining. */
  lemma JoinBlocksField(f: Field, bp: seq<seq<Field>>, bq: seq<seq<Field>>)
    requires |bp| >= 1 && |bq| >= 1
    ensures var r := JoinBlocks(bp, bq);
      [[f] + r[0]] + r[1..] == JoinBlocks([[f] + bp[0]] + bp[1..], bq)
  {
    var r := JoinBlocks(bp, bq);
    var bp' := [[f] + bp[0]] + bp[1..];
    var n := |bp| - 1;
    if n == 0 {
      assert r == [bp[0] + bq[0]] + bq[1..];
      assert bp' == [[f] + bp[0]];
      assert [f] + (bp[0] + bq[0]) == ([f] + bp[0]) + bq[0];
    } else {
      assert r[0] == bp[0] && r[1..] == bp[1..n] + [bp[n] + bq[0]] + bq[1..];
      assert bp'[..n] == [[f] + bp[0]] + bp[1..n];
    }
  }

  /** How the blocks of a concatenation are formed: the last block of `p` and the first of
      `q` run together into one. */
  lemma {:induction false} BlocksConcat(p: seq<Line>, q: seq<Line>)
    ensures Blocks(p + q) == JoinBlocks(Blocks(p), Blocks(q))
    decreases |p|
  {
    var bp, bq := Blocks(p), Blocks(q);
    if p == [] {
      assert p + q == q;
      assert bp == [[]];
      assert bp[..0] == [] && bp[0] + bq[0] == bq[0];
      assert bq == [bq[0]] + bq[1..];
    } else {
      var p' := p[1..];
      assert (p + q)[1..] == p' + q;
      BlocksConcat(p', q);
      var bp' := Blocks(p');
      match p[0]
      case Separator =>
        JoinBlocksOpen(bp', bq);
      case KeyValue(k, v) =>
        JoinBlocksField((k, v), bp', bq);
      case Other =>
    }
  }

  /** Joining with the blocks of a separator line opens a new empty block. */
  lemma JoinBlocksSeparator(bp: seq<seq<Field>>)
    requires |bp| >= 1
    ensures JoinBlocks(bp, [[], []]) == bp + [[]]
  {
    var n := |bp| - 1;
    assert bp[n] + [] == bp[n];
    assert bp == bp[..n] + [bp[n]];
  }

  /** Joining with a single block extends the last block. */
  lemma JoinBlocksOne(bp: seq<seq<Field>>, b: seq<Field>)
    requires |bp| >= 1
    ensures JoinBlocks(bp, [b]) == bp[..|bp| - 1] + [bp[|bp| - 1] + b]
    ensures b == [] ==> JoinBlocks(bp, [b]) == bp
  {
    var n := |bp| - 1;
    assert [b][1..] == [];
    if b == [] {
      assert bp[n] + b == bp[n];
      assert bp == bp[..n] + [bp[n]];
    }
  }

  /** The blocks of a single line. */
  lemma BlocksSingle(x: Line)
    ensures Blocks([x]) == match x
      case Separator => [[], []]
      case KeyValue(k, v) => [[(k, v)]]
      case Other => [[]]
  {
    assert [x][1..] == [];
    var rest := Blocks([]);
    assert rest == [[]];
    match x
    case Separator =>
    case KeyValue(k, v) =>
      assert [(k, v)] + rest[0] == [(k, v)];
      assert rest[1..] == [];
    case Other =>
  }

  /** One more line: a separator opens a new empty block, a key/value line adds its field
      to the last block, and any other line changes nothing. */
  lemma BlocksSnoc(p: seq<Line>, x: Line)
    ensures var bp := Blocks(p); var n := |bp| - 1;
      && (x.Separator? ==> Blocks(p + [x]) == bp + [[]])
      && (x.KeyValue? ==> Blocks(p + [x]) == bp[..n] + [bp[n] + [(x.key, x.value)]])
      && (x.Other? ==> Blocks(p + [x]) == bp)
  {
    BlocksConcat(p, [x]);
    BlocksSingle(x);
    var bp := Blocks(p);
    match x
    case Separator =>
      JoinBlocksSeparator(bp);
    case KeyValue(k, v) =>
      JoinBlocksOne(bp, [(k, v)]);
    case Other =>
      JoinBlocksOne(bp, []);
  }

  /** A line of the third kind, wherever it stands, does not change the blocks. */
  lemma OtherLineNoBlock(p: seq<Line>, q: seq<Line>)
    ensures Blocks(p + [Other] + q) == Blocks(p + q)
  {
    assert p + [Other] + q == p + ([Other] + q);
    assert ([Other] + q)[1..] == q;
    BlocksConcat(p, [Other] + q);
    BlocksConcat(p, q);
  }

  /** A line that is neither a key/value line nor a separator does not change the result,
      wherever it stands. */
  lemma OtherLineIgnored(p: seq<string>, x: string, q: seq<string>)
    requires Classify(x).Other?
    ensures RuleRecords(p + [x] + q) == RuleRecords(p + q)
  {
    ClassifyAllConcat(p + [x], q);
    ClassifyAllConcat(p, [x]);
    ClassifyAllConcat(p, q);
    assert ClassifyAll([x]) == [Other];
    OtherLineNoBlock(ClassifyAll(p), ClassifyAll(q));
  }

  /** Fields whose keys are normalised and whose values are trimmed. */
  predicate CleanFields(fields: seq<Field>) {
    forall i :: 0 <= i < |fields| ==> IsNormalizedKey(fields[i].0) && IsStripped(fields[i].1)
  }

  /** Lines whose key/value lines all carry a normalised key and a trimmed value. */
  predicate CleanLines(ls: seq<Line>) {
    forall i :: 0 <= i < |ls| ==> ls[i].KeyValue? ==> IsNormalizedKey(ls[i].key) && IsStripped(ls[i].value)
  }

  lemma {:induction false} BlocksClean(ls: seq<Line>)
    requires CleanLines(ls)
    ensures forall j :: 0 <= j < |Blocks(ls)| ==> CleanFields(Blocks(ls)[j])
  {
    if ls != [] {
      assert CleanLines(ls[1..]) by {
        forall i | 0 <= i < |ls| - 1 ensures ls[1..][i] == ls[i + 1] { }
      }
      BlocksClean(ls[1..]);
    }
  }

  /** Each value stored in a rule is the value of a field of its block with that key. */
  lemma {:induction false} RuleOfValues(fields: seq<Field>, k: string) returns (i: nat)
    requires k in RuleOf(fields)
    ensures i < |fields| && fields[i] == (k, RuleOf(fields)[k])
  {
    var n := |fields| - 1;
    if fields[n].0 == k {
      i := n;
    } else {
      i := RuleOfValues(fields[..n], k);
      assert fields[i] == fields[..n][i];
    }
  }

  /** Each rule returned is the rule of one of the blocks. */
  lemma {:induction false} RulesOfOrigin(bs: seq<seq<Field>>, i: nat) returns (j: nat)
    requires i < |RulesOf(bs)|
    ensures j < |bs| && RulesOf(bs)[i] == RuleOf(bs[j])
  {
    var n := |bs| - 1;
    if i < |RulesOf(bs[..n])| {
      j := RulesOfOrigin(bs[..n], i);
      assert bs[..n][j] == bs[j];
    } else {
      j := n;
    }
  }

  /** Every stored key is trimmed, lower-case and free of spaces, and every stored value is
      trimmed. */
  lemma RuleRecordsClean(lines: seq<string>, i: nat, k: string)
    requires i < |RuleRecords(lines)| && k in RuleRecords(lines)[i]
    ensures IsNormalizedKey(k) && IsStripped(RuleRecords(lines)[i][k])
  {
    var ls := ClassifyAll(lines);
    var bs := Blocks(ls);
    forall j | 0 <= j < |ls| ensures ls[j].KeyValue? ==> IsNormalizedKey(ls[j].key) && IsStripped(ls[j].value) {
      ClassifyClean(lines[j]);
    }
    BlocksClean(ls);
    var j := RulesOfOrigin(bs, i);
    var f := RuleOfValues(bs[j], k);
  }

  /** Within one block the last field with a given key decides its value. */
  lemma {:induction false} RuleOfLastWins(fields: seq<Field>, i: nat)
    requires i < |fields|
    requires forall j :: i < j < |fields| ==> fields[j].0 != fields[i].0
    ensures fields[i].0 in RuleOf(fields) && RuleOf(fields)[fields[i].0] == fields[i].1
  {
    var n := |fields| - 1;
    if i < n {
      RuleOfLastWins(fields[..n], i);
    }
  }

  /** A run of lines without separators forms a single block of its key/value fields. */
  lemma {:induction false} BlocksWithoutSeparator(ls: seq<Line>)
    requires SeparatorCount(ls) == 0
    ensures Blocks(ls) == [FieldsOf(ls)]
  {
    if ls != [] {
      BlocksWithoutSeparator(ls[1..]);
    }
  }

  /** After a separator (or at the start) the last block is empty. */
  lemma LastBlockAfterSeparator(p: seq<Line>)
    requires p == [] || p[|p| - 1].Separator?
    ensures var bp := Blocks(p); bp[|bp| - 1] == [] && bp == bp[..|bp| - 1] + [[]]
  {
    if p != [] {
      var p' := p[..|p| - 1];
      assert p == p' + [Separator];
      BlocksSnoc(p', Separator);
    }
  }

  /** Lines without a separator after a separator fill the last, empty, block. */
  lemma TrailingBlockShape(p: seq<Line>, t: seq<Line>)
    requires p == [] || p[|p| - 1].Separator?
    requires SeparatorCount(t) == 0
    ensures var bp := Blocks(p); Blocks(p + t) == bp[..|bp| - 1] + [FieldsOf(t)]
  {
    var fs := FieldsOf(t);
    var bp := Blocks(p);
    BlocksWithoutSeparator(t);
    BlocksConcat(p, t);
    JoinBlocksOne(bp, fs);
    LastBlockAfterSeparator(p);
    assert bp[|bp| - 1] + fs == fs;
  }

  lemma TrailingBlockKept(p: seq<Line>, t: seq<Line>)
    requires p == [] || p[|p| - 1].Separator?
    requires SeparatorCount(t) == 0
    requires FieldsOf(t) != []
    ensures RulesOf(Blocks(p + t)) == RulesOf(Blocks(p)) + [RuleOf(FieldsOf(t))]
  {
    var fs := FieldsOf(t);
    TrailingBlockShape(p, t);
    LastBlockAfterSeparator(p);
    var bp := Blocks(p);
    var n := |bp| - 1;
    RulesOfSnoc(bp[..n], fs);
    RulesOfSnoc(bp[..n], []);
    assert fs[0].0 in RuleOf(fs).Keys;
  }

  /** A final rule that no `----` line closes is still returned, after the rules before
      it: `tail` follows a separator (or starts the output), holds no separator and has at
      least one key/value line. */
  lemma TrailingRuleKept(p: seq<string>, tail: seq<string>)
    requires p == [] || Classify(p[|p| - 1]).Separator?
    requires SeparatorCount(ClassifyAll(tail)) == 0
    requires FieldsOf(ClassifyAll(tail)) != []
    ensures RuleRecords(p + tail) == RuleRecords(p) + [RuleOf(FieldsOf(ClassifyAll(tail)))]
  {
    assert ClassifyAll(p + tail) == ClassifyAll(p) + ClassifyAll(tail);
    TrailingBlockKept(ClassifyAll(p), ClassifyAll(tail));
  }

  /** After two fields and a separator, the loop has closed one rule with both fields. */
  lemma FirstRuleClosed(f0: Line, f1: Line)
    requires f0.KeyValue? && f1.KeyValue?
    ensures LoopState([f0, f1, Separator], [map[f0.key := f0.value, f1.key := f1.value]], map[])
  {
    var first := map[f0.key := f0.value, f1.key := f1.value];
    assert LoopState([], [], map[]);
    LoopStep([], f0, [], map[]);
    assert [] + [f0] == [f0];
    LoopStep([f0], f1, [], map[f0.key := f0.value]);
    assert [f0] + [f1] == [f0, f1];
    LoopStep([f0, f1], Separator, [], first);
    assert [f0, f1] + [Separator] == [f0, f1, Separator];
    assert f0.key in first;
  }

  /** Two field lines, a separator, a field line and a separator give two rules: the
      first holds both fields and the second the third; the end of input after the last
      separator adds no empty rule. */
  lemma TwoRulesShape(f0: Line, f1: Line, f3: Line)
    requires f0.KeyValue? && f1.KeyValue? && f3.KeyValue?
    ensures RulesOf(Blocks([f0, f1, Separator, f3, Separator]))
         == [map[f0.key := f0.value, f1.key := f1.value], map[f3.key := f3.value]]
  {
    var first := map[f0.key := f0.value, f1.key := f1.value];
    var second := map[f3.key := f3.value];
    var p := [f0, f1, Separator];
    FirstRuleClosed(f0, f1);
    LoopStep(p, f3, [first], map[]);
    LoopStep(p + [f3], Separator, [first], second);
    assert f3.key in second;
    assert p + [f3] + [Separator] == [f0, f1, Separator, f3, Separator];
    LoopEnd(p + [f3] + [Separator], [first, second], map[]);
  }

  /** The state of the parsing loop after the lines `ls`: the rules already closed and the
      rule being filled are the rules of the closed blocks and of the open one. */
  predicate LoopState(ls: seq<Line>, rules: seq<Rule>, current: Rule) {
    var bs := Blocks(ls);
    rules == RulesOf(bs[..|bs| - 1]) && current == RuleOf(bs[|bs| - 1])
  }

  /** A field line enters its key and value into the open rule. */
  lemma LoopStepField(p: seq<Line>, k: string, v: string, rules: seq<Rule>, current: Rule)
    requires LoopState(p, rules, current)
    ensures LoopState(p + [KeyValue(k, v)], rules, current[k := v])
  {
    BlocksSnoc(p, KeyValue(k, v));
    var bp := Blocks(p);
    var n := |bp| - 1;
    var bx := Blocks(p + [KeyValue(k, v)]);
    assert bx[..|bx| - 1] == bp[..n];
    assert bx[|bx| - 1] == bp[n] + [(k, v)];
    assert (bp[n] + [(k, v)])[..|bp[n]|] == bp[n];
  }

  /** A separator closes the open rule, keeping it only when non-empty, and opens an
      empty one. */
  lemma LoopStepSeparator(p: seq<Line>, rules: seq<Rule>, current: Rule)
    requires LoopState(p, rules, current)
    ensures LoopState(p + [Separator], rules + (if current != map[] then [current] else []), map[])
  {
    BlocksSnoc(p, Separator);
    var bp := Blocks(p);
    var n := |bp| - 1;
    var bx := Blocks(p + [Separator]);
    assert bx[..|bx| - 1] == bp;
    assert bp == bp[..n] + [bp[n]];
  }

  /** One step of the loop keeps `LoopState`: a field is entered into the open rule, a
      separator closes it (keeping it only when non-empty) and opens an empty one, and any
      other line changes nothing. */
  lemma LoopStep(p: seq<Line>, x: Line, rules: seq<Rule>, current: Rule)
    requires LoopState(p, rules, current)
    ensures x.KeyValue? ==> LoopState(p + [x], rules, current[x.key := x.value])
    ensures x.Separator? ==> LoopState(p + [x], rules + (if current != map[] then [current] else []), map[])
    ensures x.Other? ==> LoopState(p + [x], rules, current)
  {
    match x
    case Separator => LoopStepSeparator(p, rules, current);
    case KeyValue(k, v) => LoopStepField(p, k, v, rules, current);
    case Other => BlocksSnoc(p, x);
  }

  /** The loop's final flush yields exactly the rules of all the blocks. */
  lemma LoopEnd(ls: seq<Line>, rules: seq<Rule>, current: Rule)
    requires LoopState(ls, rules, current)
    ensures RulesOf(Blocks(ls)) == rules + (if current != map[] then [current] else [])
  {
    var bs := Blocks(ls);
    assert bs == bs[..|bs| - 1] + [bs[|bs| - 1]];
  }

  /** `LoopStep` for the line at position `i` of the loop. */
  lemma LoopStepAt(ls: seq<Line>, i: nat, rules: seq<Rule>, current: Rule)
    requires i < |ls| && LoopState(ls[..i], rules, current)
    ensures ls[i].KeyValue? ==> LoopState(ls[..i + 1], rules, current[ls[i].key := ls[i].value])
    ensures ls[i].Separator? ==> LoopState(ls[..i + 1], rules + (if current != map[] then [current] else []), map[])
    ensures ls[i].Other? ==> LoopState(ls[..i + 1], rules, current)
  {
    assert ls[..i + 1] == ls[..i] + [ls[i]];
    LoopStep(ls[..i], ls[i], rules, current);
  }

  /** The parsing loop of `listrules` (xwall.py lines 115-130) over the cleaned lines. */
  method ParseRules(lines: seq<string>) returns (rules: seq<Rule>)
    ensures rules == RuleRecords(lines)
  {
    ghost var ls := ClassifyAll(lines);
    rules := [];
    var current: Rule := map[];
    var i := 0;
    assert ls[..0] == [];
    while i < |lines|
      invariant 0 <= i <= |lines|
      invariant LoopState(ls[..i], rules, current)
    {
      var line := lines[i];
      LoopStepAt(ls, i, rules, current);
      if ':' in line {
        var (rawKey, rawValue) := SplitFirst(line, ':');
        current := current[NormalizeKey(rawKey) := Strip(rawValue)];
      } else if Contains(line, SeparatorMark) {
        if current != map[] {
          rules := rules + [current];
        }
        current := map[];
      }
      i := i + 1;
    }
    assert ls[..i] == ls;
    LoopEnd(ls, rules, current);
    if current != map[] {
      rules := rules + [current];
    }
  }
}
