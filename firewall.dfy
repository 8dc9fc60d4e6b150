/** `Firewall.block_traffic` and `Firewall.listrules` of xwall.py, with the operating system
    turned into parameters: the directory listing, the clock, `time.ctime`, and the outcome
    of each `netsh` run. */
module Firewall {
  import opened PyText
  import opened NetshLines
  import opened NetshRules

  /** The argument vector of one `subprocess.run` call. */
  type Argv = seq<string>

  const AddRuleCommand: Argv := ["netsh", "advfirewall", "firewall", "add", "rule"]
  const ListRuleCommand: Argv := ["netsh", "advfirewall", "firewall", "show rule", "name=all"]
  const Settings: Argv := ["enable=yes", "profile=any"]
  const RulePrefix: string := "APW-"

  /** A directory entry as `Path.iterdir()` yields it: its final name and its `absolute()` path. */
  datatype Entry = Entry(name: string, absolute: string)

  /** The folder given to `block_traffic`: not a directory, or the entries it lists. */
  datatype Listing = NotADirectory | Directory(entries: seq<Entry>)

  /** How a run of `block_traffic` ends: normally, or with status `code`. A failed netsh
      call reaches `sys.exit(1)`; a folder that is not a directory ends in an uncaught
      `TypeError` instead, which the model also records as `Exited(1)`. */
  datatype Status = Completed | Exited(code: int)

  datatype Direction = In | Out

  /** What one `subprocess.run(..., capture_output=True, text=True, check=True)` of netsh
      gives back: its decoded standard output, or a failure (non-zero exit, raised as
      `CalledProcessError`). */
  datatype RunResult = Finished(stdout: string) | Failed

  datatype ListResult = Rules(rules: seq<Rule>) | ListExited(code: int)

  datatype Option<T> = None | Some(value: T)

  // ---------------------------------------------------------------------------------
  // pathlib's `suffix` and `stem`

  /** `PurePath.suffix`: from the last dot of the name, unless that dot starts the name or
      ends it. */
  function Suffix(name: string): (r: string)
    ensures r == [] || (2 <= |r| < |name| && r[0] == '.' && '.' !in r[1..])
    ensures r == name[|name| - |r|..]
  {
    var i := RFind(name, '.');
    if 0 < i < |name| - 1 then
      assert forall j :: 0 <= j < |name| - i - 1 ==> name[i..][1..][j] == name[i + 1 + j];
      name[i..]
    else ""
  }

  /** `PurePath.stem`: the name without its suffix. */
  function Stem(name: string): (r: string)
    ensures r + Suffix(name) == name
  {
    var i := RFind(name, '.');
    if 0 < i < |name| - 1 then
      assert name[..i] + name[i..] == name;
      name[..i]
    else name
  }

  /** A name has the suffix `.exe` exactly when it ends in `.exe` with something before it;
      it is case-sensitive, so `APP.EXE` and the bare `.exe` are not selected. The stem is
      then the name without those four characters. */
  lemma SuffixIsExe(name: string)
    ensures Suffix(name) == ".exe" <==> |name| >= 5 && EndsWith(name, ".exe")
    ensures Suffix(name) == ".exe" ==> Stem(name) == name[..|name| - 4]
  {
    var i := RFind(name, '.');
    if |name| >= 5 && EndsWith(name, ".exe") {
      var n := |name|;
      assert name[n - 4..] == ".exe";
      assert name[n - 4] == '.' && name[n - 3] == 'e' && name[n - 2] == 'x' && name[n - 1] == 'e';
      assert i == n - 4;
    }
    if Suffix(name) == ".exe" {
      assert |name[i..]| == 4;
    }
  }

  /** `[file for file in path.iterdir() if file.suffix == ".exe"]`, in listing order. */
  function SelectExe(entries: seq<Entry>): (r: seq<Entry>)
    ensures |r| <= |entries|
    ensures forall e :: e in r <==> e in entries && Suffix(e.name) == ".exe"
  {
    if entries == [] then []
    else
      var rest := SelectExe(entries[1..]);
      assert entries == [entries[0]] + entries[1..];
      if Suffix(entries[0].name) == ".exe" then [entries[0]] + rest else rest
  }

  /** The selection keeps the listing's order: selecting from two runs of entries one
      after the other selects from each in turn. */
  lemma {:induction false} SelectExeConcat(a: seq<Entry>, b: seq<Entry>)
    ensures SelectExe(a + b) == SelectExe(a) + SelectExe(b)
  {
    if a != [] {
      SelectExeConcat(a[1..], b);
      SelectExeConcatStep(a, b);
    } else {
      assert a + b == b;
    }
  }

  lemma SelectExeConcatStep(a: seq<Entry>, b: seq<Entry>)
    requires a != []
    requires SelectExe(a[1..] + b) == SelectExe(a[1..]) + SelectExe(b)
    ensures SelectExe(a + b) == SelectExe(a) + SelectExe(b)
  {
    SeqConcatParts(a, b);
    if Suffix(a[0].name) == ".exe" {
      SeqAppendAssoc([a[0]], SelectExe(a[1..]), SelectExe(b));
    }
  }

  // ---------------------------------------------------------------------------------
  // Rule names

  function DigitChar(d: nat): char
    requires d < 10
  {
    ('0' as int + d) as char
  }

  predicate IsDigit(c: char) {
    '0' <= c <= '9'
  }

  predicate AllDigits(s: string) {
    forall i :: 0 <= i < |s| ==> IsDigit(s[i])
  }

  /** The value of a string of decimal digits. */
  function DecimalValue(s: string): nat
    requires AllDigits(s)
  {
    if s == [] then 0
    else
      var d := s[|s| - 1];
      assert IsDigit(d);
      DecimalValue(s[..|s| - 1]) * 10 + (d as int - '0' as int)
  }

  /** `str(n)` for a natural number: decimal digits without leading zeros, whose value is `n`. */
  function Decimal(n: nat): (r: string)
    ensures r != [] && AllDigits(r)
    ensures |r| > 1 ==> r[0] != '0'
    ensures DecimalValue(r) == n
  {
    if n < 10 then [DigitChar(n)]
    else
      var r := Decimal(n / 10) + [DigitChar(n % 10)];
      assert r[..|r| - 1] == Decimal(n / 10);
      r
  }

  function DirectionTag(d: Direction): char {
    match d
    case In => 'I'
    case Out => 'O'
  }

  /** `f'APW-{time_now}-BKI-{file.stem}'` for inbound rules, `...-BKO-...` for outbound. */
  function RuleName(time: nat, d: Direction, stem: string): (r: string)
    ensures |r| > |RulePrefix| + |stem|
    ensures r[..|RulePrefix|] == RulePrefix && r[|r| - |stem|..] == stem
  {
    var r := RulePrefix + Decimal(time) + "-BK" + [DirectionTag(d)] + "-" + stem;
    assert r == RulePrefix + (Decimal(time) + "-BK" + [DirectionTag(d)] + "-") + stem;
    r
  }

  /** Reads a rule name back into its timestamp, direction and stem. */
  function ParseRuleName(name: string): Option<(nat, Direction, string)> {
    if |name| < |RulePrefix| || name[..|RulePrefix|] != RulePrefix then None
    else
      var rest := name[|RulePrefix|..];
      var j := IndexOf(rest, '-');
      var digits := rest[..j];
      var tail := rest[j..];
      if digits == [] || !AllDigits(digits) then None
      else if |tail| < 5 || tail[..3] != "-BK" || tail[4] != '-' then None
      else if tail[3] == 'I' then Some((DecimalValue(digits), In, tail[5..]))
      else if tail[3] == 'O' then Some((DecimalValue(digits), Out, tail[5..]))
      else None
  }

  /** Decimal digits hold no dash. */
  lemma DigitsHaveNoDash(digits: string)
    requires AllDigits(digits)
    ensures '-' !in digits
  {
    forall i | 0 <= i < |digits| ensures digits[i] != '-' {
      assert IsDigit(digits[i]);
    }
  }

  /** After the prefix, the digits run up to the first dash, and the rest is the tail. */
  lemma RuleNameRest(digits: string, tail: string)
    requires '-' !in digits && tail != [] && tail[0] == '-'
    ensures var rest := (RulePrefix + digits + tail)[|RulePrefix|..];
      && rest == digits + tail
      && IndexOf(rest, '-') == |digits|
      && rest[..|digits|] == digits && rest[|digits|..] == tail
  {
    var name := RulePrefix + digits + tail;
    assert name[|RulePrefix|..] == digits + tail;
    assert digits + tail == digits + ['-'] + tail[1..];
    IndexOfFirst(digits, '-', tail[1..]);
  }

  /** The tail of a rule name: `-BK`, the direction letter, a dash, then the stem. */
  lemma TailFields(d: Direction, stem: string)
    ensures var tail := "-BK" + [DirectionTag(d)] + "-" + stem;
      && |tail| >= 5 && tail[0] == '-' && tail[..3] == "-BK" && tail[3] == DirectionTag(d)
      && tail[4] == '-' && tail[5..] == stem
  {
    var tail := "-BK" + [DirectionTag(d)] + "-" + stem;
    assert tail == "-BK" + [DirectionTag(d), '-'] + stem;
  }

  /** A name made of the prefix, a run of digits and a well-formed tail is read back
      into the digits' value, the direction and the stem. */
  lemma ParseWellFormedName(digits: string, d: Direction, stem: string)
    requires digits != [] && AllDigits(digits)
    ensures ParseRuleName(RulePrefix + digits + ("-BK" + [DirectionTag(d)] + "-" + stem))
         == Some((DecimalValue(digits), d, stem))
  {
    var tail := "-BK" + [DirectionTag(d)] + "-" + stem;
    var name := RulePrefix + digits + tail;
    TailFields(d, stem);
    DigitsHaveNoDash(digits);
    RuleNameRest(digits, tail);
    assert name[..|RulePrefix|] == RulePrefix;
  }

  /** The naming scheme is unambiguous: timestamp, direction and stem are read back from
      the name, whatever the stem holds (dashes included). */
  lemma RuleNameRoundTrip(time: nat, d: Direction, stem: string)
    ensures ParseRuleName(RuleName(time, d, stem)) == Some((time, d, stem))
  {
    var digits := Decimal(time);
    assert RuleName(time, d, stem) == RulePrefix + digits + ("-BK" + [DirectionTag(d)] + "-" + stem);
    ParseWellFormedName(digits, d, stem);
  }

  /** Inbound and outbound rules for the same file and time have different names. */
  lemma RuleNamesDiffer(time: nat, stem: string)
    ensures RuleName(time, In, stem) != RuleName(time, Out, stem)
  {
    RuleNameRoundTrip(time, In, stem);
    RuleNameRoundTrip(time, Out, stem);
  }

  // ---------------------------------------------------------------------------------
  // The commands of block_traffic

  /** One rule `block_traffic` asks netsh to add: the file, the time read for it, that
      time as `time.ctime` prints it, and the direction. */
  datatype RuleCall = RuleCall(file: Entry, time: nat, iso: string, dir: Direction)

  /** The value of a `key=value` argument such as netsh takes, when `arg` starts with `key`. */
  function ArgValue(arg: string, key: string): Option<string> {
    if |key| <= |arg| && arg[..|key|] == key then Some(arg[|key|..]) else None
  }

  lemma ArgValueOf(key: string, value: string)
    ensures ArgValue(key + value, key) == Some(value)
  {
    assert (key + value)[..|key|] == key;
  }

  /** The argument vector of the `netsh ... add rule` call for `c` (xwall.py lines 45-63). */
  function BlockRule(c: RuleCall): (r: Argv)
    ensures |r| == |AddRuleCommand| + 5 + |Settings|
  {
    AddRuleCommand
      + [if c.dir == In then "dir=in" else "dir=out", "action=block",
         "name=" + RuleName(c.time, c.dir, Stem(c.file.name)),
         "program=" + c.file.absolute,
         "description=Autofirewall generated rule at " + c.iso + " by Python process."]
      + Settings
  }

  /** A rule command adds a blocking rule for the file's absolute path with `enable=yes`
      and `profile=any`, in the call's direction, under a name that carries the time, the
      direction and the file's stem. */
  lemma BlockRuleShape(c: RuleCall)
    ensures var r := BlockRule(c);
      && |r| == 12 && r[..5] == AddRuleCommand && r[10..] == Settings
      && r[5] == (if c.dir == In then "dir=in" else "dir=out") && r[6] == "action=block"
      && r[7] == "name=" + RuleName(c.time, c.dir, Stem(c.file.name))
      && r[8] == "program=" + c.file.absolute
  {
    var args := [if c.dir == In then "dir=in" else "dir=out", "action=block",
                 "name=" + RuleName(c.time, c.dir, Stem(c.file.name)),
                 "program=" + c.file.absolute,
                 "description=Autofirewall generated rule at " + c.iso + " by Python process."];
    SeqThreeParts(AddRuleCommand, args, Settings);
  }

  lemma SeqThreeParts<T>(a: seq<T>, b: seq<T>, c: seq<T>)
    ensures (a + b + c)[..|a|] == a && (a + b + c)[|a| + |b|..] == c
    ensures forall i :: 0 <= i < |b| ==> (a + b + c)[|a| + i] == b[i]
  {
    assert (a + b + c)[..|a|] == a;
    assert (a + b + c)[|a| + |b|..] == c;
  }

  /** The rule name and program path can be read back from a rule command: its `name=`
      argument parses into the call's time, direction and the file's stem, and its
      `program=` argument holds the file's absolute path. */
  lemma BlockRuleRoundTrip(c: RuleCall)
    ensures var r := BlockRule(c);
      && ArgValue(r[7], "name=").Some?
      && ParseRuleName(ArgValue(r[7], "name=").value) == Some((c.time, c.dir, Stem(c.file.name)))
      && ArgValue(r[8], "program=") == Some(c.file.absolute)
  {
    BlockRuleShape(c);
    ArgValueOf("name=", RuleName(c.time, c.dir, Stem(c.file.name)));
    ArgValueOf("program=", c.file.absolute);
    RuleNameRoundTrip(c.time, c.dir, Stem(c.file.name));
  }

  /** Two rule commands for different times, directions or stems are different. */
  lemma BlockRulesDiffer(c1: RuleCall, c2: RuleCall)
    requires (c1.time, c1.dir, Stem(c1.file.name)) != (c2.time, c2.dir, Stem(c2.file.name))
    ensures BlockRule(c1) != BlockRule(c2)
  {
    BlockRuleRoundTrip(c1);
    BlockRuleRoundTrip(c2);
  }

  /** The rules `block_traffic` adds when every call succeeds: for each selected file,
      read at time `clock(k)` when it is the `k`-th, first the inbound and then the
      outbound rule. */
  function Plan(files: seq<Entry>, clock: nat -> nat, ctime: nat -> string): (r: seq<RuleCall>)
    ensures |r| == 2 * |files|
  {
    if files == [] then []
    else
      var n := |files| - 1;
      var t := clock(n);
      Plan(files[..n], clock, ctime) + [RuleCall(files[n], t, ctime(t), In), RuleCall(files[n], t, ctime(t), Out)]
  }

  /** The two calls the plan makes for file `k`: call `2k` inbound and call `2k + 1`
      outbound, both at the time read for that file. */
  lemma {:induction false} PlanPair(files: seq<Entry>, clock: nat -> nat, ctime: nat -> string, k: nat)
    requires k < |files|
    ensures var plan := Plan(files, clock, ctime);
      && plan[2 * k] == RuleCall(files[k], clock(k), ctime(clock(k)), In)
      && plan[2 * k + 1] == RuleCall(files[k], clock(k), ctime(clock(k)), Out)
  {
    var n := |files| - 1;
    if k < n {
      PlanPair(files[..n], clock, ctime, k);
      assert files[..n][k] == files[k];
    }
  }

  lemma SelectedIsExe(entries: seq<Entry>, e: Entry)
    requires e in SelectExe(entries)
    ensures e in entries && Suffix(e.name) == ".exe"
  {
  }

  /** The plan has two calls per selected file and nothing else: calls `2k` and `2k + 1`
      block a listed `.exe` entry, the same one, inbound and then outbound, at the time
      read for it. */
  lemma PlanCoversSelection(entries: seq<Entry>, clock: nat -> nat, ctime: nat -> string, k: nat)
    requires k < |SelectExe(entries)|
    ensures var plan := Plan(SelectExe(entries), clock, ctime);
      && |plan| == 2 * |SelectExe(entries)|
      && plan[2 * k].file in entries && Suffix(plan[2 * k].file.name) == ".exe"
      && plan[2 * k + 1].file == plan[2 * k].file
      && plan[2 * k].dir == In && plan[2 * k + 1].dir == Out
      && plan[2 * k].time == clock(k) && plan[2 * k + 1].time == clock(k)
  {
    var files := SelectExe(entries);
    PlanPair(files, clock, ctime, k);
    SelectedIsExe(entries, files[k]);
  }

  /** The argument vectors of the calls `cs`, in order. */
  function Rendered(cs: seq<RuleCall>): (r: seq<Argv>)
    ensures |r| == |cs|
  {
    if cs == [] then [] else Rendered(cs[..|cs| - 1]) + [BlockRule(cs[|cs| - 1])]
  }

  /** Call `i` of `Rendered(cs)` is the argument vector of `cs[i]`. */
  lemma {:induction false} RenderedAt(cs: seq<RuleCall>, i: nat)
    requires i < |cs|
    ensures Rendered(cs)[i] == BlockRule(cs[i])
    decreases |cs|
  {
    if i < |cs| - 1 {
      RenderedAt(cs[..|cs| - 1], i);
    }
  }

  lemma RenderedSnoc(cs: seq<RuleCall>, n: nat)
    requires n < |cs|
    ensures Rendered(cs[..n + 1]) == Rendered(cs[..n]) + [BlockRule(cs[n])]
  {
    assert cs[..n + 1][..n] == cs[..n];
  }

  /** Every call in `cmds` exits with status 0. */
  predicate AllSucceed(cmds: seq<Argv>, succeeds: Argv -> bool) {
    forall i :: 0 <= i < |cmds| ==> succeeds(cmds[i])
  }

  lemma AllSucceedSnoc(cmds: seq<Argv>, x: Argv, succeeds: Argv -> bool)
    ensures AllSucceed(cmds + [x], succeeds) <==> AllSucceed(cmds, succeeds) && succeeds(x)
  {
    var after := cmds + [x];
    assert after[|cmds|] == x;
    assert forall i :: 0 <= i < |cmds| ==> after[i] == cmds[i];
  }

  /** One `subprocess.run(add rule ..., check=True)` of `block_traffic`: the call for
      `c`, the next one of the plan, is appended to the calls made so far, and `ok` says
      whether it exited with status 0. */
  method RunAddRule(issued: seq<Argv>, ghost plan: seq<RuleCall>, c: RuleCall, succeeds: Argv -> bool)
    returns (after: seq<Argv>, ok: bool)
    requires |issued| < |plan| && plan[|issued|] == c
    requires issued == Rendered(plan[..|issued|])
    ensures after == Rendered(plan[..|issued| + 1])
    ensures after[..|issued|] == issued
    ensures ok == succeeds(after[|issued|])
    ensures AllSucceed(after, succeeds) <==> AllSucceed(issued, succeeds) && ok
  {
    var argv := BlockRule(c);
    RenderedSnoc(plan, |issued|);
    after := issued + [argv];
    assert after[..|issued|] == issued;
    AllSucceedSnoc(issued, argv, succeeds);
    ok := succeeds(argv);
  }

  /** `block_traffic(path, ingoing, outgoing)` (xwall.py lines 22-74): returns the `netsh`
      calls made, in order, and how the program ends. `succeeds` says whether a call exits
      with status 0; the first failing one ends the program with status 1. The `ingoing` and
      `outgoing` flags are accepted and, as in the source, have no effect. */
  method BlockTraffic(listing: Listing, ingoing: bool, outgoing: bool,
                      clock: nat -> nat, ctime: nat -> string, succeeds: Argv -> bool)
    returns (issued: seq<Argv>, status: Status)
    ensures listing.NotADirectory? ==> issued == [] && status == Exited(1)
    ensures listing.Directory? ==>
      var plan := Plan(SelectExe(listing.entries), clock, ctime);
      && |issued| <= |plan|
      && issued == Rendered(plan[..|issued|])
      && (status == Completed ==> |issued| == |plan| && AllSucceed(issued, succeeds))
      && (status != Completed ==>
            && status == Exited(1) && issued != []
            && AllSucceed(issued[..|issued| - 1], succeeds) && !succeeds(issued[|issued| - 1]))
  {
    if listing.NotADirectory? {
      // xwall.py line 35 raises NameError; its handler at line 73 raises TypeError
      return [], Exited(1);
    }
    var files := SelectExe(listing.entries);
    ghost var plan := Plan(files, clock, ctime);
    issued := [];
    var k := 0;
    while k < |files|
      invariant 0 <= k <= |files|
      invariant |issued| == 2 * k
      invariant issued == Rendered(plan[..2 * k])
      invariant AllSucceed(issued, succeeds)
    {
      var file := files[k];
      var timeNow := clock(k);
      var timeIso := ctime(timeNow);
      PlanPair(files, clock, ctime, k);
      var ok;
      issued, ok := RunAddRule(issued, plan, RuleCall(file, timeNow, timeIso, In), succeeds);
      if !ok {
        return issued, Exited(1);
      }
      issued, ok := RunAddRule(issued, plan, RuleCall(file, timeNow, timeIso, Out), succeeds);
      if !ok {
        return issued, Exited(1);
      }
      assert 2 * (k + 1) == 2 * k + 2;
      k := k + 1;
    }
    assert plan[..2 * k] == plan;
    status := Completed;
  }

  // ---------------------------------------------------------------------------------
  // listrules

  /** `NETSH_LISTRULE_CMD + [*options, "verbose"]` (xwall.py line 108). */
  function ListCommand(options: seq<string>): (r: Argv)
    ensures |r| == |ListRuleCommand| + |options| + 1
    ensures r[..|ListRuleCommand|] == ListRuleCommand
    ensures r[|ListRuleCommand|..|r| - 1] == options && r[|r| - 1] == "verbose"
  {
    var r := ListRuleCommand + options + ["verbose"];
    assert r[|ListRuleCommand|..|r| - 1] == options;
    r
  }

  /** `listrules(options)` (xwall.py lines 100-137): runs netsh through `run` and parses
      its output; a failed run ends the program with status 1. */
  method ListRules(options: seq<string>, run: Argv -> RunResult) returns (r: ListResult)
    ensures r.Rules? <==> run(ListCommand(options)).Finished?
    ensures r.ListExited? ==> r.code == 1
    ensures r.Rules? ==> r.rules == RuleRecords(CleanOutput(run(ListCommand(options)).stdout))
    ensures r.Rules? ==> forall i :: 0 <= i < |r.rules| ==> r.rules[i] != map[]
  {
    var result := run(ListCommand(options));
    if result.Failed? {
      return ListExited(1);
    }
    var outputLines := CleanOutput(result.stdout);
    var rules := ParseRules(outputLines);
    return Rules(rules);
  }
}
