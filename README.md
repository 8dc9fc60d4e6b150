# AutoPyrewall firewall wrapper: the netsh rule-text parser and the `.exe` blocker

This project models the firewall part of AutoPyrewall (`xwall.py`), a Python wrapper
around Windows' `netsh advfirewall firewall` command, and proves properties of that model.

* **`Firewall.listrules`** runs `netsh advfirewall firewall show rule name=all verbose` and
  turns its text output into a list of rule records. First it cleans the text: the whole
  output is stripped, split at `\n`, every line is stripped, and blank lines are dropped.
  Then a loop goes over the lines. A line holding a colon is split at its first colon into
  a field. The name part is trimmed, lower-cased and has its spaces turned into `_`; the
  value part is trimmed. A line holding `----` (and no colon) closes the current record.
  A closed record is kept only when it has at least one field. At the end of input, a
  pending non-empty record is appended. Any other line is skipped.
* **`Firewall.block_traffic`** lists a folder and keeps the entries whose `pathlib` suffix
  is exactly `.exe`. For each of them it adds two blocking rules through
  `netsh ... add rule`: an inbound rule named `APW-<time>-BKI-<stem>` and an outbound rule
  named `APW-<time>-BKO-<stem>`. Both carry `action=block`, `enable=yes` and `profile=any`.
  The first failing `netsh` call ends the program with status 1.

Modules, one per layer of the source:

* `PyText` (`pytext.dfy`) holds the Python `str` operations the code relies on: `strip()`
  with Python's whitespace set, `split("\n")`, `split(":", 1)`, `lower()`,
  `replace(" ", "_")`, the substring test `in`, and `rfind`.
* `NetshLines` (`netsh_lines.dfy`) holds the line cleaning of `xwall.py` line 112 and how
  the loop reads one line: as a field, a separator, or a line it skips.
* `NetshRules` (`netsh_rules.dfy`) holds the parsing loop, as the method `ParseRules`. The
  method is proved equal to an independent specification, `RuleRecords`. That function
  cuts the classified lines into blocks at the separators. It turns each block into a map
  in which later fields overwrite earlier ones, and keeps the non-empty maps. All stated
  properties are proved about `RuleRecords`.
* `Firewall` (`firewall.dfy`) holds `block_traffic` and the top level of `listrules`. The
  operating system is passed in as parameters: the directory listing, the clock, the
  `time.ctime` formatting, and the outcome of each `netsh` call.

Two places where `block_traffic` does not do what its signature and docstring suggest; the
model follows the code:

* `block_traffic(path, ingoing, outgoing)` (xwall.py line 22) takes `ingoing` and `outgoing`
  flags but never reads them, so both rules are always added (`Firewall.BlockTraffic`
  accepts and ignores the flags). Its docstring (line 28) documents the folder argument as
  `folder_path`, whereas the parameter is named `path`.
* When the folder is not a directory, xwall.py line 35 reads that undefined name
  `folder_path`. The `NameError` is caught at line 72. The handler's `ex.with_traceback()`
  call (no argument) then raises a `TypeError`, so `block_traffic` ends by raising that
  exception before its `sys.exit(1)` is reached and without printing its message. A
  caller's `except Exception` would catch it; uncaught, Python prints its traceback and
  exits with status 1. The model records this path as `Exited(1)` with no `netsh` call,
  which is what the code's evident intent (`sys.exit(1)`) gives.

## Model

| member | source | states |
|---|---|---|
| `PyText.IsSpace` | xwall.py:112 | the whitespace `strip()` removes (Python's set, which also holds `\x1c`-`\x1f`, `\x85` and the Unicode spaces) includes space, `\t`, `\n`, `\v`, `\f` and `\r`, and no printable ASCII character other than space |
| `PyText.Strip` | xwall.py:112 | `strip()` leaves neither end as whitespace and never lengthens the string |
| `PyText.LStrip` | xwall.py:112 | the leading part `strip()` removes is a suffix of the input preceded only by whitespace, and does not itself start with whitespace |
| `PyText.RStrip` | xwall.py:112 | the trailing part `strip()` removes: what is kept is a prefix followed only by whitespace, and does not end with whitespace |
| `PyText.StripEmptyIffBlank` | xwall.py:112 | `l.strip() != ""` fails exactly when the line is all whitespace, so exactly the blank lines are dropped |
| `PyText.StripSlice` | xwall.py:112 | `strip()` returns a contiguous slice of the input, starting where `lstrip()` starts |
| `PyText.StripDropsSpace` | xwall.py:112 | everything `strip()` removes on either side of that slice is whitespace |
| `PyText.StripKeepsAbsent` | xwall.py:112 | stripping never introduces a character (used to show that cleaned lines hold no newline) |
| `PyText.StripIdempotent` | xwall.py:112 | `s.strip().strip() == s.strip()` |
| `PyText.SplitOn` | xwall.py:112 | `split("\n")` gives at least one piece |
| `PyText.SplitOnPieces` | xwall.py:112 | no piece of `split("\n")` holds the separator |
| `PyText.SplitOnJoin` | xwall.py:112 | joining the pieces of `split("\n")` with the separator gives back the input |
| `PyText.SplitJoin` | xwall.py:112 | splitting undoes joining when no piece holds the separator |
| `PyText.IndexOf` | xwall.py:118-119 | the first occurrence of a character, or the length when it is absent; it is absent exactly when the result is the length |
| `PyText.SplitFirst` | xwall.py:119 | `split(":", 1)` on a line that has a colon: `line == before + ":" + after`, with no colon in `before` |
| `PyText.SplitFirstUnique` | xwall.py:119 | that decomposition is the only one: any `a + ":" + b` with no colon in `a` splits into `(a, b)`, so later colons stay in the value |
| `PyText.Lower` | xwall.py:120 | `lower()` keeps the length, leaves no upper-case ASCII letter, maps each one to its lower-case letter and leaves every other character alone |
| `PyText.ReplaceChar` | xwall.py:120 | `replace(" ", "_")` keeps the length, replaces every space and nothing else, and leaves no space |
| `PyText.Contains` | xwall.py:123 | the substring test `"----" in line` fails when the pattern is longer than the line and holds when the line starts with it; `ContainsAt` states exactly when it holds |
| `PyText.ContainsAt` | xwall.py:123 | the substring test `"----" in line` holds exactly when `----` occurs at some position of the line |
| `PyText.RFind` | xwall.py:38 | the last occurrence of `.` in a file name, or -1 when there is none |
| `NetshLines.CleanEach` | xwall.py:112 | `[l.strip() for l in lines if l.strip() != ""]` never returns more lines than it is given |
| `NetshLines.CleanEachSingle` | xwall.py:112 | one line is dropped when it is blank and kept as its `strip()` otherwise |
| `NetshLines.CleanEachConcat` | xwall.py:112 | the cleaning goes line by line: cleaning two runs of lines one after the other cleans each run on its own, so every non-blank line is kept, stripped, in its place |
| `NetshLines.CleanEachOrigin` | xwall.py:112 | every line `[l.strip() for l in lines if l.strip() != ""]` keeps is the non-blank `strip()` of some input line |
| `NetshLines.CleanEachLines` | xwall.py:112 | the cleaning keeps no empty line, and every line it keeps equals its own `strip()` |
| `NetshLines.CleanEachKeepsAbsent` | xwall.py:112 | a character that no input line holds is held by no cleaned line |
| `NetshLines.CleanEachClean` | xwall.py:112 | cleaning lines that are already non-empty and stripped returns them unchanged |
| `NetshLines.CleanEachIdempotent` | xwall.py:112 | cleaning already-cleaned lines changes nothing |
| `NetshLines.CleanOutput` | xwall.py:112 | every line `[l.strip() for l in output.strip().split('\n') if l.strip() != ""]` hands to the parser is non-empty, stripped and free of `\n` |
| `NetshLines.CleanOutputJoin` | xwall.py:112 | cleaning the newline-joined text of clean lines gives back exactly those lines |
| `NetshLines.NormalizeKey` | xwall.py:120 | `key.strip().lower().replace(" ", "_")` is trimmed, holds no space and no upper-case ASCII letter |
| `NetshLines.NormalizedKeyFixed` | xwall.py:120 | a key that is already normalised is returned unchanged |
| `NetshLines.NormalizeKeyIdempotent` | xwall.py:120 | normalising a key twice gives the same key as normalising it once |
| `NetshLines.Classify` | xwall.py:118-123 | a line is a field exactly when it holds a colon, so the colon test wins over `----`; it is a separator exactly when it has no colon and holds `----` |
| `NetshLines.ClassifyClean` | xwall.py:119-121 | a field's key is normalised and its value trimmed |
| `NetshLines.ClassifySplitsAtFirstColon` | xwall.py:118-121 | `rawKey + ":" + rawValue` with no colon in `rawKey` stores the normalised `rawKey` with the trimmed whole of `rawValue` (so `a: b:c` stores `b:c` under `a`) |
| `NetshLines.ClassifyAllConcat` | xwall.py:117-123 | reading two runs of lines one after the other reads each run on its own |
| `NetshRules.FieldsOf` | xwall.py:118-122 | a run of lines contributes at most one field per line |
| `NetshRules.Blocks` | xwall.py:117-126 | the separators cut the lines into exactly one more block than there are separator lines |
| `NetshRules.RuleOf` | xwall.py:122 | the keys of a rule are exactly the keys of its block's fields |
| `NetshRules.RulesOf` | xwall.py:124-129 | there are no more rules than blocks, and no rule is empty |
| `NetshRules.RuleRecords` | xwall.py:115-130 | no returned rule is empty, and there are at most as many rules as separator lines plus one |
| `NetshRules.ParseRules` | xwall.py:115-130 | the parsing loop returns exactly `RuleRecords` of its lines |
| `NetshRules.LoopStep` | xwall.py:117-126 | one loop iteration keeps the loop state: a field is entered into the open rule; a separator appends the open rule only when it is non-empty and opens an empty one; any other line changes nothing |
| `NetshRules.LoopStepAt` | xwall.py:117-126 | the same, for the line at each position of the loop |
| `NetshRules.LoopEnd` | xwall.py:128-129 | the final flush appends the pending rule only when it is non-empty, which completes the rules of all blocks |
| `NetshRules.BlocksConcat` | xwall.py:117-126 | the blocks of two runs of lines one after the other: the last block of the first run merges with the first block of the second |
| `NetshRules.BlocksSnoc` | xwall.py:117-126 | one more line: a separator opens a new empty block, a field joins the last block, any other line changes nothing |
| `NetshRules.OtherLineNoBlock` | xwall.py:117-126 | a skipped line leaves the blocks unchanged, wherever it stands |
| `NetshRules.OtherLineIgnored` | xwall.py:118-126 | a line with neither a colon nor `----` does not change the result, wherever it stands |
| `NetshRules.RuleRecordsClean` | xwall.py:119-122 | every stored key is trimmed, lower-case and space-free, and every stored value is trimmed |
| `NetshRules.RuleOfValues` | xwall.py:122 | every stored value is the value of a field of its block with that key |
| `NetshRules.RulesOfOrigin` | xwall.py:124-129 | every returned rule is the rule of one of the blocks |
| `NetshRules.RuleOfLastWins` | xwall.py:122 | within one record, a repeated key keeps the last value seen |
| `NetshRules.BlocksWithoutSeparator` | xwall.py:118-122 | lines without a separator form a single block of their fields |
| `NetshRules.TrailingRuleKept` | xwall.py:128-129 | a last record that no `----` closes is still returned, after all the rules before it |
| `NetshRules.TrailingBlockShape` | xwall.py:117-126 | lines without a separator after a separator fill the last block, which was empty |
| `NetshRules.FirstRuleClosed` | xwall.py:117-126 | after two fields and a separator, the loop holds one rule of those two fields and an empty open rule |
| `NetshRules.TwoRulesShape` | xwall.py:115-130 | two fields, a separator, a field and a separator give `[{k0: v0, k1: v1}, {k3: v3}]`, with no empty rule for the end of input after the last separator |
| `Firewall.Suffix` | xwall.py:38 | `PurePath.suffix`: empty, or a final part of the name that starts with its only dot, has at least one character after that dot and leaves at least one character before it |
| `Firewall.Stem` | xwall.py:50-60 | `PurePath.stem`: the name with its suffix removed, so stem and suffix together give back the name |
| `Firewall.SuffixIsExe` | xwall.py:38 | an entry is selected exactly when its name ends in `.exe` with at least one character before it; the test is case-sensitive, and the stem is then the name without `.exe` |
| `Firewall.SelectExe` | xwall.py:38 | the selection holds exactly the listed entries whose suffix is `.exe` |
| `Firewall.SelectExeConcat` | xwall.py:38 | the selection keeps the listing's order |
| `Firewall.Decimal` | xwall.py:42-50 | the text of `time_now` in a rule name is a run of decimal digits, without leading zeros, whose value is the time |
| `Firewall.RuleName` | xwall.py:50-60 | a rule name starts with `APW-` and ends with the file's stem |
| `Firewall.ParseWellFormedName` | xwall.py:50-60 | a name made of `APW-`, a run of digits, `-BKI-` or `-BKO-` and a stem reads back as the digits' value, the direction and the stem |
| `Firewall.RuleNameRoundTrip` | xwall.py:50-60 | `APW-<time>-BKI-<stem>` and `APW-<time>-BKO-<stem>` give back the time, the direction and the stem, whatever the stem holds |
| `Firewall.RuleNamesDiffer` | xwall.py:50-60 | a file's inbound and outbound rules have different names |
| `Firewall.BlockRule` | xwall.py:45-63 | the argument vector of one `add rule` call: the five words of `ADD_RULE_CMD`, five rule arguments and the two `SETTINGS` |
| `Firewall.BlockRuleShape` | xwall.py:45-63 | each `add rule` call blocks the file's absolute path in its direction, under its name, with `enable=yes` and `profile=any` |
| `Firewall.BlockRuleRoundTrip` | xwall.py:49-63 | the `name=` argument of an `add rule` call parses back into the call's time, direction and the file's stem, and its `program=` argument is the file's absolute path |
| `Firewall.BlockRulesDiffer` | xwall.py:49-63 | calls for different times, directions or stems issue different `add rule` commands |
| `Firewall.Plan` | xwall.py:40-65 | the plan holds exactly two calls per selected file |
| `Firewall.PlanPair` | xwall.py:40-65 | the calls for file `k` are calls `2k` (inbound) and `2k + 1` (outbound), both with the time read for that file and its `ctime` text |
| `Firewall.PlanCoversSelection` | xwall.py:38-63 | calls `2k` and `2k + 1` of the plan, which has two calls per selected file, block the same listed `.exe` entry, inbound and then outbound, at the time read for it |
| `Firewall.RenderedAt` | xwall.py:45-63 | call `i` of the issued commands is the argument vector of planned call `i` |
| `Firewall.AllSucceedSnoc` | xwall.py:48-65 | a longer run of calls all succeeded exactly when the shorter run did and the added call did |
| `Firewall.RunAddRule` | xwall.py:48-65 | one `add rule` call extends the issued commands by the next planned command and reports whether it exited with status 0 |
| `Firewall.BlockTraffic` | xwall.py:31-74 | a non-directory ends with status 1 and no call; otherwise the issued calls are a prefix of the plan, all of it when every call succeeds, and when a call fails it is the last one issued and the program exits with status 1 |
| `Firewall.ListCommand` | xwall.py:108 | `NETSH_LISTRULE_CMD + [*options, "verbose"]`: the list command's five words, then the caller's options in order, then `verbose` |
| `Firewall.ListRules` | xwall.py:100-137 | a failed `netsh` run ends with status 1; a successful one returns `RuleRecords` of the cleaned output, in which no rule is empty |

## Left out

- The registry address, tree-walk and tree-delete engine is not part of this model: the
  source files in this repository contain no such code.
- Process I/O: `subprocess.run`, its captured output, `print`, and the `sys.exit` calls
  (xwall.py lines 48-74, 110, 132-137). They become parameters (the outcome of each call,
  the text it prints) and an exit status.
- `Firewall._text2dict` (xwall.py lines 77-97) is not modelled. It reads the undefined
  name `output_lines` and returns the undefined name `rule_dict`, so every call raises
  `NameError`. Its loop is the same as the one in `listrules`, which is modelled.
- The `__main__` block (xwall.py lines 144-155) is not modelled: it calls
  `block_exe_traffic` and `list_firewall_rules`, which are not defined anywhere.
- `ssh_installer.py`, `wintool.py`, `utility.py` and `glutton.py` are not part of this
  model: an interactive menu, a Tk GUI, Win32 elevation through ctypes, and a screen and
  keystroke recorder, all of them OS calls with no parsing logic.
- `PyText.Lower`: models `str.lower()` on ASCII letters only; other characters are taken
  as unchanged, whereas Python also lower-cases non-ASCII letters (netsh field names are
  ASCII in English locales).
- `NetshRules.ParseRules`: rules are `map<string, string>`, so the insertion order of a
  Python `dict` is not modelled, only its contents.
- `Firewall.BlockTraffic`: the clock is a function from the file's position to a time,
  and `time.ctime` is a parameter. Wall-clock time, and the text `ctime` formats, are not
  modelled.
- `Firewall.BlockTraffic`: the not-a-directory path, and any exception other than
  `CalledProcessError` inside the loop, leave `block_traffic` by a `TypeError` (raised by
  the handler's `ex.with_traceback()` at xwall.py line 73), not by `sys.exit(1)`. The
  model returns `Exited(1)` for both; that a caller could catch the exception, and the
  traceback Python prints when nobody does, are not modelled.
- `Firewall.BlockTraffic`: other failures of the listing (`iterdir` permission errors)
  and of the entries' `absolute()` path are not modelled. The listing is given as a value.
- `Firewall.BlockTraffic`: the printed messages (`Traffico bloccato per: ...` and the error
  texts) are not modelled.
- `Firewall.ListRules`: decoding of netsh's output bytes (`text=True`) is not modelled.
  The output is given as a string.
- The concrete example `["a: 1", "b: 2", "----", "c: 3", "----"]` is proved for its
  classified lines (`NetshRules.TwoRulesShape`). The step from those literal strings to
  their classification is stated by `NetshLines.ClassifySplitsAtFirstColon` for any
  line, not for the literals themselves.
