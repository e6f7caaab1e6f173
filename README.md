# STM32-tools in Dafny

A model of the text-processing core of STM32-tools, three small Python tools for STM32
projects generated by STM32CubeMX:

- `byte.py`: the `Byte` class. It holds a byte count. Its setter reads texts such as
  `"1024"` or `"64 KiB"` through a table of binary and decimal unit multipliers. Two counts
  can be added and subtracted, and a count prints in B, KiB or MiB.
- `stm-size.py`: reads the `MEMORY` block of a linker script into region lengths. It reads
  the two-row table printed by `arm-none-eabi-size` into section sizes. It sums RAM use
  (`data + bss`) and FLASH use (`text + data`), and draws a seven-row usage box for each.
- `modify_makefile.py`: the `Makefile` class, which patches a generated Makefile in place:
  - it marks the file as modified;
  - it sorts and deduplicates the source lists;
  - it points the toolchain at g++ with C++ flags and adds the C++ build rules;
  - it hides the echo of build commands;
  - it appends a `prog` rule for the STM32 programmer.

Modules, one per concern:

| module | file | contents |
|---|---|---|
| `Results` | results.dfy | `Option` and `Result` |
| `Text` | text.dfy | the Python string operations the tools use, with Python's edge cases: `find` (−1 when absent), `replace` (left to right, an empty pattern interleaves), `split(c)`, `split()`, `strip()`, `join`, `isdigit`, slices with negative or too-large bounds, `{:^w}` and `{:>w}` padding |
| `Sorting` | sorting.dfy | `sorted(set(xs))` for strings, under Python's code-point order |
| `ByteUnits` | byte.dfy | the unit table; the setter as a function `ParseText` and as the class method `Byte.SetValue`; `__add__`, `__sub__`, `__str__` |
| `StmSize` | stm_size.dfy | `linker_script_parser` (specification `LinkerMemory`, loop `ParseLinkerScript`); `size_parser` (`SizeTable`, `SizeParser`, `ZipSizes`); `use_ram`/`use_flash` (`Usage`); `create_table` (`Table`, `CreateTable`) |
| `MakefilePatch` | makefile.dfy | the `Makefile` class, whose field `text` is `self.makefile`. Each patch step is a method that updates the field, checked against a pure function of the old text (`SetVariableText`, `MarkModifiedText`, `RepairText`, `SupportCppText`, `AddProgrammerText`) |

Exceptions and other ways a step does not finish are modelled as values:
- every parse error as a datatype of its causes;
- `exit()` in `check_was_modified` as `AlreadyModified`;
- the endless loop of `repair_multiple_definition` when no blank or comment line follows as `Diverges`;
- an index past the end of a string or list as `IndexError`.

A failing Makefile step leaves the text as it was, with two exceptions:
- `support_cpp` keeps the edits of the `set_variable` calls that succeeded before the failing one;
- `update_toolchain` keeps its `$(BINPATH)/` replacement when its `set_variable` fails.

## Model

| member | source | states |
|---|---|---|
| ByteUnits.UnitAliases | byte.py:6-27 | `K`, `KB` and `KiB` all mean 1024; `kB` means 1000; `B` means 1; `M` equals `MiB`; `MB` is 10^6 |
| ByteUnits.BinaryUnitSteps | byte.py:11-18 | `KiB` is 1024, and each binary unit up to `YiB` is 1024 times the one before |
| ByteUnits.DecimalUnitSteps | byte.py:19-26 | `kB` is 1000, and each decimal unit up to `YB` is 1000 times the one before |
| ByteUnits.UnitNamesAreLetters | byte.py:6-27 | every unit name is a non-empty run of letters, so the setter's first letter starts the unit |
| ByteUnits.FirstAlpha | byte.py:42-46 | the position where the enumerate loop stops: the first letter, with no letter before it, or the length when there is none |
| ByteUnits.Byte.constructor | byte.py:29-30 | `Byte(n)` for an integer holds `n` |
| ByteUnits.Byte.SetValue | byte.py:36-51 | the setter succeeds exactly when `ParseNumber` does and then assigns its value; when it raises, the value is unchanged and the error is the one `ParseNumber` names |
| ByteUnits.ParseDecimal | byte.py:39-40 | the decimal text of any natural number reads back as that number |
| ByteUnits.SplitAtUnit | byte.py:41-48 | blanks, digits, blanks, a unit made of letters, blanks: the value is the digits times the unit's multiplier, or `UnknownUnit` when the table lacks the unit (the KeyError) |
| ByteUnits.ParseWithUnit | byte.py:42-48 | a known unit after padded digits multiplies their value |
| ByteUnits.ParseUnknownUnit | byte.py:48 | an unknown unit raises `UnknownUnit` with the stripped unit text |
| ByteUnits.ParseFrontBack | byte.py:42-48 | for any text, the part before the first letter is the mantissa and the stripped rest is looked up in the table |
| ByteUnits.MantissaPadded | byte.py:45 | `float()` of digits with blanks around them is their decimal value |
| ByteUnits.SpacedNumberRaises | byte.py:38-48 | `" 1024"` is not `isdigit()` and has no letter, so the setter raises `NoUnit` instead of reading 1024 |
| ByteUnits.Byte.Add | byte.py:53-54 | a fresh Byte holding the sum |
| ByteUnits.Byte.Sub | byte.py:56-57 | a fresh Byte holding the difference, which may be negative |
| ByteUnits.UnitOf | byte.py:59-65 | `__str__` picks the largest display unit that does not exceed the value, or B |
| ByteUnits.DisplayUnitRange | byte.py:60-65 | MiB exactly from 2^20 on; KiB exactly from 2^10 below 2^20; B exactly below 2^10. A non-negative value shown in B or KiB is below 1024 of that unit, and is at least one of it unless shown in B |
| ByteUnits.DisplayUnitsInTable | byte.py:6-27 | each display unit name is a key of the unit table with the same multiplier, so a printed unit reads back |
| ByteUnits.Byte.ToText | byte.py:59-68 | the printed text is the value divided by the chosen unit's multiplier, formatted with one decimal, then a space and the unit name |
| Text.Find | modify_makefile.py:83-84 | `get_position`: the first occurrence, with none before it, or −1 exactly when there is none |
| Text.CenterShape | stm-size.py:118 | `{:^w}` pads to width `w` with at most one more blank on the right than on the left, and leaves longer texts alone |
| Text.PadLeftShape | stm-size.py:119-121 | `{:>w}` right-aligns to width `w` with blanks, and leaves longer texts alone |
| Text.WordsJoin | stm-size.py:91 | `split()` of words joined by blanks gives the words back |
| Text.WordsStrip | stm-size.py:74 | `split()` gives the same words with or without a `strip()` before it |
| Text.ContainsFind | stm-size.py:68-73 | `pat in s` holds exactly when `s.find(pat)` is not −1 |
| StmSize.RegionName | stm-size.py:74 | the region name is a non-empty word without blanks and without `:` |
| StmSize.RegionNameFirstWord | stm-size.py:74 | the region name is the first whitespace-separated word of the text before the first `:`, and there is none (the IndexError) exactly when that text is blank |
| StmSize.RegionLine | stm-size.py:74-76 | on a line `<name> <attributes>:<origin>,<key>=<length>` with blanks around it, the entry is the name with `Byte()` of the length text, or `BadLength` with the error `Byte()` raises |
| StmSize.RegionNameIsWord | stm-size.py:74-76 | every key the parser enters is such a word |
| StmSize.ParseLinkerScript | stm-size.py:60-77 | the flag-driven loop over the lines computes `LinkerMemory`, or the first exception |
| StmSize.ScanIsLinkerMemory | stm-size.py:64-77 | the loop's state machine equals this reading: take the lines after the first `MEMORY` line up to the first line with `}`; keep those with `LENGTH`; enter them into the dict in order; stop at the first one that raises |
| StmSize.ScanFrom | stm-size.py:67-76 | from any state the loop can reach, the rest of the loop gives that same result |
| StmSize.CloseEndsBlock | stm-size.py:71-72 | the block ends at the first closing line after the `MEMORY` line |
| StmSize.EntryLinesAppend | stm-size.py:73 | the region lines of two runs of lines are those of the first, then those of the second |
| StmSize.CollectErrorSticks | stm-size.py:67-76 | once a region line raises, later lines change nothing |
| StmSize.CollectOk | stm-size.py:73-76 | the dict is built exactly when every entry line reads |
| StmSize.CollectLast | stm-size.py:76 | a name holds the length of the last line that enters it |
| StmSize.LinkerMemoryLast | stm-size.py:64-77 | for a region name repeated in the `MEMORY` block, the parser keeps the length of its last entry line |
| StmSize.SizeRow | stm-size.py:90-91 | `parse_size_table`: the whitespace-separated tokens of the row without the last two, or none when there are fewer than two |
| StmSize.StripEach | stm-size.py:91 | stripping a whitespace-free token leaves it unchanged |
| StmSize.SizeRowOfTokens | stm-size.py:90-91 | tokens joined by blanks, read as a row, are the tokens without the last two |
| StmSize.TwoRows | stm-size.py:88 | two lines joined by a newline split into exactly those two lines |
| StmSize.SizeTableOfTwoLines | stm-size.py:85-98 | output that strips to two lines gives the header tokens bound to the data tokens |
| StmSize.SizeParser | stm-size.py:85-100 | computes `SizeTable`; anything other than two lines raises `LineCount` |
| StmSize.ZipSizes | stm-size.py:96-98 | the enumerate loop computes `SizeZip` |
| StmSize.SizeZipOk | stm-size.py:96-98 | the loop finishes exactly when there are enough data tokens and each one reads |
| StmSize.SizeZipKeys | stm-size.py:96-98 | the keys of the dict are exactly the header tokens |
| StmSize.SizeZipLast | stm-size.py:97-98 | a header token that repeats is bound to the value in its last column |
| StmSize.SizeZipDistinct | stm-size.py:97-98 | with distinct header tokens, each is bound to the value in its own column |
| StmSize.Usage | stm-size.py:197-198 | `use_ram = data + bss` and `use_flash = text + data` exactly when the three sections are there; otherwise the KeyError names the first missing one in evaluation order, which is always one of `data`, `bss` and `text` |
| StmSize.TruncDiv | stm-size.py:111 | `int()` of a quotient: rounded toward zero, with the sign of the exact quotient |
| StmSize.Bar | stm-size.py:110-111 | the bar is the full width exactly from 100 % on; otherwise it is shorter. For a non-negative use and a positive total below 100 %, it is the width times the use over the total, rounded down |
| StmSize.FullBar | stm-size.py:111 | the 100 % threshold is `use >= all` for a positive total and `use <= all` for a negative one |
| StmSize.LevelOf | stm-size.py:123-129 | the colour band: green below 60 %, orange from 60 % to below 80 %, red from 80 % |
| StmSize.Table | stm-size.py:103-144 | a table exactly when the total is non-zero (else ZeroDivisionError); it has seven rows |
| StmSize.CreateTable | stm-size.py:107-144 | appending the rows one by one gives `Table` for the two Byte values |
| StmSize.BorderWidth | stm-size.py:137-143 | the three border rows are 30 characters: a corner, 28 fill characters, a corner |
| StmSize.LabelRowShape | stm-size.py:119-121 | a value row starts with its caption and ends with its value, blanks between. It is 30 wide when both fit, and wider otherwise |
| StmSize.HeadRowSplit | stm-size.py:133-134 | the head row: the centred 28-wide head, its first `bar` characters after the band colour and the rest after reset and bold |
| MakefilePatch.PositionFront | modify_makefile.py:80-81 | one before the first occurrence, or −2 when there is none |
| MakefilePatch.PositionBehind | modify_makefile.py:86-87 | one past the character after the first occurrence, or the pattern's length when there is none |
| MakefilePatch.Splice | modify_makefile.py:98 | `t[:p] + s + t[p:]` under Python's slice rules: `t` is kept before and after, with `s` between |
| MakefilePatch.Flags | modify_makefile.py:89-90 | the flags joined by single blanks |
| MakefilePatch.FlagsReadBack | modify_makefile.py:89-90 | `split()` of the joined flags gives the flags back |
| MakefilePatch.NewlineFrom | modify_makefile.py:94-97 | the first newline at or after a position, with none before it, or none at all |
| MakefilePatch.Makefile.constructor | modify_makefile.py:64-67 | the text as read from the file |
| MakefilePatch.Makefile.Replace | modify_makefile.py:74-75 | every occurrence, left to right, is replaced |
| MakefilePatch.Makefile.UnixEndLine | modify_makefile.py:77-78 | as written: the text is left unchanged, because the replaced string is discarded |
| MakefilePatch.CrLfKept | modify_makefile.py:77-78 | the discarded conversion would have turned `"a\r\n"` into `"a\n"`, a different text |
| MakefilePatch.Makefile.ToUnixLineEnds | modify_makefile.py:77-78 | as intended: every `\r\n` of the text becomes `\n` |
| MakefilePatch.CrLfRemoved | modify_makefile.py:77-78 | in a text whose every `\r` starts a `\r\n` pair, the conversion removes exactly the carriage returns and leaves none |
| MakefilePatch.Makefile.SetVariable | modify_makefile.py:92-98 | the scan for the end of line computes `SetVariableText`, and raises IndexError when no newline follows |
| MakefilePatch.SetVariableLine | modify_makefile.py:92-98 | on the line `<name> =<old>` holding the first `<name> `, the line becomes `<name> = <value>` and every other character is kept |
| MakefilePatch.SetVariableTwice | modify_makefile.py:92-98 | setting a variable twice is setting it once to the second value |
| MakefilePatch.Makefile.CheckWasModified | modify_makefile.py:100-106 | exits when the C++ tag is present, else inserts it behind the generic tag (`MarkModifiedText`) |
| MakefilePatch.MarkModifiedOnce | modify_makefile.py:100-106 | after a successful check, a second check exits |
| MakefilePatch.MarkModifiedNextLine | modify_makefile.py:105-106 | with the generic tag on a line of its own, the C++ tag becomes the next line and nothing else changes |
| MakefilePatch.SpliceBehindLine | modify_makefile.py:105-106 | splicing behind a tag's line puts the text at the start of the next line |
| MakefilePatch.BlockEnd | modify_makefile.py:110-113 | the first `\n\n` or `\n#` at or after the start, with none before it |
| MakefilePatch.Makefile.RepairMultipleDefinition | modify_makefile.py:108-123 | the scan and rewrite compute `RepairText`: `Diverges` without a block end, IndexError for a one-line block |
| MakefilePatch.RepairedBlock | modify_makefile.py:108-123 | the text before the block, the block's first line and the text from its end are kept. The entries follow, joined by ` \` and a newline, ending in a newline. They are strictly ascending and are the set of the old lines cleaned. It fails exactly when the block is one line |
| MakefilePatch.RepairedItems | modify_makefile.py:116-121 | the cleaned, deduplicated, sorted lines: sorted, the same set, each an entry, and none exactly when there were no lines |
| MakefilePatch.CleanIsEntry | modify_makefile.py:118 | a cleaned line has no backslash and no blanks at either end |
| MakefilePatch.CleanEntry | modify_makefile.py:118 | cleaning an entry leaves it unchanged |
| MakefilePatch.CleanContinued | modify_makefile.py:118-122 | cleaning an entry with ` \` behind it gives the entry back |
| MakefilePatch.EntryTextJoin | modify_makefile.py:122 | the written entries are the entries joined by ` \` and a newline, plus a final newline |
| MakefilePatch.RepairedEntriesReread | modify_makefile.py:114-122 | splitting, cleaning, deduplicating and sorting the written entries gives them back: a repaired list is stable under a second reading |
| MakefilePatch.Makefile.UpdateToolchain | modify_makefile.py:125-127 | drops the slash after `$(BINPATH)`, then sets `BINPATH` |
| MakefilePatch.Makefile.SupportCpp | modify_makefile.py:129-136 | sets `CC`, `CFLAGS` and `LDFLAGS`, then adds the C++ objects and rule (`SupportCppText`). A failing `set_variable` stops it with the earlier edits kept, and the failure is always the IndexError |
| MakefilePatch.CppObjectsBeforeAsmObjects | modify_makefile.py:133-134 | the C++ objects section goes directly in front of the first ASM objects tag |
| MakefilePatch.SpliceAtTag | modify_makefile.py:133-134 | splicing at a tag's first position puts the text directly in front of it |
| MakefilePatch.CppRuleBeforeAsmRule | modify_makefile.py:135-136 | the C++ rule goes in front of the newline before the first `.s` rule |
| MakefilePatch.SpliceBeforeLine | modify_makefile.py:135-136 | splicing at `get_position_front` of a tag that starts a line puts the text in front of that line's newline |
| MakefilePatch.Makefile.HideCommand | modify_makefile.py:138-139 | every tab followed by the command gains an `@` |
| MakefilePatch.Makefile.ShowCommand | modify_makefile.py:141-142 | every tab, `@` and command loses the `@` |
| MakefilePatch.HideThenShow | modify_makefile.py:138-142 | for a command without tabs, in a text where it is not already hidden, hiding and then showing restores the text |
| MakefilePatch.HiddenPrefix | modify_makefile.py:138-139 | a tab-free prefix of the hidden text is a prefix of the original |
| MakefilePatch.Makefile.AddStm32Programmer | modify_makefile.py:144-156 | the search output without its last character is the path. A non-empty path puts the `prog` rule at `get_position_front` of the EOF tag; otherwise the text is unchanged (`AddProgrammerText`) |
| MakefilePatch.ProgrammerBeforeEof | modify_makefile.py:150-154 | with the EOF tag starting a line, the `prog` rule goes in front of that line's newline. With no path, the text is unchanged |

## Left out

- File and process I/O is not modelled. Each tool gets the text it would have read:
  - the linker script is a list of lines;
  - the `arm-none-eabi-size` output is a string;
  - the Makefile is a string given to the constructor;
  - the output of the `find` search for `STM32_Programmer_CLI` is a string.
  `Path.home()` and `subprocess.run` are not modelled.
- The `Makefile` constructor's `modify()` call, the write-back in `__del__` and the
  `modify()` sequence itself are not modelled. Each patch step is modelled on its own.
- `check_path`, `is_exact_file`, `is_linker_script`, `is_elf`, `check_elf_path`,
  `check_linker_script_path` and `NotExistError` are not modelled. They search the file system.
- `print_memory`, the `argparse` command line and the `__main__` printing of the tables
  (side by side or one under the other) are not modelled: they are console output only.
  The messages printed by `check_was_modified` and `add_stm32_programmer` are left out for
  the same reason.
- `colors.py` is not part of this model. Its escape strings come in as the `Palette` parameter.
- `__repr__` is the same as `__str__` and has no separate member.
- ByteUnits.ByteText: `'{:.1f}'` formatting of a float quotient is passed in as a function
  parameter. Only the unit choice and the layout around it are modelled.
- ByteUnits.Mantissa: reads only integer mantissas (optional sign, decimal digits, blanks
  around them). Python's `float()` also accepts fractions, exponents, `_`, `inf` and `nan`.
- ByteUnits.ParseScaled: the product is exact. Python multiplies a float by the multiplier and
  truncates with `int()`, which rounds for values beyond 2^53.
- ByteUnits.Byte.constructor: takes an integer. `Byte(text)` is modelled by `ParseText` and
  `Byte.SetValue`.
- Text.IsDigit: the character classes (`isdigit`, `isalpha`, `isspace`) are ASCII only.
  Python also accepts other Unicode digits, letters and blanks.
- StmSize.PercentBelow: the percentage `use / (all / 100)` is compared in exact rational
  arithmetic. Floating-point rounding at the 60 %, 80 % and 100 % thresholds is not modelled.
- StmSize.Bar: `int(width * percent / 100)` is computed exactly as `28 * use / all`, rounded
  toward zero. Float rounding is not modelled.
- StmSize.HeadText: `'{:.2g}'` of the percentage is passed in as a function parameter.
- MakefilePatch.Makefile.SupportCpp: a failing `set_variable` keeps the edits made before it.
  The IndexError itself is returned as a value rather than raised.

## Findings

| source | as written | input that shows it | evidently intended | confidence | as-written member | corrected member |
|---|---|---|---|---|---|---|
| modify_makefile.py:77-78 | `unix_end_line` calls `replace('\r\n', '\n')` but discards the result, so the Makefile keeps its CRLF line ends | a Makefile `"a\r\n"` stays `"a\r\n"` | assign the result back, so that `"a\r\n"` becomes `"a\n"` | high (not executed) | MakefilePatch.CrLfKept | MakefilePatch.CrLfRemoved |
