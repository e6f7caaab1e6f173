/**
 * The text side of stm-size.py: the MEMORY block of a linker script, the table printed
 * by arm-none-eabi-size, the RAM and FLASH usage sums and the seven-row usage box.
 * The linker script is given as its list of lines and the size program's output as a
 * string, in place of the file read and the subprocess call.
 */
module StmSize {
  import opened Results
  import opened Text
  import opened ByteUnits

  // ---------------------------------------------------------------------------
  // linker_script_parser

  /** Why a region line makes the parser raise */
  datatype LineError =
    | MissingName                 // nothing before ':' (IndexError on split()[0])
    | MissingColon                // no ':' in the line (IndexError on split(':')[1])
    | MissingComma                // no ',' after the ':' (IndexError on split(',')[1])
    | MissingEquals               // no '=' in the second comma field (IndexError on split('=')[1])
    | BadLength(e: ParseError)    // Byte() rejects the length text

  /** A line that switches the parser on (and is otherwise skipped) */
  predicate IsMemoryLine(line: string) { Contains(line, "MEMORY") }

  /** A line that ends the block once the parser is on */
  predicate IsCloseLine(line: string) { !Contains(line, "MEMORY") && Contains(line, "}") }

  /** A line inside the block that adds an entry */
  predicate IsEntryLine(line: string)
  {
    !Contains(line, "MEMORY") && !Contains(line, "}") && Contains(line, "LENGTH")
  }

  /** Position of the first line satisfying `p`, or |lines| when there is none */
  function FirstWhere(lines: seq<string>, p: string -> bool): (i: nat)
    ensures i <= |lines|
    ensures i < |lines| ==> p(lines[i])
    ensures forall k :: 0 <= k < i ==> !p(lines[k])
  {
    if lines == [] then 0 else if p(lines[0]) then 0 else 1 + FirstWhere(lines[1..], p)
  }

  /**
   * The entry of one region line: the first word before ':' as the name, and as the length
   * the text after '=' in the second comma-separated field after ':', read by Byte().
   */
  function RegionEntry(line: string): Result<(string, int), LineError>
  {
    var fields := Split(Strip(line), ':');
    match RegionName(fields[0])
    case None => Err(MissingName)
    case Some(name) =>
      match RegionLength(fields)
      case Err(e) => Err(e)
      case Ok(v) => Ok((name, v))
  }

  /** line.strip().split(':')[0].strip().split()[0].strip(), or None where split()[0] raises */
  function RegionName(before: string): (r: Option<string>)
    ensures r.Some? ==> r.value != [] && NoSpace(r.value)
    ensures r.Some? && ':' !in before ==> ':' !in r.value
  {
    var names := Words(Strip(before));
    if names == [] then None
    else
      StripWord(names[0]);
      WordInsideWord(names[0], before);
      Some(Strip(names[0]))
  }

  /** The region name is the first whitespace-separated word of the text before ':', if there is one. */
  lemma RegionNameFirstWord(before: string)
    ensures RegionName(before) == if Words(before) == [] then None else Some(Words(before)[0])
  {
    WordsStrip(before);
    if Words(before) != [] {
      StripWord(Words(before)[0]);
    }
  }

  /** Byte(line.strip().split(':')[1].strip().split(',')[1].split('=')[1]) */
  function RegionLength(fields: seq<string>): Result<int, LineError>
  {
    if |fields| < 2 then Err(MissingColon)
    else
      var commaFields := Split(Strip(fields[1]), ',');
      if |commaFields| < 2 then Err(MissingComma)
      else
        var eqFields := Split(commaFields[1], '=');
        if |eqFields| < 2 then Err(MissingEquals)
        else
          match ParseText(eqFields[1])
          case Err(e) => Err(BadLength(e))
          case Ok(v) => Ok(v)
  }

  /**
   * A region line "<name> <attributes>:<blanks><origin>,<key>=<length>", with blanks around
   * it: the entry is the name with Byte() of the length text, or the error Byte() raises.
   */
  lemma RegionLine(lead: string, name: string, attrs: string, pad: string, origin: string, key: string,
                   len: string, trail: string)
    requires AllSpace(lead) && AllSpace(pad) && AllSpace(trail)
    requires name != [] && NoSpace(name) && ':' !in name && ':' !in attrs
    requires (origin == [] || !IsSpace(origin[0])) && ':' !in origin && ',' !in origin
    requires ':' !in key && ',' !in key && '=' !in key
    requires ':' !in len && ',' !in len && '=' !in len && (len == [] || !IsSpace(len[|len| - 1]))
    ensures RegionEntry(lead + name + " " + attrs + ":" + pad + origin + "," + key + "=" + len + trail)
         == match ParseText(len)
            case Ok(v) => Ok((name, v))
            case Err(e) => Err(BadLength(e))
  {
    var front := name + " " + attrs;
    var rest := key + "=" + len;
    var w := origin + "," + rest;
    var after := pad + w;
    LineRegroup(lead, name, attrs, pad, origin, key, len, trail);
    RestEnd(key, len, rest);
    RegionLineParts(lead, front, after, trail, front + ":" + after);
    RegionLineName(name, attrs);
    RegionLineLength(pad, origin, rest, w, after);
    KeyAndLength(key, len, rest);
    RegionEntryOf(lead + (front + ":" + after) + trail, front, after, name, rest, len);
  }

  lemma LineRegroup(lead: string, name: string, attrs: string, pad: string, origin: string, key: string,
                    len: string, trail: string)
    ensures lead + name + " " + attrs + ":" + pad + origin + "," + key + "=" + len + trail
         == lead + ((name + " " + attrs) + ":" + (pad + (origin + "," + (key + "=" + len)))) + trail
  {
  }

  lemma RestEnd(key: string, len: string, rest: string)
    requires rest == key + "=" + len && (len == [] || !IsSpace(len[|len| - 1]))
    ensures rest != [] && !IsSpace(rest[|rest| - 1])
  {
    if len == [] {
      assert rest[|rest| - 1] == '=';
    } else {
      assert rest[|rest| - 1] == len[|len| - 1];
    }
  }

  /** The entry of a line once its ':' split, its name, its ',' split and its '=' split are known */
  lemma RegionEntryOf(line: string, front: string, after: string, name: string, rest: string, len: string)
    requires Split(Strip(line), ':') == [front, after] && RegionName(front) == Some(name)
    requires |Split(Strip(after), ',')| >= 2 && Split(Strip(after), ',')[1] == rest
    requires |Split(rest, '=')| >= 2 && Split(rest, '=')[1] == len
    ensures RegionEntry(line) == match ParseText(len)
      case Ok(v) => Ok((name, v))
      case Err(e) => Err(BadLength(e))
  {
    var fields := Split(Strip(line), ':');
    assert fields[0] == front && |fields| == 2 && fields[1] == after;
    RegionLengthOf(fields, rest, len);
  }

  lemma RegionLengthOf(fields: seq<string>, rest: string, len: string)
    requires |fields| >= 2 && |Split(Strip(fields[1]), ',')| >= 2 && Split(Strip(fields[1]), ',')[1] == rest
    requires |Split(rest, '=')| >= 2 && Split(rest, '=')[1] == len
    ensures RegionLength(fields) == match ParseText(len)
      case Ok(v) => Ok(v)
      case Err(e) => Err(BadLength(e))
  {
  }

  /** The stripped line splits at its one ':' into the name part and the rest */
  lemma RegionLineParts(lead: string, front: string, after: string, trail: string, core: string)
    requires AllSpace(lead) && AllSpace(trail)
    requires front != [] && !IsSpace(front[0]) && ':' !in front && ':' !in after
    requires after != [] && !IsSpace(after[|after| - 1])
    requires core == front + ":" + after
    ensures Split(Strip(lead + core + trail), ':') == [front, after]
  {
    assert core[0] == front[0] && core[|core| - 1] == after[|after| - 1];
    StripPadded(lead, core, trail);
    assert core == front + [':'] + after;
    SplitAt(front, after, ':');
  }

  lemma RegionLineName(name: string, attrs: string)
    requires name != [] && NoSpace(name)
    ensures RegionName(name + " " + attrs) == Some(name)
  {
    RegionNameFirstWord(name + " " + attrs);
    WordsFirst(name, " " + attrs);
    ConcatAssoc(name, " ", attrs);
  }

  /** Behind ':', the blanks are stripped and the first ',' divides the origin from the rest. */
  lemma RegionLineLength(pad: string, origin: string, rest: string, w: string, after: string)
    requires AllSpace(pad) && (origin == [] || !IsSpace(origin[0])) && ',' !in origin && ',' !in rest
    requires rest != [] && !IsSpace(rest[|rest| - 1])
    requires w == origin + "," + rest && after == pad + w
    ensures Split(Strip(after), ',') == [origin, rest]
  {
    StripBehindColon(pad, origin, rest, w, after);
    assert w == origin + [','] + rest;
    SplitPair(origin, rest, ',');
  }

  lemma StripBehindColon(pad: string, origin: string, rest: string, w: string, after: string)
    requires AllSpace(pad) && (origin == [] || !IsSpace(origin[0]))
    requires rest != [] && !IsSpace(rest[|rest| - 1])
    requires w == origin + "," + rest && after == pad + w
    ensures Strip(after) == w
  {
    assert w[0] == if origin == [] then ',' else origin[0];
    assert w[|w| - 1] == rest[|rest| - 1];
    assert after == pad + w + [];
    StripPadded(pad, w, []);
  }

  lemma KeyAndLength(key: string, len: string, rest: string)
    requires '=' !in key && '=' !in len && rest == key + "=" + len
    ensures Split(rest, '=') == [key, len]
  {
    assert rest == key + ['='] + len;
    SplitPair(key, len, '=');
  }

  /** A region name is one whitespace-free word with no ':' in it. */
  lemma RegionNameIsWord(line: string)
    ensures var r := RegionEntry(line);
      r.Ok? ==> r.value.0 != [] && NoSpace(r.value.0) && ':' !in r.value.0
  {
    var fields := Split(Strip(line), ':');
    assert ':' !in fields[0];
  }

  /** A word of Strip(x) is a part of x, so it has none of the characters x lacks. */
  lemma WordInsideWord(w: string, x: string)
    requires w in Words(Strip(x))
    ensures ':' !in x ==> ':' !in w
  {
    var ws := Words(Strip(x));
    WordsFromText(Strip(x));
    StripInside(x);
  }

  /** Every character of a word of `s` is a character of `s`. */
  lemma {:induction false} WordsFromText(s: string)
    ensures forall w, c :: w in Words(s) && c in w ==> c in s
    decreases |s|
  {
    if s != [] {
      WordsFromText(s[1..]);
      if !IsSpace(s[0]) {
        var n := WordLen(s);
        WordsFromText(s[n..]);
        forall w, c | w in Words(s) && c in w ensures c in s {
          if w == s[..n] {
            var k :| 0 <= k < |w| && w[k] == c;
            assert s[k] == c;
          } else {
            assert w in Words(s[n..]);
            var k :| 0 <= k < |s[n..]| && s[n..][k] == c;
            assert s[n + k] == c;
          }
        }
      } else {
        forall w, c | w in Words(s) && c in w ensures c in s {
          var k :| 0 <= k < |s[1..]| && s[1..][k] == c;
          assert s[1 + k] == c;
        }
      }
    }
  }

  lemma FirstWhereAt(lines: seq<string>, p: string -> bool, i: nat)
    requires i <= |lines| && (i < |lines| ==> p(lines[i]))
    requires forall k :: 0 <= k < i ==> !p(lines[k])
    ensures FirstWhere(lines, p) == i
  {
  }

  /** The lines after the first line satisfying `opens`, up to the first one after it satisfying `closes` */
  function Block(lines: seq<string>, opens: string -> bool, closes: string -> bool): seq<string>
  {
    var m := FirstWhere(lines, opens);
    if m == |lines| then []
    else
      var rest := lines[m + 1..];
      rest[..FirstWhere(rest, closes)]
  }

  /** The lines that make up the MEMORY block */
  function MemoryBlock(lines: seq<string>): seq<string>
  {
    Block(lines, IsMemoryLine, IsCloseLine)
  }

  /** The entry lines of `lines`, in order */
  function EntryLines(lines: seq<string>): (r: seq<string>)
    ensures forall k :: 0 <= k < |r| ==> IsEntryLine(r[k])
  {
    if lines == [] then []
    else
      var front := lines[..|lines| - 1];
      var last := lines[|lines| - 1];
      EntryLines(front) + (if IsEntryLine(last) then [last] else [])
  }

  /** The outcome of reading one region line: its name and length, or the exception it raises */
  type Entry = Result<(string, int), LineError>

  /** Entering one more entry into the dict built so far, or keeping the exception raised so far */
  function Enter(acc: Result<map<string, int>, LineError>, entry: Entry): Result<map<string, int>, LineError>
  {
    match acc
    case Err(e) => Err(e)
    case Ok(m) =>
      match entry
      case Err(e) => Err(e)
      case Ok(region) => Ok(m[region.0 := region.1])
  }

  /**
   * Reading the lines one after the other with `parse` and entering each entry into a dict;
   * the first line that raises stops it.  The parser is RegionEntry; the properties of
   * this loop hold for any parser.
   */
  function Collect(lines: seq<string>, parse: string -> Entry): Result<map<string, int>, LineError>
  {
    if lines == [] then Ok(map[])
    else Enter(Collect(lines[..|lines| - 1], parse), parse(lines[|lines| - 1]))
  }

  lemma CollectAppend(xs: seq<string>, line: string, parse: string -> Entry)
    ensures Collect(xs + [line], parse) == Enter(Collect(xs, parse), parse(line))
  {
    assert (xs + [line])[..|xs|] == xs;
  }

  lemma EntryLinesStep(xs: seq<string>, line: string)
    ensures EntryLines(xs + [line]) == EntryLines(xs) + (if IsEntryLine(line) then [line] else [])
  {
    assert (xs + [line])[..|xs|] == xs;
  }

  /** What linker_script_parser returns (or raises) for a script with these lines */
  function LinkerMemory(lines: seq<string>): Result<map<string, int>, LineError>
  {
    Collect(EntryLines(MemoryBlock(lines)), RegionEntry)
  }

  lemma {:induction false} EntryLinesAppend(xs: seq<string>, ys: seq<string>)
    ensures EntryLines(xs + ys) == EntryLines(xs) + EntryLines(ys)
    decreases |ys|
  {
    if ys == [] {
      assert xs + ys == xs;
    } else {
      var front := ys[..|ys| - 1];
      assert (xs + ys)[..|xs + ys| - 1] == xs + front;
      assert (xs + ys)[|xs + ys| - 1] == ys[|ys| - 1];
      EntryLinesAppend(xs, front);
    }
  }

  /** Once an entry has raised, later lines change nothing. */
  lemma {:induction false} CollectErrorSticks(xs: seq<string>, ys: seq<string>, parse: string -> Entry)
    requires Collect(xs, parse).Err?
    ensures Collect(xs + ys, parse) == Collect(xs, parse)
    decreases |ys|
  {
    if ys == [] {
      assert xs + ys == xs;
    } else {
      var front := ys[..|ys| - 1];
      assert (xs + ys)[..|xs + ys| - 1] == xs + front;
      CollectErrorSticks(xs, front, parse);
    }
  }

  /** The name an entry goes into the dict under, or None when its line raises */
  function EntryName(entry: Entry): (r: Option<string>)
    ensures r.Some? <==> entry.Ok?
    ensures entry.Ok? ==> r.value == entry.value.0
  {
    match entry
    case Ok(region) => Some(region.0)
    case Err(_) => None
  }

  /** The dict is built exactly when every line reads. */
  lemma {:induction false} CollectOk(xs: seq<string>, parse: string -> Entry)
    ensures Collect(xs, parse).Ok? <==> forall k :: 0 <= k < |xs| ==> parse(xs[k]).Ok?
    decreases |xs|
  {
    if xs != [] {
      var n := |xs| - 1;
      CollectOk(xs[..n], parse);
      assert forall k :: 0 <= k < n ==> xs[..n][k] == xs[k];
    }
  }

  /** A name holds the length read from the last line that enters it: a repeated name keeps the later length. */
  lemma {:induction false} CollectLast(xs: seq<string>, parse: string -> Entry, i: nat)
    requires Collect(xs, parse).Ok? && i < |xs|
    requires forall j :: i < j < |xs| ==> EntryName(parse(xs[j])) != EntryName(parse(xs[i]))
    ensures parse(xs[i]).Ok?
    ensures var region := parse(xs[i]).value;
      region.0 in Collect(xs, parse).value && Collect(xs, parse).value[region.0] == region.1
    decreases |xs|
  {
    var n := |xs| - 1;
    var front := xs[..n];
    assert Collect(xs, parse) == Enter(Collect(front, parse), parse(xs[n]));
    if i < n {
      assert forall j :: i < j < n ==> front[j] == xs[j];
      assert front[i] == xs[i];
      CollectLast(front, parse, i);
    }
  }

  /**
   * linker_script_parser keeps, for each region name, the length of the last entry line of the
   * block that names it.
   */
  lemma LinkerMemoryLast(lines: seq<string>, i: nat)
    requires LinkerMemory(lines).Ok?
    requires var xs := EntryLines(MemoryBlock(lines));
      i < |xs| && forall j :: i < j < |xs| ==> EntryName(RegionEntry(xs[j])) != EntryName(RegionEntry(xs[i]))
    ensures var region := RegionEntry(EntryLines(MemoryBlock(lines))[i]);
      region.Ok? && region.value.0 in LinkerMemory(lines).value &&
      LinkerMemory(lines).value[region.value.0] == region.value.1
  {
    CollectLast(EntryLines(MemoryBlock(lines)), RegionEntry, i);
  }

  /**
   * The loop of linker_script_parser from line `i` on, with the flag and the dict as they
   * are before that line, reading region lines with `parse`.
   */
  function Scan(lines: seq<string>, i: nat, memoryFlag: bool, memory: map<string, int>, parse: string -> Entry)
    : Result<map<string, int>, LineError>
    requires i <= |lines|
    decreases |lines| - i
  {
    if i == |lines| then Ok(memory)
    else
      var line := lines[i];
      if Contains(line, "MEMORY") then Scan(lines, i + 1, true, memory, parse)
      else if !memoryFlag then Scan(lines, i + 1, memoryFlag, memory, parse)
      else if Contains(line, "}") then Ok(memory)
      else if !Contains(line, "LENGTH") then Scan(lines, i + 1, memoryFlag, memory, parse)
      else
        match parse(line)
        case Err(e) => Err(e)
        case Ok(region) => Scan(lines, i + 1, memoryFlag, memory[region.0 := region.1], parse)
  }

  /**
   * linker_script_parser: off until a line containing MEMORY, then the LENGTH lines enter
   * the dict until the first line containing '}'.
   */
  method ParseLinkerScript(lines: seq<string>) returns (r: Result<map<string, int>, LineError>)
    ensures r == LinkerMemory(lines)
  {
    var memoryFlag := false;
    var memory: map<string, int> := map[];
    for i := 0 to |lines|
      invariant Scan(lines, i, memoryFlag, memory, RegionEntry) == Scan(lines, 0, false, map[], RegionEntry)
    {
      var line := lines[i];
      if Contains(line, "MEMORY") {
        memoryFlag := true;
      } else if memoryFlag {
        if Contains(line, "}") {
          // break, then return memory
          r := Ok(memory);
          ScanIsLinkerMemory(lines, RegionEntry);
          return;
        } else if Contains(line, "LENGTH") {
          var entry := RegionEntry(line);
          if entry.Err? {
            r := Err(entry.error);
            ScanIsLinkerMemory(lines, RegionEntry);
            return;
          }
          memory := memory[entry.value.0 := entry.value.1];
        }
      }
    }
    r := Ok(memory);
    ScanIsLinkerMemory(lines, RegionEntry);
  }

  /** The state machine reads exactly the entry lines of the MEMORY block. */
  lemma ScanIsLinkerMemory(lines: seq<string>, parse: string -> Entry)
    ensures Scan(lines, 0, false, map[], parse) == Collect(EntryLines(MemoryBlock(lines)), parse)
  {
    ScanFrom(lines, FirstWhere(lines, IsMemoryLine), 0, false, map[], parse);
  }

  /** The loop keeps these facts: off before the MEMORY line, and on after it with the entries read so far. */
  predicate Reached(lines: seq<string>, m: nat, i: nat, memoryFlag: bool, memory: map<string, int>,
                    parse: string -> Entry)
  {
    m == FirstWhere(lines, IsMemoryLine) && i <= |lines| &&
    (!memoryFlag ==> i <= m && memory == map[]) &&
    (memoryFlag ==> m < i && i <= |lines| && Collect(EntryLines(lines[m + 1..i]), parse) == Ok(memory)) &&
    (memoryFlag ==> forall k :: m < k < i ==> !IsCloseLine(lines[k]))
  }

  /** From any state the loop can reach, the rest of the loop completes the block's entries. */
  lemma {:induction false} ScanFrom(lines: seq<string>, m: nat, i: nat, memoryFlag: bool,
                                    memory: map<string, int>, parse: string -> Entry)
    requires Reached(lines, m, i, memoryFlag, memory, parse)
    ensures Scan(lines, i, memoryFlag, memory, parse) == Collect(EntryLines(MemoryBlock(lines)), parse)
    decreases |lines| - i, 1
  {
    if i == |lines| {
      ScanEnd(lines, m, memoryFlag, memory, parse);
    } else {
      ScanOn(lines, m, i, memoryFlag, memory, parse);
    }
  }

  /** One more line, then the rest of the loop */
  lemma {:induction false} ScanOn(lines: seq<string>, m: nat, i: nat, memoryFlag: bool,
                                  memory: map<string, int>, parse: string -> Entry)
    requires Reached(lines, m, i, memoryFlag, memory, parse) && i < |lines|
    ensures Scan(lines, i, memoryFlag, memory, parse) == Collect(EntryLines(MemoryBlock(lines)), parse)
    decreases |lines| - i, 0
  {
    var done, flag', memory' := ScanStep(lines, m, i, memoryFlag, memory, parse);
    if !done {
      ScanFrom(lines, m, i + 1, flag', memory', parse);
    }
  }

  /** At the end of the lines the dict holds the entries of the block. */
  lemma ScanEnd(lines: seq<string>, m: nat, memoryFlag: bool, memory: map<string, int>, parse: string -> Entry)
    requires Reached(lines, m, |lines|, memoryFlag, memory, parse)
    ensures Scan(lines, |lines|, memoryFlag, memory, parse) == Collect(EntryLines(MemoryBlock(lines)), parse)
  {
    if memoryFlag {
      assert lines[m + 1..] == lines[m + 1..|lines|];
      NoCloseRunsToEnd(lines, IsMemoryLine, IsCloseLine, m);
    } else {
      assert MemoryBlock(lines) == [];
    }
  }

  /** One line of the loop: either the loop ends with the block's result, or it goes on in a reachable state. */
  lemma ScanStep(lines: seq<string>, m: nat, i: nat, memoryFlag: bool, memory: map<string, int>,
                 parse: string -> Entry)
    returns (done: bool, flag': bool, memory': map<string, int>)
    requires Reached(lines, m, i, memoryFlag, memory, parse) && i < |lines|
    ensures done ==> Scan(lines, i, memoryFlag, memory, parse) == Collect(EntryLines(MemoryBlock(lines)), parse)
    ensures !done ==> Reached(lines, m, i + 1, flag', memory', parse)
    ensures !done ==> Scan(lines, i, memoryFlag, memory, parse) == Scan(lines, i + 1, flag', memory', parse)
  {
    var line := lines[i];
    done, flag', memory' := false, memoryFlag, memory;
    if IsMemoryLine(line) {
      flag' := true;
      if !memoryFlag {
        assert m == i;
        assert lines[m + 1..i + 1] == [];
      } else {
        SkipStep(lines, m, i);
      }
    } else if !memoryFlag {
    } else if IsCloseLine(line) {
      done := true;
      CloseEndsBlock(lines, IsMemoryLine, IsCloseLine, m, i);
    } else if !IsEntryLine(line) {
      SkipStep(lines, m, i);
    } else {
      EntryStep(lines, m, i, memory, parse);
      match parse(line)
      case Err(e) =>
        done := true;
        ErrorEndsParse(lines, m, i, parse);
      case Ok(region) =>
        memory' := memory[region.0 := region.1];
    }
  }

  /** A line of the block that is not an entry line adds nothing. */
  lemma SkipStep(lines: seq<string>, m: nat, i: nat)
    requires m < i < |lines| && !IsEntryLine(lines[i])
    ensures EntryLines(lines[m + 1..i + 1]) == EntryLines(lines[m + 1..i])
  {
    assert lines[m + 1..i + 1] == lines[m + 1..i] + [lines[i]];
    EntryLinesStep(lines[m + 1..i], lines[i]);
  }

  /** An entry line of the block is entered after the ones before it. */
  lemma EntryStep(lines: seq<string>, m: nat, i: nat, memory: map<string, int>, parse: string -> Entry)
    requires m < i < |lines| && IsEntryLine(lines[i])
    requires Collect(EntryLines(lines[m + 1..i]), parse) == Ok(memory)
    ensures Collect(EntryLines(lines[m + 1..i + 1]), parse)
      == match parse(lines[i])
         case Err(e) => Err(e)
         case Ok(region) => Ok(memory[region.0 := region.1])
  {
    assert lines[m + 1..i + 1] == lines[m + 1..i] + [lines[i]];
    EntryLinesStep(lines[m + 1..i], lines[i]);
    CollectAppend(EntryLines(lines[m + 1..i]), lines[i], parse);
  }

  /** A closing line at `i` after the opening line at `m`, with none between, ends the block at `i`. */
  lemma CloseEndsBlock(lines: seq<string>, opens: string -> bool, closes: string -> bool, m: nat, i: nat)
    requires m == FirstWhere(lines, opens) && m < i < |lines|
    requires closes(lines[i])
    requires forall k :: m < k < i ==> !closes(lines[k])
    ensures Block(lines, opens, closes) == lines[m + 1..i]
  {
    FirstCloseAfter(lines, closes, m, i);
    BlockAt(lines, opens, closes, m, i - m - 1);
    TakeOfDrop(lines, m + 1, i);
  }

  lemma TakeOfDrop(s: seq<string>, a: nat, b: nat)
    requires a <= b <= |s|
    ensures s[a..][..b - a] == s[a..b]
  {
  }

  /** The block is the lines after the opening line `m` up to the first closing one, `e` lines on. */
  lemma BlockAt(lines: seq<string>, opens: string -> bool, closes: string -> bool, m: nat, e: nat)
    requires m == FirstWhere(lines, opens) && m < |lines|
    requires e == FirstWhere(lines[m + 1..], closes)
    ensures Block(lines, opens, closes) == lines[m + 1..][..e]
  {
  }

  /** Counted from just after line `m`, the first closing line is line `i`. */
  lemma FirstCloseAfter(lines: seq<string>, closes: string -> bool, m: nat, i: nat)
    requires m < i < |lines| && closes(lines[i])
    requires forall k :: m < k < i ==> !closes(lines[k])
    ensures FirstWhere(lines[m + 1..], closes) == i - m - 1
  {
    var rest := lines[m + 1..];
    forall k | 0 <= k < i - m - 1 ensures !closes(rest[k]) {
      assert rest[k] == lines[m + 1 + k];
    }
    assert rest[i - m - 1] == lines[i];
    FirstWhereAt(rest, closes, i - m - 1);
  }

  /** Without a closing line after the opening line, the block runs to the last line. */
  lemma NoCloseRunsToEnd(lines: seq<string>, opens: string -> bool, closes: string -> bool, m: nat)
    requires m == FirstWhere(lines, opens) && m < |lines|
    requires forall k :: m < k < |lines| ==> !closes(lines[k])
    ensures Block(lines, opens, closes) == lines[m + 1..]
  {
    var rest := lines[m + 1..];
    forall k | 0 <= k < |rest| ensures !closes(rest[k]) {
      assert rest[k] == lines[m + 1 + k];
    }
    FirstWhereAt(rest, closes, |rest|);
    BlockAt(lines, opens, closes, m, |rest|);
    assert rest[..|rest|] == rest;
  }

  /** The first `j` lines after the opening line, none of them closing, start the block. */
  lemma BlockStart(lines: seq<string>, opens: string -> bool, closes: string -> bool, m: nat, j: nat)
    requires m == FirstWhere(lines, opens) && m < j <= |lines|
    requires forall k :: m < k < j ==> !closes(lines[k])
    ensures var block := Block(lines, opens, closes);
      j - m - 1 <= |block| && block == lines[m + 1..j] + block[j - m - 1..]
  {
    var rest := lines[m + 1..];
    forall k | 0 <= k < j - m - 1 ensures !closes(rest[k]) {
      assert rest[k] == lines[m + 1 + k];
    }
    NoCloseBefore(rest, closes, j - m - 1);
    var e := FirstWhere(rest, closes);
    BlockAt(lines, opens, closes, m, e);
    TakeSplit(rest, e, j - m - 1);
    TakeOfDrop(lines, m + 1, j);
  }

  lemma NoCloseBefore(rest: seq<string>, closes: string -> bool, n: nat)
    requires n <= |rest|
    requires forall k :: 0 <= k < n ==> !closes(rest[k])
    ensures FirstWhere(rest, closes) >= n
  {
  }

  lemma TakeSplit(s: seq<string>, e: nat, n: nat)
    requires n <= e <= |s|
    ensures n <= |s[..e]| && s[..e] == s[..n] + s[..e][n..]
  {
  }

  /** The block runs at least through line `i` when no line from the MEMORY line on up to `i` closes it. */
  lemma MemoryBlockStart(lines: seq<string>, m: nat, i: nat)
    requires m == FirstWhere(lines, IsMemoryLine) && m < i < |lines|
    requires forall k :: m < k < i ==> !IsCloseLine(lines[k])
    requires !IsCloseLine(lines[i])
    ensures var block := MemoryBlock(lines);
      i - m <= |block| && block == lines[m + 1..i + 1] + block[i - m..]
  {
    forall k | m < k < i + 1 ensures !IsCloseLine(lines[k]) {
    }
    BlockStart(lines, IsMemoryLine, IsCloseLine, m, i + 1);
  }

  /** An entry that raises in the lines of the block read so far makes the whole block raise. */
  lemma ErrorEndsParse(lines: seq<string>, m: nat, i: nat, parse: string -> Entry)
    requires m == FirstWhere(lines, IsMemoryLine) && m < i < |lines|
    requires forall k :: m < k < i ==> !IsCloseLine(lines[k])
    requires !IsCloseLine(lines[i])
    requires Collect(EntryLines(lines[m + 1..i + 1]), parse).Err?
    ensures Collect(EntryLines(MemoryBlock(lines)), parse) == Collect(EntryLines(lines[m + 1..i + 1]), parse)
  {
    MemoryBlockStart(lines, m, i);
    var block := MemoryBlock(lines);
    ErrorPrefix(lines[m + 1..i + 1], block[i - m..], parse);
  }

  /** Lines after an entry that raised change nothing. */
  lemma ErrorPrefix(xs: seq<string>, ys: seq<string>, parse: string -> Entry)
    requires Collect(EntryLines(xs), parse).Err?
    ensures Collect(EntryLines(xs + ys), parse) == Collect(EntryLines(xs), parse)
  {
    EntryLinesAppend(xs, ys);
    CollectErrorSticks(EntryLines(xs), EntryLines(ys), parse);
  }

  // ---------------------------------------------------------------------------
  // size_parser and parse_size_table

  /** Why size_parser raises */
  datatype SizeError =
    | LineCount(n: nat)                   // the stripped output is not exactly two lines (ValueError on unpacking)
    | MissingValue(name: string)          // the data row is shorter than the header row (IndexError)
    | BadValue(name: string, e: ParseError)  // Byte() rejects a data token

  /** parse_size_table: the stripped whitespace tokens of a row without the last two (hex and filename) */
  function SizeRow(row: string): (r: seq<string>)
    ensures |r| == if |Words(row)| >= 2 then |Words(row)| - 2 else 0
    ensures r == Words(row)[..|r|]
  {
    var tokens := StripEach(Words(row));
    Take(tokens, -2)
  }

  /** map(methodcaller('strip'), ws) on runs of non-whitespace: every token stays as it is */
  function StripEach(ws: seq<string>): (r: seq<string>)
    requires forall k :: 0 <= k < |ws| ==> ws[k] != [] && NoSpace(ws[k])
    ensures r == ws
    ensures forall k :: 0 <= k < |r| ==> Strip(r[k]) == r[k]
  {
    if ws == [] then []
    else
      StripWord(ws[0]);
      [Strip(ws[0])] + StripEach(ws[1..])
  }

  /**
   * The size dict after the enumerate loop has gone through `head`: the i-th header token is
   * bound to the i-th data token read as a Byte, or the first failing index raises.
   */
  function SizeZip(head: seq<string>, data: seq<string>, read: string -> Result<int, ParseError>)
    : Result<map<string, int>, SizeError>
    decreases |head|
  {
    if head == [] then Ok(map[])
    else
      var n := |head| - 1;
      match SizeZip(head[..n], data, read)
      case Err(e) => Err(e)
      case Ok(size) =>
        if n >= |data| then Err(MissingValue(head[n]))
        else match read(data[n])
          case Err(e) => Err(BadValue(head[n], e))
          case Ok(v) => Ok(size[head[n] := v])
  }

  /** size_parser on the text the size program printed */
  function SizeTable(output: string): Result<map<string, int>, SizeError>
  {
    var rows := Split(Strip(output), '\n');
    if |rows| != 2 then Err(LineCount(|rows|))
    else SizeZip(SizeRow(rows[0]), SizeRow(rows[1]), ParseText)
  }

  /** size_parser: split the output into its two rows, then run the loop over the header tokens */
  method SizeParser(output: string) returns (r: Result<map<string, int>, SizeError>)
    ensures r == SizeTable(output)
  {
    var rows := Split(Strip(output), '\n');
    if |rows| != 2 {
      return Err(LineCount(|rows|));
    }
    r := ZipSizes(SizeRow(rows[0]), SizeRow(rows[1]));
  }

  /** The enumerate loop of size_parser: size[name] = Byte(data[i]) for each header token in turn */
  method ZipSizes(head: seq<string>, data: seq<string>) returns (r: Result<map<string, int>, SizeError>)
    ensures r == SizeZip(head, data, ParseText)
  {
    var size: map<string, int> := map[];
    for i := 0 to |head|
      invariant SizeZip(head[..i], data, ParseText) == Ok(size)
    {
      var name := head[i];
      SizeZipStep(head, data, ParseText, i);
      if i >= |data| {
        r := Err(MissingValue(name));
        SizeZipErrorSticks(head, data, ParseText, i + 1);
        return;
      }
      var b := new Byte(0);
      var error := b.SetValue(FromText(data[i]));
      if error.Some? {
        r := Err(BadValue(name, error.value));
        SizeZipErrorSticks(head, data, ParseText, i + 1);
        return;
      }
      size := size[name := b.value];
    }
    assert head[..|head|] == head;
    return Ok(size);
  }

  /** The position of the last occurrence of `name` in `head`, if any */
  predicate LastAt(head: seq<string>, i: int)
  {
    0 <= i < |head| && forall j :: i < j < |head| ==> head[j] != head[i]
  }

  /**
   * The size table succeeds exactly when every header token has a data token that reads as a
   * Byte; its keys are then the header tokens, and a repeated header keeps the last value.
   */
  /** One turn of the loop: the next header token raises, or is bound to the value below it. */
  lemma SizeZipStep(head: seq<string>, data: seq<string>, read: string -> Result<int, ParseError>, i: nat)
    requires i < |head| && SizeZip(head[..i], data, read).Ok?
    ensures SizeZip(head[..i + 1], data, read) ==
      if i >= |data| then Err(MissingValue(head[i]))
      else if read(data[i]).Err? then Err(BadValue(head[i], read(data[i]).error))
      else Ok(SizeZip(head[..i], data, read).value[head[i] := read(data[i]).value])
  {
    assert head[..i + 1][..i] == head[..i];
  }

  /** Once a header token fails, the loop raises that error whatever follows. */
  lemma {:induction false} SizeZipErrorSticks(head: seq<string>, data: seq<string>,
                                              read: string -> Result<int, ParseError>, i: nat)
    requires i <= |head| && SizeZip(head[..i], data, read).Err?
    ensures SizeZip(head, data, read) == SizeZip(head[..i], data, read)
    decreases |head|
  {
    if i < |head| {
      var n := |head| - 1;
      assert head[..n][..i] == head[..i];
      SizeZipErrorSticks(head[..n], data, read, i);
    } else {
      assert head[..i] == head;
    }
  }

  /** The size table succeeds exactly when every header token has a data token that reads as a Byte. */
  lemma {:induction false} SizeZipOk(head: seq<string>, data: seq<string>, read: string -> Result<int, ParseError>)
    ensures SizeZip(head, data, read).Ok? <==>
      |head| <= |data| && forall i :: 0 <= i < |head| ==> read(data[i]).Ok?
    decreases |head|
  {
    if head != [] {
      SizeZipOk(head[..|head| - 1], data, read);
    }
  }

  /** The keys of the size table are the header tokens. */
  lemma {:induction false} SizeZipKeys(head: seq<string>, data: seq<string>, read: string -> Result<int, ParseError>)
    ensures SizeZip(head, data, read).Ok? ==> SizeZip(head, data, read).value.Keys == (set name | name in head)
    decreases |head|
  {
    if head != [] {
      var n := |head| - 1;
      SizeZipKeys(head[..n], data, read);
      assert head == head[..n] + [head[n]];
    }
  }

  /** A header token holds the value below its last occurrence: a repeated name keeps the later value. */
  lemma {:induction false} SizeZipLast(head: seq<string>, data: seq<string>,
                                       read: string -> Result<int, ParseError>, i: nat)
    requires SizeZip(head, data, read).Ok? && LastAt(head, i)
    ensures head[i] in SizeZip(head, data, read).value && i < |data| && read(data[i]).Ok?
    ensures SizeZip(head, data, read).value[head[i]] == read(data[i]).value
    decreases |head|
  {
    SizeZipOk(head, data, read);
    SizeZipKeys(head, data, read);
    var n := |head| - 1;
    if i < n {
      assert LastAt(head[..n], i);
      SizeZipLast(head[..n], data, read, i);
    }
  }

  /** When the header has no repeats, each header token maps to the data token below it. */
  lemma SizeZipDistinct(head: seq<string>, data: seq<string>, read: string -> Result<int, ParseError>, i: nat)
    requires forall j, k :: 0 <= j < k < |head| ==> head[j] != head[k]
    requires SizeZip(head, data, read).Ok? && i < |head|
    ensures read(data[i]).Ok? && head[i] in SizeZip(head, data, read).value
    ensures SizeZip(head, data, read).value[head[i]] == read(data[i]).value
  {
    assert LastAt(head, i);
    SizeZipLast(head, data, read, i);
  }

  /** A row printed as tokens separated by whitespace reads back as the tokens without the last two. */
  lemma SizeRowOfTokens(tokens: seq<string>, sep: string)
    requires sep != [] && AllSpace(sep)
    requires forall k :: 0 <= k < |tokens| ==> tokens[k] != [] && NoSpace(tokens[k])
    ensures SizeRow(Join(tokens, sep)) == Take(tokens, -2)
  {
    WordsJoin(tokens, sep);
  }

  /** Output made of a header line and a data line is read by zipping the two rows. */
  lemma SizeTableOfTwoLines(output: string, head: string, data: string)
    requires Strip(output) == head + "\n" + data
    requires '\n' !in head && '\n' !in data
    ensures SizeTable(output) == SizeZip(SizeRow(head), SizeRow(data), ParseText)
  {
    TwoRows(Strip(output), head, data);
  }

  lemma TwoRows(text: string, head: string, data: string)
    requires text == head + "\n" + data
    requires '\n' !in head && '\n' !in data
    ensures Split(text, '\n') == [head, data]
  {
    assert text == head + ['\n'] + data;
    SplitAt(head, data, '\n');
  }

  // ---------------------------------------------------------------------------
  // use_ram and use_flash

  /** use_ram = size['data'] + size['bss'] and use_flash = size['text'] + size['data'], or the first KeyError */
  function Usage(size: map<string, int>): (r: Result<(int, int), string>)
    ensures r.Ok? <==> "data" in size && "bss" in size && "text" in size
    ensures r.Ok? ==> r.value == (size["data"] + size["bss"], size["text"] + size["data"])
    ensures r.Err? ==> (r.error !in size &&
      (r.error == "bss" ==> "data" in size) && (r.error == "text" ==> "data" in size && "bss" in size))
    ensures r.Err? ==> r.error in {"data", "bss", "text"}
  {
    if "data" !in size then Err("data")
    else if "bss" !in size then Err("bss")
    else if "text" !in size then Err("text")
    else Ok((size["data"] + size["bss"], size["text"] + size["data"]))
  }

  // ---------------------------------------------------------------------------
  // create_table

  const Columns: nat := 30
  /** The inner width of the box */
  const Width: nat := Columns - 2

  /** The escape strings taken from the Colors class (colors.py is not part of this model) */
  datatype Palette = Palette(bgGreen: string, bgOrange: string, bgRed: string,
                             fgDarkgrey: string, fgBlack: string, bold: string, reset: string)

  /** create_table divides by all_memory: a zero total raises ZeroDivisionError */
  datatype TableError = ZeroDivision

  /** calculate_percentages(use, all) < p, decided exactly: 100 * use / all < p */
  predicate PercentBelow(use: int, all: int, p: int)
    requires all != 0
  {
    if all > 0 then 100 * use < p * all else 100 * use > p * all
  }

  function Abs(x: int): nat { if x < 0 then -x else x }

  /** int() of the quotient a / b: the quotient rounded toward zero */
  function TruncDiv(a: int, b: int): (q: int)
    requires b != 0
    ensures Abs(q) * Abs(b) <= Abs(a) < (Abs(q) + 1) * Abs(b)
    ensures q > 0 ==> (a > 0) == (b > 0)
    ensures q < 0 ==> (a > 0) != (b > 0)
  {
    var m: int := Quotient(Abs(a), Abs(b));
    if (a < 0) == (b < 0) then m else AbsNegate(m); -m
  }

  /** a / b on naturals, with the bounds that define it */
  function Quotient(x: nat, y: nat): (q: nat)
    requires y > 0
    ensures q * y <= x < (q + 1) * y
    ensures x == 0 ==> q == 0
  {
    var q := x / y;
    DivBounds(x, y, q);
    q
  }

  lemma DivBounds(x: nat, y: nat, q: nat)
    requires y > 0 && q == x / y
    ensures q * y <= x < (q + 1) * y
    ensures x == 0 ==> q == 0
  {
    var r := x % y;
    assert x == q * y + r && 0 <= r < y;
    assert (q + 1) * y == q * y + y;
  }

  lemma AbsNegate(x: int)
    requires x >= 0
    ensures Abs(-x) == x
  {
  }

  /** The highlighted length of the head: the whole width from 100 % on, else int(width * percent / 100) */
  function Bar(use: int, all: int): (bar: int)
    requires all != 0
    ensures bar <= Width
    ensures bar == Width <==> !PercentBelow(use, all, 100)
    ensures 0 <= use && 0 < all ==> 0 <= bar
    ensures 0 <= use && 0 < all && PercentBelow(use, all, 100) ==> bar * all <= Width * use < (bar + 1) * all
  {
    if !PercentBelow(use, all, 100) then Width
    else
      BarBelowWidth(use, all);
      var q := TruncDiv(Width * use, all);
      BarProportional(use, all, q);
      q
  }

  /** Below 100 %, the truncated quotient of a non-negative use is Width * use / all rounded down. */
  lemma BarProportional(use: int, all: int, q: int)
    requires all != 0 && q == TruncDiv(Width * use, all)
    ensures 0 <= use && 0 < all ==> q * all <= Width * use < (q + 1) * all
  {
    if 0 <= use && 0 < all {
      assert Abs(all) == all && Abs(Width * use) == Width * use;
      assert q >= 0;
      assert Abs(q) == q;
    }
  }

  /** Below 100 % the truncated bar stays shorter than the width. */
  lemma BarBelowWidth(use: int, all: int)
    requires all != 0 && PercentBelow(use, all, 100)
    ensures TruncDiv(Width * use, all) < Width
  {
    var a := Width * use;
    if all > 0 && use > 0 {
      DivBelow(a, all, Width);
    } else if all < 0 && use < 0 {
      DivBelow(-a, -all, Width);
    }
  }

  lemma DivBelow(x: nat, y: nat, c: nat)
    requires y > 0 && x < c * y
    ensures x / y < c
  {
    var q := x / y;
    assert q * y <= x;
    if q >= c {
      MulMonotone(c, q, y);
    }
  }

  lemma MulMonotone(a: nat, b: nat, c: nat)
    requires a <= b
    ensures a * c <= b * c
  {
  }

  /** The three colour bands of the table head */
  datatype Level = Low | Mid | High

  /** The band of the percentage: below 60, from 60 below 80, or from 80 on */
  function LevelOf(use: int, all: int): (l: Level)
    requires all != 0
    ensures l == Low <==> PercentBelow(use, all, 60)
    ensures l == Mid <==> !PercentBelow(use, all, 60) && PercentBelow(use, all, 80)
    ensures l == High <==> !PercentBelow(use, all, 80)
  {
    if PercentBelow(use, all, 60) then Low else if PercentBelow(use, all, 80) then Mid else High
  }

  /** The escape text in front of the head: by band when colour is on, bold alone otherwise */
  function Colour(level: Level, color: bool, pal: Palette): string
  {
    if !color then pal.bold
    else match level
      case Low => pal.bgGreen + pal.fgDarkgrey + pal.bold
      case Mid => pal.bgOrange + pal.fgBlack + pal.bold
      case High => pal.bgRed + pal.fgBlack + pal.bold
  }

  /** '{} MEMORY {:.2g} %', the percentage already rendered */
  function HeadText(name: string, percentText: string): string
  {
    name + " MEMORY " + percentText + " %"
  }

  /**
   * The head row: the centred head text, its first `bar` characters in the band colour and the
   * rest in bold.  `percent(use, all)` stands for the '{:.2g}' rendering of the percentage.
   */
  function HeadRow(name: string, use: int, all: int, color: bool, pal: Palette,
                   percent: (int, int) -> string): string
    requires all != 0
  {
    var head := Center(HeadText(name, percent(use, all)), Width);
    var bar := Bar(use, all);
    "║" + Colour(LevelOf(use, all), color, pal) + Take(head, bar) + pal.reset + pal.bold
      + Drop(head, bar) + pal.reset + "║"
  }

  /** A border row: the corner, the fill across the width, the other corner */
  function Border(left: char, fill: char, right: char): string
  {
    [left] + Repeat(fill, Width) + [right]
  }

  /** A value row: the caption, then the value right-aligned to the width */
  function LabelRow(caption: string, value: string): string
    requires |caption| <= Width
  {
    "║" + caption + PadLeft(value, Width - |caption|) + "║"
  }

  /** The rows create_table builds, or the division by zero it raises */
  function Table(name: string, use: int, all: int, color: bool, pal: Palette,
                 fixed1: (int, nat) -> string, percent: (int, int) -> string): (r: Result<seq<string>, TableError>)
    ensures r.Ok? <==> all != 0
    ensures r.Ok? ==> |r.value| == 7
  {
    if all == 0 then Err(ZeroDivision)
    else Ok([Border('╔', '═', '╗'),
             HeadRow(name, use, all, color, pal, percent),
             Border('╟', '─', '╢'),
             LabelRow("All:", ByteText(all, fixed1)),
             LabelRow("Use:", ByteText(use, fixed1)),
             LabelRow("Free:", ByteText(all - use, fixed1)),
             Border('╚', '═', '╝')])
  }

  /** create_table, appending the rows to the table one by one */
  method CreateTable(name: string, useMemory: Byte, allMemory: Byte, color: bool, pal: Palette,
                     fixed1: (int, nat) -> string, percent: (int, int) -> string)
    returns (r: Result<seq<string>, TableError>)
    ensures r == Table(name, useMemory.value, allMemory.value, color, pal, fixed1, percent)
  {
    var use, all := useMemory.value, allMemory.value;
    if all == 0 {
      return Err(ZeroDivision);
    }
    var top, head, rule := Border('╔', '═', '╗'), HeadRow(name, use, all, color, pal, percent), Border('╟', '─', '╢');
    var table: seq<string> := [];
    table := table + [top];
    table := table + [head];
    table := table + [rule];
    var allText := allMemory.ToText(fixed1);
    assert allText == ByteText(all, fixed1);
    var allRow := LabelRow("All:", allText);
    table := table + [allRow];
    var useText := useMemory.ToText(fixed1);
    assert useText == ByteText(use, fixed1);
    var useRow := LabelRow("Use:", useText);
    table := table + [useRow];
    var free := allMemory.Sub(useMemory);
    var freeText := free.ToText(fixed1);
    assert freeText == ByteText(all - use, fixed1);
    var freeRow := LabelRow("Free:", freeText);
    table := table + [freeRow];
    var bottom := Border('╚', '═', '╝');
    table := table + [bottom];
    assert table == [top, head, rule, allRow, useRow, freeRow, bottom];
    return Ok(table);
  }

  /** The border rows span the full column count. */
  lemma BorderWidth(left: char, fill: char, right: char)
    ensures |Border(left, fill, right)| == Columns
    ensures forall k :: 0 < k < Columns - 1 ==> Border(left, fill, right)[k] == fill
  {
  }

  /**
   * A value row starts with its caption and ends with the whole value; the gap between is
   * spaces, and the row spans exactly the column count when the value fits beside the caption.
   */
  lemma LabelRowShape(caption: string, value: string)
    requires |caption| <= Width
    ensures var row := LabelRow(caption, value);
      row[..1 + |caption|] == "║" + caption &&
      row[|row| - |value| - 1..] == value + "║" &&
      AllSpace(row[1 + |caption|..|row| - |value| - 1]) &&
      (|caption| + |value| <= Width ==> |row| == Columns) &&
      (|caption| + |value| > Width ==> |row| == |caption| + |value| + 2)
  {
    var pad := PadLeft(value, Width - |caption|);
    PadLeftShape(value, Width - |caption|);
    var row := LabelRow(caption, value);
    assert row == ("║" + caption) + pad + "║";
    Framed("║" + caption, pad, value, "║");
  }

  /** Slicing a text framed by `head` and `tail` around a field that ends in `value` */
  lemma Framed(head: string, pad: string, value: string, tail: string)
    requires |value| <= |pad| && pad[|pad| - |value|..] == value
    ensures var row := head + pad + tail;
      row[..|head|] == head &&
      row[|head| + |pad| - |value|..] == value + tail &&
      row[|head|..|head| + |pad| - |value|] == pad[..|pad| - |value|]
  {
  }

  /**
   * When the usage is between zero and the total and the head text fits, the coloured part
   * of the head row is the first `bar` characters of the centred head and the bold part the rest.
   */
  lemma HeadRowSplit(name: string, use: int, all: int, color: bool, pal: Palette, percent: (int, int) -> string)
    requires 0 <= use && 0 < all
    requires |HeadText(name, percent(use, all))| <= Width
    ensures var head := Center(HeadText(name, percent(use, all)), Width);
      var bar := Bar(use, all);
      |head| == Width && 0 <= bar <= Width &&
      HeadRow(name, use, all, color, pal, percent) ==
        "║" + Colour(LevelOf(use, all), color, pal) + head[..bar] + pal.reset + pal.bold
          + head[bar..] + pal.reset + "║" &&
      head[..bar] + head[bar..] == head
  {
    CenterShape(HeadText(name, percent(use, all)), Width);
  }

  /** The head row is full width in colour exactly from 100 % on. */
  lemma FullBar(use: int, all: int)
    requires all != 0
    ensures Bar(use, all) == Width <==> (if all > 0 then use >= all else use <= all)
  {
  }
}
