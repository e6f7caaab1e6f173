/**
 * The Makefile class of modify_makefile.py: the text of a generated STM32 Makefile, held in
 * one string field and patched in place so that it builds C++ sources, hides its build
 * commands and gains a flashing rule.  The constructor is given the text instead of reading
 * the file, and the text is read back from the field instead of being written out on
 * destruction.
 */
module MakefilePatch {
  import opened Results
  import opened Text
  import opened Sorting

  // ---------------------------------------------------------------------------
  // Tags and inserted text

  const TagGeneric: string := "# Generic Makefile (based on gcc)"
  const TagModifyCpp: string := "# Modified for C++"
  const TagSourcesPath: string := "# source path"
  const TagSourcesC: string := "# C sources"
  const TagSourcesCInc: string := "# C includes"
  const TagListOfCppObjects: string := "# list of C++ objects"
  const TagListOfAsmObjects: string := "# list of ASM program objects"
  const TagEof: string := "# *** EOF ***"

  /** CMD_OBJECTS_APPEND_CPP: adds the C++ objects to OBJECTS */
  const CmdObjectsAppendCpp: string :=
    "\nOBJECTS += $(addprefix $(BUILD_DIR)/,$(notdir $(CPP_SOURCES:.cpp=.o)))\nvpath %.cpp $(sort $(dir $(CPP_SOURCES)))\n"

  /** CMD_BUILD_CPP: the rule that compiles a .cpp source */
  const CmdBuildCpp: string :=
    "\n$(BUILD_DIR)/%.o: %.cpp Makefile | $(BUILD_DIR)\n\t$(CC) -c $(CFLAGS) -Wa,-a,-ad,-alms=$(BUILD_DIR)/$(notdir $(<:.cpp=.lst)) $< -o $@\n"

  /** The rule for assembly sources; the C++ rule goes in front of it */
  const RuleBuildAsm: string := "$(BUILD_DIR)/%.o: %.s Makefile | $(BUILD_DIR)"

  const CFlags: seq<string> := ["$(MCU)", "-std=c++11", "-Wno-write-strings", "-specs=nano.specs",
    "-specs=nosys.specs", "$(C_DEFS)", "$(C_INCLUDES)", "$(OPT)", "-Wall", "-fdata-sections",
    "-ffunction-sections"]

  const LdFlags: seq<string> := ["$(MCU)", "-Wl,--no-wchar-size-warning", "-specs=nosys.specs",
    "-specs=nano.specs", "-T$(LDSCRIPT)", "$(LIBDIR)", "$(LIBS)"]

  const Banner: string := "#######################################"

  /** CMD_FLASH.format(path): the `prog` rule, which flashes the binary with the programmer at `path` */
  function FlashRule(path: string): string
  {
    "\n" + Banner + "\n# flash\n" + Banner + "\nprog:\n\t" + path
      + " -c port=SWD reset=HWrst -w build/$(TARGET).bin 0x08000000 -v -rst\n"
  }

  /** How a patch step ends without finishing */
  datatype Failure =
    | IndexError       // an index past the end of the text, or of an empty list
    | AlreadyModified  // check_was_modified found its tag and called exit()
    | Diverges         // the scan for the end of a block runs past the text and never stops

  // ---------------------------------------------------------------------------
  // Positions and splices

  /** get_position_front: one before the first occurrence of `expression`, or -2 when it does not occur */
  function PositionFront(t: string, expression: string): (p: int)
    ensures p >= -2
    ensures p >= -1 <==> exists j :: OccursAt(t, expression, j)
    ensures p >= -1 ==> OccursAt(t, expression, p + 1) && forall j :: 0 <= j <= p ==> !OccursAt(t, expression, j)
  {
    Find(t, expression) - 1
  }

  /**
   * get_position_behind: one past the character that follows the first occurrence of
   * `expression`; when it does not occur, the length of `expression`.
   */
  function PositionBehind(t: string, expression: string): (p: nat)
    ensures (forall j :: !OccursAt(t, expression, j)) ==> p == |expression|
    ensures (exists j :: OccursAt(t, expression, j)) ==>
      p > |expression| && OccursAt(t, expression, p - |expression| - 1) &&
      forall j :: 0 <= j < p - |expression| - 1 ==> !OccursAt(t, expression, j)
  {
    Find(t, expression) + |expression| + 1
  }

  /** t[:p] + s + t[p:], with Python's reading of a negative or too large position */
  function Splice(t: string, p: int, s: string): (r: string)
    ensures var i := PyIndex(|t|, p);
      |r| == |t| + |s| && r[..i] == t[..i] && r[i..i + |s|] == s && r[i + |s|..] == t[i..]
  {
    Take(t, p) + s + Drop(t, p)
  }

  /** flags: ''.join(x + ' ' for x in flags)[:-1] */
  function Flags(flags: seq<string>): (r: string)
    ensures r == Join(flags, " ")
  {
    var spaced := Terminated(flags, " ");
    if flags == [] then Take(spaced, -1)
    else
      TerminatedJoin(flags, " ");
      Take(spaced, -1)
  }

  /** Flags without whitespace in them are read back by a split on whitespace. */
  lemma FlagsReadBack(flags: seq<string>)
    requires forall k :: 0 <= k < |flags| ==> flags[k] != [] && NoSpace(flags[k])
    ensures Words(Flags(flags)) == flags
  {
    WordsJoin(flags, " ");
  }

  // ---------------------------------------------------------------------------
  // set_variable

  /** Position of the first '\n' at or after `i`, if there is one */
  function NewlineFrom(t: string, i: nat): (r: Option<nat>)
    ensures r.Some? ==> i <= r.value < |t| && t[r.value] == '\n'
    ensures forall k :: i <= k < |t| && (r.None? || k < r.value) ==> t[k] != '\n'
    decreases |t| - i
  {
    if i >= |t| then None else if t[i] == '\n' then Some(i) else NewlineFrom(t, i + 1)
  }

  /**
   * set_variable(name, value): everything from two characters after the first `name + ' '`
   * up to the end of that line becomes ' ' + value; IndexError when no '\n' follows.
   */
  function SetVariableText(t: string, name: string, value: string): (r: Result<string, Failure>)
    ensures r.Err? ==> r.error == IndexError
  {
    var start := PositionBehind(t, name + " ");
    match NewlineFrom(t, start)
    case None => Err(IndexError)
    case Some(end) => Ok(t[..start] + " " + value + t[end..])
  }

  // ---------------------------------------------------------------------------
  // check_was_modified

  /** check_was_modified: exit when the C++ tag is there, else insert it behind the generic tag */
  function MarkModifiedText(t: string): Result<string, Failure>
  {
    if Find(t, TagModifyCpp) != -1 then Err(AlreadyModified)
    else Ok(Splice(t, PositionBehind(t, TagGeneric), TagModifyCpp + "\n"))
  }

  // ---------------------------------------------------------------------------
  // repair_multiple_definition

  /** text[i:i+2] is '\n\n' or '\n#': a blank line or a comment line starts after position i */
  predicate IsBlockEnd(t: string, i: int)
  {
    0 <= i && i + 2 <= |t| && (t[i..i + 2] == "\n\n" || t[i..i + 2] == "\n#")
  }

  /** The first block end at or after `i`, if there is one */
  function BlockEnd(t: string, i: nat): (r: Option<nat>)
    ensures r.Some? ==> i <= r.value && IsBlockEnd(t, r.value)
    ensures forall k :: i <= k && (r.None? || k < r.value) ==> !IsBlockEnd(t, k)
    decreases |t| - i
  {
    if i + 2 > |t| then None else if IsBlockEnd(t, i) then Some(i) else BlockEnd(t, i + 1)
  }

  /** x.replace('\\', '').strip(): an entry line without its backslashes and surrounding whitespace */
  function Clean(x: string): string
  {
    Strip(ReplaceAll(x, "\\", ""))
  }

  /** map(Clean, xs) */
  function CleanAll(xs: seq<string>): (r: seq<string>)
    ensures |r| == |xs| && forall k :: 0 <= k < |xs| ==> r[k] == Clean(xs[k])
  {
    seq(|xs|, k requires 0 <= k < |xs| => Clean(xs[k]))
  }

  /** ''.join([x + ' \\\n' for x in items[:-1]] + [items[-1] + '\n']) */
  function EntryText(items: seq<string>): string
    requires items != []
  {
    Terminated(items[..|items| - 1], " \\\n") + items[|items| - 1] + "\n"
  }

  /**
   * repair_multiple_definition(tag): the block from just behind the tag's line up to the first
   * blank or comment line keeps its first line; its other lines are cleaned, deduplicated,
   * sorted and written back one per line.
   */
  function RepairText(t: string, tag: string): Result<string, Failure>
  {
    var start := PositionBehind(t, tag);
    match BlockEnd(t, start)
    case None => Err(Diverges)
    case Some(end) =>
      var code := Split(t[start..end], '\n');
      var first := code[0] + "\n";
      var items := SortedSet(CleanAll(code[1..]));
      if items == [] then Err(IndexError)
      else Ok(t[..start] + first + EntryText(items) + t[end..])
  }

  // ---------------------------------------------------------------------------
  // support_cpp and add_stm32_programmer

  const CompilerCpp: string := "$(BINPATH)$(PREFIX)g++"

  /** The two insertions of support_cpp: the C++ objects before the ASM objects, the C++ rule before the .s rule */
  function AddCppBuild(t: string): string
  {
    var t' := Splice(t, Find(t, TagListOfAsmObjects), TagListOfCppObjects + CmdObjectsAppendCpp);
    Splice(t', PositionFront(t', RuleBuildAsm), CmdBuildCpp)
  }

  /**
   * support_cpp: three set_variable calls, then the two insertions.  When a set_variable call
   * raises, Err carries the text as the calls before it left it.
   */
  function SupportCppText(t: string): Result<string, string>
  {
    match SetVariableText(t, "CC", CompilerCpp)
    case Err(_) => Err(t)
    case Ok(t1) =>
      match SetVariableText(t1, "CFLAGS", Flags(CFlags))
      case Err(_) => Err(t1)
      case Ok(t2) =>
        match SetVariableText(t2, "LDFLAGS", Flags(LdFlags))
        case Err(_) => Err(t2)
        case Ok(t3) => Ok(AddCppBuild(t3))
  }

  /**
   * add_stm32_programmer: `found` is what the `find` search printed; without its last character
   * it is the programmer's path, and a non-empty path puts the flashing rule one character
   * before the EOF tag.
   */
  function AddProgrammerText(t: string, found: string): string
  {
    var path := Take(found, -1);
    if path == [] then t else Splice(t, PositionFront(t, TagEof), FlashRule(path))
  }

  /** The text a step leaves: the new text when it finishes, the old one when it fails */
  ghost predicate Stepped(spec: Result<string, Failure>, before: string, after: string, failure: Option<Failure>)
  {
    match spec
    case Ok(r) => failure == None && after == r
    case Err(e) => failure == Some(e) && after == before
  }

  // ---------------------------------------------------------------------------
  // The class

  class Makefile {
    /** self.makefile: the whole text of the Makefile */
    var text: string

    /** The text as read from the file */
    constructor (contents: string)
      ensures text == contents
    {
      text := contents;
    }

    /** replace: every occurrence of `pattern`, left to right, becomes `replacement` */
    method Replace(pattern: string, replacement: string)
      modifies this
      ensures text == ReplaceAll(old(text), pattern, replacement)
    {
      text := ReplaceAll(text, pattern, replacement);
    }

    /** unix_end_line: the replaced text is thrown away, so the Makefile stays as it was */
    method UnixEndLine()
      modifies this
      ensures text == old(text)
    {
      var discarded := ReplaceAll(text, "\r\n", "\n");
    }

    /** unix_end_line as evidently intended: every "\r\n" becomes "\n" */
    method ToUnixLineEnds()
      modifies this
      ensures text == ReplaceAll(old(text), "\r\n", "\n")
    {
      Replace("\r\n", "\n");
    }

    method SetVariable(name: string, value: string) returns (failure: Option<Failure>)
      modifies this
      ensures Stepped(SetVariableText(old(text), name, value), old(text), text, failure)
    {
      var start := PositionBehind(text, name + " ");
      var i := start;
      while i < |text| && text[i] != '\n'
        invariant start <= i
        invariant forall k :: start <= k < i && k < |text| ==> text[k] != '\n'
        decreases |text| - i
      {
        i := i + 1;
      }
      if i >= |text| {
        // self.makefile[i] raises
        return Some(IndexError);
      }
      NewlineFromAt(text, start, i);
      text := text[..start] + " " + value + text[i..];
      return None;
    }

    method CheckWasModified() returns (failure: Option<Failure>)
      modifies this
      ensures Stepped(MarkModifiedText(old(text)), old(text), text, failure)
    {
      if Find(text, TagModifyCpp) != -1 {
        return Some(AlreadyModified);
      }
      var position := PositionBehind(text, TagGeneric);
      text := Splice(text, position, TagModifyCpp + "\n");
      return None;
    }

    method RepairMultipleDefinition(tag: string) returns (failure: Option<Failure>)
      modifies this
      ensures Stepped(RepairText(old(text), tag), old(text), text, failure)
    {
      var start := PositionBehind(text, tag);
      var i := start;
      while i + 2 <= |text| && text[i..i + 2] != "\n\n" && text[i..i + 2] != "\n#"
        invariant start <= i
        invariant forall k :: start <= k < i ==> !IsBlockEnd(text, k)
        decreases |text| - i
      {
        i := i + 1;
      }
      if i + 2 > |text| {
        // from here on text[i:i+2] is shorter than two characters, so the Python loop never ends
        return Some(Diverges);
      }
      BlockEndAt(text, start, i);
      var code := Split(text[start..i], '\n');
      var first := code[0] + "\n";
      var items := SortedSet(CleanAll(code[1..]));
      RepairTextAt(text, tag, start, i);
      if items == [] {
        // code[-1] of an empty list
        return Some(IndexError);
      }
      text := text[..start] + first + EntryText(items) + text[i..];
      return None;
    }

    /** update_toolchain */
    method UpdateToolchain() returns (failure: Option<Failure>)
      modifies this
      ensures var replaced := ReplaceAll(old(text), "$(BINPATH)/", "$(BINPATH)");
        Stepped(SetVariableText(replaced, "BINPATH", "/opt/gcc-arm-none-eabi/bin/"), replaced, text, failure)
    {
      Replace("$(BINPATH)/", "$(BINPATH)");
      failure := SetVariable("BINPATH", "/opt/gcc-arm-none-eabi/bin/");
    }

    method SupportCpp() returns (failure: Option<Failure>)
      modifies this
      ensures failure == None <==> SupportCppText(old(text)).Ok?
      ensures failure == None || failure == Some(IndexError)
      ensures text == match SupportCppText(old(text)) case Ok(r) => r case Err(left) => left
    {
      ghost var t0 := text;
      failure := SetVariable("CC", CompilerCpp);
      if failure.Some? {
        assert SetVariableText(t0, "CC", CompilerCpp).Err?;
        return;
      }
      ghost var t1 := text;
      assert SetVariableText(t0, "CC", CompilerCpp) == Ok(t1);
      failure := SetVariable("CFLAGS", Flags(CFlags));
      if failure.Some? {
        assert SetVariableText(t1, "CFLAGS", Flags(CFlags)).Err?;
        return;
      }
      ghost var t2 := text;
      assert SetVariableText(t1, "CFLAGS", Flags(CFlags)) == Ok(t2);
      failure := SetVariable("LDFLAGS", Flags(LdFlags));
      if failure.Some? {
        assert SetVariableText(t2, "LDFLAGS", Flags(LdFlags)).Err?;
        return;
      }
      assert SetVariableText(t2, "LDFLAGS", Flags(LdFlags)) == Ok(text);
      assert SupportCppText(t0) == Ok(AddCppBuild(text));
      var position := Find(text, TagListOfAsmObjects);
      text := Splice(text, position, TagListOfCppObjects + CmdObjectsAppendCpp);
      position := PositionFront(text, RuleBuildAsm);
      text := Splice(text, position, CmdBuildCpp);
    }

    /** hide_command: '\t' + cmd becomes '\t@' + cmd, so make no longer echoes the command */
    method HideCommand(cmd: string)
      modifies this
      ensures text == ReplaceAll(old(text), "\t" + cmd, "\t@" + cmd)
    {
      Replace("\t" + cmd, "\t@" + cmd);
    }

    /** show_command: '\t@' + cmd becomes '\t' + cmd */
    method ShowCommand(cmd: string)
      modifies this
      ensures text == ReplaceAll(old(text), "\t@" + cmd, "\t" + cmd)
    {
      Replace("\t@" + cmd, "\t" + cmd);
    }

    /** The splice of add_stm32_programmer; `found` stands for the output of the `find` search */
    method AddStm32Programmer(found: string)
      modifies this
      ensures text == AddProgrammerText(old(text), found)
    {
      var path := Take(found, -1);
      if path != [] {
        var position := PositionFront(text, TagEof);
        text := Splice(text, position, FlashRule(path));
      }
    }
  }

  // ---------------------------------------------------------------------------
  // Properties of unix_end_line

  /**
   * The conversion unix_end_line computes and throws away would have changed a CRLF text:
   * "a\r\n" would become "a\n", but the method leaves it as "a\r\n".
   */
  lemma CrLfKept()
    ensures ReplaceAll("a\r\n", "\r\n", "\n") == "a\n" != "a\r\n"
  {
    var t := "a\r\n";
    assert !OccursAt(t, "\r\n", 0);
    assert t[1..] == "\r\n" && OccursAt(t[1..], "\r\n", 0);
    assert t[1..][2..] == [];
  }

  /** A text whose every '\r' starts a "\r\n" pair: the line ends of a Windows text */
  predicate CrLfText(t: string)
  {
    forall j :: 0 <= j < |t| && t[j] == '\r' ==> j + 1 < |t| && t[j + 1] == '\n'
  }

  /**
   * Converting such a text leaves no '\r': it is the text with exactly its carriage returns
   * removed.
   */
  lemma {:induction false} CrLfRemoved(t: string)
    requires CrLfText(t)
    ensures '\r' !in ReplaceAll(t, "\r\n", "\n")
    ensures ReplaceAll(t, "\r\n", "\n") == ReplaceAll(t, "\r", "")
    decreases |t|
  {
    if t != [] {
      var crlf, cr := "\r\n", "\r";
      if OccursAt(t, crlf, 0) {
        var rest := t[2..];
        assert CrLfText(rest) by {
          forall j | 0 <= j < |rest| && rest[j] == '\r' ensures j + 1 < |rest| && rest[j + 1] == '\n' {
            assert t[j + 2] == rest[j];
          }
        }
        CrLfRemoved(rest);
        assert ReplaceAll(t, crlf, "\n") == "\n" + ReplaceAll(rest, crlf, "\n");
        assert OccursAt(t, cr, 0) && t[1..][1..] == rest;
        assert ReplaceAll(t, cr, "") == ReplaceAll(t[1..], cr, "");
        assert !OccursAt(t[1..], cr, 0);
        assert ReplaceAll(t[1..], cr, "") == [t[1]] + ReplaceAll(rest, cr, "");
      } else {
        var rest := t[1..];
        assert t[0] != '\r';
        assert CrLfText(rest) by {
          forall j | 0 <= j < |rest| && rest[j] == '\r' ensures j + 1 < |rest| && rest[j + 1] == '\n' {
            assert t[j + 1] == rest[j];
          }
        }
        CrLfRemoved(rest);
        assert ReplaceAll(t, crlf, "\n") == [t[0]] + ReplaceAll(rest, crlf, "\n");
        assert !OccursAt(t, cr, 0);
        assert ReplaceAll(t, cr, "") == [t[0]] + ReplaceAll(rest, cr, "");
      }
    }
  }

  // ---------------------------------------------------------------------------
  // Properties of set_variable

  /**
   * On a line "<name> =<old value>" holding the first `name + ' '` of the text, set_variable
   * makes the line "<name> = <value>" and leaves every other character as it was.
   */
  lemma SetVariableLine(pre: string, name: string, oldValue: string, post: string, value: string)
    requires Find(pre + name + " ", name + " ") == |pre|
    requires '\n' !in oldValue
    ensures SetVariableText(pre + name + " =" + oldValue + "\n" + post, name, value)
         == Ok(pre + name + " = " + value + "\n" + post)
  {
    var t := pre + name + " =" + oldValue + "\n" + post;
    var n := |pre| + |name| + 2;
    var r := pre + name + " = " + value + "\n" + post;
    SetVariableBounds(t, pre, name, oldValue, post, n);
    SetVariableJoin(t, pre, name, oldValue, post, value, n, r);
    SetVariableAt(t, name, value, n, n + |oldValue|, r);
  }

  /** Where set_variable starts and ends on such a line */
  lemma SetVariableBounds(t: string, pre: string, name: string, oldValue: string, post: string, n: nat)
    requires Find(pre + name + " ", name + " ") == |pre|
    requires '\n' !in oldValue
    requires t == pre + name + " =" + oldValue + "\n" + post && n == |pre| + |name| + 2
    ensures PositionBehind(t, name + " ") == n && NewlineFrom(t, n) == Some(n + |oldValue|)
  {
    var key := pre + name + " ";
    var rest := "=" + oldValue + "\n" + post;
    SetVariableSplit(pre + name, oldValue, post);
    PositionBehindFirst(key, rest, name + " ");
    NewlineAfter(pre + name + " =", oldValue, post);
  }

  lemma SetVariableSplit(a: string, v: string, p: string)
    ensures a + " =" + v + "\n" + p == (a + " ") + ("=" + v + "\n" + p)
  {
    assert " =" == " " + "=";
  }

  lemma SetVariableJoin(t: string, pre: string, name: string, oldValue: string, post: string, value: string, n: nat, r: string)
    requires t == pre + name + " =" + oldValue + "\n" + post && n == |pre| + |name| + 2
    requires r == pre + name + " = " + value + "\n" + post
    ensures n + |oldValue| <= |t| && t[..n] + " " + value + t[n + |oldValue|..] == r
  {
    var a := pre + name;
    assert t[..|a| + 2] == a + " =";
    assert t[|a| + 2 + |oldValue|..] == "\n" + post;
    assert " =" + " " == " = ";
  }

  /** set_variable once its start and the newline after it are known */
  lemma SetVariableAt(t: string, name: string, value: string, start: nat, end: nat, r: string)
    requires PositionBehind(t, name + " ") == start && NewlineFrom(t, start) == Some(end)
    requires end <= |t| && r == t[..start] + " " + value + t[end..]
    ensures SetVariableText(t, name, value) == Ok(r)
  {
  }

  /** Behind a first occurrence at the end of `head`, whatever follows */
  lemma PositionBehindFirst(head: string, rest: string, pat: string)
    requires |pat| <= |head| && Find(head, pat) == |head| - |pat|
    ensures PositionBehind(head + rest, pat) == |head| + 1
  {
    var t := head + rest;
    assert t[..|head|] == head;
    FindStable(head, t, pat, |head|);
  }

  /** The first newline from the end of `a` is the one after `b` when `b` has none. */
  lemma NewlineAfter(a: string, b: string, c: string)
    requires '\n' !in b
    ensures NewlineFrom(a + b + "\n" + c, |a|) == Some(|a| + |b|)
  {
    var t := a + b + "\n" + c;
    forall k | |a| <= k < |a| + |b| ensures t[k] != '\n' {
      assert t[k] == b[k - |a|];
    }
    NewlineFromAt(t, |a|, |a| + |b|);
  }

  /** Setting a variable twice is setting it once to the second value. */
  lemma SetVariableTwice(t: string, name: string, first: string, second: string)
    requires Find(t, name + " ") >= 0 && '\n' !in first
    requires SetVariableText(t, name, first).Ok?
    ensures SetVariableText(SetVariableText(t, name, first).value, name, second) == SetVariableText(t, name, second)
  {
    var start := PositionBehind(t, name + " ");
    var end := NewlineFrom(t, start).value;
    var r := t[..start] + " " + first + t[end..];
    var r2 := t[..start] + " " + second + t[end..];
    SetVariableAt(t, name, first, start, end, r);
    SetVariableAt(t, name, second, start, end, r2);
    SetVariableBoundsKept(t, name, first, start, end);
    assert r[..start] == t[..start] && r[start + 1 + |first|..] == t[end..];
    SetVariableAt(r, name, second, start, start + 1 + |first|, r2);
  }

  /** After a first set_variable, the second one starts at the same place and ends behind the new value. */
  lemma SetVariableBoundsKept(t: string, name: string, first: string, start: nat, end: nat)
    requires Find(t, name + " ") >= 0 && '\n' !in first
    requires start == PositionBehind(t, name + " ") && NewlineFrom(t, start) == Some(end)
    ensures var r := t[..start] + " " + first + t[end..];
      PositionBehind(r, name + " ") == start && NewlineFrom(r, start) == Some(start + 1 + |first|)
  {
    StartKept(t, name, first, start, end);
    NewlineKept(t, first, start, end);
  }

  /** The variable is still found at the same place after its value is replaced. */
  lemma StartKept(t: string, name: string, first: string, start: nat, end: nat)
    requires Find(t, name + " ") >= 0
    requires start == PositionBehind(t, name + " ") && start <= end <= |t|
    ensures PositionBehind(t[..start] + " " + first + t[end..], name + " ") == start
  {
    var r := t[..start] + " " + first + t[end..];
    assert r[..start] == t[..start];
    FindStable(t, r, name + " ", start);
  }

  /** The replaced value is followed by the newline that ended the old one. */
  lemma NewlineKept(t: string, first: string, start: nat, end: nat)
    requires '\n' !in first && start <= end < |t| && t[end] == '\n'
    ensures NewlineFrom(t[..start] + " " + first + t[end..], start) == Some(start + 1 + |first|)
  {
    var r := t[..start] + " " + first + t[end..];
    var end' := start + 1 + |first|;
    assert r[end'] == '\n';
    forall k | start <= k < end' ensures r[k] != '\n' {
      if k > start {
        assert r[k] == first[k - start - 1];
      }
    }
    NewlineFromAt(r, start, end');
  }

  // ---------------------------------------------------------------------------
  // Properties of check_was_modified

  /** Once the C++ tag is in, a second check_was_modified exits. */
  lemma MarkModifiedOnce(t: string)
    requires MarkModifiedText(t).Ok?
    ensures MarkModifiedText(MarkModifiedText(t).value) == Err(AlreadyModified)
  {
    var r := MarkModifiedText(t).value;
    var i := PyIndex(|t|, PositionBehind(t, TagGeneric));
    var s := TagModifyCpp + "\n";
    assert r[i..i + |s|] == s;
    assert r[i..i + |TagModifyCpp|] == r[i..i + |s|][..|TagModifyCpp|];
    assert OccursAt(r, TagModifyCpp, i);
  }

  /**
   * When the generic tag first appears on a line of its own, the C++ tag becomes the next line
   * and nothing else changes.
   */
  lemma MarkModifiedNextLine(pre: string, post: string)
    requires Find(pre + TagGeneric, TagGeneric) == |pre|
    requires Find(pre + TagGeneric + "\n" + post, TagModifyCpp) == -1
    ensures MarkModifiedText(pre + TagGeneric + "\n" + post)
         == Ok(pre + TagGeneric + "\n" + (TagModifyCpp + "\n") + post)
  {
    SpliceBehindLine(pre, TagGeneric, post, TagModifyCpp + "\n");
  }

  /** Splicing behind a tag that first appears on a line of its own puts the text at the start of the next line. */
  lemma SpliceBehindLine(pre: string, tag: string, post: string, s: string)
    requires Find(pre + tag, tag) == |pre|
    ensures var t := pre + tag + "\n" + post;
      Splice(t, PositionBehind(t, tag), s) == pre + tag + "\n" + s + post
  {
    var t := pre + tag + "\n" + post;
    assert t[..|pre + tag|] == pre + tag;
    FindStable(pre + tag, t, tag, |pre + tag|);
    var i := |pre| + |tag| + 1;
    assert PositionBehind(t, tag) == i;
    assert t[..i] == pre + tag + "\n" && t[i..] == post;
  }

  // ---------------------------------------------------------------------------
  // Properties of repair_multiple_definition

  /**
   * A repaired block: the text before it and from its end on are kept, so is its first line,
   * and its entries follow one per line, joined by ' \\\n', in ascending order without
   * repeats.  They are exactly the old entry lines with backslashes and surrounding whitespace
   * removed.  The repair fails exactly when the block is a single line.
   */
  lemma RepairedBlock(t: string, tag: string, start: nat, end: nat)
    requires start == PositionBehind(t, tag) && BlockEnd(t, start) == Some(end)
    ensures start <= end <= |t|
    ensures var code := Split(t[start..end], '\n');
      var items := SortedSet(CleanAll(code[1..]));
      (RepairText(t, tag).Ok? <==> |code| > 1) &&
      (RepairText(t, tag).Ok? ==>
        RepairText(t, tag).value == t[..start] + (code[0] + "\n") + (Join(items, " \\\n") + "\n") + t[end..] &&
        StrictlySorted(items) && Elements(items) == Elements(CleanAll(code[1..])) &&
        forall k :: 0 <= k < |items| ==> Entry(items[k]))
  {
    RepairTextAt(t, tag, start, end);
    var code := Split(t[start..end], '\n');
    RepairedItems(code[1..]);
    var items := SortedSet(CleanAll(code[1..]));
    if items != [] {
      EntryTextJoin(items);
    }
  }

  /** The entries of a block's lines: sorted, without repeats, each an entry; none exactly when there are no lines */
  lemma RepairedItems(lines: seq<string>)
    requires forall k :: 0 <= k < |lines| ==> '\n' !in lines[k]
    ensures var items := SortedSet(CleanAll(lines));
      (items == [] <==> lines == []) &&
      StrictlySorted(items) && Elements(items) == Elements(CleanAll(lines)) &&
      forall k :: 0 <= k < |items| ==> Entry(items[k])
  {
    ItemsEmpty(CleanAll(lines));
    CleanedEntries(lines);
    SortedEntries(SortedSet(CleanAll(lines)), CleanAll(lines));
  }

  /** Sorting a set of lines gives none exactly when there are none. */
  lemma ItemsEmpty(xs: seq<string>)
    ensures SortedSet(xs) == [] <==> xs == []
  {
    var items := SortedSet(xs);
    if xs != [] {
      assert xs[0] in Elements(xs);
    }
  }

  lemma SortedEntries(items: seq<string>, xs: seq<string>)
    requires Elements(items) == Elements(xs)
    requires forall y :: y in Elements(xs) ==> Entry(y)
    ensures forall k :: 0 <= k < |items| ==> Entry(items[k])
  {
    forall k | 0 <= k < |items| ensures Entry(items[k]) {
      assert items[k] in Elements(items);
    }
  }

  /** The entry lines joined by ' \\\n', with a final newline */
  lemma EntryTextJoin(items: seq<string>)
    requires items != []
    ensures EntryText(items) == Join(items, " \\\n") + "\n"
  {
    TerminatedThenLast(items, " \\\n");
  }

  /** Every cleaned line is an entry. */
  lemma CleanedEntries(lines: seq<string>)
    requires forall k :: 0 <= k < |lines| ==> '\n' !in lines[k]
    ensures forall y :: y in Elements(CleanAll(lines)) ==> Entry(y)
  {
    forall y | y in Elements(CleanAll(lines)) ensures Entry(y) {
      var j :| 0 <= j < |lines| && CleanAll(lines)[j] == y;
      CleanIsEntry(lines[j]);
    }
  }

  /** A cleaned entry line: one line, no backslash, no whitespace at either end */
  predicate Entry(x: string)
  {
    '\n' !in x && '\\' !in x && Strip(x) == x
  }

  lemma CleanIsEntry(x: string)
    requires '\n' !in x
    ensures Entry(Clean(x))
  {
    var y := ReplaceAll(x, "\\", "");
    assert "\\" == ['\\'];
    RemoveChar(x, '\\');
    StripInside(y);
    StripIdempotent(y);
  }

  /** Cleaning an entry leaves it as it is. */
  lemma CleanEntry(x: string)
    requires Entry(x)
    ensures Clean(x) == x
  {
    assert "\\" == ['\\'];
    CharAbsent(x, '\\');
    ReplaceAbsent(x, "\\", "");
  }

  /** Cleaning an entry followed by ' \\' gives the entry back. */
  lemma CleanContinued(x: string)
    requires Entry(x)
    ensures Clean(x + " \\") == x
  {
    assert "\\" == ['\\'];
    assert " \\" == " " + "\\";
    ReplaceCharConcat(x, " \\", '\\', "");
    ReplaceCharConcat(" ", "\\", '\\', "");
    CharAbsent(x, '\\');
    ReplaceAbsent(x, "\\", "");
    CharAbsent(" ", '\\');
    ReplaceAbsent(" ", "\\", "");
    assert ReplaceAll("\\", "\\", "") == "" by {
      assert OccursAt("\\", "\\", 0);
    }
    StrippedEnds(x);
    StripPadded([], x, " ");
    assert [] + x + " " == x + " ";
  }

  /** A stripped text is empty or begins and ends with a non-space. */
  lemma StrippedEnds(x: string)
    requires Strip(x) == x
    ensures x == [] || (!IsSpace(x[0]) && !IsSpace(x[|x| - 1]))
  {
    var l := TrimLeft(x);
    if x != [] {
      assert x[0] == l[0];
    }
  }

  /**
   * The entry lines of a repaired block, read the same way again, give the same entries:
   * a second cleaning, deduplication and sort changes nothing.
   */
  lemma RepairedEntriesReread(items: seq<string>)
    requires items != [] && StrictlySorted(items)
    requires forall k :: 0 <= k < |items| ==> Entry(items[k])
    ensures SortedSet(CleanAll(Split(Join(items, " \\\n"), '\n'))) == items
  {
    EntriesReadBack(items);
    SortedSetOfSorted(items);
  }

  /** The entry lines, split and cleaned, are the entries. */
  lemma EntriesReadBack(items: seq<string>)
    requires items != []
    requires forall k :: 0 <= k < |items| ==> Entry(items[k])
    ensures CleanAll(Split(Join(items, " \\\n"), '\n')) == items
  {
    var n := |items|;
    var front, last := items[..n - 1], items[n - 1];
    FrontThenLast(items);
    JoinedLines(items);
    CleanedLines(front, last);
  }

  lemma FrontThenLast(xs: seq<string>)
    requires xs != []
    ensures xs[..|xs| - 1] + [xs[|xs| - 1]] == xs
  {
  }

  /** The joined entries split at '\n': every entry but the last keeps its ' \\' */
  lemma JoinedLines(items: seq<string>)
    requires items != []
    requires forall k :: 0 <= k < |items| ==> '\n' !in items[k]
    ensures Split(Join(items, " \\\n"), '\n') == Suffixed(items[..|items| - 1], " \\") + [items[|items| - 1]]
  {
    var pre := " \\";
    assert " \\\n" == pre + ['\n'];
    assert '\n' !in pre;
    SplitJoinSuffixed(items, pre, '\n');
  }

  /** Cleaning those lines gives the entries back. */
  lemma CleanedLines(front: seq<string>, last: string)
    requires forall k :: 0 <= k < |front| ==> Entry(front[k])
    requires Entry(last)
    ensures CleanAll(Suffixed(front, " \\") + [last]) == front + [last]
  {
    CleanAllAppend(Suffixed(front, " \\"), last);
    CleanAllSuffixed(front);
    CleanEntry(last);
  }

  lemma CleanAllAppend(xs: seq<string>, x: string)
    ensures CleanAll(xs + [x]) == CleanAll(xs) + [Clean(x)]
  {
    var r, c := CleanAll(xs + [x]), CleanAll(xs);
    forall k | 0 <= k < |xs| ensures r[k] == c[k] {
      assert (xs + [x])[k] == xs[k];
    }
    assert r[|xs|] == Clean(x);
  }

  /** Entries each followed by ' \\', cleaned, are the entries. */
  lemma CleanAllSuffixed(xs: seq<string>)
    requires forall k :: 0 <= k < |xs| ==> Entry(xs[k])
    ensures CleanAll(Suffixed(xs, " \\")) == xs
  {
    var cleaned := CleanAll(Suffixed(xs, " \\"));
    forall k | 0 <= k < |xs| ensures cleaned[k] == xs[k] {
      CleanContinued(xs[k]);
    }
  }

  // ---------------------------------------------------------------------------
  // Properties of hide_command and show_command

  /** A tab-free prefix of a text with `cmd` hidden is a prefix of the text itself. */
  lemma {:induction false} HiddenPrefix(s: string, cmd: string, x: string)
    requires '\t' !in x
    requires |x| <= |ReplaceAll(s, "\t" + cmd, "\t@" + cmd)|
    requires ReplaceAll(s, "\t" + cmd, "\t@" + cmd)[..|x|] == x
    ensures |x| <= |s| && s[..|x|] == x
    decreases |s|
  {
    var p, q := "\t" + cmd, "\t@" + cmd;
    if x != [] {
      HiddenHead(s, cmd);
      assert x[0] != '\t' && ReplaceAll(s, p, q)[0] == x[0];
      assert s != [] && !OccursAt(s, p, 0);
      var h' := ReplaceAll(s[1..], p, q);
      assert ReplaceAll(s, p, q) == [s[0]] + h';
      assert h'[..|x| - 1] == x[1..];
      HiddenPrefix(s[1..], cmd, x[1..]);
      assert s[..|x|] == [s[0]] + s[1..][..|x| - 1];
    }
  }

  /** Hiding keeps the first character, or puts a tab first where the text starts with '\t' + cmd. */
  lemma HiddenHead(s: string, cmd: string)
    ensures var h := ReplaceAll(s, "\t" + cmd, "\t@" + cmd);
      (h == [] <==> s == []) &&
      (s != [] && OccursAt(s, "\t" + cmd, 0) ==> h[0] == '\t') &&
      (s != [] && !OccursAt(s, "\t" + cmd, 0) ==> h[0] == s[0])
  {
  }

  /** A tab followed by a text whose hidden form starts with '@' + cmd starts with '\t@' + cmd itself. */
  lemma HiddenAfterTab(t: string, cmd: string)
    requires '\t' !in cmd && t != [] && t[0] == '\t'
    requires var h := ReplaceAll(t[1..], "\t" + cmd, "\t@" + cmd);
      |cmd| + 1 <= |h| && h[..|cmd| + 1] == "@" + cmd
    ensures OccursAt(t, "\t@" + cmd, 0)
  {
    var x := "@" + cmd;
    assert '\t' !in x;
    HiddenPrefix(t[1..], cmd, x);
    assert t[..|x| + 1] == [t[0]] + t[1..][..|x|];
  }

  /** Hiding a command and showing it again restores a text in which it was not hidden before. */
  lemma {:induction false} HideThenShow(t: string, cmd: string)
    requires '\t' !in cmd
    requires forall j :: !OccursAt(t, "\t@" + cmd, j)
    ensures ReplaceAll(ReplaceAll(t, "\t" + cmd, "\t@" + cmd), "\t@" + cmd, "\t" + cmd) == t
    decreases |t|
  {
    var p, q := "\t" + cmd, "\t@" + cmd;
    if t != [] {
      if OccursAt(t, p, 0) {
        NotHiddenAfter(t, q, |p|);
        HideThenShow(t[|p|..], cmd);
        HideThenShowAtCommand(t, cmd);
      } else {
        NotHiddenAfter(t, q, 1);
        HideThenShow(t[1..], cmd);
        HideThenShowPastChar(t, cmd);
      }
    }
  }

  /** No occurrence of `q` in `t` means none in any suffix of `t`. */
  lemma NotHiddenAfter(t: string, q: string, k: nat)
    requires k <= |t|
    requires forall j :: !OccursAt(t, q, j)
    ensures forall j :: !OccursAt(t[k..], q, j)
  {
    forall j ensures !OccursAt(t[k..], q, j) {
      if OccursAt(t[k..], q, j) { OccursShift(t, q, k, j); }
    }
  }

  /** The step of HideThenShow where the text starts with '\t' + cmd */
  lemma HideThenShowAtCommand(t: string, cmd: string)
    requires OccursAt(t, "\t" + cmd, 0)
    requires var rest := t[|cmd| + 1..];
      ReplaceAll(ReplaceAll(rest, "\t" + cmd, "\t@" + cmd), "\t@" + cmd, "\t" + cmd) == rest
    ensures ReplaceAll(ReplaceAll(t, "\t" + cmd, "\t@" + cmd), "\t@" + cmd, "\t" + cmd) == t
  {
    var p, q := "\t" + cmd, "\t@" + cmd;
    var rest := t[|p|..];
    var h := q + ReplaceAll(rest, p, q);
    assert ReplaceAll(t, p, q) == h;
    assert h[..|q|] == q && h[|q|..] == ReplaceAll(rest, p, q);
    assert ReplaceAll(h, q, p) == p + ReplaceAll(ReplaceAll(rest, p, q), q, p);
    assert t == t[..|p|] + rest;
  }

  /** The step of HideThenShow where the text does not start with '\t' + cmd */
  lemma HideThenShowPastChar(t: string, cmd: string)
    requires '\t' !in cmd && t != [] && !OccursAt(t, "\t" + cmd, 0)
    requires !OccursAt(t, "\t@" + cmd, 0)
    requires var rest := t[1..];
      ReplaceAll(ReplaceAll(rest, "\t" + cmd, "\t@" + cmd), "\t@" + cmd, "\t" + cmd) == rest
    ensures ReplaceAll(ReplaceAll(t, "\t" + cmd, "\t@" + cmd), "\t@" + cmd, "\t" + cmd) == t
  {
    var p, q := "\t" + cmd, "\t@" + cmd;
    var rest := t[1..];
    var h := [t[0]] + ReplaceAll(rest, p, q);
    assert ReplaceAll(t, p, q) == h;
    HiddenStartsPlain(t, cmd);
    assert ReplaceAll(h, q, p) == [t[0]] + ReplaceAll(ReplaceAll(rest, p, q), q, p);
  }

  /** A text that starts with neither '\t' + cmd nor '\t@' + cmd does not start with '\t@' + cmd once hidden. */
  lemma HiddenStartsPlain(t: string, cmd: string)
    requires '\t' !in cmd && t != [] && !OccursAt(t, "\t" + cmd, 0)
    requires !OccursAt(t, "\t@" + cmd, 0)
    ensures !OccursAt([t[0]] + ReplaceAll(t[1..], "\t" + cmd, "\t@" + cmd), "\t@" + cmd, 0)
  {
    var q := "\t@" + cmd;
    var h' := ReplaceAll(t[1..], "\t" + cmd, q);
    var h := [t[0]] + h';
    if OccursAt(h, q, 0) {
      assert q == ['\t'] + ("@" + cmd);
      assert h[..|q|] == q;
      assert t[0] == h[0] == q[0] == '\t';
      assert h'[..|cmd| + 1] == h[1..|q|] == "@" + cmd;
      HiddenAfterTab(t, cmd);
      assert false;
    }
  }

  // ---------------------------------------------------------------------------
  // Properties of support_cpp and add_stm32_programmer

  /** Splicing one character before a tag that first appears at the start of a line puts the text before that line's newline. */
  lemma SpliceBeforeLine(pre: string, tag: string, post: string, s: string)
    requires Find(pre + "\n" + tag, tag) == |pre| + 1
    ensures var t := pre + "\n" + tag + post;
      Splice(t, PositionFront(t, tag), s) == pre + s + "\n" + tag + post
  {
    var t := pre + "\n" + tag + post;
    FrontOfLine(pre, tag, post);
    assert t[..|pre|] == pre && t[|pre|..] == "\n" + tag + post;
  }

  /** get_position_front of a tag that first appears right behind a newline is that newline's position. */
  lemma FrontOfLine(pre: string, tag: string, post: string)
    requires Find(pre + "\n" + tag, tag) == |pre| + 1
    ensures PositionFront(pre + "\n" + tag + post, tag) == |pre|
  {
    var t := pre + "\n" + tag + post;
    assert t[..|pre| + 1 + |tag|] == pre + "\n" + tag;
    FindStable(pre + "\n" + tag, t, tag, |pre| + 1 + |tag|);
  }

  /** The C++ objects section goes immediately before the first ASM objects tag, which stays right behind it. */
  lemma CppObjectsBeforeAsmObjects(pre: string, post: string)
    requires Find(pre + TagListOfAsmObjects, TagListOfAsmObjects) == |pre|
    ensures var t := pre + TagListOfAsmObjects + post;
      Splice(t, Find(t, TagListOfAsmObjects), TagListOfCppObjects + CmdObjectsAppendCpp)
        == pre + (TagListOfCppObjects + CmdObjectsAppendCpp) + TagListOfAsmObjects + post
  {
    SpliceAtTag(pre, TagListOfAsmObjects, post, TagListOfCppObjects + CmdObjectsAppendCpp);
  }

  lemma SpliceAtTag(pre: string, tag: string, post: string, s: string)
    requires Find(pre + tag, tag) == |pre|
    ensures var t := pre + tag + post;
      Splice(t, Find(t, tag), s) == pre + s + tag + post
  {
    var t := pre + tag + post;
    assert t[..|pre + tag|] == pre + tag;
    FindStable(pre + tag, t, tag, |pre + tag|);
    assert t[..|pre|] == pre && t[|pre|..] == tag + post;
  }

  /** The C++ rule goes in front of the newline that ends the line above the first .s rule. */
  lemma CppRuleBeforeAsmRule(pre: string, post: string)
    requires Find(pre + "\n" + RuleBuildAsm, RuleBuildAsm) == |pre| + 1
    ensures var t := pre + "\n" + RuleBuildAsm + post;
      Splice(t, PositionFront(t, RuleBuildAsm), CmdBuildCpp) == pre + CmdBuildCpp + "\n" + RuleBuildAsm + post
  {
    SpliceBeforeLine(pre, RuleBuildAsm, post, CmdBuildCpp);
  }

  /**
   * With a programmer found, the flashing rule goes in front of the newline before the EOF tag;
   * with nothing found (at most the final newline printed) the text stays as it was.
   */
  lemma ProgrammerBeforeEof(pre: string, post: string, found: string)
    requires Find(pre + "\n" + TagEof, TagEof) == |pre| + 1
    ensures var t := pre + "\n" + TagEof + post;
      AddProgrammerText(t, found) ==
        if |found| <= 1 then t else pre + FlashRule(found[..|found| - 1]) + "\n" + TagEof + post
  {
    if |found| > 1 {
      SpliceBeforeLine(pre, TagEof, post, FlashRule(found[..|found| - 1]));
    }
  }

  // ---------------------------------------------------------------------------
  // Helpers for the loops

  lemma NewlineFromAt(t: string, i: nat, e: nat)
    requires i <= e < |t| && t[e] == '\n'
    requires forall k :: i <= k < e ==> t[k] != '\n'
    ensures NewlineFrom(t, i) == Some(e)
  {
  }

  /** What repair_multiple_definition does once its scan has stopped at a block end */
  lemma RepairTextAt(t: string, tag: string, start: nat, end: nat)
    requires start == PositionBehind(t, tag) && BlockEnd(t, start) == Some(end)
    ensures start <= end <= |t|
    ensures var code := Split(t[start..end], '\n');
      var items := SortedSet(CleanAll(code[1..]));
      RepairText(t, tag) == if items == [] then Err(IndexError) else Ok(t[..start] + (code[0] + "\n") + EntryText(items) + t[end..])
  {
  }

  lemma BlockEndAt(t: string, i: nat, e: nat)
    requires i <= e && IsBlockEnd(t, e)
    requires forall k :: i <= k < e ==> !IsBlockEnd(t, k)
    ensures BlockEnd(t, i) == Some(e)
  {
  }
}
