/**
 * The debugger console as the page runs it: debugger_state and the views
 * as the fields of one object, and the handlers as methods that change them
 * step by step and call the device. Every method is proved to leave the
 * console and the device exactly as the corresponding function of module
 * Gadgets says.
 */
module Console {
  import opened Wrappers
  import opened JsText
  import opened JsNumber
  import opened Machine
  import opened Output
  import opened Commands
  import opened Gadgets

  // Regrouping of appends; kept as a lemma so that DumpMemoryRow's proof stays within its resource budget.
  lemma AppendFour<T>(o: seq<T>, a: seq<T>, b: seq<T>, c: seq<T>, d: seq<T>)
    ensures o + a + b + c + d == o + (a + b + c + d)
  {
  }

  // Regrouping of appends; kept as a lemma so that its callers' proofs stay within their resource budget.
  lemma AppendAssoc<T>(a: seq<T>, b: seq<T>, c: seq<T>)
    ensures a + b + c == a + (b + c)
  {
  }

  lemma ByteCellsSnoc(row: seq<Byte>, i: nat)
    requires i < |row|
    ensures ByteCells(row[..i + 1]) == ByteCells(row[..i]) + [ByteCell(row[i])]
  {
    assert row[..i + 1][..i] == row[..i];
  }

  class Debugger {
    var previousCommand: Option<string>
    var history: seq<string>
    var prevHistoryIndex: int
    var historyIndex: int
    var inputBuffer: string
    var breakpoints: seq<Number>
    var output: seq<Entry>
    var registerPanel: seq<string>
    var disassembly: seq<DisasmRow>
    var closed: bool
    const device: Device
    const stringify: seq<Instruction> -> string

    function Snapshot(): Session
      reads this
    {
      Session(previousCommand, history, prevHistoryIndex, historyIndex, inputBuffer, breakpoints,
              output, registerPanel, disassembly, closed)
    }

    function Current(): World
      reads this, device
    {
      World(Snapshot(), device.State())
    }

    function Environment(): Env
    {
      Env(device.behaviour, stringify)
    }

    /** The console as the page starts it, talking to device. */
    constructor (device: Device, stringify: seq<Instruction> -> string)
      ensures this.device == device && this.stringify == stringify
      ensures Snapshot() == InitialSession
    {
      this.device := device;
      this.stringify := stringify;
      previousCommand := None;
      history := [];
      prevHistoryIndex := 0;
      historyIndex := 0;
      inputBuffer := "";
      breakpoints := [];
      output := [];
      registerPanel := [];
      disassembly := [];
      closed := false;
    }

    /** debugger_write_output: the output sink is only ever appended to. */
    method WriteOutput(text: string, colour: Colour, newline: bool)
      modifies this`output
      ensures output == old(output) + [Entry(text, colour, newline)]
    {
      output := output + [Entry(text, colour, newline)];
    }

    method WriteEntries(es: seq<Entry>)
      modifies this`output
      ensures output == old(output) + es
    {
      for i := 0 to |es|
        invariant output == old(output) + es[..i]
      {
        WriteOutput(es[i].text, es[i].colour, es[i].newline);
        assert es[..i + 1] == es[..i] + [es[i]];
      }
      assert es[..|es|] == es;
    }

    method Break(args: seq<string>)
      modifies this`breakpoints, this`output
      ensures Snapshot() == BreakSpec(old(Snapshot()), args)
    {
      if |args| < 2 {
        WriteEntries(Error(Red, "Error: ", "Expected two arguments but got " + Decimal(|args|)));
        return;
      }
      var address := ParseInt(args[1]);
      if !IsBreakpoint(breakpoints, address) {
        breakpoints := breakpoints + [address];
        WriteEntries([Text("Breakpoint set at address "), Entry("0x" + Hex4(address), Orange, false), Text(".")]);
      } else {
        WriteEntries(Error(Orange, "Warning: ", "Breakpoint already exists at address " + Hex4(address)));
      }
    }

    method History(args: seq<string>)
      modifies this`history, this`output
      ensures Snapshot() == HistorySpec(old(Snapshot()), args)
    {
      if |args| == 2 && args[1] == "clear" {
        history := [];
      }
      if |history| == 0 {
        return;
      }
      ghost var h := history;
      for i := 0 to |history|
        invariant history == h
        invariant output == old(output) + ListingUpTo(history, i)
      {
        WriteOutput(Decimal(i) + " ", Orange, false);
        WriteOutput(history[i], Plain, true);
      }
    }

    method Help()
      modifies this`output
      ensures Snapshot() == HelpSpec(old(Snapshot()))
    {
      WriteOutput(HelpText, Plain, false);
    }

    method Reset()
      modifies this`output
      ensures Snapshot() == ResetSpec(old(Snapshot()))
    {
      output := [];
    }

    method Quit()
      modifies this`closed
      ensures Snapshot() == QuitSpec(old(Snapshot()))
    {
      closed := true;
    }

    /** update_register_display, without the flag indicators. */
    method UpdateRegisterDisplay()
      modifies this`registerPanel, device`log
      ensures Current() == RefreshRegisters(Environment(), old(Current()))
    {
      var registers := device.ReadRegisters();
      var cells: seq<string> := [];
      for i := 0 to |R16Names|
        invariant cells == seq(i, j requires 0 <= j < i => HexAddress(RegisterValue(registers, R16Names[j])))
      {
        cells := cells + [HexAddress(RegisterValue(registers, R16Names[i]))];
      }
      registerPanel := cells;
    }

    /** The raw_data text of one instruction: each byte put in front of those before it. */
    static method RawData(raw: seq<Byte>) returns (text: string)
      ensures text == RawDataText(raw)
      ensures |text| == 2 * |raw|
      ensures forall k :: 0 <= k < |raw| ==> text[2 * k..2 * k + 2] == Hex2(Some(raw[|raw| - 1 - k]))
    {
      text := "";
      for j := 0 to |raw|
        invariant text == RawDataText(raw[..j])
      {
        assert raw[..j + 1][..j] == raw[..j];
        text := Printf(raw[j], 2) + text;
      }
      assert raw[..|raw|] == raw;
      RawDataReversed(raw);
    }

    /** The rows update_debugger_disasm builds, the first one highlighted. */
    static method DisasmTable(instructions: seq<Instruction>) returns (rows: seq<DisasmRow>)
      ensures rows == DisasmRows(instructions)
    {
      rows := [];
      for i := 0 to |instructions|
        invariant |rows| == i && forall j :: 0 <= j < i ==> rows[j] == DisasmRowOf(instructions[j], j == 0)
      {
        var instruction := instructions[i];
        var raw := RawData(instruction.rawData);
        var comment := "";
        if instruction.commentA.Some? {
          comment := comment + instruction.commentA.value;
        }
        if instruction.commentB.Some? {
          comment := comment + instruction.commentB.value;
        }
        assert comment == CommentText(instruction.commentA) + CommentText(instruction.commentB);
        rows := rows + [DisasmRow(i == 0, Printf(instruction.address, 4), raw, instruction.assembly, comment)];
      }
    }

    /** update_debugger_disasm. */
    method UpdateDisasm()
      modifies this`disassembly, device`log
      ensures Current() == RefreshDisassembly(Environment(), old(Current()))
    {
      var instructions := device.FetchInstructions(5);
      disassembly := DisasmTable(instructions);
    }

    /** One iteration's device calls in continue: a step, then the registers, of which pc is kept. */
    method StepAndReadPc() returns (pc: nat)
      modifies device`steps, device`memory, device`log
      ensures device.steps == old(device.steps) + 1
      ensures device.memory == device.behaviour.stepMemory(old(device.steps), old(device.memory))
      ensures device.log == old(device.log) + [StepCall, ReadRegistersCall]
      ensures pc == device.behaviour.registersAt(device.steps).pc
    {
      device.Step();
      var registers := device.ReadRegisters();
      pc := registers.pc;
    }

    /**
     * The while(true) loop of debugger_gadget_continue: step, read the
     * registers, stop at the first pc that is a breakpoint and report it.
     * The first step is taken before the loop test, as the loop body does.
     */
    method RunToBreakpoint() returns (address: string)
      requires Stops(device.behaviour, breakpoints, device.steps)
      modifies this`output, device`steps, device`memory, device`log
      ensures device.steps == old(StopAt(device.behaviour, breakpoints, device.steps))
      ensures device.memory == MemoryAfter(device.behaviour, old(device.steps), old(device.memory), device.steps)
      ensures device.log == old(device.log) + LoopCalls(device.steps - old(device.steps))
      ensures address == HexAddress(device.behaviour.registersAt(device.steps).pc)
      ensures output == old(output) + HitReport(address)
    {
      ghost var d0 := device.State();
      ghost var b := device.behaviour;
      ghost var k := StopAt(b, breakpoints, device.steps);
      var pc := StepAndReadPc();
      assert LoopCalls(1) == [StepCall, ReadRegistersCall];
      while !IsBreakpoint(breakpoints, Some(pc))
        invariant d0.steps < device.steps <= k
        invariant device.memory == MemoryAfter(b, d0.steps, d0.memory, device.steps)
        invariant device.log == d0.log + LoopCalls(device.steps - d0.steps)
        invariant output == old(output)
        invariant pc == b.registersAt(device.steps).pc
        decreases k - device.steps
      {
        assert device.steps != k by { assert HitAt(b, breakpoints, k); }
        ghost var n := device.steps - d0.steps;
        pc := StepAndReadPc();
        AppendAssoc(d0.log, LoopCalls(n), [StepCall, ReadRegistersCall]);
      }
      assert HitAt(b, breakpoints, device.steps);
      address := HexAddress(pc);
      WriteEntries(HitReport(address));
    }

    /** The loop of debugger_gadget_continue and its hit report, stated on the whole state. */
    method RunAndReport() returns (address: string)
      requires Stops(device.behaviour, breakpoints, device.steps)
      modifies this`output, device`steps, device`memory, device`log
      ensures old(device.steps) <= old(StopAt(device.behaviour, breakpoints, device.steps))
      ensures Current() == HitReported(Environment(), old(Current()), old(StopAt(device.behaviour, breakpoints, device.steps)))
      ensures address == HexAddress(device.behaviour.registersAt(device.steps).pc)
    {
      ghost var s0, d0 := Snapshot(), device.State();
      ghost var k := StopAt(device.behaviour, breakpoints, device.steps);
      address := RunToBreakpoint();
      assert Snapshot() == s0.(output := s0.output + HitReport(address));
      assert device.State() == d0.(steps := k, memory := MemoryAfter(device.behaviour, d0.steps, d0.memory, k),
                                   log := d0.log + LoopCalls(k - d0.steps));
    }

    /** The pc line that ends debugger_gadget_continue. */
    method WritePcLine(address: string)
      modifies this`output, device`log
      ensures Current() == PcLine(Environment(), old(Current()), address)
    {
      var decoded := device.FetchInstructions(1);
      WriteOutput("$PC = " + address + ", " + stringify(decoded), Plain, false);
    }

    /** debugger_gadget_continue, for a breakpoint that some later step reaches. */
    method Continue()
      requires Stops(device.behaviour, breakpoints, device.steps)
      modifies this`output, this`registerPanel, this`disassembly, device`steps, device`memory, device`log
      ensures Some(Current()) == ContinueSpec(Environment(), old(Current()))
    {
      var address := RunAndReport();
      UpdateRegisterDisplay();
      UpdateDisasm();
      WritePcLine(address);
    }

    /** The byte cells of a row, each "%s " of the two-digit byte. */
    method WriteByteCells(contents: seq<Byte>, baseIndex: nat, size: nat)
      requires baseIndex + size <= |contents|
      modifies this`output
      ensures output == old(output) + ByteCells(contents[baseIndex..baseIndex + size])
    {
      ghost var row, o := contents[baseIndex..baseIndex + size], output;
      for i := 0 to size
        invariant output == o + ByteCells(row[..i])
      {
        var cell := ByteCell(contents[baseIndex + i]);
        WriteOutput(cell.text, cell.colour, cell.newline);
        ByteCellsSnoc(row, i);
      }
      assert row[..size] == row;
    }

    /** Three spaces for each position from size up to 16. */
    method WritePadding(size: nat)
      modifies this`output
      ensures output == old(output) + Padding(size)
    {
      var i := size;
      while i < 16
        invariant size <= i && (i <= 16 || i == size)
        invariant output == old(output) + Padding(size)[..i - size]
      {
        WriteOutput("   ", Plain, false);
        assert Padding(size)[..i + 1 - size] == Padding(size)[..i - size] + [Padding(size)[i - size]];
        i := i + 1;
      }
      assert Padding(size)[..i - size] == Padding(size);
    }

    /** The ASCII column as the row loop builds it, reading memory_contents at the address label plus i. */
    static method AsciiData(contents: seq<Byte>, baseAddress: Number, size: nat) returns (ascii: string)
      ensures ascii == AsciiAsWritten(contents, baseAddress, size)
    {
      ascii := "";
      for j := 0 to size
        invariant ascii == AsciiAsWritten(contents, baseAddress, j)
      {
        ascii := ascii + [AsciiChar(ElementAt(contents, AddOffset(baseAddress, j)))];
      }
    }

    /** debugger_gadget_dump_memory_row. */
    method DumpMemoryRow(contents: seq<Byte>, baseAddress: Number, baseIndex: nat, size: nat)
      requires baseIndex + size <= |contents|
      modifies this`output
      ensures output == old(output) + RowEntries(contents, baseAddress, baseIndex, size)
    {
      ghost var o0 := output;
      var tag := Hex4(baseAddress) + " ";
      WriteOutput(tag, Plain, false);
      WriteByteCells(contents, baseIndex, size);
      WritePadding(size);
      var ascii := AsciiData(contents, baseAddress, size);
      WriteOutput(ascii, Plain, true);
      ghost var cells, pad := ByteCells(contents[baseIndex..baseIndex + size]), Padding(size);
      ghost var last := [Entry(ascii, Plain, true)];
      assert output == o0 + [Text(tag)] + cells + pad + last;
      AppendFour(o0, [Text(tag)], cells, pad, last);
      assert RowEntries(contents, baseAddress, baseIndex, size) == [Text(tag)] + cells + pad + last;
    }

    /** The loop of read_memory over the region, sixteen bytes per row. */
    method DumpRegion(contents: seq<Byte>, base: Number)
      modifies this`output
      ensures output == old(output) + Dump(contents, base)
    {
      var i := 0;
      while i < |contents|
        invariant old(output) + Dump(contents, base) == output + DumpFrom(contents, base, i)
        decreases |contents| - i
      {
        var rowSize := if i + 16 < |contents| then 16 else |contents| - i;
        ghost var before := output;
        DumpMemoryRow(contents, AddOffset(base, i), i, rowSize);
        AppendAssoc(before, RowEntries(contents, AddOffset(base, i), i, rowSize), DumpFrom(contents, base, i + 16));
        i := i + 16;
      }
    }

    /** debugger_gadget_read_memory; its address parameter is unused, as in the page. */
    method ReadMemory(address: string, args: seq<string>)
      requires |args| >= 2
      modifies this`output, device`log
      ensures Current() == ReadMemorySpec(old(Current()), args)
    {
      var shape := MemoryArgs(args[1]);
      if shape.None? {
        WriteEntries(InvalidMemoryArgs(args[1]));
        return;
      }
      var (size, base) := shape.value;
      ghost var w0 := Current();
      var contents := device.ReadRegion(base, size);
      assert Current() == w0.(device := LogCall(w0.device, ReadRegionCall(base, size)));
      DumpRegion(contents, base);
    }

    /** debugger_gadget_read_register. */
    method ReadRegister(register: string)
      modifies this`output, device`log
      ensures Current() == ReadRegisterSpec(Environment(), old(Current()), register)
    {
      var name := RemoveFirst(register, '$');
      if name !in R16Names && name !in R8Names {
        WriteEntries([Entry("Error: ", Red, false), Text("The register "), Entry(name, Blue, false), Text(" is not valid.")]);
        return;
      }
      var registers := device.ReadRegisters();
      if name in R16Names {
        var value := HexAddress(RegisterValue(registers, name));
        WriteOutput("$" + name + " = " + value, Plain, false);
      } else {
        WriteEntries(Error(Red, "WARNING: ", "Reading single byte registers not implemented yet."));
      }
    }

    method Read(args: seq<string>)
      requires |args| <= 2 || '/' in args[1]
      modifies this`output, device`log
      ensures Current() == ReadSpec(Environment(), old(Current()), args)
    {
      if |args| < 2 {
        WriteEntries(Error(Red, "ERROR: ", "The read gadget expects 2 arguments but got " + Decimal(|args|) + "."));
        return;
      }
      var target := if |args| == 2 then args[1] else args[2];
      if '$' in target {
        ReadRegister(target);
      } else {
        ReadMemory(target, args);
      }
    }

    /** debugger_gadget_write_memory. */
    method WriteMemory(address: string, value: string)
      modifies device`memory, device`log
      ensures device.State() == old(device.State()).(
        memory := Poke(old(device.memory), ParseInt(address), ParseInt(value)),
        log := old(device.log) + [WriteByteCall(ParseInt(address), ParseInt(value))])
    {
      device.WriteByte(ParseInt(address), ParseInt(value));
    }

    /** debugger_gadget_write; the register branch calls an empty function and so does nothing. */
    method Write(args: seq<string>)
      modifies this`output, device`memory, device`log
      ensures Current() == WriteSpec(old(Current()), args)
    {
      if |args| < 2 {
        WriteEntries(Error(Red, "ERROR: ", "The write gadget expects 2 arguments but got " + Decimal(|args|) + "."));
        return;
      }
      var parts := Split(args[1], ' ');
      if |parts| != 2 {
        WriteEntries(Error(Red, "ERROR: ", "Missing required arguments for write gadget."));
        return;
      }
      if parts[0] != [] && parts[0][0] == '$' {
      } else {
        WriteMemory(parts[0], parts[1]);
      }
    }

    /** debugger_gadget_step: the count argument is not used. */
    method Step()
      modifies this`output, this`registerPanel, this`disassembly, device`steps, device`memory, device`log
      ensures Current() == StepSpec(Environment(), old(Current()))
    {
      ghost var w0 := Current();
      device.Step();
      assert Current() == World(w0.session, StepDevice(device.behaviour, w0.device));
      UpdateRegisterDisplay();
      UpdateDisasm();
      ghost var w1 := Current();
      assert w1 == Refresh(Environment(), World(w0.session, StepDevice(device.behaviour, w0.device)));
      var registers := device.ReadRegisters();
      var pc := Hex4(Some(registers.pc)) + " ";
      var decoded := device.FetchInstructions(1);
      WriteOutput("$PC = " + pc + ", " + stringify(decoded), Plain, false);
      assert device.State() == LogCall(LogCall(w1.device, ReadRegistersCall), FetchInstructionsCall(1));
    }

    /** The call found_command.func(args): the handler registered for c. */
    method RunCommand(c: Command, args: seq<string>)
      requires |args| <= 2
      requires c == Command.Continue ==> Stops(device.behaviour, breakpoints, device.steps)
      modifies this`history, this`output, this`breakpoints, this`registerPanel, this`disassembly, this`closed
      modifies device`steps, device`memory, device`log
      ensures Some(Current()) == RunHandler(Environment(), c, old(Current()), args)
    {
      match c
      case Break => Break(args);
      case Reset => Reset();
      case Continue => Continue();
      case Help => Help();
      case History => History(args);
      case Quit => Quit();
      case Read => Read(args);
      case Step => Step();
      case Write => Write(args);
    }

    /** The history push of handle_debug_command, skipped when the line repeats the last entry. */
    method RecordLine(input: string)
      modifies this`history, this`historyIndex
      ensures Snapshot() == Record(old(Snapshot()), input)
    {
      if |history| == 0 || history[|history| - 1] != input {
        history := history + [input];
        historyIndex := |history| - 1;
      }
    }

    /** The branch of handle_debug_command for a known command c. */
    method RunFound(input: string, args: seq<string>, c: Command)
      requires |args| <= 2
      requires c == Command.Continue ==> Stops(device.behaviour, breakpoints, device.steps)
      modifies this`history, this`historyIndex, this`output, this`breakpoints, this`registerPanel
      modifies this`disassembly, this`closed, device`steps, device`memory, device`log
      ensures Some(Current()) == FoundSpec(Environment(), old(Current()), input, args, c)
    {
      RecordLine(input);
      RunCommand(c, args);
      ghost var w := Current();
      WriteOutput("", Plain, true);
      assert Current() == Emit(w, [LineBreak]);
    }

    /** The branch of handle_debug_command for a first word that is no command. */
    method ReportInvalid(input: string)
      modifies this`output
      ensures Current() == Emit(old(Current()), InvalidCommand(input) + [LineBreak])
    {
      WriteEntries(InvalidCommand(input));
      WriteOutput("", Plain, true);
      AppendAssoc(old(output), InvalidCommand(input), [LineBreak]);
    }

    /** handle_debug_command, for a line that halts. */
    method Dispatch(line: string)
      requires Halts(Environment(), Current(), line)
      modifies this`history, this`historyIndex, this`output, this`breakpoints, this`registerPanel
      modifies this`disassembly, this`closed, device`steps, device`memory, device`log
      ensures Some(Current()) == DispatchSpec(Environment(), old(Current()), line)
    {
      var input := Trim(line);
      if |input| == 0 {
        return;
      }
      var args := SplitCommand(input);
      var found := FindCommand(args[0]);
      if found.None? {
        ReportInvalid(input);
      } else {
        RunFound(input, args, found.value);
      }
    }

    /** The assignment debugger_state.previous_command = command. */
    method SetPrevious(line: string)
      modifies this`previousCommand
      ensures Snapshot() == old(Snapshot()).(previousCommand := Some(line))
    {
      previousCommand := Some(line);
    }

    /** handle_debug_command(command), then previous_command = command. */
    method Submit(line: string)
      requires Halts(Environment(), Current(), line)
      modifies this`previousCommand, this`history, this`historyIndex, this`output, this`breakpoints
      modifies this`registerPanel, this`disassembly, this`closed, device`steps, device`memory, device`log
      ensures Some(Current()) == SubmitSpec(Environment(), old(Current()), line)
    {
      Dispatch(line);
      ghost var w := Current();
      SetPrevious(line);
      assert Current() == w.(session := w.session.(previousCommand := Some(line)));
    }

    /** The echo of the Enter key, and the line it goes on to dispatch. */
    method Prompt(value: string) returns (line: string)
      requires !(Trim(value) == [] && previousCommand.None?)
      modifies this`output
      ensures Current() == Echo(old(Current()), value)
      ensures line == EnteredLine(old(previousCommand), value)
    {
      var command := Trim(value);
      if |command| == 0 {
        line := previousCommand.value;
      } else {
        WriteOutput("pgb-debugger> " + command, Plain, true);
        line := command;
      }
    }

    /** The Enter key of the input field, for a line that halts. */
    method Enter(value: string)
      requires Halts(Environment(), Current(), EnteredLine(previousCommand, value))
      modifies this`previousCommand, this`history, this`historyIndex, this`output, this`breakpoints
      modifies this`registerPanel, this`disassembly, this`closed, device`steps, device`memory, device`log
      ensures Some(Current()) == EnterSpec(Environment(), old(Current()), value)
    {
      if |Trim(value)| == 0 && previousCommand.None? {
        return;
      }
      ghost var w0 := Current();
      var line := Prompt(value);
      EchoKeepsHalts(Environment(), w0, value, line);
      Submit(line);
    }
  }
}
