/**
 * The console's behaviour as functions of its state: the session record
 * (debugger_state plus the views it writes to), the device, and one function
 * per handler, for the dispatcher, and for the Enter key. The class in
 * module Console follows these step by step; the lemmas here state what the
 * handlers promise.
 */
module Gadgets {
  import opened Wrappers
  import opened JsText
  import opened JsNumber
  import opened Machine
  import opened Output
  import opened Commands

  /**
   * debugger_state, together with what the console writes: the output
   * window, the register panel, the disassembly table, and whether the
   * window was asked to close.
   */
  datatype Session = Session(
    previousCommand: Option<string>,
    history: seq<string>,
    prevHistoryIndex: int,
    historyIndex: int,
    inputBuffer: string,
    breakpoints: seq<Number>,
    output: seq<Entry>,
    registerPanel: seq<string>,
    disassembly: seq<DisasmRow>,
    closed: bool)

  /** debugger_state as the page loads it, with empty views. */
  const InitialSession := Session(None, [], 0, 0, "", [], [], [], [], false)

  datatype World = World(session: Session, device: DeviceState)

  /** What the console relies on but does not define: the CPU, and JSON.stringify of instructions. */
  datatype Env = Env(behaviour: Behaviour, stringify: seq<Instruction> -> string)

  function Emit(w: World, es: seq<Entry>): World
  {
    w.(session := w.session.(output := w.session.output + es))
  }

  function LogCall(d: DeviceState, c: Call): DeviceState
  {
    d.(log := d.log + [c])
  }

  function Error(colour: Colour, tag: string, message: string): seq<Entry>
  {
    [Entry(tag, colour, false), Text(message)]
  }

  // ---- break ------------------------------------------------------------

  /** debugger_gadget_break. */
  function BreakSpec(s: Session, args: seq<string>): Session
  {
    if |args| < 2 then
      s.(output := s.output + Error(Red, "Error: ", "Expected two arguments but got " + Decimal(|args|)))
    else
      var a := ParseInt(args[1]);
      if !IsBreakpoint(s.breakpoints, a) then
        s.(breakpoints := s.breakpoints + [a],
           output := s.output + [Text("Breakpoint set at address "), Entry("0x" + Hex4(a), Orange, false), Text(".")])
      else
        s.(output := s.output + Error(Orange, "Warning: ", "Breakpoint already exists at address " + Hex4(a)))
  }

  /**
   * break reports a missing argument and leaves the breakpoints alone; an
   * address already set is warned about and left alone; any other address,
   * NaN included, is appended exactly once. Nothing but the breakpoints and
   * the output changes.
   */
  lemma BreakOutcome(s: Session, args: seq<string>)
    ensures var r := BreakSpec(s, args);
      r == s.(breakpoints := r.breakpoints, output := r.output) && s.output <= r.output
      && (|args| < 2 ==>
            r.breakpoints == s.breakpoints
            && r.output[|s.output|..] == Error(Red, "Error: ", "Expected two arguments but got " + Decimal(|args|)))
      && (|args| >= 2 && IsBreakpoint(s.breakpoints, ParseInt(args[1])) ==>
            r.breakpoints == s.breakpoints && r.output[|s.output|].text == "Warning: ")
      && (|args| >= 2 && !IsBreakpoint(s.breakpoints, ParseInt(args[1])) ==>
            r.breakpoints == s.breakpoints + [ParseInt(args[1])]
            && r.output[|s.output|..] == [Text("Breakpoint set at address "),
                                          Entry("0x" + Hex4(ParseInt(args[1])), Orange, false), Text(".")])
  {
    var r := BreakSpec(s, args);
    if |args| >= 2 && !IsBreakpoint(s.breakpoints, ParseInt(args[1])) {
      assert r.output[|s.output|..] == [Text("Breakpoint set at address "),
                                        Entry("0x" + Hex4(ParseInt(args[1])), Orange, false), Text(".")];
    } else if |args| < 2 {
      assert r.output[|s.output|..] == Error(Red, "Error: ", "Expected two arguments but got " + Decimal(|args|));
    }
  }

  /** Setting the same numeric breakpoint twice stores it once and warns the second time. */
  lemma BreakTwice(s: Session, address: string)
    requires ParseInt(address).Some? && !IsBreakpoint(s.breakpoints, ParseInt(address))
    ensures var args := ["break", address];
      var r := BreakSpec(BreakSpec(s, args), args);
      r.breakpoints == s.breakpoints + [ParseInt(address)]
      && multiset(r.breakpoints)[ParseInt(address)] == 1
      && r.output[|r.output| - 2].text == "Warning: "
  {
    var a := ParseInt(address);
    assert a !in s.breakpoints;
    assert multiset(s.breakpoints)[a] == 0;
  }

  /** An unparseable address is never found, so each break with it appends another NaN entry. */
  lemma BreakNaNAppends(s: Session, address: string)
    requires ParseInt(address).None?
    ensures BreakSpec(s, ["break", address]).breakpoints == s.breakpoints + [None]
  {
  }

  // ---- history ----------------------------------------------------------

  /** debugger_gadget_history. */
  function HistorySpec(s: Session, args: seq<string>): Session
  {
    var h := if |args| == 2 && args[1] == "clear" then [] else s.history;
    s.(history := h, output := s.output + HistoryListing(h))
  }

  /**
   * history clear empties the history and prints nothing; any other history
   * command keeps the history and prints every entry, in order, as its
   * index followed by the line.
   */
  lemma HistoryOutcome(s: Session, args: seq<string>)
    ensures var r := HistorySpec(s, args);
      r == s.(history := r.history, output := r.output) && s.output <= r.output
      && (|args| == 2 && args[1] == "clear" ==> r.history == [] && r.output == s.output)
      && (!(|args| == 2 && args[1] == "clear") ==>
            r.history == s.history && |r.output| == |s.output| + 2 * |s.history|
            && forall i :: 0 <= i < |s.history| ==>
                 r.output[|s.output| + 2 * i] == Entry(Decimal(i) + " ", Orange, false)
                 && r.output[|s.output| + 2 * i + 1] == Entry(s.history[i], Plain, true))
  {
    ListingShape(s.history, |s.history|);
  }

  // ---- small handlers ---------------------------------------------------

  /**
   * The help text stands for the HTML of debugger_help_text, which the
   * model does not reproduce; help appends it unchanged.
   */
  const HelpText := "pgb debugger - Interactive tool for debugging GB applications."

  function HelpSpec(s: Session): Session
  {
    s.(output := s.output + [Text(HelpText)])
  }

  /** debugger_gadget_reset: the output window is emptied, nothing else. */
  function ResetSpec(s: Session): Session
  {
    s.(output := [])
  }

  /** debugger_gadget_quit: the window is asked to close. */
  function QuitSpec(s: Session): Session
  {
    s.(closed := true)
  }

  // ---- displays ---------------------------------------------------------

  const R16Names: seq<string> := ["af", "bc", "de", "hl", "sp", "pc"]
  const R8Names: seq<string> := ["a", "b", "c", "d", "e", "f", "h", "l"]

  /** registers[name] for a 16-bit register name. */
  function RegisterValue(r: Registers, name: string): nat
    requires name in R16Names
  {
    if name == "af" then r.af
    else if name == "bc" then r.bc
    else if name == "de" then r.de
    else if name == "hl" then r.hl
    else if name == "sp" then r.sp
    else r.pc
  }

  function HexAddress(x: nat): string
  {
    "0x" + Hex4(Some(x))
  }

  /** The six register cells update_register_display fills, one per name of R16Names. */
  function Panel(r: Registers): seq<string>
  {
    seq(|R16Names|, i requires 0 <= i < |R16Names| => HexAddress(RegisterValue(r, R16Names[i])))
  }

  /** update_register_display: one register read, the panel rewritten from it. */
  function RefreshRegisters(env: Env, w: World): World
  {
    var r := env.behaviour.registersAt(w.device.steps);
    World(w.session.(registerPanel := Panel(r)), LogCall(w.device, ReadRegistersCall))
  }

  /** update_debugger_disasm: five instructions fetched, the table rebuilt from them. */
  function RefreshDisassembly(env: Env, w: World): World
  {
    var instructions := Fetch(env.behaviour, w.device.steps, 5);
    World(w.session.(disassembly := DisasmRows(instructions)), LogCall(w.device, FetchInstructionsCall(5)))
  }

  function Refresh(env: Env, w: World): World
  {
    RefreshDisassembly(env, RefreshRegisters(env, w))
  }

  /** "0x" followed by the four low hexadecimal digits of x. */
  lemma HexAddressShape(x: nat)
    ensures var t := HexAddress(x);
      |t| == 6 && t[..2] == "0x" && t[2..] == FixedHex(x, 4) && IsLowerHex(t[2..])
      && ValueOf(t[2..], 16) == x % 0x10000
  {
    Hex4Unsigned(x);
    assert HexAddress(x)[2..] == Hex4(Some(x));
  }

  /** Every panel cell is "0x" and the four low hexadecimal digits of its register. */
  lemma PanelShape(r: Registers, i: nat)
    requires i < 6
    ensures var cell := Panel(r)[i];
      |cell| == 6 && cell[..2] == "0x" && IsLowerHex(cell[2..])
      && ValueOf(cell[2..], 16) == RegisterValue(r, R16Names[i]) % 0x10000
  {
    HexAddressShape(RegisterValue(r, R16Names[i]));
  }

  // ---- step -------------------------------------------------------------

  function StepDevice(b: Behaviour, d: DeviceState): DeviceState
  {
    d.(steps := d.steps + 1, memory := b.stepMemory(d.steps, d.memory), log := d.log + [StepCall])
  }

  /** debugger_gadget_step: one step whatever the arguments, then the displays and the new pc. */
  function StepSpec(env: Env, w: World): World
  {
    var w1 := Refresh(env, World(w.session, StepDevice(env.behaviour, w.device)));
    var k := w1.device.steps;
    var pc := Hex4(Some(env.behaviour.registersAt(k).pc)) + " ";
    var d := LogCall(LogCall(w1.device, ReadRegistersCall), FetchInstructionsCall(1));
    World(Emit(w1, [Text("$PC = " + pc + ", " + env.stringify(Fetch(env.behaviour, k, 1)))]).session, d)
  }

  /**
   * step advances the device exactly once, makes exactly the calls
   * step, read registers, fetch 5, read registers, fetch 1, leaves memory as
   * the one step leaves it, and leaves
   * the session's command state alone, and prints the new pc without a 0x.
   */
  lemma StepOutcome(env: Env, w: World)
    ensures var r := StepSpec(env, w);
      var k := w.device.steps + 1;
      r.device == DeviceState(k, env.behaviour.stepMemory(w.device.steps, w.device.memory),
        w.device.log + [StepCall, ReadRegistersCall, FetchInstructionsCall(5), ReadRegistersCall, FetchInstructionsCall(1)])
      && r.session == w.session.(output := r.session.output, registerPanel := r.session.registerPanel,
                                 disassembly := r.session.disassembly)
      && r.session.registerPanel == Panel(env.behaviour.registersAt(k))
      && r.session.disassembly == DisasmRows(Fetch(env.behaviour, k, 5))
      && r.session.output == w.session.output +
           [Text("$PC = " + Hex4(Some(env.behaviour.registersAt(k).pc)) + " , " + env.stringify(Fetch(env.behaviour, k, 1)))]
  {
    var d := w.device;
    assert d.log + [StepCall] + [ReadRegistersCall] + [FetchInstructionsCall(5)] + [ReadRegistersCall] + [FetchInstructionsCall(1)]
        == d.log + [StepCall, ReadRegistersCall, FetchInstructionsCall(5), ReadRegistersCall, FetchInstructionsCall(1)];
    var pc := Hex4(Some(env.behaviour.registersAt(d.steps + 1).pc));
    assert "$PC = " + (pc + " ") + ", " == "$PC = " + pc + " , ";
  }

  // ---- continue ---------------------------------------------------------

  /** The calls of n iterations of continue's loop: a step, then a register read. */
  function LoopCalls(n: nat): seq<Call>
  {
    if n == 0 then [] else LoopCalls(n - 1) + [StepCall, ReadRegistersCall]
  }

  /** n iterations make 2n calls: a step at every even position, a register read at every odd one. */
  lemma {:induction false} LoopCallsShape(n: nat)
    ensures |LoopCalls(n)| == 2 * n
    ensures forall i :: 0 <= i < n ==> LoopCalls(n)[2 * i] == StepCall && LoopCalls(n)[2 * i + 1] == ReadRegistersCall
  {
    if n > 0 {
      LoopCallsShape(n - 1);
      assert forall i :: 0 <= i < n - 1 ==> LoopCalls(n)[2 * i] == LoopCalls(n - 1)[2 * i];
      assert forall i :: 0 <= i < n - 1 ==> LoopCalls(n)[2 * i + 1] == LoopCalls(n - 1)[2 * i + 1];
    }
  }

  function HitReport(address: string): seq<Entry>
  {
    [Entry("Info: ", Blue, false), Text("Breakpoint at address "), Entry(address, Orange, false), Entry(" hit.", Plain, true)]
  }

  /** The world after the hit report and before the displays are refreshed. */
  function HitReported(env: Env, w: World, k: nat): World
    requires w.device.steps <= k
  {
    World(w.session.(output := w.session.output + HitReport(HexAddress(env.behaviour.registersAt(k).pc))),
          w.device.(steps := k, memory := MemoryAfter(env.behaviour, w.device.steps, w.device.memory, k),
                    log := w.device.log + LoopCalls(k - w.device.steps)))
  }

  /**
   * The world after continue's loop has stopped at step count k: the hit
   * is reported, the displays are refreshed, and the pc is printed with the
   * instruction decoded there.
   */
  function AfterContinue(env: Env, w: World, k: nat): World
    requires w.device.steps <= k
  {
    PcLine(env, Refresh(env, HitReported(env, w, k)), HexAddress(env.behaviour.registersAt(k).pc))
  }

  /** The closing line of continue: the pc already read, and the instruction fetched there. */
  function PcLine(env: Env, w: World, address: string): World
  {
    var decoded := Fetch(env.behaviour, w.device.steps, 1);
    World(Emit(w, [Text("$PC = " + address + ", " + env.stringify(decoded))]).session,
          LogCall(w.device, FetchInstructionsCall(1)))
  }

  /**
   * Stopping at k leaves k steps taken, memory as those steps leave it and
   * no write of the console's own, and one step and one
   * register read per iteration followed by the display calls and the
   * final fetch.
   */
  lemma AfterContinueDevice(env: Env, w: World, k: nat)
    requires w.device.steps <= k
    ensures var d, r := w.device, AfterContinue(env, w, k).device;
      r.steps == k && r.memory == MemoryAfter(env.behaviour, d.steps, d.memory, k)
      && r.log == d.log + LoopCalls(k - d.steps) + [ReadRegistersCall, FetchInstructionsCall(5), FetchInstructionsCall(1)]
  {
    var d := w.device;
    var h := HitReported(env, w, k);
    var loop := d.log + LoopCalls(k - d.steps);
    assert h.device == d.(steps := k, memory := MemoryAfter(env.behaviour, d.steps, d.memory, k), log := loop);
    var f := Refresh(env, h);
    assert f.device == h.device.(log := loop + [ReadRegistersCall] + [FetchInstructionsCall(5)]);
    assert AfterContinue(env, w, k).device == f.device.(log := f.device.log + [FetchInstructionsCall(1)]);
    assert loop + [ReadRegistersCall] + [FetchInstructionsCall(5)] + [FetchInstructionsCall(1)]
        == loop + [ReadRegistersCall, FetchInstructionsCall(5), FetchInstructionsCall(1)];
  }

  /**
   * Stopping at k prints the hit report and the pc line, shows the
   * registers and the five instructions at k, and changes nothing else
   * of the session.
   */
  lemma AfterContinueSession(env: Env, w: World, k: nat)
    requires w.device.steps <= k
    ensures var b, r := env.behaviour, AfterContinue(env, w, k).session;
      var address := HexAddress(b.registersAt(k).pc);
      r == w.session.(output := r.output, registerPanel := r.registerPanel, disassembly := r.disassembly)
      && r.registerPanel == Panel(b.registersAt(k))
      && r.disassembly == DisasmRows(Fetch(b, k, 5))
      && r.output == w.session.output + HitReport(address)
           + [Text("$PC = " + address + ", " + env.stringify(Fetch(b, k, 1)))]
  {
  }

  /** debugger_gadget_continue: None when no later step reaches a breakpoint, the loop then never ending. */
  ghost function ContinueSpec(env: Env, w: World): Option<World>
  {
    if !Stops(env.behaviour, w.session.breakpoints, w.device.steps) then None
    else Some(AfterContinue(env, w, StopAt(env.behaviour, w.session.breakpoints, w.device.steps)))
  }

  /** continue stops if and only if some later step reaches a breakpoint. */
  lemma ContinueStopsIff(env: Env, w: World)
    ensures ContinueSpec(env, w).Some? <==>
      exists n :: w.device.steps < n && HitAt(env.behaviour, w.session.breakpoints, n)
  {
  }

  /**
   * When continue stops it has stepped to count k, the least count after
   * the current one whose pc is a breakpoint (the pc before the first step
   * is never tested), and it reports that pc.
   */
  lemma ContinueOutcome(env: Env, w: World)
    requires Stops(env.behaviour, w.session.breakpoints, w.device.steps)
    ensures ContinueSpec(env, w).Some?
    ensures var b, r := env.behaviour, ContinueSpec(env, w).value;
      var k := r.device.steps;
      w.device.steps < k && IsBreakpoint(w.session.breakpoints, Some(b.registersAt(k).pc))
      && (forall j :: w.device.steps < j < k ==> !IsBreakpoint(w.session.breakpoints, Some(b.registersAt(j).pc)))
      && r == AfterContinue(env, w, k)
  {
    var k := StopAt(env.behaviour, w.session.breakpoints, w.device.steps);
    AfterContinueDevice(env, w, k);
    AfterContinueSession(env, w, k);
    assert ContinueSpec(env, w) == Some(AfterContinue(env, w, k));
    forall j | w.device.steps < j < k
      ensures !IsBreakpoint(w.session.breakpoints, Some(env.behaviour.registersAt(j).pc))
    {
      assert !HitAt(env.behaviour, w.session.breakpoints, j);
    }
  }

  // ---- read -------------------------------------------------------------

  /** debugger_gadget_read_register, given the target that contains a '$'. */
  function ReadRegisterSpec(env: Env, w: World, target: string): World
  {
    var name := RemoveFirst(target, '$');
    if name !in R16Names && name !in R8Names then
      Emit(w, [Entry("Error: ", Red, false), Text("The register "), Entry(name, Blue, false), Text(" is not valid.")])
    else
      var r := env.behaviour.registersAt(w.device.steps);
      var w1 := w.(device := LogCall(w.device, ReadRegistersCall));
      if name in R16Names then Emit(w1, [Text("$" + name + " = " + HexAddress(RegisterValue(r, name)))])
      else Emit(w1, Error(Red, "WARNING: ", "Reading single byte registers not implemented yet."))
  }

  /** A register read changes only the output and the device log, and only appends. */
  lemma ReadRegisterFrame(env: Env, w: World, target: string)
    ensures var r := ReadRegisterSpec(env, w, target);
      r.session == w.session.(output := r.session.output) && w.session.output <= r.session.output
      && r.device == w.device.(log := r.device.log)
  {
  }

  /** An unknown register name is reported by name, after the first '$' is stripped, and the device is not called. */
  lemma ReadRegisterUnknown(env: Env, w: World, target: string)
    requires RemoveFirst(target, '$') !in R16Names && RemoveFirst(target, '$') !in R8Names
    ensures var r, name := ReadRegisterSpec(env, w, target), RemoveFirst(target, '$');
      r.device == w.device
      && r.session.output == w.session.output +
           [Entry("Error: ", Red, false), Text("The register "), Entry(name, Blue, false), Text(" is not valid.")]
  {
  }

  /** A 16-bit name is read once and printed as $name = followed by 0x and the four low hexadecimal digits of its value. */
  lemma ReadRegisterWide(env: Env, w: World, target: string)
    requires RemoveFirst(target, '$') in R16Names
    ensures var r, name := ReadRegisterSpec(env, w, target), RemoveFirst(target, '$');
      var v := RegisterValue(env.behaviour.registersAt(w.device.steps), name);
      r.device.log == w.device.log + [ReadRegistersCall]
      && r.session.output == w.session.output + [Text("$" + name + " = " + HexAddress(v))]
      && HexAddress(v) == "0x" + FixedHex(v, 4) && ValueOf(FixedHex(v, 4), 16) == v % 0x10000
  {
    var name := RemoveFirst(target, '$');
    var v := RegisterValue(env.behaviour.registersAt(w.device.steps), name);
    assert ReadRegisterSpec(env, w, target) ==
      Emit(w.(device := LogCall(w.device, ReadRegistersCall)), [Text("$" + name + " = " + HexAddress(v))]);
    assert HexAddress(v) == "0x" + FixedHex(v, 4) by {
      Hex4Unsigned(v);
    }
    assert ValueOf(FixedHex(v, 4), 16) == v % 0x10000 by {
      FixedHex4Value(v);
    }
  }

  /** An 8-bit name is read once and answered only with the not-implemented warning, never a value. */
  lemma ReadRegisterNarrow(env: Env, w: World, target: string)
    requires RemoveFirst(target, '$') !in R16Names && RemoveFirst(target, '$') in R8Names
    ensures var r := ReadRegisterSpec(env, w, target);
      r.device.log == w.device.log + [ReadRegistersCall]
      && r.session.output == w.session.output + Error(Red, "WARNING: ", "Reading single byte registers not implemented yet.")
  {
  }

  /**
   * The (size, base) pair read_memory asks for: one word is a base with size
   * 1, "/size base" gives both, any other shape is rejected.
   */
  function MemoryArgs(rest: string): (r: Option<(Number, Number)>)
    ensures var parts := Split(rest, ' ');
      (r.None? <==> !(|parts| == 1 || (|parts| == 2 && '/' in parts[0])))
      && (|parts| == 1 ==> r == Some((Some(1), ParseInt(rest))))
      && (|parts| == 2 && '/' in parts[0] ==>
            r == Some((ParseInt(RemoveFirst(parts[0], '/')), ParseInt(parts[1]))))
  {
    var parts := Split(rest, ' ');
    if |parts| == 2 && '/' in parts[0] then
      Some((ParseInt(RemoveFirst(parts[0], '/')), ParseInt(parts[1])))
    else if |parts| == 1 then
      assert parts == [rest] by { SingleSplit(rest, ' '); }
      Some((Some(1), ParseInt(parts[0])))
    else None
  }

  /** A string with no separator splits into itself. */
  lemma SingleSplit(s: string, sep: char)
    requires |Split(s, sep)| == 1
    ensures Split(s, sep) == [s]
  {
    JoinSplit(s, sep);
  }

  function InvalidMemoryArgs(rest: string): seq<Entry>
  {
    [Entry("Error: ", Red, false), Text("The arguments \""), Entry(rest, Blue, false),
     Text("\" to the read command are invalid.")]
  }

  /** debugger_gadget_read_memory: its address parameter is unused; args[1] is split again. */
  function ReadMemorySpec(w: World, args: seq<string>): World
    requires |args| >= 2
  {
    match MemoryArgs(args[1])
    case None => Emit(w, InvalidMemoryArgs(args[1]))
    case Some((size, base)) =>
      var bytes := Region(w.device.memory, base, size);
      Emit(w.(device := LogCall(w.device, ReadRegionCall(base, size))), Dump(bytes, base))
  }

  /**
   * A memory read of a rejected shape reports it and makes no device call;
   * an accepted shape makes exactly one region read, for the size and base
   * it parsed, and prints the dump of what came back.
   */
  lemma ReadMemoryOutcome(w: World, args: seq<string>)
    requires |args| >= 2
    ensures var r := ReadMemorySpec(w, args);
      r.session == w.session.(output := r.session.output) && w.session.output <= r.session.output
      && r.device.memory == w.device.memory && r.device.steps == w.device.steps
      && (MemoryArgs(args[1]).None? ==>
            r.device == w.device && r.session.output[|w.session.output|..] == InvalidMemoryArgs(args[1]))
      && (MemoryArgs(args[1]).Some? ==>
            var (size, base) := MemoryArgs(args[1]).value;
            r.device.log == w.device.log + [ReadRegionCall(base, size)]
            && r.session.output[|w.session.output|..] == Dump(Region(w.device.memory, base, size), base))
  {
    var r := ReadMemorySpec(w, args);
    assert r.session.output == w.session.output + r.session.output[|w.session.output|..];
  }

  /** debugger_gadget_read; a third argument can only come from a caller other than split_command. */
  function ReadSpec(env: Env, w: World, args: seq<string>): World
    requires |args| <= 2 || '/' in args[1]
  {
    if |args| < 2 then
      Emit(w, Error(Red, "ERROR: ", "The read gadget expects 2 arguments but got " + Decimal(|args|) + "."))
    else
      var target := if |args| == 2 then args[1] else args[2];
      if '$' in target then ReadRegisterSpec(env, w, target) else ReadMemorySpec(w, args)
  }

  /** read routes on a '$' anywhere in its target: register read if present, memory read otherwise. */
  lemma ReadRoutes(env: Env, w: World, args: seq<string>)
    requires |args| == 2
    ensures '$' in args[1] ==> ReadSpec(env, w, args) == ReadRegisterSpec(env, w, args[1])
    ensures '$' !in args[1] ==> ReadSpec(env, w, args) == ReadMemorySpec(w, args)
  {
  }

  // ---- write ------------------------------------------------------------

  /** debugger_gadget_write; a register target goes to the empty debugger_gadget_write_register. */
  function WriteSpec(w: World, args: seq<string>): World
  {
    if |args| < 2 then
      Emit(w, Error(Red, "ERROR: ", "The write gadget expects 2 arguments but got " + Decimal(|args|) + "."))
    else
      var parts := Split(args[1], ' ');
      if |parts| != 2 then Emit(w, Error(Red, "ERROR: ", "Missing required arguments for write gadget."))
      else if parts[0] != [] && parts[0][0] == '$' then w
      else
        var address, value := ParseInt(parts[0]), ParseInt(parts[1]);
        w.(device := w.device.(memory := Poke(w.device.memory, address, value),
                               log := w.device.log + [WriteByteCall(address, value)]))
  }

  /** A write reaches the device when its remainder is exactly two words and the first does not start with '$'. */
  predicate WritesMemory(args: seq<string>)
  {
    |args| >= 2
    && var parts := Split(args[1], ' ');
       |parts| == 2 && !(parts[0] != [] && parts[0][0] == '$')
  }

  /**
   * write leaves the device untouched unless WritesMemory holds, and then
   * makes exactly one byte write of the two parsed words; it never changes
   * breakpoints or history. Fewer than two arguments and a remainder that
   * is not two words each print their red error; a register target ('$')
   * changes nothing at all.
   */
  lemma WriteOutcome(w: World, args: seq<string>)
    ensures var r := WriteSpec(w, args);
      r.session == w.session.(output := r.session.output) && w.session.output <= r.session.output
      && (!WritesMemory(args) ==> r.device == w.device)
      && (WritesMemory(args) ==>
            var parts := Split(args[1], ' ');
            var address, value := ParseInt(parts[0]), ParseInt(parts[1]);
            r.session == w.session && r.device.steps == w.device.steps
            && r.device.memory == Poke(w.device.memory, address, value)
            && r.device.log == w.device.log + [WriteByteCall(address, value)])
    ensures |args| < 2 ==>
      WriteSpec(w, args).session.output
      == w.session.output + Error(Red, "ERROR: ", "The write gadget expects 2 arguments but got " + Decimal(|args|) + ".")
    ensures |args| >= 2 && |Split(args[1], ' ')| != 2 ==>
      WriteSpec(w, args).session.output
      == w.session.output + Error(Red, "ERROR: ", "Missing required arguments for write gadget.")
    ensures |args| >= 2 && !WritesMemory(args) && |Split(args[1], ' ')| == 2 ==> WriteSpec(w, args) == w
  {
    if |args| < 2 {
      WriteCountError(w, args);
    } else if |Split(args[1], ' ')| != 2 {
      WriteShapeError(w, args);
    }
  }

  /** write with fewer than two arguments prints how many it got. */
  lemma WriteCountError(w: World, args: seq<string>)
    requires |args| < 2
    ensures WriteSpec(w, args) == Emit(w, Error(Red, "ERROR: ", "The write gadget expects 2 arguments but got " + Decimal(|args|) + "."))
  {
  }

  /** write whose remainder is not two words prints the missing-arguments error. */
  lemma WriteShapeError(w: World, args: seq<string>)
    requires |args| >= 2 && |Split(args[1], ' ')| != 2
    ensures WriteSpec(w, args) == Emit(w, Error(Red, "ERROR: ", "Missing required arguments for write gadget."))
  {
  }

  // ---- dispatch ---------------------------------------------------------

  function InvalidCommand(input: string): seq<Entry>
  {
    [Entry("Error:", Red, false), Text(" The command "), Entry("\"" + input + "\"", Red, false),
     Text(" is invalid. Use the command "), Entry("help", Green, false), Text(" to see all valid commands.")]
  }

  /** The history update of handle_debug_command for an accepted line. */
  function Record(s: Session, input: string): Session
  {
    if s.history == [] || s.history[|s.history| - 1] != input then
      s.(history := s.history + [input], historyIndex := |s.history|)
    else s
  }

  /** Record keeps the history as RecordHistory says, and points the cursor at the new last entry when it appends. */
  lemma RecordOutcome(s: Session, input: string)
    ensures var r := Record(s, input);
      r.history == RecordHistory(s.history, input)
      && r == s.(history := r.history, historyIndex := r.historyIndex)
      && (r.history != s.history ==> r.historyIndex == |r.history| - 1)
      && (r.history == s.history ==> r.historyIndex == s.historyIndex)
  {
  }

  /** The handler a command is registered with, applied to the world with its arguments. */
  ghost function RunHandler(env: Env, c: Command, w: World, args: seq<string>): Option<World>
    requires |args| <= 2
  {
    match c
    case Break => Some(w.(session := BreakSpec(w.session, args)))
    case Reset => Some(w.(session := ResetSpec(w.session)))
    case Continue => ContinueSpec(env, w)
    case Help => Some(w.(session := HelpSpec(w.session)))
    case History => Some(w.(session := HistorySpec(w.session, args)))
    case Quit => Some(w.(session := QuitSpec(w.session)))
    case Read => Some(ReadSpec(env, w, args))
    case Step => Some(StepSpec(env, w))
    case Write => Some(WriteSpec(w, args))
  }

  /** Whether a handler empties the history: only history clear does. */
  predicate ClearsHistory(c: Command, args: seq<string>)
  {
    c == History && |args| == 2 && args[1] == "clear"
  }

  /** No handler touches the command state, and only history clear touches the history. */
  lemma HandlerKeepsCommandState(env: Env, c: Command, w: World, args: seq<string>)
    requires |args| <= 2
    ensures var r := RunHandler(env, c, w, args);
      r.Some? ==>
        r.value.session.history == (if ClearsHistory(c, args) then [] else w.session.history)
        && r.value.session.previousCommand == w.session.previousCommand
        && r.value.session.historyIndex == w.session.historyIndex
        && r.value.session.prevHistoryIndex == w.session.prevHistoryIndex
        && r.value.session.inputBuffer == w.session.inputBuffer
        && (c != Break ==> r.value.session.breakpoints == w.session.breakpoints)
  {
    match c
    case Read =>
      if |args| == 2 && '$' in args[1] {
        ReadRegisterFrame(env, w, args[1]);
      } else if |args| == 2 {
        ReadMemoryOutcome(w, args);
      }
    case Continue =>
      if Stops(env.behaviour, w.session.breakpoints, w.device.steps) {
        AfterContinueSession(env, w, StopAt(env.behaviour, w.session.breakpoints, w.device.steps));
      }
    case Step => StepOutcome(env, w);
    case Write => WriteOutcome(w, args);
    case Break => BreakOutcome(w.session, args);
    case History => HistoryOutcome(w.session, args);
    case Reset =>
    case Help =>
    case Quit =>
  }

  /**
   * handle_debug_command: a blank line does nothing; an unknown word is
   * reported and the line break appended; a known one is recorded in the
   * history, its handler run, and the line break appended. None when that
   * handler is a continue that never stops.
   */
  ghost function DispatchSpec(env: Env, w: World, line: string): Option<World>
  {
    var input := Trim(line);
    if input == [] then Some(w)
    else
      var args := SplitCommand(input);
      match Lookup(args[0])
      case None => Some(Emit(w, InvalidCommand(input) + [LineBreak]))
      case Some(c) => FoundSpec(env, w, input, args, c)
  }

  /** The branch of handle_debug_command for a known command c: record, run c's handler, break the line. */
  ghost function FoundSpec(env: Env, w: World, input: string, args: seq<string>, c: Command): Option<World>
    requires |args| <= 2
  {
    match RunHandler(env, c, w.(session := Record(w.session, input)), args)
    case None => None
    case Some(w1) => Some(Emit(w1, [LineBreak]))
  }

  /**
   * The history changes only for a non-blank line whose first word is a
   * command: then it is RecordHistory of the trimmed line, or empty after
   * history clear. A blank line changes nothing at all; an unknown command
   * only adds output.
   */
  lemma DispatchHistory(env: Env, w: World, line: string)
    ensures var input := Trim(line);
      var r := DispatchSpec(env, w, line);
      (input == [] ==> r == Some(w))
      && (input != [] && Lookup(SplitCommand(input)[0]).None? ==>
            r == Some(Emit(w, InvalidCommand(input) + [LineBreak])))
      && (input != [] && Lookup(SplitCommand(input)[0]).Some? && r.Some? ==>
            var c, args := Lookup(SplitCommand(input)[0]).value, SplitCommand(input);
            r.value.session.history == (if ClearsHistory(c, args) then [] else RecordHistory(w.session.history, input))
            && r.value.session.previousCommand == w.session.previousCommand)
  {
    var input := Trim(line);
    if input != [] {
      var args := SplitCommand(input);
      if Lookup(args[0]).Some? {
        var c := Lookup(args[0]).value;
        RecordOutcome(w.session, input);
        HandlerKeepsCommandState(env, c, w.(session := Record(w.session, input)), args);
      }
    }
  }

  /**
   * Whether handling line comes back: it does unless its first word is
   * continue and no later step reaches a breakpoint.
   */
  ghost predicate Halts(env: Env, w: World, line: string)
  {
    var input := Trim(line);
    input != [] && Lookup(SplitCommand(input)[0]) == Some(Continue) ==>
      Stops(env.behaviour, w.session.breakpoints, w.device.steps)
  }

  /** Only a continue that never stops keeps a handler from coming back. */
  lemma RunHandlerHalts(env: Env, c: Command, w: World, args: seq<string>)
    requires |args| <= 2
    ensures RunHandler(env, c, w, args).Some? <==>
      (c == Continue ==> Stops(env.behaviour, w.session.breakpoints, w.device.steps))
  {
    if c == Continue {
      ContinueStopsIff(env, w);
    }
  }

  /** The branch for a known command comes back unless it is a continue that never stops. */
  lemma FoundHaltsIff(env: Env, w: World, input: string, args: seq<string>, c: Command)
    requires |args| <= 2
    ensures FoundSpec(env, w, input, args, c).Some? <==>
      (c == Continue ==> Stops(env.behaviour, w.session.breakpoints, w.device.steps))
  {
    var w1 := w.(session := Record(w.session, input));
    assert w1.session.breakpoints == w.session.breakpoints;
    RunHandlerHalts(env, c, w1, args);
  }

  /** handle_debug_command comes back exactly when Halts says so. */
  lemma DispatchHaltsIff(env: Env, w: World, line: string)
    ensures DispatchSpec(env, w, line).Some? <==> Halts(env, w, line)
  {
    var input := Trim(line);
    if input != [] {
      var args := SplitCommand(input);
      if Lookup(args[0]).Some? {
        FoundHaltsIff(env, w, input, args, Lookup(args[0]).value);
      }
    }
  }

  // ---- the Enter key ----------------------------------------------------

  /** The line the Enter key dispatches: the trimmed text, or the previous command when that is blank. */
  function EnteredLine(previous: Option<string>, value: string): string
  {
    var command := Trim(value);
    if command == [] && previous.Some? then previous.value else command
  }

  /** The echo of the Enter key: the prompt and the trimmed text, unless that is blank. */
  function Echo(w: World, value: string): World
  {
    var command := Trim(value);
    if command == [] then w else Emit(w, [Entry("pgb-debugger> " + command, Plain, true)])
  }

  /**
   * The Enter-key handler, given the input field's text: a blank line with
   * no previous command does nothing; a blank line replays the previous
   * command without echo; any other line is echoed after the prompt. The
   * dispatched line becomes the previous command, accepted or not.
   */
  ghost function EnterSpec(env: Env, w: World, value: string): Option<World>
  {
    if Trim(value) == [] && w.session.previousCommand.None? then Some(w)
    else SubmitSpec(env, Echo(w, value), EnteredLine(w.session.previousCommand, value))
  }

  /** The line is dispatched and then remembered as the previous command. */
  ghost function SubmitSpec(env: Env, w: World, line: string): Option<World>
  {
    match DispatchSpec(env, w, line)
    case None => None
    case Some(w2) => Some(w2.(session := w2.session.(previousCommand := Some(line))))
  }

  /** A sequence of lines entered one after another; None once a continue never stops. */
  ghost function RunSpec(env: Env, w: World, values: seq<string>): Option<World>
    decreases |values|
  {
    if values == [] then Some(w)
    else
      match EnterSpec(env, w, values[0])
      case None => None
      case Some(w1) => RunSpec(env, w1, values[1..])
  }

  /** A blank line with a previous command dispatches that command again, with no echo. */
  lemma EnterReplays(env: Env, w: World, value: string)
    requires Trim(value) == [] && w.session.previousCommand.Some?
    ensures var p := w.session.previousCommand.value;
      EnterSpec(env, w, value) ==
        match DispatchSpec(env, w, p)
        case None => None
        case Some(w2) => Some(w2.(session := w2.session.(previousCommand := Some(p))))
  {
  }

  /**
   * Whenever the Enter key comes back after dispatching a line, that line
   * is the previous command afterwards, whether or not it named a command.
   */
  lemma EnterOutcome(env: Env, w: World, value: string)
    requires !(Trim(value) == [] && w.session.previousCommand.None?)
    ensures EnterSpec(env, w, value).Some? ==>
      EnterSpec(env, w, value).value.session.previousCommand == Some(EnteredLine(w.session.previousCommand, value))
  {
  }

  /**
   * A non-blank line naming no command is echoed after the prompt, reported
   * as invalid, followed by a line break, and still becomes the previous
   * command; history, breakpoints and the device are untouched.
   */
  lemma EnterUnknown(env: Env, w: World, value: string)
    requires Trim(value) != [] && Lookup(SplitCommand(Trim(value))[0]).None?
    ensures var input := Trim(value);
      EnterSpec(env, w, value).Some?
      && EnterSpec(env, w, value).value.device == w.device
      && EnterSpec(env, w, value).value.session
         == w.session.(output := w.session.output + [Entry("pgb-debugger> " + input, Plain, true)]
                                 + InvalidCommand(input) + [LineBreak],
                       previousCommand := Some(input))
  {
    var input := Trim(value);
    var echo := [Entry("pgb-debugger> " + input, Plain, true)];
    var w1 := Emit(w, echo);
    assert EnterSpec(env, w, value) == SubmitSpec(env, w1, input) by {
      assert Echo(w, value) == w1 && EnteredLine(w.session.previousCommand, value) == input;
    }
    var w2 := Emit(w1, InvalidCommand(input) + [LineBreak]);
    assert DispatchSpec(env, w1, input) == Some(w2) by {
      TrimIdempotent(value);
      DispatchUnknown(env, w1, input);
    }
    assert w2.session.output == w.session.output + echo + InvalidCommand(input) + [LineBreak];
  }

  /** handle_debug_command on a trimmed line naming no command only reports it and breaks the line. */
  lemma DispatchUnknown(env: Env, w: World, input: string)
    requires input != [] && Trim(input) == input && Lookup(SplitCommand(input)[0]).None?
    ensures DispatchSpec(env, w, input) == Some(Emit(w, InvalidCommand(input) + [LineBreak]))
  {
  }

  /** The Enter key comes back exactly when the line it dispatches halts. */
  lemma EnterHaltsIff(env: Env, w: World, value: string)
    ensures EnterSpec(env, w, value).Some? <==> Halts(env, w, EnteredLine(w.session.previousCommand, value))
  {
    var line := EnteredLine(w.session.previousCommand, value);
    if !(Trim(value) == [] && w.session.previousCommand.None?) {
      var w1 := Echo(w, value);
      EnterDispatches(env, w, value);
      assert DispatchSpec(env, w1, line).Some? == Halts(env, w, line) by {
        DispatchHaltsIff(env, w1, line);
        EchoKeepsHalts(env, w, value, line);
      }
    } else {
      assert line == [];
      BlankHalts(env, w);
    }
  }

  /** Unless the line is blank with nothing to replay, Enter comes back when the dispatch of the entered line does. */
  lemma EnterDispatches(env: Env, w: World, value: string)
    requires !(Trim(value) == [] && w.session.previousCommand.None?)
    ensures EnterSpec(env, w, value).Some?
      == DispatchSpec(env, Echo(w, value), EnteredLine(w.session.previousCommand, value)).Some?
  {
  }

  /** A blank line names no command, so it always halts. */
  lemma BlankHalts(env: Env, w: World)
    ensures Halts(env, w, [])
  {
    TrimmedIsFixed([]);
  }

  /** The echo only adds output, so the dispatched line halts after it as before. */
  lemma EchoKeepsHalts(env: Env, w: World, value: string, line: string)
    ensures Halts(env, Echo(w, value), line) == Halts(env, w, line)
  {
    assert Echo(w, value).session.breakpoints == w.session.breakpoints && Echo(w, value).device == w.device;
  }

  /** A line the history accepts: non-blank, trimmed, and its first word is a command. */
  ghost predicate Accepted(line: string)
  {
    line != [] && Trim(line) == line && Lookup(SplitCommand(line)[0]).Some?
  }

  /**
   * What every session reached from the initial one satisfies: the history
   * never holds the same line twice in a row and holds only accepted lines,
   * and the previous command is a trimmed, non-blank line.
   */
  ghost predicate Invariant(s: Session)
  {
    NoAdjacentDuplicates(s.history)
    && (forall i :: 0 <= i < |s.history| ==> Accepted(s.history[i]))
    && (s.previousCommand.Some? ==> s.previousCommand.value != [] && Trim(s.previousCommand.value) == s.previousCommand.value)
  }

  lemma InitialInvariant()
    ensures Invariant(InitialSession)
  {
  }

  /** Recording an accepted line keeps the invariant. */
  lemma RecordPreservesInvariant(s: Session, input: string)
    requires Invariant(s) && Accepted(input)
    ensures Invariant(Record(s, input))
  {
    RecordOutcome(s, input);
    var h, h' := s.history, Record(s, input).history;
    if h' != h {
      assert h' == h + [input];
      forall i | 0 <= i < |h'|
        ensures Accepted(h'[i])
      {
        if i < |h| {
          assert h'[i] == h[i];
        }
      }
      assert NoAdjacentDuplicates(h');
    }
  }

  /** A handler leaves the history alone or empties it, and never touches the previous command. */
  lemma HandlerPreservesInvariant(env: Env, c: Command, w: World, args: seq<string>)
    requires |args| <= 2 && Invariant(w.session)
    ensures RunHandler(env, c, w, args).Some? ==> Invariant(RunHandler(env, c, w, args).value.session)
  {
    HandlerKeepsCommandState(env, c, w, args);
  }

  /** Recording an accepted line, running its handler and breaking the line keeps the invariant. */
  lemma FoundPreservesInvariant(env: Env, w: World, input: string, args: seq<string>, c: Command)
    requires |args| <= 2 && Invariant(w.session) && Accepted(input)
    ensures FoundSpec(env, w, input, args, c).Some? ==> Invariant(FoundSpec(env, w, input, args, c).value.session)
  {
    RecordPreservesInvariant(w.session, input);
    HandlerPreservesInvariant(env, c, w.(session := Record(w.session, input)), args);
  }

  lemma DispatchPreservesInvariant(env: Env, w: World, line: string)
    requires Invariant(w.session)
    ensures DispatchSpec(env, w, line).Some? ==> Invariant(DispatchSpec(env, w, line).value.session)
  {
    var input := Trim(line);
    if input != [] {
      var args := SplitCommand(input);
      if Lookup(args[0]).Some? {
        TrimIdempotent(line);
        assert Accepted(input);
        FoundPreservesInvariant(env, w, input, args, Lookup(args[0]).value);
      }
    }
  }

  lemma EnterPreservesInvariant(env: Env, w: World, value: string)
    requires Invariant(w.session)
    ensures EnterSpec(env, w, value).Some? ==> Invariant(EnterSpec(env, w, value).value.session)
  {
    var command := Trim(value);
    if !(command == [] && w.session.previousCommand.None?) {
      var line := EnteredLine(w.session.previousCommand, value);
      var w1 := Echo(w, value);
      assert Invariant(w1.session);
      DispatchPreservesInvariant(env, w1, line);
      TrimIdempotent(value);
    }
  }

  /** For any sequence of entered lines, every session reached keeps the invariant. */
  lemma {:induction false} RunPreservesInvariant(env: Env, w: World, values: seq<string>)
    requires Invariant(w.session)
    ensures RunSpec(env, w, values).Some? ==> Invariant(RunSpec(env, w, values).value.session)
    decreases |values|
  {
    if values != [] {
      EnterPreservesInvariant(env, w, values[0]);
      if EnterSpec(env, w, values[0]).Some? {
        RunPreservesInvariant(env, EnterSpec(env, w, values[0]).value, values[1..]);
      }
    }
  }
}
