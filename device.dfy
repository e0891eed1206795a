/**
 * The emulated machine as the debugger console sees it through its
 * synchronous IPC channels (pgb-cpu-step, pgb-read-registers,
 * pgb-read-region, pgb-write-byte, pgb-fetch-instructions). What the CPU
 * does is not part of this model: the register file after n steps, the
 * disassembly at a position and what a step does to memory are parameters
 * (a Behaviour); memory is a map that steps and writes update; every call
 * is recorded in a log so that "the command made no device call" can be
 * stated.
 */
module Machine {
  import opened Wrappers
  import opened JsNumber

  type Byte = b: int | 0 <= b < 256

  /** A register snapshot, as pgb-read-registers returns it. */
  datatype Registers = Registers(af: nat, bc: nat, de: nat, hl: nat, sp: nat, pc: nat)

  /** One decoded instruction, as pgb-fetch-instructions returns it. */
  datatype Instruction = Instruction(
    address: nat,
    rawData: seq<Byte>,
    assembly: string,
    commentA: Option<string>,
    commentB: Option<string>)

  /** One request sent to the device, with its arguments. */
  datatype Call =
    | StepCall
    | ReadRegistersCall
    | ReadRegionCall(base: Number, size: Number)
    | WriteByteCall(address: Number, value: Number)
    | FetchInstructionsCall(count: nat)

  /**
   * What the emulated CPU does, seen from outside: the registers after n
   * steps, the instructions decoded from the position reached after n
   * steps when count of them are asked for, and the memory after the step
   * taken from step count n on a given memory.
   */
  datatype Behaviour = Behaviour(
    registersAt: nat -> Registers,
    disassemblyAt: (nat, nat) -> seq<Instruction>,
    stepMemory: (nat, map<int, Byte>) -> map<int, Byte>)

  /** The device's state: steps taken, memory, and every call so far. */
  datatype DeviceState = DeviceState(steps: nat, memory: map<int, Byte>, log: seq<Call>)

  /** The byte at an address; never-written memory reads as 0. */
  function Peek(memory: map<int, Byte>, address: int): Byte
  {
    if address in memory then memory[address] else 0
  }

  /**
   * The reply to pgb-read-region: size bytes from base, or nothing when an
   * argument is NaN or the size is negative. A negative base reads negative
   * addresses, which hold 0 unless written.
   */
  function Region(memory: map<int, Byte>, base: Number, size: Number): (bytes: seq<Byte>)
    ensures base.Some? && size.Some? && size.value >= 0 ==>
      |bytes| == size.value && forall k :: 0 <= k < |bytes| ==> bytes[k] == Peek(memory, base.value + k)
    ensures !(base.Some? && size.Some? && size.value >= 0) ==> bytes == []
  {
    if base.Some? && size.Some? && size.value >= 0 then
      seq<Byte>(size.value, k requires 0 <= k < size.value => Peek(memory, base.value + k))
    else []
  }

  /** The effect of pgb-write-byte: the low eight bits of value stored at address; NaN writes nothing. */
  function Poke(memory: map<int, Byte>, address: Number, value: Number): (m: map<int, Byte>)
    ensures address.Some? && value.Some? ==>
      Peek(m, address.value) == value.value % 256
      && forall a :: a != address.value ==> Peek(m, a) == Peek(memory, a)
    ensures address.None? || value.None? ==> m == memory
  {
    if address.Some? && value.Some? then memory[address.value := value.value % 256] else memory
  }

  /** The memory after the steps taken from step count from up to step count k, starting from m. */
  function MemoryAfter(b: Behaviour, from: nat, m: map<int, Byte>, k: nat): map<int, Byte>
    requires from <= k
    decreases k - from
  {
    if k == from then m else b.stepMemory(k - 1, MemoryAfter(b, from, m, k - 1))
  }

  /** The first count instructions at the current position. */
  function Fetch(b: Behaviour, steps: nat, count: nat): seq<Instruction>
  {
    b.disassemblyAt(steps, count)
  }

  class Device {
    const behaviour: Behaviour
    var steps: nat
    var memory: map<int, Byte>
    var log: seq<Call>

    function State(): DeviceState
      reads this
    {
      DeviceState(steps, memory, log)
    }

    constructor (behaviour: Behaviour, memory: map<int, Byte>)
      ensures this.behaviour == behaviour
      ensures State() == DeviceState(0, memory, [])
    {
      this.behaviour := behaviour;
      this.steps := 0;
      this.memory := memory;
      this.log := [];
    }

    /** pgb-cpu-step: execute one instruction, which may store to memory. */
    method Step()
      modifies this`steps, this`memory, this`log
      ensures steps == old(steps) + 1 && log == old(log) + [StepCall]
      ensures memory == behaviour.stepMemory(old(steps), old(memory))
    {
      memory := behaviour.stepMemory(steps, memory);
      steps := steps + 1;
      log := log + [StepCall];
    }

    /** pgb-read-registers. */
    method ReadRegisters() returns (r: Registers)
      modifies this`log
      ensures r == behaviour.registersAt(steps)
      ensures steps == old(steps) && memory == old(memory) && log == old(log) + [ReadRegistersCall]
    {
      r := behaviour.registersAt(steps);
      log := log + [ReadRegistersCall];
    }

    /** pgb-read-region. */
    method ReadRegion(base: Number, size: Number) returns (bytes: seq<Byte>)
      modifies this`log
      ensures bytes == Region(memory, base, size)
      ensures steps == old(steps) && memory == old(memory) && log == old(log) + [ReadRegionCall(base, size)]
    {
      bytes := Region(memory, base, size);
      log := log + [ReadRegionCall(base, size)];
    }

    /** pgb-write-byte. */
    method WriteByte(address: Number, value: Number)
      modifies this`memory, this`log
      ensures steps == old(steps) && memory == Poke(old(memory), address, value)
      ensures log == old(log) + [WriteByteCall(address, value)]
    {
      memory := Poke(memory, address, value);
      log := log + [WriteByteCall(address, value)];
    }

    /** pgb-fetch-instructions. */
    method FetchInstructions(count: nat) returns (instructions: seq<Instruction>)
      modifies this`log
      ensures instructions == Fetch(behaviour, steps, count)
      ensures steps == old(steps) && memory == old(memory) && log == old(log) + [FetchInstructionsCall(count)]
    {
      instructions := Fetch(behaviour, steps, count);
      log := log + [FetchInstructionsCall(count)];
    }
  }
}
