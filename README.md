# pgb debugger console, modelled in Dafny

This project models the interactive debugger console of the pgb Game Boy
emulator front end (`app/js/index.js`). The console is a line-oriented
command interpreter. It keeps a small session record (`debugger_state`:
the previous command, the history, the history cursor, the breakpoints)
and runs nine commands (`break`, `reset`, `continue`, `help`, `history`,
`quit`, `read`, `step`, `write`) against an emulated device. The device is
reached through synchronous IPC calls to step the CPU, read the
registers, read a memory region, write a byte and fetch disassembled
instructions.

The model has two layers.

- **A pure specification.** `Gadgets` defines a `Session` datatype (the
  fields of `debugger_state` plus the output window, the register panel,
  the disassembly table and whether the window was closed) and a `World`
  (session plus device state). Each handler is one spec function:
  `BreakSpec`, `HistorySpec`, `ContinueSpec`, `ReadSpec`, `WriteSpec`,
  `StepSpec`, `DispatchSpec` (handle_debug_command) and `EnterSpec` (the
  Enter-key handler). The lemmas beside them state what each handler
  promises. An invariant on the session is preserved by every entered line.
- **An imperative model.** `Console.Debugger` is a class whose fields are
  the session and whose methods follow the JavaScript function by
  function: the `for` and `while` loops become loops with invariants, and
  `push` becomes an append to a `seq` field. `Machine.Device` is a class
  for the device. Its CPU behaviour (the registers after n steps, the
  instructions decoded at step n, and what a step stores to memory) is a
  parameter, its memory is a map, and
  it keeps a log of every call made to it, so "no device call" and "exactly
  these calls" can be stated. Every `Debugger` method ensures that the new
  state is the spec function of the old state.

Supporting modules:

- `JsText`: the JavaScript string operations used (`trim`, `split` on one
  character, `join`, `indexOf`, `replace` of the first occurrence, decimal
  printing).
- `JsNumber`: `parseInt(s, 0)` and the hex-padding idioms. NaN is `None`
  in `Number = Option<int>`.
- `Output`: the output window as a sequence of `(text, colour, newline)`
  entries, together with the hex-dump row layout, the history listing and
  the disassembly rows.
- `Commands`: the registry, `split_command`, the history rule and the stop
  rule of `continue`.
- `Scenarios`: concrete and parametric examples.

Behaviour of the code a reader may not expect, which the model keeps as written:

- `parseInt(s, 0)` never reads a leading `0` as octal: `"032"` is 32
  (`RadixZeroExamples`).
- `reset` only empties the output window. It does not reset the device.
- Breakpoints are stored as parsed, neither reduced to 16 bits nor
  normalised. An address that does not parse is NaN, which
  `indexOf` never finds, so every `break` with such an address appends
  another NaN (`BreakNaNAppends`).
- handle_debug_command records the line in the history before it runs the
  handler. After `history clear`, the next `history` therefore lists one
  entry, `0 history`, rather than nothing (`HistoryLineOutcome`).
- `read` sends a target to the register path when it contains `$`
  anywhere, not only at its start.
- The ASCII column of a memory dump reads `memory_contents[base_address + i]`
  where `base_index + i` is meant. This is kept as written
  (`AsciiAsWritten`). It agrees with the intended column only when the row's
  address equals its index (`AsciiAsWrittenWhenAligned`). Past the end of
  the region it shows `.` (`AsciiAsWrittenOutside`).
- The Enter key stores every dispatched line as `previous_command`, after
  `handle_debug_command` returns, whether or not the line named a command:
  an invalid line is echoed, reported and then replayed by the next blank
  line (`EnterOutcome`, `EnterUnknown`).
- `continue` has no step bound. The spec function is `None` when no later
  step reaches a breakpoint. The console methods that can run it require
  that it stops.

## Model

| member | source | states |
|---|---|---|
| JsText.TrimStart | app/js/index.js:342 | the result is a suffix of the input; everything removed is white space; the result does not start with white space |
| JsText.TrimEnd | app/js/index.js:342 | the result is a prefix of the input; everything removed is white space; the result does not end with white space |
| JsText.Trim | app/js/index.js:342 | the result is the input with white space removed at both ends only, and neither of its ends is white space |
| JsText.TrimmedIsFixed | app/js/index.js:342 | a string with no white space at either end is its own trim |
| JsText.TrimIdempotent | app/js/index.js:342 | trimming twice is trimming once |
| JsText.TrimEmpty | app/js/index.js:343 | a line trims to empty exactly when it is all white space |
| JsText.IndexOf | app/js/index.js:326 | -1 exactly when the character is absent, otherwise the position of its first occurrence |
| JsText.RemoveFirst | app/js/index.js:210 | without the character the string is unchanged; otherwise exactly its first occurrence is removed |
| JsText.Split | app/js/index.js:326 | at least one part, no part contains the separator, and exactly one part when the separator is absent |
| JsText.JoinSplit | app/js/index.js:330 | joining the parts of a split with the same separator gives back the string |
| JsText.SplitTail | app/js/index.js:326 | the first part ends at the first separator and the remaining parts are the split of what follows it |
| JsText.IndexOfAfter | app/js/index.js:326 | the first separator of a + [c] + b, with c not in a, is at position \|a\| |
| JsText.SplitTwo | app/js/index.js:179 | two separator-free words joined by the separator split back into exactly those two words |
| JsText.Decimal | app/js/index.js:68-69 | the `%d` rendering of a count is a non-empty string of decimal digits |
| JsNumber.HexDigitValue | app/js/index.js:73 | a digit value, when there is one, is below 16 |
| JsNumber.DigitPrefix | app/js/index.js:73 | the longest prefix of digits of the radix: a prefix, all digits, followed by a non-digit or the end |
| JsNumber.DigitPrefixOfDigits | app/js/index.js:73 | a string of digits is its own digit prefix |
| JsNumber.HexChar | app/js/index.js:77 | a digit below 16 prints as a lower-case hex character whose value is that digit |
| JsNumber.Hex | app/js/index.js:77 | `toString(16)` of a natural number is non-empty, lower-case hex, with no leading zero |
| JsNumber.HexValue | app/js/index.js:77 | the value of the hex digits of n is n |
| JsNumber.HexLength | app/js/index.js:77 | a number below 16^k has at most k hex digits |
| JsNumber.Zeros | app/js/index.js:77 | the padding is n zero characters |
| JsNumber.PadTail | app/js/index.js:77 | `("0000" + s).substr(-width)` has exactly `width` characters |
| JsNumber.FixedHex | app/js/index.js:77 | the fixed-width rendering is `width` lower-case hex digits |
| JsNumber.FixedHexOfZero | app/js/index.js:77 | zero renders as all zeros |
| JsNumber.FixedHexStep | app/js/index.js:77 | the value of a fixed-width rendering is the rendering of x/16 one digit shorter, times 16, plus x mod 16 |
| JsNumber.FixedHex4Value | app/js/index.js:77 | four digits hold exactly x mod 0x10000 |
| JsNumber.FixedHex2Value | app/js/index.js:147 | two digits hold exactly a byte value |
| JsNumber.PadTailSnoc | app/js/index.js:77 | padding a string with a character appended ends in that character |
| JsNumber.PadTailOfHex | app/js/index.js:77 | the padding idiom applied to `toString(16)` is the fixed-width hex rendering |
| JsNumber.Hex4Unsigned | app/js/index.js:77 | for a non-negative x the four-digit idiom is four lower-case hex digits whose value is x mod 0x10000 |
| JsNumber.Hex2Byte | app/js/index.js:147 | for a byte the two-digit idiom is two lower-case hex digits whose value is the byte |
| JsNumber.PrintfMatchesPadTail | app/js/index.js:405 | `printf("%0kx")` agrees with the padding idiom for values that fit in k digits |
| JsNumber.ParseIntHexDigits | app/js/index.js:73 | `parseInt("0x" + z, 0)` of hex digits z is their value |
| JsNumber.ParseIntHexRoundTrip | app/js/index.js:73 | `parseInt("0x" + n.toString(16), 0)` gives back n |
| JsNumber.DecimalValue | app/js/index.js:68-69 | the value of the decimal rendering of n is n |
| JsNumber.ParseIntDecimalRoundTrip | app/js/index.js:73 | parsing the decimal rendering of n gives back n |
| JsNumber.ParseIntDigits | app/js/index.js:73 | a string of decimal digits parses to its value |
| JsNumber.DecimalMagnitude | app/js/index.js:73 | the unsigned part of a decimal string is read in radix 10 |
| JsNumber.ParseIntLeadingZeroIsDecimal | app/js/index.js:73 | a leading 0 does not select octal: "0" + decimal(n) parses to n |
| JsNumber.LeadingZeroMagnitude | app/js/index.js:73 | a signed-part string starting with 0 followed by decimal digits is read in radix 10 |
| JsNumber.ValueOfLeadingZero | app/js/index.js:73 | a leading zero digit does not change the value |
| JsNumber.ParseIntSkipsWhiteSpace | app/js/index.js:73 | leading white space is skipped |
| JsNumber.ParseIntNoDigits | app/js/index.js:73 | a string that starts with neither a digit, a sign nor white space is NaN |
| Machine.Region | app/js/index.js:194 | a region with a known base and non-negative size has that many bytes, each read from base + k; any other request yields no bytes |
| Machine.Poke | app/js/index.js:264 | a write with numeric address and value stores the value mod 256 there; a NaN address or value leaves memory unchanged |
| Machine.Device.constructor | app/js/index.js:90-91 | a fresh device has the given behaviour and memory, no steps taken and an empty log |
| Machine.Device.Step | app/js/index.js:90 | `pgb-cpu-step`: one more step, memory as the CPU behaviour's step leaves it, one step call logged |
| Machine.Device.ReadRegisters | app/js/index.js:91 | `pgb-read-registers`: the registers after the current step count, one call logged, nothing else changes |
| Machine.Device.ReadRegion | app/js/index.js:194 | `pgb-read-region`: the bytes of the region, one call logged with its arguments, nothing else changes |
| Machine.Device.WriteByte | app/js/index.js:264 | `pgb-write-byte`: memory updated as Poke says, one call logged, no step |
| Machine.Device.FetchInstructions | app/js/index.js:398 | `pgb-fetch-instructions`: the decoded instructions at the current step, one call logged, nothing else changes |
| Output.AsciiAsWritten | app/js/index.js:155-166 | the ASCII column as written has one character per byte of the row; character j is the element at address label + j shown as itself when printable and as '.' otherwise or when absent |
| Output.AsciiColumn | app/js/index.js:159-163 | the intended ASCII column has one printable character per byte; character j is byte j when it is in 0x20..0x7e and '.' otherwise |
| Output.AsciiAsWrittenWhenAligned | app/js/index.js:157 | when the row's address equals its index the column as written is the intended one |
| Output.AsciiAsWrittenOutside | app/js/index.js:157 | a position whose address lies past the region shows '.' |
| Output.ByteCells | app/js/index.js:146-149 | one cell per byte of the row, in order, each its two hex digits and a space |
| Output.Padding | app/js/index.js:151-153 | `16 - size` blank three-space cells for a short row, none for a full one |
| Output.RowPartition | app/js/index.js:196-200 | rows start at offsets 0, 16, 32, … and hold min(16, n - i) bytes; there are ⌈n/16⌉ of them and their sizes sum to n |
| Output.RowLength | app/js/index.js:139-169 | every row of at most sixteen bytes is eighteen entries |
| Output.DumpFromLength | app/js/index.js:196-200 | the dump from offset i has eighteen entries per row size from i |
| Output.DumpFromRow | app/js/index.js:196-200 | block k of the dump from offset i is the row of the k-th size, read at offset i + 16k and labelled base + i + 16k |
| Output.DumpRows | app/js/index.js:196-200 | the hex dump is exactly the rows of RowSizes(n, 0), one after the other, row k read at offset 16k and labelled base + 16k |
| Output.RowLayout | app/js/index.js:139-169 | a row is its 4-digit address label, its byte cells, its padding and the ASCII column on a line of its own: 18 entries |
| Output.AsciiColumnAligned | app/js/index.js:143-153 | label, byte cells and padding always take 53 characters, so the ASCII column starts in the same place on every row |
| Output.ListingShape | app/js/index.js:127-130 | the listing has two entries per command: its index in orange, then the command on a line of its own |
| Output.RawDataReversed | app/js/index.js:414-417 | the raw-data text holds two hex digits per byte, with the bytes in reverse order |
| Commands.FirstMatch | app/js/index.js:348-353 | no match exactly when no entry has the name; otherwise the entry found has the name and no earlier entry has it |
| Commands.Index | app/js/index.js:312-322 | every command sits in the registry under its own id |
| Commands.RegistryNames | app/js/index.js:312-322 | every registry entry is registered under its command's id |
| Commands.RegistryDistinct | app/js/index.js:312-322 | the registry ids are pairwise distinct |
| Commands.FirstMatchAt | app/js/index.js:348-353 | the first entry carrying the name is the one found |
| Commands.LookupOwnName | app/js/index.js:348-353 | every command is found under its own id |
| Commands.LookupOnlyName | app/js/index.js:348-353 | a command is found only under its own id |
| Commands.FindCommand | app/js/index.js:348-353 | the lookup loop finds nothing exactly when no id matches, and otherwise the first match, which is Lookup |
| Commands.SplitCommand | app/js/index.js:324-332 | one or two words; a line without a space is `[input]`; otherwise a space-free head and a rest with head + " " + rest == input |
| Commands.SplitCommandOf | app/js/index.js:324-332 | a space-free word, a space and any rest split into exactly that word and that rest |
| Commands.SplitAtFirstSpace | app/js/index.js:330 | the first part, a space and the re-joined remaining parts give back the line |
| Commands.RecordHistory | app/js/index.js:362-366 | the history afterwards ends with the line, extends the old one by at most one entry, and keeps no two equal entries in a row |
| Commands.RecordHistoryAppends | app/js/index.js:362-366 | the line is appended exactly when the history is empty or its last entry differs, and left alone exactly otherwise |
| Commands.ArrayIndexOf | app/js/index.js:74 | Array.prototype.indexOf with ===: -1 or the first position holding x; NaN is never found |
| Commands.IsBreakpointIndexOf | app/js/index.js:94 | a value is a breakpoint exactly when indexOf finds it, in both directions |
| Commands.FirstHitFrom | app/js/index.js:89-102 | the first step at or after n whose pc is a breakpoint, with no hit before it |
| Commands.StopAt | app/js/index.js:89-102 | the step continue stops at is after the start, hits a breakpoint, and no step between them does |
| Commands.StopAtUnique | app/js/index.js:89-102 | any later step that hits with no hit in between is the stop |
| Commands.ContinueLoopStopsAtFirstHit | app/js/index.js:89-102 | whenever the loop, run with any amount of fuel, stops, it stops at the first hit after the start |
| Commands.ContinueLoopReachesStop | app/js/index.js:89-102 | with enough fuel the loop reaches that first hit |
| Commands.ContinueLoopDiverges | app/js/index.js:89-102 | with no later hit the loop never stops, whatever the fuel |
| Gadgets.BreakOutcome | app/js/index.js:62-83 | break with fewer than two words reports the argument count and adds nothing; with a known address it warns and adds nothing; otherwise it appends the parsed address and confirms; nothing else in the session changes |
| Gadgets.BreakTwice | app/js/index.js:73-82 | breaking twice on the same numeric address stores it exactly once and the second time warns |
| Gadgets.BreakNaNAppends | app/js/index.js:73-75 | an address that does not parse appends NaN, even when NaN is already present |
| Gadgets.HistoryOutcome | app/js/index.js:117-131 | history clear empties the history and prints nothing; otherwise the history is kept and each entry printed in order as its index, then the line |
| Gadgets.HexAddressShape | app/js/index.js:95 | "0x" followed by four lower-case hex digits whose value is x mod 0x10000 |
| Gadgets.PanelShape | app/js/index.js:381-386 | each register cell is "0x" and four hex digits of that register's value mod 0x10000 |
| Gadgets.StepOutcome | app/js/index.js:298-310 | step makes exactly one device step and the calls step, registers, fetch 5, registers, fetch 1; refreshes both displays; prints the new pc without 0x and with its trailing space; memory as that one step leaves it; command state unchanged |
| Gadgets.LoopCallsShape | app/js/index.js:89-92 | n loop iterations make 2n calls, alternating step and register read |
| Gadgets.AfterContinueDevice | app/js/index.js:89-108 | stopping at step k leaves k steps taken, memory as those k steps leave it (`MemoryAfter`), and the log extended by the loop calls then registers, fetch 5, fetch 1 |
| Gadgets.AfterContinueSession | app/js/index.js:94-108 | stopping at step k reports the hit at that pc, refreshes both displays from step k and prints "$PC = 0x…, " with the decoded instruction |
| Gadgets.ContinueStopsIff | app/js/index.js:89-102 | continue comes back if and only if some later step's pc is a breakpoint |
| Gadgets.ContinueOutcome | app/js/index.js:85-109 | when it comes back, continue has stepped to the first later step whose pc is a breakpoint, never testing the pc before the first step, and the world is AfterContinue at that step |
| Gadgets.ReadRegisterFrame | app/js/index.js:203-228 | read_register only appends output and device log entries |
| Gadgets.ReadRegisterUnknown | app/js/index.js:210-217 | an unknown name, with its first '$' removed, is reported by name and no register read is made |
| Gadgets.ReadRegisterWide | app/js/index.js:220-223 | a 16-bit name makes one register read and prints "$name = 0x" with four hex digits of the value mod 0x10000 |
| Gadgets.ReadRegisterNarrow | app/js/index.js:220-227 | an 8-bit name makes one register read and prints only the not-implemented warning |
| Gadgets.MemoryArgs | app/js/index.js:179-192 | one word is size 1 at base parseInt(word); two words with a '/' in the first are size and base; every other shape is invalid, and only those shapes are valid |
| Gadgets.SingleSplit | app/js/index.js:327-328 | a one-part split is the string itself |
| Gadgets.ReadMemoryOutcome | app/js/index.js:171-201 | invalid arguments print the error and make no device call; valid ones make exactly one region read and print its dump; memory, steps and the session apart from output are unchanged |
| Gadgets.ReadRoutes | app/js/index.js:240-250 | a target containing '$' anywhere goes to read_register, any other to read_memory |
| Gadgets.WriteOutcome | app/js/index.js:273-296 | write reaches the device only when its remainder is exactly two words and the first does not start with '$', and then makes exactly one byte write of the two parsed words; the session apart from output never changes; fewer than two arguments print the red error with the argument count, a remainder that is not two words prints the missing-arguments error, and a '$' target changes nothing |
| Gadgets.RecordOutcome | app/js/index.js:362-366 | the history becomes RecordHistory of the line; the cursor points at the new last entry when the line is appended and is kept otherwise; nothing else changes |
| Gadgets.HandlerKeepsCommandState | app/js/index.js:62-310 | no handler touches the previous command, the cursors or the input buffer; only history clear changes the history and only break the breakpoints |
| Gadgets.DispatchHistory | app/js/index.js:342-370 | a blank line changes nothing; an unknown first word only prints the error; a known one leaves the history as RecordHistory of the trimmed line (empty after history clear) |
| Gadgets.RunHandlerHalts | app/js/index.js:85-102 | a handler comes back unless it is a continue that never stops |
| Gadgets.FoundHaltsIff | app/js/index.js:361-370 | the branch for a known command comes back exactly when its handler does |
| Gadgets.DispatchHaltsIff | app/js/index.js:334-372 | handle_debug_command comes back exactly when the line is not a continue that never stops |
| Gadgets.EnterReplays | app/js/index.js:451-462 | a blank line with a previous command dispatches that command again without echo, and it stays the previous command |
| Gadgets.DispatchUnknown | app/js/index.js:355-369 | a trimmed line naming no command only appends the invalid-command report naming the line and a line break; history and device are untouched |
| Gadgets.EnterOutcome | app/js/index.js:451-462 | whenever Enter comes back, the line it dispatched (the trimmed text, or the replayed previous command) is the previous command, accepted or not |
| Gadgets.EnterUnknown | app/js/index.js:451-462 | a non-blank line naming no command is echoed as "pgb-debugger> " and the trimmed line, reported as invalid with a line break, and becomes the previous command; history, breakpoints and device are unchanged |
| Gadgets.EnterHaltsIff | app/js/index.js:447-463 | the Enter key comes back exactly when the line it dispatches does |
| Gadgets.EchoKeepsHalts | app/js/index.js:458 | the echo does not change whether a line stops |
| Gadgets.InitialInvariant | app/js/index.js:35-42 | the initial session satisfies the invariant |
| Gadgets.RecordPreservesInvariant | app/js/index.js:362-366 | recording an accepted line keeps the history free of adjacent duplicates and made of accepted lines |
| Gadgets.HandlerPreservesInvariant | app/js/index.js:62-310 | every handler preserves the invariant |
| Gadgets.FoundPreservesInvariant | app/js/index.js:361-370 | the branch for a known command preserves the invariant |
| Gadgets.DispatchPreservesInvariant | app/js/index.js:334-372 | handle_debug_command preserves the invariant |
| Gadgets.EnterPreservesInvariant | app/js/index.js:447-463 | the Enter key preserves the invariant, including a trimmed, non-blank previous command |
| Gadgets.RunPreservesInvariant | app/js/index.js:447-463 | any sequence of entered lines preserves the invariant |
| Console.Debugger.constructor | app/js/index.js:35-42 | the session starts as debugger_state's initial values, with empty output |
| Console.Debugger.WriteOutput | app/js/index.js:44-60 | debugger_write_output appends exactly one entry |
| Console.Debugger.WriteEntries | app/js/index.js:44-60 | a sequence of writes appends exactly those entries, in order |
| Console.Debugger.Break | app/js/index.js:62-83 | the session afterwards is BreakSpec of the session before |
| Console.Debugger.History | app/js/index.js:117-131 | the listing loop leaves the session as HistorySpec says |
| Console.Debugger.Help | app/js/index.js:111-115 | help appends the help text |
| Console.Debugger.Reset | app/js/index.js:253-257 | reset empties the output and nothing else |
| Console.Debugger.Quit | app/js/index.js:133-137 | quit closes the window and nothing else |
| Console.Debugger.UpdateRegisterDisplay | app/js/index.js:374-387 | one register read, and the six cells rewritten from it |
| Console.Debugger.RawData | app/js/index.js:414-417 | the loop that prepends each byte builds the raw-data text: two hex digits per byte, bytes in reverse order |
| Console.Debugger.DisasmTable | app/js/index.js:402-433 | the row loop builds one row per instruction, the first highlighted |
| Console.Debugger.UpdateDisasm | app/js/index.js:395-434 | one fetch of five instructions, and the table rebuilt from them |
| Console.Debugger.StepAndReadPc | app/js/index.js:90-93 | one loop iteration: one step, memory as that step leaves it, one register read, and the pc after that step |
| Console.Debugger.RunToBreakpoint | app/js/index.js:89-102 | the loop stops at the first later step whose pc is a breakpoint, leaves memory as the steps taken leave it, logs exactly the loop calls, and reports that hit |
| Console.Debugger.RunAndReport | app/js/index.js:89-102 | the loop's world afterwards is HitReported at the stop |
| Console.Debugger.WritePcLine | app/js/index.js:107-108 | one fetch of one instruction and the "$PC = " line |
| Console.Debugger.Continue | app/js/index.js:85-109 | the world afterwards is ContinueSpec of the world before |
| Console.Debugger.WriteByteCells | app/js/index.js:146-149 | the byte loop appends one cell per byte of the row |
| Console.Debugger.WritePadding | app/js/index.js:151-153 | the padding loop appends the blank cells up to 16 |
| Console.Debugger.AsciiData | app/js/index.js:155-166 | the ASCII loop builds the column as written |
| Console.Debugger.DumpMemoryRow | app/js/index.js:139-169 | a row appends its label, cells, padding and ASCII column |
| Console.Debugger.DumpRegion | app/js/index.js:196-200 | the row loop appends the dump of the whole region |
| Console.Debugger.ReadMemory | app/js/index.js:171-201 | the world afterwards is ReadMemorySpec of the world before |
| Console.Debugger.ReadRegister | app/js/index.js:203-228 | the world afterwards is ReadRegisterSpec of the world before |
| Console.Debugger.Read | app/js/index.js:230-251 | the world afterwards is ReadSpec of the world before |
| Console.Debugger.WriteMemory | app/js/index.js:259-265 | exactly one byte write of the two parsed values, nothing else on the device |
| Console.Debugger.Write | app/js/index.js:273-296 | the world afterwards is WriteSpec of the world before |
| Console.Debugger.Step | app/js/index.js:298-310 | the world afterwards is StepSpec of the world before |
| Console.Debugger.RunCommand | app/js/index.js:367 | running a found command's handler gives RunHandler's world |
| Console.Debugger.RecordLine | app/js/index.js:362-366 | the history push and cursor update give Record of the session |
| Console.Debugger.RunFound | app/js/index.js:361-370 | recording, running and breaking the line give FoundSpec |
| Console.Debugger.ReportInvalid | app/js/index.js:355-360 | an unknown command prints the invalid-command message and a line break |
| Console.Debugger.Dispatch | app/js/index.js:334-372 | the world afterwards is DispatchSpec of the world before |
| Console.Debugger.SetPrevious | app/js/index.js:462 | the previous command becomes the line, nothing else changes |
| Console.Debugger.Submit | app/js/index.js:461-462 | dispatching and then remembering the line give SubmitSpec |
| Console.Debugger.Prompt | app/js/index.js:451-459 | the echo is printed as Echo says and the line to dispatch is EnteredLine |
| Console.Debugger.Enter | app/js/index.js:447-463 | the world afterwards is EnterSpec of the world before |
| Scenarios.RadixZeroExamples | app/js/index.js:73 | "0x1A" parses to 26, "032" to 32 and "26" to 26 |
| Scenarios.HexAddressExample | app/js/index.js:95 | 0x105 prints as "0x0105" and 0x150 as "0x0150" |
| Scenarios.ParseAddressExample | app/js/index.js:73 | "0x105" parses to 0x105 |
| Scenarios.WriteMissingValueExample | app/js/index.js:283-289 | "write abc" leaves the device untouched |
| Scenarios.ContinueExample | app/js/index.js:85-109 | with pc 0x100 + n after n steps and a breakpoint at 0x105, continue takes exactly five steps, logs exactly those calls and prints the hit and the pc 0x0105 |
| Scenarios.ContinueNeverExample | app/js/index.js:89-102 | with a pc that never reaches the breakpoint, continue never comes back |
| Scenarios.DumpRowsExample | app/js/index.js:196-200 | eighteen bytes dump as a row of sixteen labelled base followed by a row of two labelled base + 16 |
| Scenarios.DispatchBreakLine | app/js/index.js:342-370 | "break a" with a new address records the line and appends parseInt(a), with no device call |
| Scenarios.EnterBreakLine | app/js/index.js:447-463 | typing "break a" does the same and makes it the previous command |
| Scenarios.HistoryLineOutcome | app/js/index.js:117-131 | a history line is recorded before it is listed, so it lists itself last; history clear leaves nothing to list |

## Left out

- `main.js` is not part of this model. It holds the Electron window and menu set-up and the IPC handlers that forward to the native emulator.
- The instruction semantics of the emulated CPU are a parameter of the device (`Behaviour`: the registers after n steps, the instructions decoded at step n, and the memory a step leaves).
- Machine.Device.Step: the registers and the disassembly depend only on the number of steps taken, not on memory, so a console `write` cannot change where the CPU goes next; only the memory a step leaves depends on the memory before it.
- The memory behind `pgb-read-region` for a NaN base, a NaN size or a negative size is outside the model. Such a request is modelled as reading no bytes. A negative base with a valid size reads the negative addresses of the memory map, which hold 0 unless written.
- Machine.Poke: storing the low eight bits of the value, and storing nothing when the address or the value is NaN, is how the model reads `pgb-write-byte`; the native handler is not part of this model.
- `JSON.stringify` of the decoded instructions is a parameter (`stringify`). Its text is not modelled.
- DOM rendering is not modelled. The model leaves out spans, `<br>`, `innerHTML`, scrolling, the table cells of the disassembly view and its green highlight (kept only as a flag). Output is a sequence of entries instead.
- The help text's HTML is not reproduced. `help` appends one constant entry in its place.
- `update_register_display` writes the four flag bits (lines 388-392), all to the same element. This is display code and is left out. The register cells are modelled.
- The arrow-key history navigation (lines 465-501) is commented out and inert.
- The toolbar buttons (504-519) and the `show_debug`/`show_standard` listeners (522-538) only call functions that are modelled, except the reset button (511-515), which sends `pgb-reset` to the native emulator; that reset of the device is not modelled.
- Numbers are unbounded integers, not doubles. Strings are sequences of characters, not UTF-16.
- `parseInt` is modelled for the inputs the console can produce: no double-precision rounding, and no `Infinity`.
- The `command == null` test at line 447 is left out: the input field's value is always a string. Clearing the input field (463) is display only.
- Console.Debugger.Read: requires at most two words or a '/' in the second. split_command never yields more than two, and for three words with no '/' the source reads an undefined target.
- Console.Debugger.Continue: requires that some later step reaches a breakpoint, because the source's loop has no bound. The spec function `ContinueSpec` covers the other case as `None`.
- Console.Debugger.Dispatch: requires `Halts` (the line is not a continue that never stops), for the same reason.
- Console.Debugger.Enter: requires `Halts` of the line it dispatches, for the same reason.
- Console.Debugger.ReadMemory: the address parameter of read_memory is kept but unused, as in the source.
