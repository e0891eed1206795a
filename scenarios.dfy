/**
 * Concrete sessions: the worked examples of the console's behaviour,
 * each derived from the general model.
 */
module Scenarios {
  import opened Wrappers
  import opened JsText
  import opened JsNumber
  import opened Machine
  import opened Output
  import opened Commands
  import opened Gadgets

  /** parseInt(s, 0) on the three spellings of an address a user types. */
  lemma RadixZeroExamples()
    ensures ParseInt("0x1A") == Some(26)
    ensures ParseInt("032") == Some(32)
    ensures ParseInt("26") == Some(26)
  {
    ParseHexExample();
    ParseLeadingZeroExample();
    ParseDecimalExample();
  }

  lemma ParseHexExample()
    ensures ParseInt("0x1A") == Some(26)
  {
    assert ValueOf("1A", 16) == 26 by {
      assert "1" + ['A'] == "1A";
      ValueOfSnoc("1", 'A', 16);
    }
    assert "0x" + "1A" == "0x1A";
    ParseIntHexDigits("1A");
  }

  lemma ParseLeadingZeroExample()
    ensures ParseInt("032") == Some(32)
  {
    assert "0" + Decimal(32) == "032";
    ParseIntLeadingZeroIsDecimal(32);
  }

  lemma ParseDecimalExample()
    ensures ParseInt("26") == Some(26)
  {
    assert Decimal(26) == "26";
    ParseIntDecimalRoundTrip(26);
  }

  /** The address 0x105 is shown as 0x0105, and 0x150 as 0x0150. */
  lemma HexAddressExample()
    ensures HexAddress(0x105) == "0x0105"
    ensures HexAddress(0x150) == "0x0150"
  {
    assert HexAddress(0x105) == "0x0105" by {
      assert Hex(0x105) == "105" by { assert Hex(0x10) == "10"; }
      HexAddressOf(0x105, "105");
    }
    assert HexAddress(0x150) == "0x0150" by {
      assert Hex(0x150) == "150" by { assert Hex(0x15) == "15"; }
      HexAddressOf(0x150, "150");
    }
  }

  /** Three hexadecimal digits are padded with one zero. */
  lemma HexAddressOf(x: nat, digits: string)
    requires Hex(x) == digits && |digits| == 3
    ensures HexAddress(x) == "0x0" + digits
  {
    var t := Zeros(4) + digits;
    assert t[|t| - 4..] == "0" + digits;
  }

  /** "0x105" reads as the number 0x105. */
  lemma ParseAddressExample()
    ensures ParseInt("0x105") == Some(0x105)
  {
    assert ValueOf("105", 16) == 0x105 by {
      assert "1" + ['0'] == "10" && "10" + ['5'] == "105";
      ValueOfSnoc("1", '0', 16);
      ValueOfSnoc("10", '5', 16);
    }
    assert "0x" + "105" == "0x105";
    ParseIntHexDigits("105");
  }

  /** write abc has no second word, so the device is never asked to write. */
  lemma WriteMissingValueExample(w: World)
    ensures WriteSpec(w, ["write", "abc"]).device == w.device
  {
    assert Split("abc", ' ') == ["abc"];
  }

  /**
   * A CPU whose pc after n steps is 0x100 + n, with the single breakpoint
   * 0x105: continue from a fresh device takes exactly five steps and
   * reports address 0x0105.
   */
  lemma ContinueExample(env: Env, w: World)
    requires forall n: nat :: env.behaviour.registersAt(n).pc == 0x100 + n
    requires w.device.steps == 0 && w.session.breakpoints == [Some(0x105)]
    ensures ContinueSpec(env, w).Some?
    ensures var r := ContinueSpec(env, w).value;
      r.device.steps == 5
      && r.device.log == w.device.log + LoopCalls(5) + [ReadRegistersCall, FetchInstructionsCall(5), FetchInstructionsCall(1)]
      && r.session.output == w.session.output + HitReport("0x0105")
           + [Text("$PC = 0x0105, " + env.stringify(Fetch(env.behaviour, 5, 1)))]
  {
    var b, bps := env.behaviour, w.session.breakpoints;
    assert Stops(b, bps, 0) && StopAt(b, bps, 0) == 5 by {
      assert HitAt(b, bps, 5) by { assert b.registersAt(5).pc == 0x105; }
      forall j | 0 < j < 5 ensures !HitAt(b, bps, j) {
        assert b.registersAt(j).pc != 0x105;
      }
      StopAtUnique(b, bps, 0, 5);
    }
    var r := AfterContinue(env, w, 5);
    assert ContinueSpec(env, w) == Some(r);
    AfterContinueDevice(env, w, 5);
    assert r.session.output == w.session.output + HitReport("0x0105")
           + [Text("$PC = 0x0105, " + env.stringify(Fetch(b, 5, 1)))] by {
      AfterContinueSession(env, w, 5);
      assert b.registersAt(5).pc == 0x105;
      HexAddressExample();
      PcLineText(env.stringify(Fetch(b, 5, 1)));
    }
  }

  lemma PcLineText(decoded: string)
    ensures "$PC = " + "0x0105" + ", " + decoded == "$PC = 0x0105, " + decoded
  {
    assert "$PC = " + "0x0105" + ", " == "$PC = 0x0105, ";
  }

  /** The same breakpoint set but the pc never reaches it: continue never stops. */
  lemma ContinueNeverExample(env: Env, w: World)
    requires forall n: nat :: env.behaviour.registersAt(n).pc == 0x100
    requires w.session.breakpoints == [Some(0x105)]
    ensures ContinueSpec(env, w).None?
  {
    ContinueStopsIff(env, w);
  }

  /**
   * Eighteen bytes dump as a row of sixteen labelled base and a row of two
   * labelled base + 16.
   */
  lemma DumpRowsExample(contents: seq<Byte>, base: Number)
    requires |contents| == 18
    ensures RowSizes(18, 0) == [16, 2]
    ensures Dump(contents, base)
      == RowEntries(contents, base, 0, 16) + RowEntries(contents, AddOffset(base, 16), 16, 2)
  {
    var sizes := RowSizes(|contents|, 0);
    assert sizes == [16, 2] by {
      assert RowSizes(18, 32) == [];
      assert RowSizes(18, 16) == [2];
    }
    var d := Dump(contents, base);
    DumpRows(contents, base);
    assert d[18 * 0..18 * 0 + 18] == RowEntries(contents, AddOffset(base, 16 * 0), 16 * 0, sizes[0]);
    assert d[18 * 1..18 * 1 + 18] == RowEntries(contents, AddOffset(base, 16 * 1), 16 * 1, sizes[1]);
    assert AddOffset(base, 0) == base;
    assert d == d[0..18] + d[18..36];
  }

  /**
   * A line "break a", with no white space at its end, is recorded in the
   * history and sets the breakpoint parseInt(a) when it is new; the device
   * is not asked anything.
   */
  lemma DispatchBreakLine(env: Env, w: World, a: string)
    requires a != [] && !IsWhiteSpace(a[|a| - 1])
    requires !IsBreakpoint(w.session.breakpoints, ParseInt(a))
    ensures var r := DispatchSpec(env, w, "break " + a);
      r.Some? && r.value.session.breakpoints == w.session.breakpoints + [ParseInt(a)]
      && r.value.session.history == RecordHistory(w.session.history, "break " + a)
      && r.value.device == w.device
  {
    var line := "break " + a;
    var args := ["break", a];
    assert DispatchSpec(env, w, line) == FoundSpec(env, w, line, args, Break) by {
      BreakLineWords(a);
      assert Lookup("break") == Some(Break) by { LookupOwnName(Break); }
    }
    var s1 := Record(w.session, line);
    assert FoundSpec(env, w, line, args, Break) == Some(Emit(World(BreakSpec(s1, args), w.device), [LineBreak])) by {
      assert RunHandler(env, Break, w.(session := s1), args) == Some(World(BreakSpec(s1, args), w.device));
    }
    assert s1.history == RecordHistory(w.session.history, line) && s1.breakpoints == w.session.breakpoints by {
      RecordOutcome(w.session, line);
    }
    assert BreakSpec(s1, args).breakpoints == s1.breakpoints + [ParseInt(a)] && BreakSpec(s1, args).history == s1.history by {
      BreakOutcome(s1, args);
    }
  }

  /** The trim and the two words of "break a". */
  lemma BreakLineWords(a: string)
    requires a != [] && !IsWhiteSpace(a[|a| - 1])
    ensures Trim("break " + a) == "break " + a
    ensures SplitCommand("break " + a) == ["break", a]
  {
    BreakLineTrimmed(a);
    BreakLineSplit(a);
  }

  lemma BreakLineSplit(a: string)
    ensures SplitCommand("break " + a) == ["break", a]
  {
    assert "break" + " " + a == "break " + a;
    assert SplitCommand("break" + " " + a) == ["break", a] by {
      assert ' ' !in "break";
      SplitCommandOf("break", a);
    }
  }

  lemma BreakLineTrimmed(a: string)
    requires a != [] && !IsWhiteSpace(a[|a| - 1])
    ensures Trim("break " + a) == "break " + a
  {
    var line := "break " + a;
    assert !IsWhiteSpace(line[0]) && !IsWhiteSpace(line[|line| - 1]) by {
      assert line[0] == 'b' && line[|line| - 1] == a[|a| - 1];
    }
    TrimmedIsFixed(line);
  }

  /**
   * Typing "break a" at the prompt echoes it, dispatches it as above and
   * makes it the previous command.
   */
  lemma EnterBreakLine(env: Env, w: World, a: string)
    requires a != [] && !IsWhiteSpace(a[|a| - 1])
    requires !IsBreakpoint(w.session.breakpoints, ParseInt(a))
    ensures var r := EnterSpec(env, w, "break " + a);
      r.Some? && r.value.session.breakpoints == w.session.breakpoints + [ParseInt(a)]
      && r.value.session.history == RecordHistory(w.session.history, "break " + a)
      && r.value.session.previousCommand == Some("break " + a)
      && r.value.device == w.device
  {
    var line := "break " + a;
    BreakLineTrimmed(a);
    var w1 := Echo(w, line);
    assert EnterSpec(env, w, line) == SubmitSpec(env, w1, line);
    assert w1.session == w.session.(output := w1.session.output) && w1.device == w.device;
    DispatchBreakLine(env, w1, a);
  }

  /**
   * A trimmed line whose words are args, the first naming history, is
   * recorded, listed by the history handler and followed by a line break;
   * clear as the second word empties the history first. A plain history
   * line is recorded before the listing, so it always lists itself last:
   * right after history clear it shows one entry, itself, as entry 0.
   */
  lemma HistoryLineOutcome(env: Env, w: World, line: string, args: seq<string>)
    requires line != [] && Trim(line) == line && SplitCommand(line) == args
    requires args[0] == Name(History)
    ensures var r := DispatchSpec(env, w, line);
      var clear := |args| == 2 && args[1] == "clear";
      var h := if clear then [] else RecordHistory(w.session.history, line);
      r.Some? && r.value.device == w.device && r.value.session.history == h
      && r.value.session.output == w.session.output + HistoryListing(h) + [LineBreak]
  {
    var s1 := Record(w.session, line);
    assert DispatchSpec(env, w, line) == Some(Emit(World(HistorySpec(s1, args), w.device), [LineBreak])) by {
      LookupOwnName(History);
      DispatchFound(env, w, line, args, History);
      HistoryFound(env, w, line, args);
    }
    assert s1.output == w.session.output && s1.history == RecordHistory(w.session.history, line) by {
      RecordOutcome(w.session, line);
    }
  }

  /** A trimmed, non-blank line whose first word is registered goes to the branch for that command. */
  lemma DispatchFound(env: Env, w: World, line: string, args: seq<string>, c: Command)
    requires line != [] && Trim(line) == line && SplitCommand(line) == args
    requires Lookup(args[0]) == Some(c)
    ensures DispatchSpec(env, w, line) == FoundSpec(env, w, line, args, c)
  {
  }

  /** The history command's branch: record the line, run the handler, break the line. */
  lemma HistoryFound(env: Env, w: World, line: string, args: seq<string>)
    requires |args| <= 2
    ensures var s1 := Record(w.session, line);
      FoundSpec(env, w, line, args, History) == Some(Emit(World(HistorySpec(s1, args), w.device), [LineBreak]))
  {
    var s1 := Record(w.session, line);
    assert RunHandler(env, History, w.(session := s1), args) == Some(World(HistorySpec(s1, args), w.device));
  }
}
