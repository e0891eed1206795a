/**
 * The dispatcher's pure parts: the command registry and its first-match
 * lookup, split_command, the history-recording rule, and the stop rule of
 * continue.
 */
module Commands {
  import opened Wrappers
  import opened JsText
  import opened JsNumber
  import opened Machine

  /** The registered commands, one per handler. */
  datatype Command = Break | Reset | Continue | Help | History | Quit | Read | Step | Write

  /** The registry, in its declared order. */
  const Registry: seq<(string, Command)> := [
    ("break", Break), ("reset", Reset), ("continue", Continue), ("help", Help),
    ("history", History), ("quit", Quit), ("read", Read), ("step", Step), ("write", Write)]

  /** The id a command is registered under. */
  function Name(c: Command): string
  {
    match c
    case Break => "break"
    case Reset => "reset"
    case Continue => "continue"
    case Help => "help"
    case History => "history"
    case Quit => "quit"
    case Read => "read"
    case Step => "step"
    case Write => "write"
  }

  /** The first entry of the registry whose id is exactly name. */
  function FirstMatch(registry: seq<(string, Command)>, name: string): (r: Option<Command>)
    ensures r.None? <==> forall i :: 0 <= i < |registry| ==> registry[i].0 != name
    ensures r.Some? ==> exists i :: 0 <= i < |registry| && registry[i] == (name, r.value)
                                   && forall j :: 0 <= j < i ==> registry[j].0 != name
  {
    if registry == [] then None
    else if registry[0].0 == name then Some(registry[0].1)
    else
      var r := FirstMatch(registry[1..], name);
      assert forall j :: 1 <= j < |registry| ==> registry[j] == registry[1..][j - 1];
      r
  }

  function Lookup(name: string): Option<Command>
  {
    FirstMatch(Registry, name)
  }

  /** The position of a command in the registry. */
  function Index(c: Command): (i: nat)
    ensures i < |Registry| && Registry[i] == (Name(c), c)
  {
    match c
    case Break => 0
    case Reset => 1
    case Continue => 2
    case Help => 3
    case History => 4
    case Quit => 5
    case Read => 6
    case Step => 7
    case Write => 8
  }

  /** Every registry entry is registered under its command's id. */
  lemma RegistryNames(i: nat)
    requires i < |Registry|
    ensures Registry[i].0 == Name(Registry[i].1) && Index(Registry[i].1) == i
  {
  }

  /** No two registry ids are equal: they differ in length or in their first letter. */
  lemma RegistryDistinct(i: nat, j: nat)
    requires i < j < |Registry|
    ensures Registry[i].0 != Registry[j].0
  {
    var a, b := Registry[i].0, Registry[j].0;
    assert |a| != |b| || a[0] != b[0];
  }

  /** The first entry carrying name is the one found. */
  lemma {:induction false} FirstMatchAt(registry: seq<(string, Command)>, name: string, k: nat)
    requires k < |registry| && registry[k].0 == name
    requires forall j :: 0 <= j < k ==> registry[j].0 != name
    ensures FirstMatch(registry, name) == Some(registry[k].1)
  {
    if k > 0 {
      assert registry[0].0 != name;
      assert forall j :: 0 <= j < k - 1 ==> registry[1..][j] == registry[j + 1];
      FirstMatchAt(registry[1..], name, k - 1);
    }
  }

  /** Each command is found under its own id. */
  lemma LookupOwnName(c: Command)
    ensures Lookup(Name(c)) == Some(c)
  {
    var k := Index(c);
    forall j | 0 <= j < k
      ensures Registry[j].0 != Name(c)
    {
      RegistryDistinct(j, k);
    }
    FirstMatchAt(Registry, Name(c), k);
  }

  /** No command is found under a string other than its own id. */
  lemma LookupOnlyName(c: Command, name: string)
    ensures Lookup(name) == Some(c) ==> name == Name(c)
  {
    if Lookup(name) == Some(c) {
      var i :| 0 <= i < |Registry| && Registry[i] == (name, c);
      RegistryNames(i);
    }
  }

  /**
   * The loop of handle_debug_command that looks the first word up in the
   * registry, stopping at the first match.
   */
  method FindCommand(name: string) returns (found: Option<Command>)
    ensures found.None? <==> forall i :: 0 <= i < |Registry| ==> Registry[i].0 != name
    ensures found.Some? ==> exists i :: 0 <= i < |Registry| && Registry[i] == (name, found.value)
                                        && forall j :: 0 <= j < i ==> Registry[j].0 != name
    ensures found == Lookup(name)
  {
    found := None;
    var i := 0;
    while i < |Registry|
      invariant 0 <= i <= |Registry|
      invariant forall j :: 0 <= j < i ==> Registry[j].0 != name
    {
      if Registry[i].0 == name {
        found := Some(Registry[i].1);
        RegistryNames(i);
        LookupOwnName(Registry[i].1);
        return;
      }
      i := i + 1;
    }
  }

  /**
   * split_command: a line with no space is one word; otherwise the word
   * before the first space and everything after it, verbatim.
   */
  function SplitCommand(input: string): (args: seq<string>)
    ensures 1 <= |args| <= 2
    ensures ' ' !in input ==> args == [input]
    ensures ' ' in input ==> |args| == 2 && ' ' !in args[0] && args[0] + " " + args[1] == input
  {
    var parts := Split(input, ' ');
    if |parts| == 1 then parts
    else
      SplitAtFirstSpace(input);
      [parts[0], Join(parts[1..], ' ')]
  }

  /** A word without spaces, a space and any rest split into that word and that rest. */
  lemma SplitCommandOf(head: string, rest: string)
    requires ' ' !in head
    ensures SplitCommand(head + " " + rest) == [head, rest]
  {
    var input := head + " " + rest;
    assert IndexOf(input, ' ') == |head| by { IndexOfAfter(head, rest, ' '); }
    assert input[..|head|] == head && input[|head| + 1..] == rest;
    var parts := Split(input, ' ');
    assert parts[0] == head && parts[1..] == Split(rest, ' ') by { SplitTail(input, ' '); }
    JoinSplit(rest, ' ');
  }

  /** The first piece of a split and the rejoined rest put the line back together. */
  lemma SplitAtFirstSpace(input: string)
    requires ' ' in input
    ensures var parts := Split(input, ' ');
            parts[0] + " " + Join(parts[1..], ' ') == input
  {
    var k := IndexOf(input, ' ');
    var head, rest := input[..k], input[k + 1..];
    var parts := Split(input, ' ');
    assert parts[0] == head && parts[1..] == Split(rest, ' ') by {
      SplitTail(input, ' ');
    }
    assert Join(parts[1..], ' ') == rest by {
      JoinSplit(rest, ' ');
    }
    assert input == head + " " + rest by {
      SplitAround(input, k);
    }
  }

  /** No two neighbouring entries are the same command. */
  ghost predicate NoAdjacentDuplicates(h: seq<string>) {
    forall i :: 0 < i < |h| ==> h[i - 1] != h[i]
  }

  /**
   * The history rule of handle_debug_command: the line is appended unless
   * it repeats the last entry, so the last entry is always the line, at most
   * one entry is added, and no two neighbours are ever equal.
   */
  function RecordHistory(h: seq<string>, line: string): (r: seq<string>)
    ensures r != [] && r[|r| - 1] == line
    ensures h <= r && |r| <= |h| + 1
    ensures NoAdjacentDuplicates(h) ==> NoAdjacentDuplicates(r)
  {
    if h == [] || h[|h| - 1] != line then h + [line] else h
  }

  /** Under the invariant, the history grows exactly when the line differs from the last entry. */
  lemma RecordHistoryAppends(h: seq<string>, line: string)
    requires NoAdjacentDuplicates(h)
    ensures RecordHistory(h, line) == h + [line] <==> (h == [] || h[|h| - 1] != line)
    ensures RecordHistory(h, line) == h <==> (h != [] && h[|h| - 1] == line)
  {
    var r := RecordHistory(h, line);
    if h != [] && h[|h| - 1] == line {
      assert |r| != |h| + 1;
    }
  }

  // ---- continue --------------------------------------------------------

  /** indexOf(pc) != -1: NaN is never found, a number is found when present. */
  predicate IsBreakpoint(breakpoints: seq<Number>, x: Number) {
    x.Some? && x in breakpoints
  }

  /**
   * Array.prototype.indexOf on numbers, which compares with ===: the first
   * position holding a number equal to x, or -1. NaN equals nothing, itself
   * included.
   */
  function ArrayIndexOf(xs: seq<Number>, x: Number): (r: int)
    ensures -1 <= r < |xs|
    ensures r >= 0 ==> x.Some? && xs[r] == x && x !in xs[..r]
    decreases |xs|
  {
    if xs == [] || x.None? then -1
    else if xs[0] == x then 0
    else
      var k := ArrayIndexOf(xs[1..], x);
      if k < 0 then -1
      else
        assert xs[..k + 1] == [xs[0]] + xs[1..][..k];
        k + 1
  }

  /** The membership test IsBreakpoint is exactly the page's indexOf(x) != -1. */
  lemma {:induction false} IsBreakpointIndexOf(breakpoints: seq<Number>, x: Number)
    ensures IsBreakpoint(breakpoints, x) <==> ArrayIndexOf(breakpoints, x) != -1
    decreases |breakpoints|
  {
    if breakpoints != [] && x.Some? && breakpoints[0] != x {
      IsBreakpointIndexOf(breakpoints[1..], x);
      assert breakpoints == [breakpoints[0]] + breakpoints[1..];
    }
  }

  /** The pc after n steps is a breakpoint. */
  predicate HitAt(b: Behaviour, breakpoints: seq<Number>, n: nat) {
    IsBreakpoint(breakpoints, Some(b.registersAt(n).pc))
  }

  /** The first step count from n on that hits, given that bound hits. */
  function FirstHitFrom(b: Behaviour, breakpoints: seq<Number>, n: nat, bound: nat): (r: nat)
    requires n <= bound && HitAt(b, breakpoints, bound)
    ensures n <= r <= bound && HitAt(b, breakpoints, r)
    ensures forall j :: n <= j < r ==> !HitAt(b, breakpoints, j)
    decreases bound - n
  {
    if HitAt(b, breakpoints, n) then n else FirstHitFrom(b, breakpoints, n + 1, bound)
  }

  /** continue stops: some step after the current one reaches a breakpoint. */
  ghost predicate Stops(b: Behaviour, breakpoints: seq<Number>, from: nat) {
    exists n :: from < n && HitAt(b, breakpoints, n)
  }

  /** The step count at which continue stops: the first one after from whose pc is a breakpoint. */
  ghost function StopAt(b: Behaviour, breakpoints: seq<Number>, from: nat): (r: nat)
    requires Stops(b, breakpoints, from)
    ensures from < r && HitAt(b, breakpoints, r)
    ensures forall j :: from < j < r ==> !HitAt(b, breakpoints, j)
  {
    var n :| from < n && HitAt(b, breakpoints, n);
    FirstHitFrom(b, breakpoints, from + 1, n)
  }

  /** The first hit after from is unique. */
  lemma StopAtUnique(b: Behaviour, breakpoints: seq<Number>, from: nat, k: nat)
    requires from < k && HitAt(b, breakpoints, k)
    requires forall j :: from < j < k ==> !HitAt(b, breakpoints, j)
    ensures Stops(b, breakpoints, from) && StopAt(b, breakpoints, from) == k
  {
    var r := StopAt(b, breakpoints, from);
  }

  /**
   * The while(true) loop of continue run for at most fuel iterations: each
   * iteration steps once and then tests the pc; None when fuel runs out.
   */
  function ContinueLoop(b: Behaviour, breakpoints: seq<Number>, steps: nat, fuel: nat): Option<nat>
    decreases fuel
  {
    if fuel == 0 then None
    else if HitAt(b, breakpoints, steps + 1) then Some(steps + 1)
    else ContinueLoop(b, breakpoints, steps + 1, fuel - 1)
  }

  /** When the bounded loop stops, it stops at StopAt, having stepped at least once. */
  lemma {:induction false} ContinueLoopStopsAtFirstHit(b: Behaviour, breakpoints: seq<Number>, steps: nat, fuel: nat)
    requires ContinueLoop(b, breakpoints, steps, fuel).Some?
    ensures Stops(b, breakpoints, steps)
    ensures ContinueLoop(b, breakpoints, steps, fuel) == Some(StopAt(b, breakpoints, steps))
    decreases fuel
  {
    if HitAt(b, breakpoints, steps + 1) {
      StopAtUnique(b, breakpoints, steps, steps + 1);
    } else {
      ContinueLoopStopsAtFirstHit(b, breakpoints, steps + 1, fuel - 1);
      var k := StopAt(b, breakpoints, steps + 1);
      StopAtUnique(b, breakpoints, steps, k);
    }
  }

  /** Given enough fuel the bounded loop stops exactly when the unbounded one does. */
  lemma {:induction false} ContinueLoopReachesStop(b: Behaviour, breakpoints: seq<Number>, steps: nat, fuel: nat)
    requires Stops(b, breakpoints, steps) && StopAt(b, breakpoints, steps) - steps <= fuel
    ensures ContinueLoop(b, breakpoints, steps, fuel) == Some(StopAt(b, breakpoints, steps))
    decreases fuel
  {
    var k := StopAt(b, breakpoints, steps);
    if !HitAt(b, breakpoints, steps + 1) {
      StopAtUnique(b, breakpoints, steps + 1, k);
      ContinueLoopReachesStop(b, breakpoints, steps + 1, fuel - 1);
    }
  }

  /** With no breakpoint ahead, the loop never stops however long it runs. */
  lemma ContinueLoopDiverges(b: Behaviour, breakpoints: seq<Number>, steps: nat, fuel: nat)
    requires !Stops(b, breakpoints, steps)
    ensures ContinueLoop(b, breakpoints, steps, fuel) == None
  {
    if ContinueLoop(b, breakpoints, steps, fuel).Some? {
      ContinueLoopStopsAtFirstHit(b, breakpoints, steps, fuel);
    }
  }
}
