/** The prompt loop: read a line, match it against the three commands
    without regard to case, and otherwise treat it as a comma-separated
    batch of addresses. Standard input is the sequence of its lines. */
module Repl {
  import opened Strings
  import opened ScanLog
  import opened Session

  datatype Command = Exit | Clear | Help | Scan(ipList: seq<string>)

  /** The `switch strings.ToLower(input)` of `main`. */
  function Dispatch(input: string): Command {
    var lower := ToLower(input);
    if lower == "exit" then Exit
    else if lower == "clear" then Clear
    else if lower == "help" then Help
    else Scan(Split(input, ','))
  }

  /** A line is a command exactly when it is that command's word in some
      mix of upper and lower case; every other line is a batch. */
  lemma DispatchIsCaseInsensitive(input: string)
    ensures Dispatch(input) == Exit <==> IsCasingOf(input, "exit")
    ensures Dispatch(input) == Clear <==> IsCasingOf(input, "clear")
    ensures Dispatch(input) == Help <==> IsCasingOf(input, "help")
    ensures Dispatch(input).Scan? <==>
            !IsCasingOf(input, "exit") && !IsCasingOf(input, "clear") && !IsCasingOf(input, "help")
  {
    ToLowerMatches(input, "exit");
    ToLowerMatches(input, "clear");
    ToLowerMatches(input, "help");
  }

  /** A batch is the line cut at every comma, nothing trimmed: the pieces,
      one more than the commas, joined by commas give the line back. */
  lemma DispatchSplitsOtherLines(input: string)
    requires Dispatch(input).Scan?
    ensures var ipList := Dispatch(input).ipList;
            && |ipList| == Count(input, ',') + 1
            && (forall p :: p in ipList ==> ',' !in p)
            && Join(ipList, ",") == input
  {
    SplitPieces(input, ',');
  }

  /** The command words match in any case. */
  lemma DispatchWordsInAnyCase()
    ensures Dispatch("EXIT") == Exit && Dispatch("Clear") == Clear && Dispatch("hElP") == Help
  {
    assert ToLower("EXIT") == "exit";
    assert ToLower("Clear") == "clear";
    assert ToLower("hElP") == "help";
  }

  /** The line is not trimmed before it is matched: " exit" is a batch of
      one token. */
  lemma DispatchDoesNotTrim()
    ensures Dispatch(" exit") == Scan([" exit"])
  {
    assert ToLower(" exit")[0] == ' ';
    SplitWithoutSeparator(" exit", ',');
  }

  /** What `scanner.Text()` gives after the i-th `scanner.Scan()`: the
      i-th line while input lasts, the empty string once it is closed. */
  function ReadLine(lines: seq<string>, i: nat): string {
    if i < |lines| then lines[i] else ""
  }

  /** The commands `main` runs as written, for its first `fuel` rounds: it
      ignores what `scanner.Scan()` returns and stops only at "exit". */
  function LoopAsWritten(lines: seq<string>, i: nat, fuel: nat): seq<Command>
    decreases fuel
  {
    if fuel == 0 then []
    else
      var command := Dispatch(ReadLine(lines, i));
      if command == Exit then [Exit] else [command] + LoopAsWritten(lines, i + 1, fuel - 1)
  }

  /** Once input is closed, the loop as written never stops: every round
      runs the one-token batch [""] again. */
  lemma {:induction false} ClosedInputNeverExits(lines: seq<string>, i: nat, fuel: nat)
    requires i >= |lines|
    ensures LoopAsWritten(lines, i, fuel) == seq(fuel, k => Scan([""]))
    decreases fuel
  {
    if fuel > 0 {
      assert ToLower("") == "";
      SplitWithoutSeparator("", ',');
      assert Dispatch(ReadLine(lines, i)) == Scan([""]);
      ClosedInputNeverExits(lines, i + 1, fuel - 1);
    }
  }

  /** Such a batch is rejected, whatever the network says, yet it is logged
      every time: each round appends the same record to the log. */
  lemma EmptyBatch(env: Env, timestamp: string)
    requires !env.validIp("")
    ensures Sessions([""], env) == [InvalidAddress("")]
    ensures LogRecord(timestamp, [""]) == HeaderPrefix + timestamp + ":\n- \n\n"
  {
    EmptyTokenIsInvalid(env);
    SessionsOfEachToken([""], env, 0);
    EmptyRecord(timestamp);
  }

  lemma EmptyTokenIsInvalid(env: Env)
    requires !env.validIp("")
    ensures SessionOf("", env) == InvalidAddress("")
  {
    assert TrimSpace("") == "";
  }

  lemma EmptyRecord(timestamp: string)
    ensures LogRecord(timestamp, [""]) == HeaderPrefix + timestamp + ":\n- \n\n"
  {
    assert Entries([""]) == "- \n";
  }

  /** The loop as intended: it stops at "exit" or when input is closed. */
  function Loop(lines: seq<string>, i: nat): seq<Command>
    decreases |lines| - i
  {
    if i >= |lines| then []
    else
      var command := Dispatch(lines[i]);
      if command == Exit then [Exit] else [command] + Loop(lines, i + 1)
  }

  /** The intended loop runs the lines in order, one command per line, and
      stops right after the first "exit" or at the end of input. */
  lemma LoopRunsLinesInOrder(lines: seq<string>, i: nat)
    ensures var commands := Loop(lines, i);
            && (commands == [] || i + |commands| <= |lines|)
            && (forall k :: 0 <= k < |commands| ==> commands[k] == Dispatch(lines[i + k]))
            && (forall k :: 0 <= k < |commands| - 1 ==> commands[k] != Exit)
            && (commands == [] || commands[|commands| - 1] == Exit || i + |commands| == |lines|)
  {
    LoopEnds(lines, i);
    LoopDispatchesLines(lines, i);
    LoopGoesOnPastNonExit(lines, i);
  }

  lemma {:induction false} LoopEnds(lines: seq<string>, i: nat)
    ensures var commands := Loop(lines, i);
            && (commands == [] || i + |commands| <= |lines|)
            && (commands == [] || commands[|commands| - 1] == Exit || i + |commands| == |lines|)
    decreases |lines| - i
  {
    if i < |lines| && Dispatch(lines[i]) != Exit {
      LoopEnds(lines, i + 1);
      var rest := Loop(lines, i + 1);
      assert Loop(lines, i) == [Dispatch(lines[i])] + rest;
      if rest != [] {
        assert ([Dispatch(lines[i])] + rest)[|rest|] == rest[|rest| - 1];
      }
    }
  }

  lemma {:induction false} LoopDispatchesLines(lines: seq<string>, i: nat)
    ensures var commands := Loop(lines, i);
            && (commands == [] || i + |commands| <= |lines|)
            && (forall k :: 0 <= k < |commands| ==> commands[k] == Dispatch(lines[i + k]))
    decreases |lines| - i
  {
    if i < |lines| {
      LoopStep(lines, i);
      if Dispatch(lines[i]) != Exit {
        LoopDispatchesLines(lines, i + 1);
        var command, rest := Dispatch(lines[i]), Loop(lines, i + 1);
        var commands := [command] + rest;
        forall k | 1 <= k < |commands| ensures commands[k] == Dispatch(lines[i + k]) {
          assert commands[k] == rest[k - 1];
          assert i + k == (i + 1) + (k - 1);
        }
      }
    }
  }

  lemma {:induction false} LoopGoesOnPastNonExit(lines: seq<string>, i: nat)
    ensures var commands := Loop(lines, i);
            forall k :: 0 <= k < |commands| - 1 ==> commands[k] != Exit
    decreases |lines| - i
  {
    if i < |lines| {
      LoopStep(lines, i);
      if Dispatch(lines[i]) != Exit {
        LoopGoesOnPastNonExit(lines, i + 1);
        var rest := Loop(lines, i + 1);
        var commands := [Dispatch(lines[i])] + rest;
        forall k | 1 <= k < |commands| - 1 ensures commands[k] != Exit {
          assert 0 <= k - 1 < |rest| - 1;
          assert commands[k] == rest[k - 1];
        }
      }
    }
  }

  /** The loop as written agrees with the intended one while input lasts:
      when some line says "exit" they run the same commands; when none
      does, the loop as written goes on running [""] batches after the
      last line, for as many rounds as it is given. */
  lemma {:induction false} LoopAsWrittenAfterInput(lines: seq<string>, i: nat, fuel: nat)
    requires fuel >= |Loop(lines, i)|
    ensures var intended := Loop(lines, i);
            if intended != [] && intended[|intended| - 1] == Exit
            then LoopAsWritten(lines, i, fuel) == intended
            else LoopAsWritten(lines, i, fuel) == intended + seq(fuel - |intended|, k => Scan([""]))
    decreases |lines| - i
  {
    if i >= |lines| {
      ClosedInputNeverExits(lines, i, fuel);
    } else {
      var command := Dispatch(lines[i]);
      if command != Exit {
        LoopAsWrittenAfterInput(lines, i + 1, fuel - 1);
        var rest := Loop(lines, i + 1);
        assert Loop(lines, i) == [command] + rest;
        if rest != [] {
          assert ([command] + rest)[|rest|] == rest[|rest| - 1];
        }
      }
    }
  }

  /** What a run appends to the log for the command read from line `k`. */
  function BatchLog(k: nat, command: Command, clock: nat -> string, canOpen: nat -> bool): string {
    if command.Scan? && canOpen(k) then LogRecord(clock(k), command.ipList) else ""
  }

  /** What a run of `commands` appends to the log: one record per batch,
      stamped by `clock` with the number of the line it came from, for the
      batches whose log file could be opened. */
  function RunLog(commands: seq<Command>, clock: nat -> string, canOpen: nat -> bool): string {
    if commands == [] then ""
    else
      var k := |commands| - 1;
      RunLog(commands[..k], clock, canOpen) + BatchLog(k, commands[k], clock, canOpen)
  }

  /** One round of the intended loop. */
  lemma LoopStep(lines: seq<string>, i: nat)
    requires i < |lines|
    ensures Dispatch(lines[i]) == Exit ==> Loop(lines, i) == [Exit]
    ensures Dispatch(lines[i]) != Exit ==> Loop(lines, i) == [Dispatch(lines[i])] + Loop(lines, i + 1)
  {
  }

  lemma RunLogSnoc(commands: seq<Command>, command: Command, clock: nat -> string, canOpen: nat -> bool)
    ensures RunLog(commands + [command], clock, canOpen)
            == RunLog(commands, clock, canOpen) + BatchLog(|commands|, command, clock, canOpen)
  {
    assert (commands + [command])[..|commands|] == commands;
  }

  /** Appending the record of one more command to a log that holds the
      records of the earlier ones gives the records of them all. */
  lemma RunLogStep(start: string, before: string, after: string, commands: seq<Command>,
                   command: Command, clock: nat -> string, canOpen: nat -> bool)
    requires before == start + RunLog(commands, clock, canOpen)
    requires after == before + BatchLog(|commands|, command, clock, canOpen)
    ensures after == start + RunLog(commands + [command], clock, canOpen)
  {
    RunLogSnoc(commands, command, clock, canOpen);
    AppendAssoc(start, RunLog(commands, clock, canOpen), BatchLog(|commands|, command, clock, canOpen));
  }

  /** One round of the loop for a command other than "exit": a batch is
      run and logged; "clear" and "help" only print. */
  method RunCommand(command: Command, k: nat, env: Env, clock: nat -> string, canOpen: nat -> bool, log: LogFile)
    requires command != Exit
    modifies log
    ensures log.text == old(log.text) + BatchLog(k, command, clock, canOpen)
  {
    if command.Scan? {
      var reports := RunTool(command.ipList, env, clock(k), log, canOpen(k));
    }
  }

  /** `main` with the end of input taken into account: read and dispatch
      lines until "exit" or the end of input; run every batch, each with
      its own clock reading and log file. */
  method Run(lines: seq<string>, env: Env, clock: nat -> string, canOpen: nat -> bool, log: LogFile)
    returns (commands: seq<Command>)
    modifies log
    ensures commands == Loop(lines, 0)
    ensures log.text == old(log.text) + RunLog(commands, clock, canOpen)
  {
    commands := [];
    var i := 0;
    while i < |lines|
      invariant 0 <= i <= |lines| && |commands| == i
      invariant Loop(lines, 0) == commands + Loop(lines, i)
      invariant log.text == old(log.text) + RunLog(commands, clock, canOpen)
    {
      var command := Dispatch(lines[i]);
      LoopStep(lines, i);
      ghost var before := log.text;
      if command == Exit {
        RunLogStep(old(log.text), before, before, commands, command, clock, canOpen);
        commands := commands + [command];
        return;
      }
      AppendAssoc(commands, [command], Loop(lines, i + 1));
      RunCommand(command, i, env, clock, canOpen, log);
      RunLogStep(old(log.text), before, log.text, commands, command, clock, canOpen);
      commands := commands + [command];
      i := i + 1;
    }
  }
}
