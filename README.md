# IP Info Tool — a verified model of its command loop and port scanner

The IP Info Tool is an interactive terminal program. It reads lines from
standard input. A line that spells `exit`, `clear` or `help` in any mix of
upper and lower case is a command. Every other line is a comma-separated
batch of addresses.

For each token of a batch the tool:
- trims the token and validates it as an IP address;
- fetches the host's metadata (hostname, location, organisation, ...);
- shows the host's reverse DNS names;
- scans the TCP ports 1 to 1024 of the address the metadata names.

At most 20 probes hold a slot of the scanner's semaphore at a time. For each
port the tool reports the port open, with its well-known service name, or
reports the dial error. For an open port it also shows the banner the peer sends
first, when the read succeeds. Once every token of the batch is done, the
batch is appended, as typed, to the scan log.

The model is split into modules that follow the program's parts:

| file | module | what it holds |
|---|---|---|
| `options.dfy` | `Options` | the `Option` datatype |
| `strings.dfy` | `Strings` | the parts of Go's `strings`/`fmt` the tool relies on: `TrimSpace`, `ToLower`, `Split`, `Join`, decimal formatting |
| `services.dfy` | `Services` | `identifyService`: the table of eleven well-known ports and the `"Unknown"` sentinel |
| `sync.dfy` | `Sync` | counter classes for the 20-slot semaphore channel and for `sync.WaitGroup` |
| `prober.dfy` | `Prober` | one port probe: the address, the banner, the events of the probe, slot accounting |
| `scanner.dfy` | `Scanner` | `scanPorts`: one probe per port of an inclusive range |
| `scanlog.dfy` | `ScanLog` | `logScanResults`: the exact text of a log record, the log file as a class, a parser that reads a record back |
| `session.dfy` | `Session` | `runTool` and the per-token session, `reverseDNSLookup` |
| `repl.dfy` | `Repl` | `main`'s read–dispatch loop, as written and as intended |

Everything outside the program is a parameter of the model:
- the address validator, the metadata service, the resolver and the dialler, bundled in `Session.Env`;
- the clock;
- whether the log file can be opened.

A dial is answered by a `DialOutcome`: either the dial failed, or it connected and the single read had an outcome.

Goroutines run one after another in launch order. A probe's output is a
trace of `Prober.Event`s. The trace records when the slot is taken, the dial,
the open-port report, the banner, the close, the dial error and when the
slot is given back.

Three behaviours of the code are worth stating plainly, and the model keeps them:
- A failed metadata lookup ends that token's session before any scan (cmd/main.go:87-91).
- The scanner does not check its range (cmd/main.go:126-131). An inverted range launches no probe and reports nothing.
- Per-port outcomes are printed as they happen (cmd/main.go:142-146); nothing collects them into a result set.

## Model

| member | source | states |
|---|---|---|
| Services.IdentifyService | cmd/main.go:155-174 | every port gets a non-empty service name |
| Services.TableHasElevenPorts | cmd/main.go:156-168 | the table lists exactly the ports 21, 22, 23, 25, 53, 80, 110, 443, 445, 3306 and 3389, eleven in all |
| Services.IdentifyKnownPorts | cmd/main.go:156-171 | each tabled port gets its own name, e.g. 445 is "Microsoft-DS" and 3389 is "RDP" |
| Services.UnknownExactlyOffTable | cmd/main.go:170-173 | the name is "Unknown" if and only if the port is not in the table |
| Services.IdentifyUntabledExamples | cmd/main.go:173 | ports 7 and 8080 are "Unknown" |
| Strings.TrimSpace | cmd/main.go:82 | definition of `strings.TrimSpace` for ASCII white space; its own contract: no white space at either end, never longer than the input |
| Strings.TrimSpaceIsSlice | cmd/main.go:82 | the trimmed token is a slice of the token with only white space cut from either side |
| Strings.TrimSpaceOfPadded | cmd/main.go:82 | white space around a core with no white space at its ends is exactly what is cut |
| Strings.TrimSpaceIdempotent | cmd/main.go:82 | trimming twice is trimming once |
| Strings.TrimSpaceOfTrimmed | cmd/main.go:82 | a token with no white space at either end is left as it is by the trim |
| Strings.ToLower | cmd/main.go:31 | definition of `strings.ToLower` on ASCII letters |
| Strings.ToLowerMatches | cmd/main.go:31 | lower-casing gives a lower-case word exactly when the input spells that word in some casing |
| Strings.Split | cmd/main.go:40 | definition of `strings.Split` with a one-character separator; its own contract: at least one piece |
| Strings.Join | cmd/main.go:123 | definition of `strings.Join` |
| Strings.SplitPieces | cmd/main.go:40 | splitting at a separator gives one more piece than separators, no piece holds it, and joining the pieces by it gives the input back |
| Strings.SplitWithoutSeparator | cmd/main.go:40 | a line without a comma is a batch of one token, the line itself |
| Strings.SplitJoin | cmd/main.go:40 | splitting the join of separator-free pieces gives the pieces back |
| Strings.SplitCommaSpaceJoin | cmd/main.go:123 | names joined by ", " split at the commas give exactly the names back, each after the first with the one blank ", " put before it; up to white space every piece is its name |
| Strings.JoinCommaSpace | cmd/main.go:123 | joining with ", " is joining with "," the names after the first each led by a blank |
| Strings.JoinLeadBlank | cmd/main.go:123 | a blank put before the first name ends up at the front of the joined text |
| Strings.FormatInt | cmd/main.go:138 | definition of `%d` for an `int`; its own contract: at least one character, each a digit or the minus sign |
| Strings.FormatIntRoundTrip | cmd/main.go:138 | the decimal text of a port reads back as the port |
| Prober.Address | cmd/main.go:138 | definition: `fmt.Sprintf("%s:%d", ip, port)` |
| Prober.AddressEndsWithPort | cmd/main.go:138 | the dialled address is the host, a colon and the port in decimal, and the port reads back from the text after the colon |
| Prober.ReadIntoBuffer | cmd/main.go:178-179 | the bytes read are a prefix of what the peer sent, cut to 1024 |
| Prober.ByteString | cmd/main.go:181 | `string(buf[:n])`: one character per byte, same length, same values |
| Prober.BannerGrab | cmd/main.go:176-183 | a banner is shown exactly when the read reports no error; it is at most 1024 characters and has no white space at either end |
| Prober.BannerIsTrimmedRead | cmd/main.go:181 | the banner shown is the bytes read with only surrounding white space cut |
| Prober.BannerOfPaddedGreeting | cmd/main.go:178-181 | a padded greeting that fits the buffer is shown without its padding |
| Prober.BannerHello | cmd/main.go:181 | the bytes "HELLO\n" are shown as "HELLO" |
| Prober.EventsOrder | cmd/main.go:135-147 | the slot is taken first, the dial is next and the slot is given back last; after a refusal only the error is reported; after a connection the open report comes first and the close last |
| Prober.ProbeOrder | cmd/main.go:133-148 | the same order stated for the dial outcome of the probed address |
| Prober.EventsReports | cmd/main.go:135-147 | the complete list of events of a probe for each attempt |
| Prober.ProbeReports | cmd/main.go:138-147 | a probe reports the port open with its tabled name and closes it exactly when the dial succeeds, the error exactly when it fails, and the banner BannerGrab computes exactly when the dial and the read succeed |
| Prober.HeldAppend | cmd/main.go:135-136 | the slots held after two runs of events add up |
| Prober.BracketedSlotDiscipline | cmd/main.go:135-136 | events that take one slot first, give it back last and touch the semaphore nowhere else hold at most one slot, at least one while dialling, and none at the end |
| Prober.ProbeSlotDiscipline | cmd/main.go:135-136 | every probe, refused or answered, dials holding a slot and gives its slot back |
| Prober.BracketedHoldsOne | cmd/main.go:135-136 | between taking its slot and giving it back, a probe holds exactly one slot |
| Prober.AttemptOf | cmd/main.go:140-143 | definition: a failed dial is refused; a connection is answered with the banner BannerGrab reads |
| Prober.ProbeEvents | cmd/main.go:133-148 | definition: the events of a probe for each attempt |
| Prober.ProbeTrace | cmd/main.go:133-148 | definition: the events of the probe of one port at the host, with the dial answered by the network |
| Prober.ProbeTraceCases | cmd/main.go:135-147 | the events of a probe whose dial fails, whose read fails and whose read succeeds, in order |
| Prober.Reports | cmd/main.go:141-147 | definition: the error report after a failed dial; otherwise the open-port report, the banner when the read succeeded, and the close |
| Prober.ReportsBetweenDialAndRelease | cmd/main.go:135-147 | a probe is its slot, its dial, its reports and its release, and the reports neither take nor give back a slot |
| Prober.ReportDial | cmd/main.go:141-147 | what the goroutine does after the dial returns is exactly the reports for that outcome |
| Prober.Recorded | cmd/main.go:135-136 | a step recorded as it is taken keeps the semaphore's count equal to its old count plus the slots of the events so far |
| Prober.QuietRecorded | cmd/main.go:141-147 | steps that touch no slot keep that equality |
| Prober.Probe | cmd/main.go:133-148 | the probe goroutine records each event as it takes the step; at every step the semaphore holds what it held before plus the slots of the events so far, one slot while it dials, and it gives the slot back only after the connection is closed; its events are exactly ProbeTrace |
| Sync.Semaphore.constructor | cmd/main.go:128 | a new semaphore of the given capacity holds no slot |
| Sync.Semaphore.Acquire | cmd/main.go:135 | a send takes one slot and is possible only while one is free |
| Sync.Semaphore.Release | cmd/main.go:136 | a receive gives one slot back |
| Sync.WaitGroup.Add | cmd/main.go:132 | one more probe is pending |
| Sync.WaitGroup.Done | cmd/main.go:134 | one fewer probe is pending |
| Sync.WaitGroup.constructor | cmd/main.go:74 | a new wait group counts nothing |
| Sync.WaitGroup.Wait | cmd/main.go:99 | returns only once every launched session or probe is done |
| Scanner.ScanTrace | cmd/main.go:131-149 | definition: the probes of the ports from start to end, in port order |
| Scanner.Range | cmd/main.go:131 | the ports from start to end inclusive, in increasing order, none for an inverted range |
| Scanner.DialedPortsAppend | cmd/main.go:131-149 | the ports dialled by two runs of events in a row are those of the first followed by those of the second |
| Scanner.ProbeDialsOnce | cmd/main.go:140 | a probe dials its own port, once |
| Scanner.ScanDialsEachPortOnce | cmd/main.go:131-149 | a scan dials every port of the range exactly once, in increasing order, and no other port |
| Scanner.ScanMembership | cmd/main.go:131-149 | every event of a scan belongs to the probe of a port in the range, and those probes contribute all their events |
| Scanner.ScanReportsOpenPorts | cmd/main.go:141-142 | a port is reported open, with its tabled name, exactly when it is in the range and its dial succeeds |
| Scanner.ScanReportsErrors | cmd/main.go:145-146 | a dial error is reported exactly for the ports in the range whose dial fails |
| Scanner.ScanReportsBanners | cmd/main.go:141-143 | a banner is shown exactly for the ports in the range whose dial and read succeed, and it is the trimmed text read |
| Scanner.ScanDialsTheHost | cmd/main.go:138-140 | every dial goes to the host's address at that port |
| Scanner.SlotDisciplineAppend | cmd/main.go:131-149 | running probes one after another keeps the slot discipline when each returns its slots |
| Scanner.HeldAfterReturned | cmd/main.go:131-149 | once the earlier probes have given back their slots, only the later probe's slots are held |
| Scanner.HeldNeedsAcquire | cmd/main.go:135 | a slot is held only after some slot was taken |
| Scanner.DialAfterAcquire | cmd/main.go:135-140 | in a trace that keeps the slot discipline, every dial comes after some slot was taken |
| Scanner.ScanSlotDiscipline | cmd/main.go:131-151 | a whole scan dials holding a slot, holds at most one at a time here, and returns all of them |
| Scanner.SlotDisciplineWeaken | cmd/main.go:128 | a trace within one slot is within the 20 of the channel |
| Scanner.ScanPorts | cmd/main.go:126-153 | exactly endPort - startPort + 1 probes are launched, none for an inverted range; the ports are dialled once each, in order; the slots held stay between 0 and 20, and all are back after the wait |
| ScanLog.Header | cmd/main.go:202-203 | definition: `Scan results at <timestamp>:` and a newline |
| ScanLog.EntryLine | cmd/main.go:206 | definition: `- <entry>` and a newline |
| ScanLog.Entries | cmd/main.go:205-207 | definition: one entry line per entry, in order |
| ScanLog.LogRecord | cmd/main.go:202-208 | definition: the header, the entry lines and an empty line |
| ScanLog.EntriesSnoc | cmd/main.go:205-207 | writing one more entry adds its line at the end |
| ScanLog.EntryTextHasNoNewline | cmd/main.go:206 | an entry line without a newline in the entry holds none |
| ScanLog.JoinEntries | cmd/main.go:205-208 | the entry lines are the entry texts each ended by a newline |
| ScanLog.ParseRecordLines | cmd/main.go:202-208 | the lines a record is made of read back as its timestamp and entries |
| ScanLog.RecordLines | cmd/main.go:202-208 | a record is the header line, one line per entry and an empty line |
| ScanLog.RecordRoundTrip | cmd/main.go:202-208 | a record reads back as the timestamp and the untrimmed entries it was written from, when none holds a newline |
| ScanLog.LogFile.LogScanResults | cmd/main.go:185-209 | the file gains exactly the record "Scan results at <ts>:", one "- <entry>" line per entry in order and an empty line; nothing when the file cannot be opened |
| Session.ReverseDnsLookup | cmd/main.go:118-124 | "N/A" when the resolver fails, the empty string for no names, the name itself for one; for more names the exact text is pinned by Session.ReverseDnsListsNames |
| Session.ReverseDnsListsNames | cmd/main.go:123 | split at its commas, the text shown is the resolver's names in order, the first as it is and each later one behind exactly one blank, when none holds a comma |
| Session.SessionOf | cmd/main.go:80-96 | definition: the goroutine for one token, trim, validate, fetch, then resolve and scan ports 1 to 1024 |
| Session.SessionShortCircuits | cmd/main.go:82-95 | a session stops at an invalid token, then at a failed lookup, and scans exactly when both succeed; it reports the trimmed token where it stops |
| Session.InvalidTokenTouchesNoNetwork | cmd/main.go:83-86 | an invalid token's session does not depend on the metadata service, the resolver or the network |
| Session.FailedLookupScansNothing | cmd/main.go:87-91 | when the lookup fails, the session does not depend on the resolver or the network |
| Session.SessionSeesTrimmedToken | cmd/main.go:82 | tokens that trim to the same text have the same session |
| Session.SessionIgnoresPadding | cmd/main.go:82 | white space around a token does not change its session |
| Session.DefaultScanCoversRange | cmd/main.go:95 | the default scan dials the ports 1 to 1024 once each, in order, at the host's address, and returns every slot |
| Session.ScannedSessionCoversDefaultRange | cmd/main.go:94-95 | a scanned session scans 1 to 1024 at the address the metadata names |
| Session.HostSession | cmd/main.go:80-96 | the goroutine body, with its early returns, ends as SessionOf says |
| Session.Sessions | cmd/main.go:78-97 | one session per token of the batch |
| Session.SessionsOfEachToken | cmd/main.go:78-97 | the k-th session is the session of the k-th token |
| Session.EachToken | cmd/main.go:78-97 | one report per token |
| Session.EachTokenAt | cmd/main.go:78-97 | the k-th report is the report of the k-th token |
| Session.RunSessions | cmd/main.go:78-99 | the launch loop with its wait group yields the session of every token, in order, and waits with no session outstanding |
| Session.RunTool | cmd/main.go:73-103 | every token gets its session in order, and after the wait the batch as typed is appended to the log, when it opens |
| Repl.Dispatch | cmd/main.go:31-41 | definition: the switch on the lower-cased line, with the comma split of the line as it was typed for every other line |
| Repl.DispatchIsCaseInsensitive | cmd/main.go:31-39 | a line is exit, clear or help exactly when it spells that word in some casing, and a batch otherwise |
| Repl.DispatchSplitsOtherLines | cmd/main.go:39-41 | a batch is the line cut at every comma with nothing trimmed, one token more than commas |
| Repl.DispatchWordsInAnyCase | cmd/main.go:31-38 | "EXIT", "Clear" and "hElP" are commands |
| Repl.DispatchDoesNotTrim | cmd/main.go:31-41 | " exit" is a batch of one token, not the exit command |
| Repl.ReadLine | cmd/main.go:29-30 | definition: the next line while input lasts, the empty string after it ends |
| Repl.LoopAsWritten | cmd/main.go:27-43 | definition: the loop as written, for a given number of rounds; it ignores whether a line was read |
| Repl.ClosedInputNeverExits | cmd/main.go:27-30 | once input is closed, the loop as written runs the batch [""] every round and never stops |
| Repl.EmptyBatch | cmd/main.go:40-41 | that batch is rejected as invalid yet appends a record to the log each time |
| Repl.EmptyTokenIsInvalid | cmd/main.go:82-85 | an empty token, which no address parser accepts, is reported invalid as the empty address |
| Repl.EmptyRecord | cmd/main.go:102 | the record logged for the batch [""] is the header, the entry line "- " and the blank line |
| Repl.LoopAsWrittenAfterInput | cmd/main.go:27-43 | the loop as written runs the intended commands and stops with them when a line says exit; otherwise it runs [""] batches forever after the last line |
| Repl.Loop | cmd/main.go:27-43 | definition: the loop as intended, leaving at exit or at the end of input |
| Repl.LoopRunsLinesInOrder | cmd/main.go:27-43 | the intended loop dispatches the lines in order, one command per line, and stops right after the first exit or at the end of input |
| Repl.LoopEnds | cmd/main.go:27-43 | the intended loop reads no line past the input and ends with exit or at the end of input |
| Repl.LoopDispatchesLines | cmd/main.go:27-43 | the k-th command of the intended loop is the dispatch of the k-th line read |
| Repl.LoopGoesOnPastNonExit | cmd/main.go:31-34 | the intended loop goes on past every command but exit |
| Repl.LoopStep | cmd/main.go:27-43 | one round of the intended loop: exit ends it, anything else is followed by the rest of the input |
| Repl.BatchLog | cmd/main.go:39-41 | definition: the record a batch appends when the log file opens, nothing for the other commands |
| Repl.RunLog | cmd/main.go:27-43 | definition: the records of the batches run, in order |
| Repl.RunLogStep | cmd/main.go:41 | one more batch appends its record after the records of the earlier batches |
| Repl.RunCommand | cmd/main.go:35-41 | clear and help leave the log alone; a batch appends its record when the log opens |
| Repl.Run | cmd/main.go:19-44 | the commands run are those the intended loop dispatches, and the log gains one record per batch in order |

## Left out

- Concurrency: sessions and probes run one after another in launch order. Interleavings, the order of output lines across goroutines, and overlapping probes are not modelled. At most one slot is held at a time here; that is within the capacity of 20.
- Timeouts: the 2-second connect and read deadlines are folded into the dial and read outcomes, which are parameters. A timeout and a refusal are both a failed dial, as in the code.
- `validateIP` (`net.ParseIP`) is a parameter, `Env.validIp`; IP parsing is not modelled.
- pkg/ipinfo/ipinfo.go is not part of this model. `FetchIPInfo` is a parameter, `Env.fetch`, and so is `net.LookupAddr`. Nothing models the hostname fill in `FetchIPInfo`.
- Terminal output is not modelled: colours, the spinner, the ASCII art, `displayHelp`, `clearScreen` and `displayIPInfo`. The probe's prints are its events. The per-token prints are the `Session.Report` value, which the goroutine itself does not return.
- Filesystem: `os.Stat`, `os.Mkdir`, `os.OpenFile` and closing the file reduce to one flag, whether the file can be opened. Errors from `WriteString` and `Flush` are ignored by the code and are not modelled.
- `time.Now().Format`: the timestamp is a parameter, and in `Repl.Run` a clock indexed by line number.
- Unicode: `TrimSpace` and `ToLower` are ASCII-only here. Go also trims Unicode white space such as U+0085 and U+00A0, and lower-cases non-ASCII letters.
- `bufio.Scanner`: standard input is a sequence of lines. These are left out: splitting the bytes into lines (including dropping `\r`), the 64 KiB line limit and read errors.
- Strings are `seq<char>`; `string(buf[:n])` maps each byte to one character.
- Integer width: ports are unbounded integers. The code only scans 1 to 1024, where Go's `int` cannot overflow.

## Findings

| source | as written | input that shows it | evidently intended | confidence | as-written member | corrected member |
|---|---|---|---|---|---|---|
| cmd/main.go:27-30 | the loop ignores the result of `scanner.Scan()` and stops only at a line spelling "exit"; after end of input `scanner.Text()` is "" in every round | standard input closed (end of file, or Ctrl-D) before any line reading "exit" | leave the loop when `Scan()` returns false | not executed | Repl.ClosedInputNeverExits | Repl.Run |

After input is closed, each round dispatches the empty line as the batch [""]. `Repl.EmptyBatch`
shows what that batch does: its one token is rejected, and it still appends a record to the log. So the
program as written spins forever and grows the log on every round.

`Repl.LoopAsWritten` models the loop as written. The intended loop, `Repl.Loop`, also stops
at the end of input, and `Repl.Run` implements it. Its properties are proved in
`Repl.LoopRunsLinesInOrder`. `Repl.LoopAsWrittenAfterInput` relates the two loops.
