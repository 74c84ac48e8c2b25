/** The scan log: after every batch of addresses, one record is appended to
    the log file, made of a header line with the time of the scan, one
    line per entry of the batch as typed (untrimmed, invalid ones
    included) and an empty line. */
module ScanLog {
  import opened Options
  import opened Strings

  const HeaderPrefix := "Scan results at "

  /** `fmt.Sprintf("Scan results at %s:\n", timestamp)` */
  function Header(timestamp: string): string {
    HeaderPrefix + timestamp + ":\n"
  }

  /** `fmt.Sprintf("- %s\n", ip)` */
  function EntryLine(ip: string): string {
    "- " + ip + "\n"
  }

  /** The entry lines of `ipList`, in order. */
  function Entries(ipList: seq<string>): string {
    if ipList == [] then "" else EntryLine(ipList[0]) + Entries(ipList[1..])
  }

  /** The whole text appended for one batch. */
  function LogRecord(timestamp: string, ipList: seq<string>): string {
    Header(timestamp) + Entries(ipList) + "\n"
  }

  lemma {:induction false} EntriesSnoc(ipList: seq<string>, ip: string)
    ensures Entries(ipList + [ip]) == Entries(ipList) + EntryLine(ip)
    decreases |ipList|
  {
    if ipList == [] {
      assert [] + [ip] == [ip];
      assert [ip][1..] == [];
    } else {
      assert (ipList + [ip])[1..] == ipList[1..] + [ip];
      EntriesSnoc(ipList[1..], ip);
    }
  }

  /** The lines of `Entries(ipList)`, newline removed. */
  function EntryTexts(ipList: seq<string>): (lines: seq<string>)
    ensures |lines| == |ipList|
    ensures forall k :: 0 <= k < |ipList| ==> lines[k] == "- " + ipList[k]
  {
    seq(|ipList|, k requires 0 <= k < |ipList| => "- " + ipList[k])
  }

  lemma EntryTextHasNoNewline(ip: string)
    requires '\n' !in ip
    ensures '\n' !in "- " + ip
  {
    var line := "- " + ip;
    assert forall i :: 2 <= i < |line| ==> line[i] == ip[i - 2];
  }

  /** The entry lines are the entry texts joined by newlines, with the
      newline that ends the last one leading into what follows. */
  lemma {:induction false} JoinEntries(ipList: seq<string>, rest: seq<string>)
    requires rest != []
    ensures Join(EntryTexts(ipList) + rest, "\n") == Entries(ipList) + Join(rest, "\n")
    decreases |ipList|
  {
    if ipList == [] {
      assert EntryTexts(ipList) + rest == rest;
    } else {
      var xs := EntryTexts(ipList) + rest;
      assert xs[0] == "- " + ipList[0];
      assert xs[1..] == EntryTexts(ipList[1..]) + rest;
      JoinEntries(ipList[1..], rest);
    }
  }

  /** What a log record says: the time of the scan and the entries of the
      batch. */
  datatype Batch = Batch(timestamp: string, entries: seq<string>)

  predicate HasPrefix(s: string, p: string) {
    |p| <= |s| && s[..|p|] == p
  }

  /** Reads a batch back from the lines of a record, or None when they are
      not laid out as one. */
  function ParseLines(lines: seq<string>): Option<Batch> {
    if |lines| < 3 || lines[|lines| - 2] != "" || lines[|lines| - 1] != "" then None
    else
      var head, body := lines[0], lines[1..|lines| - 2];
      if !(HasPrefix(head, HeaderPrefix) && |head| > |HeaderPrefix| && head[|head| - 1] == ':') then None
      else if !(forall k :: 0 <= k < |body| ==> HasPrefix(body[k], "- ")) then None
      else Some(Batch(head[|HeaderPrefix|..|head| - 1], seq(|body|, k requires 0 <= k < |body| => body[k][2..])))
  }

  /** Reads one record back from its text. */
  function ParseRecord(text: string): Option<Batch> {
    ParseLines(Split(text, '\n'))
  }

  /** The lines written for a batch read back as that batch. */
  lemma ParseRecordLines(timestamp: string, ipList: seq<string>)
    ensures ParseLines([HeaderPrefix + timestamp + ":"] + EntryTexts(ipList) + ["", ""]) == Some(Batch(timestamp, ipList))
  {
    var head := HeaderPrefix + timestamp + ":";
    var lines := [head] + EntryTexts(ipList) + ["", ""];
    assert lines[0] == head;
    assert head[..|HeaderPrefix|] == HeaderPrefix;
    assert head[|HeaderPrefix|..|head| - 1] == timestamp;
    var body := lines[1..|lines| - 2];
    assert body == EntryTexts(ipList);
    assert forall k :: 0 <= k < |body| ==> body[k][..2] == "- " && body[k][2..] == ipList[k];
    var entries := seq(|body|, k requires 0 <= k < |body| => body[k][2..]);
    assert entries == ipList;
  }

  /** The lines of a record: the header, one per entry, and the two empty
      pieces the final blank line leaves. */
  lemma RecordLines(timestamp: string, ipList: seq<string>)
    requires '\n' !in timestamp
    requires forall k :: 0 <= k < |ipList| ==> '\n' !in ipList[k]
    ensures Split(LogRecord(timestamp, ipList), '\n') == [HeaderPrefix + timestamp + ":"] + EntryTexts(ipList) + ["", ""]
  {
    var head := HeaderPrefix + timestamp + ":";
    assert '\n' !in head by {
      assert forall i :: |HeaderPrefix| <= i < |HeaderPrefix| + |timestamp| ==> head[i] == timestamp[i - |HeaderPrefix|];
    }
    var body := EntryTexts(ipList) + ["", ""];
    var lines := [head] + body;
    JoinEntries(ipList, ["", ""]);
    assert Join(["", ""], "\n") == "\n";
    assert lines[1..] == body;
    assert Join(lines, "\n") == head + "\n" + Join(body, "\n");
    assert Join(lines, "\n") == LogRecord(timestamp, ipList);
    forall p | p in lines ensures '\n' !in p {
      var k :| 0 <= k < |lines| && lines[k] == p;
      if 1 <= k <= |ipList| {
        EntryTextHasNoNewline(ipList[k - 1]);
      }
    }
    SplitJoin(lines, '\n');
  }

  /** A record reads back as the timestamp and the entries it was written
      from, provided none of them holds a newline. */
  lemma RecordRoundTrip(timestamp: string, ipList: seq<string>)
    requires '\n' !in timestamp
    requires forall k :: 0 <= k < |ipList| ==> '\n' !in ipList[k]
    ensures ParseRecord(LogRecord(timestamp, ipList)) == Some(Batch(timestamp, ipList))
  {
    RecordLines(timestamp, ipList);
    ParseRecordLines(timestamp, ipList);
  }

  /** The log file `logs/scan_results.log`, opened for appending. */
  class LogFile {
    var text: string

    constructor (text: string)
      ensures this.text == text
    {
      this.text := text;
    }

    /** `logScanResults(ipList)` at time `timestamp`: the record is built
        line by line in a write buffer that is flushed onto the end of the
        file; when the file cannot be opened nothing is written. */
    method LogScanResults(timestamp: string, ipList: seq<string>, canOpen: bool)
      modifies this
      ensures text == if canOpen then old(text) + LogRecord(timestamp, ipList) else old(text)
    {
      if !canOpen {
        return;
      }
      var buffer := Header(timestamp);
      for k := 0 to |ipList|
        invariant buffer == Header(timestamp) + Entries(ipList[..k])
        invariant text == old(text)
      {
        EntriesSnoc(ipList[..k], ipList[k]);
        assert ipList[..k + 1] == ipList[..k] + [ipList[k]];
        buffer := buffer + EntryLine(ipList[k]);
      }
      assert ipList[..|ipList|] == ipList;
      buffer := buffer + "\n";
      assert buffer == LogRecord(timestamp, ipList);
      text := text + buffer;
    }
  }
}
