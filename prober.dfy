/** One port probe: take a concurrency slot, dial `ip:port`, and on success
    report the port open with its service name, try to read a banner once
    and close the connection; on failure report the error; in every case
    give the slot back. The network's answers are parameters. */
module Prober {
  import opened Options
  import opened Strings
  import opened Services
  import opened Sync

  newtype byte = x: int | 0 <= x < 256

  /** The size of the buffer a banner is read into. */
  const BufferSize := 1024

  /** What the one `Read` on the connection reports: the bytes the peer has
      made available to it, and whether it returned an error. */
  datatype ReadOutcome = ReadOutcome(available: seq<byte>, failed: bool)

  /** What `net.DialTimeout` reports for an address: an error (refusal and
      timeout alike), or a connection whose first read has the outcome
      given. */
  datatype DialOutcome = DialFailed | Connected(read: ReadOutcome)

  /** The address dialled, `fmt.Sprintf("%s:%d", ip, port)`. */
  function Address(ip: string, port: int): string {
    ip + ":" + FormatInt(port)
  }

  /** The port can be read back from the text behind the last colon. */
  lemma AddressEndsWithPort(ip: string, port: int)
    ensures |Address(ip, port)| > |ip| + 1
    ensures Address(ip, port)[..|ip|] == ip && Address(ip, port)[|ip|] == ':'
    ensures ':' !in Address(ip, port)[|ip| + 1..]
    ensures ParseInt(Address(ip, port)[|ip| + 1..]) == port
  {
    var a := Address(ip, port);
    assert a[|ip| + 1..] == FormatInt(port);
    FormatIntRoundTrip(port);
  }

  /** `buf[:n]` after one `Read` into a buffer of BufferSize bytes: the
      bytes available, cut to the buffer's size. */
  function ReadIntoBuffer(read: ReadOutcome): (chunk: seq<byte>)
    ensures chunk <= read.available
    ensures |chunk| == if |read.available| <= BufferSize then |read.available| else BufferSize
  {
    if |read.available| <= BufferSize then read.available else read.available[..BufferSize]
  }

  /** `string(b)`: one character per byte. */
  function ByteString(b: seq<byte>): (s: string)
    ensures |s| == |b|
    ensures forall i :: 0 <= i < |b| ==> s[i] as int == b[i] as int
  {
    seq(|b|, i requires 0 <= i < |b| => b[i] as int as char)
  }

  lemma ByteStringAppend(a: seq<byte>, b: seq<byte>)
    ensures ByteString(a + b) == ByteString(a) + ByteString(b)
  {
  }

  /** The banner `bannerGrab` shows, if any: only when the read succeeded,
      and then the text read with surrounding white space cut off. */
  function BannerGrab(read: ReadOutcome): (banner: Option<string>)
    ensures banner.Some? <==> !read.failed
    ensures banner.Some? ==> |banner.value| <= BufferSize && NoEdgeSpace(banner.value)
  {
    if read.failed then None else Some(TrimSpace(ByteString(ReadIntoBuffer(read))))
  }

  /** A banner shown is a slice of the bytes read into the buffer, with
      only white space cut from around it. */
  lemma BannerIsTrimmedRead(read: ReadOutcome)
    requires !read.failed
    ensures CutFrom(BannerGrab(read).value, ByteString(ReadIntoBuffer(read)))
  {
    TrimSpaceIsSlice(ByteString(ReadIntoBuffer(read)));
  }

  /** A greeting padded with white space, short enough for the buffer, is
      shown without its padding. */
  lemma BannerOfPaddedGreeting(pre: seq<byte>, greeting: seq<byte>, post: seq<byte>)
    requires |pre| + |greeting| + |post| <= BufferSize
    requires AllSpace(ByteString(pre)) && AllSpace(ByteString(post))
    requires NoEdgeSpace(ByteString(greeting))
    ensures BannerGrab(ReadOutcome(pre + greeting + post, false)) == Some(ByteString(greeting))
  {
    ByteStringAppend(pre + greeting, post);
    ByteStringAppend(pre, greeting);
    TrimSpaceOfPadded(ByteString(pre), ByteString(greeting), ByteString(post));
  }

  /** A listener that answers `HELLO\n` has the banner `HELLO`. */
  lemma BannerHello()
    ensures BannerGrab(ReadOutcome([72, 69, 76, 76, 79, 10], false)) == Some("HELLO")
  {
    var greeting: seq<byte> := [72, 69, 76, 76, 79];
    var newline: seq<byte> := [10];
    var text := ByteString(greeting);
    assert text[0] == 'H' && text[1] == 'E' && text[2] == 'L' && text[3] == 'L' && text[4] == 'O';
    assert text == "HELLO";
    assert ByteString(newline)[0] == '\n';
    var input: seq<byte> := [] + greeting + newline;
    assert input == [72, 69, 76, 76, 79, 10];
    BannerOfPaddedGreeting([], greeting, newline);
    assert BannerGrab(ReadOutcome(input, false)) == Some(text);
  }

  /** What a probe does and prints, in order. */
  datatype Event =
    | Acquire(port: int)                 // sem <- struct{}{}
    | Dial(port: int, address: string)   // net.DialTimeout("tcp", address, ...)
    | Open(port: int, service: string)   // "Port %d open on %s - Service: %s"
    | Banner(port: int, text: string)    // "Banner: %s"
    | Close(port: int)                   // conn.Close()
    | DialError(port: int)               // "Error connecting to %s:%d - %s"
    | Release(port: int)                 // <-sem, deferred

  /** What the network did for one probe: the dial failed, or it
      connected and the read yielded the banner given, if any. */
  datatype Attempt = Refused | Answered(banner: Option<string>)

  function AttemptOf(outcome: DialOutcome): Attempt {
    match outcome
    case DialFailed => Refused
    case Connected(read) => Answered(BannerGrab(read))
  }

  /** What a probe reports between its dial and the release of its slot,
      for the port `port` whose service name is `service`, when its dial
      and read went as `attempt` says. */
  function Reports(port: int, service: string, attempt: Attempt): seq<Event> {
    match attempt
    case Refused => [DialError(port)]
    case Answered(None) => [Open(port, service), Close(port)]
    case Answered(Some(text)) => [Open(port, service), Banner(port, text), Close(port)]
  }

  /** The events of a probe of `port` at `address` whose service name is
      `service` and whose dial and read went as `attempt` says. */
  function ProbeEvents(port: int, address: string, service: string, attempt: Attempt): seq<Event> {
    match attempt
    case Refused =>
      [Acquire(port), Dial(port, address), DialError(port), Release(port)]
    case Answered(None) =>
      [Acquire(port), Dial(port, address), Open(port, service), Close(port), Release(port)]
    case Answered(Some(text)) =>
      [Acquire(port), Dial(port, address), Open(port, service), Banner(port, text), Close(port), Release(port)]
  }

  /** Between the dial and the release a probe makes its reports, and they
      neither take nor give back a slot. */
  lemma ReportsBetweenDialAndRelease(port: int, address: string, service: string, attempt: Attempt)
    ensures ProbeEvents(port, address, service, attempt)
            == [Acquire(port), Dial(port, address)] + Reports(port, service, attempt) + [Release(port)]
    ensures forall i :: 0 <= i < |Reports(port, service, attempt)| ==> Quiet(Reports(port, service, attempt)[i])
  {
  }

  /** The whole probe of one port, with the dial answered by `dial`: take
      a slot, dial, report the error or report the port open, show the
      banner if the read succeeded and close; give the slot back. */
  function ProbeTrace(ip: string, port: int, dial: string -> DialOutcome): seq<Event> {
    ProbeEvents(port, Address(ip, port), IdentifyService(port), AttemptOf(dial(Address(ip, port))))
  }

  lemma EventsOrder(port: int, address: string, service: string, attempt: Attempt)
    ensures var t := ProbeEvents(port, address, service, attempt);
            && |t| >= 4 && t[0] == Acquire(port) && t[1] == Dial(port, address)
            && t[|t| - 1] == Release(port)
            && (forall i :: 0 < i < |t| - 1 ==> Quiet(t[i]))
            && (attempt.Refused? ==> |t| == 4 && t[2] == DialError(port))
            && (attempt.Answered? ==> t[2] == Open(port, service) && t[|t| - 2] == Close(port))
  {
  }

  /** A probe takes its slot before anything else, dials next, and gives
      the slot back last, whatever the dial's outcome; it touches the
      semaphore nowhere else. After a failed dial only the error is
      reported; after a successful one the port is reported open first and
      the connection closed last, so the banner read lies between them. */
  lemma ProbeOrder(ip: string, port: int, dial: string -> DialOutcome)
    ensures var t, outcome := ProbeTrace(ip, port, dial), dial(Address(ip, port));
            && |t| >= 4 && t[0] == Acquire(port) && t[1] == Dial(port, Address(ip, port))
            && t[|t| - 1] == Release(port)
            && (forall i :: 0 < i < |t| - 1 ==> Quiet(t[i]))
            && (outcome.DialFailed? ==> |t| == 4 && t[2] == DialError(port))
            && (outcome.Connected? ==> t[2] == Open(port, IdentifyService(port)) && t[|t| - 2] == Close(port))
  {
    var address := Address(ip, port);
    EventsOrder(port, address, IdentifyService(port), AttemptOf(dial(address)));
  }

  lemma EventsReports(port: int, address: string, service: string, attempt: Attempt, e: Event)
    ensures e in ProbeEvents(port, address, service, attempt) <==>
            || e == Acquire(port) || e == Dial(port, address) || e == Release(port)
            || (attempt.Refused? && e == DialError(port))
            || (attempt.Answered? && (e == Open(port, service) || e == Close(port)))
            || (attempt.Answered? && attempt.banner.Some? && e == Banner(port, attempt.banner.value))
  {
  }

  /** Everything a probe does or reports: it takes and gives back its
      slot and dials the port's address; the port is reported open, with
      its service name, and its connection closed exactly when the dial
      succeeded, and the dial error reported exactly when it failed; a
      banner is shown exactly when the dial and the read both succeeded,
      and it is the one BannerGrab computes. */
  lemma ProbeReports(ip: string, port: int, dial: string -> DialOutcome, e: Event)
    ensures var outcome := dial(Address(ip, port));
            e in ProbeTrace(ip, port, dial) <==>
            || e == Acquire(port) || e == Dial(port, Address(ip, port)) || e == Release(port)
            || (outcome.DialFailed? && e == DialError(port))
            || (outcome.Connected? && (e == Open(port, IdentifyService(port)) || e == Close(port)))
            || (outcome.Connected? && !outcome.read.failed && e == Banner(port, BannerGrab(outcome.read).value))
  {
    var address := Address(ip, port);
    EventsReports(port, address, IdentifyService(port), AttemptOf(dial(address)), e);
  }

  /** The change one event makes to the number of slots held. */
  function Delta(e: Event): int {
    if e.Acquire? then 1 else if e.Release? then -1 else 0
  }

  /** The number of slots held after the events of `t`. */
  function Held(t: seq<Event>): int {
    if t == [] then 0 else Held(t[..|t| - 1]) + Delta(t[|t| - 1])
  }

  lemma {:induction false} HeldAppend(a: seq<Event>, b: seq<Event>)
    ensures Held(a + b) == Held(a) + Held(b)
    decreases |b|
  {
    if b != [] {
      var b' := b[..|b| - 1];
      var ab := a + b;
      assert ab != [] && ab[|ab| - 1] == b[|b| - 1];
      assert ab[..|ab| - 1] == a + b';
      assert Held(ab) == Held(a + b') + Delta(b[|b| - 1]);
      HeldAppend(a, b');
    } else {
      assert a + b == a;
    }
  }

  /** `e` neither takes nor gives back a slot. */
  predicate Quiet(e: Event) {
    !e.Acquire? && !e.Release?
  }

  lemma {:induction false} HeldOfQuiet(t: seq<Event>, lo: nat, hi: nat)
    requires lo <= hi <= |t|
    requires forall i :: lo <= i < hi ==> Quiet(t[i])
    ensures Held(t[lo..hi]) == 0
    decreases hi - lo
  {
    if lo < hi {
      var s := t[lo..hi];
      assert s[..|s| - 1] == t[lo..hi - 1];
      assert s[|s| - 1] == t[hi - 1];
      HeldOfQuiet(t, lo, hi - 1);
    }
  }

  /** Between zero and `cap` slots are held at every point of `t`, and at
      least one whenever a dial is made. */
  ghost predicate SlotDiscipline(t: seq<Event>, cap: int) {
    && (forall k :: 0 <= k <= |t| ==> 0 <= Held(t[..k]) <= cap)
    && (forall i :: 0 <= i < |t| && t[i].Dial? ==> Held(t[..i]) >= 1)
  }

  /** A trace that takes one slot first, gives it back last and touches
      the semaphore nowhere in between keeps to one slot. */
  lemma BracketedSlotDiscipline(t: seq<Event>)
    requires |t| >= 2 && t[0].Acquire? && t[|t| - 1].Release?
    requires forall i :: 0 < i < |t| - 1 ==> Quiet(t[i])
    ensures Held(t) == 0
    ensures SlotDiscipline(t, 1)
  {
    BracketedHoldsOne(t, |t| - 1);
    assert Held(t) == Held(t[..|t| - 1]) + Delta(t[|t| - 1]);
    forall k | 0 <= k <= |t| ensures 0 <= Held(t[..k]) <= 1 {
      if k == 0 {
        assert t[..k] == [];
      } else if k == |t| {
        assert t[..k] == t;
      } else {
        BracketedHoldsOne(t, k);
      }
    }
    forall i | 0 <= i < |t| && t[i].Dial? ensures Held(t[..i]) >= 1 {
      BracketedHoldsOne(t, i);
    }
  }

  /** Inside the bracket exactly one slot is held. */
  lemma BracketedHoldsOne(t: seq<Event>, j: nat)
    requires |t| >= 2 && t[0].Acquire?
    requires forall i :: 0 < i < |t| - 1 ==> Quiet(t[i])
    requires 1 <= j < |t|
    ensures Held(t[..j]) == 1
  {
    var first := [t[0]];
    assert Held(first) == 1 by {
      assert first[..0] == [];
    }
    HeldOfQuiet(t, 1, j);
    assert t[..j] == first + t[1..j];
    HeldAppend(first, t[1..j]);
  }

  /** A probe holds one slot while it dials and returns it on every path. */
  lemma ProbeSlotDiscipline(ip: string, port: int, dial: string -> DialOutcome)
    ensures Held(ProbeTrace(ip, port, dial)) == 0
    ensures SlotDiscipline(ProbeTrace(ip, port, dial), 1)
  {
    ProbeOrder(ip, port, dial);
    BracketedSlotDiscipline(ProbeTrace(ip, port, dial));
  }

  /** The events of a probe, case by case. */
  lemma ProbeTraceCases(ip: string, port: int, dial: string -> DialOutcome)
    ensures var address, outcome := Address(ip, port), dial(Address(ip, port));
            && (outcome.DialFailed? ==>
                  ProbeTrace(ip, port, dial) == [Acquire(port), Dial(port, address), DialError(port), Release(port)])
            && (outcome.Connected? && BannerGrab(outcome.read).None? ==>
                  ProbeTrace(ip, port, dial)
                  == [Acquire(port), Dial(port, address), Open(port, IdentifyService(port)), Close(port), Release(port)])
            && (outcome.Connected? && BannerGrab(outcome.read).Some? ==>
                  ProbeTrace(ip, port, dial)
                  == [Acquire(port), Dial(port, address), Open(port, IdentifyService(port)),
                      Banner(port, BannerGrab(outcome.read).value), Close(port), Release(port)])
  {
  }

  /** One more event changes the slots held by its own delta. */
  lemma HeldSnoc(t: seq<Event>, e: Event)
    ensures Held(t + [e]) == Held(t) + Delta(e)
  {
    assert (t + [e])[..|t|] == t;
  }

  /** A semaphore that holds `base` slots plus those of `t`, and then takes
      the step of `e`, holds `base` slots plus those of `t + [e]`. */
  lemma Recorded(t: seq<Event>, e: Event, base: int, held: int)
    requires held == base + Held(t) + Delta(e)
    ensures held == base + Held(t + [e])
  {
    HeldSnoc(t, e);
  }

  /** Steps that take and give back no slot leave the count as it is. */
  lemma QuietRecorded(t: seq<Event>, quiet: seq<Event>, base: int, held: int)
    requires held == base + Held(t)
    requires forall i :: 0 <= i < |quiet| ==> Quiet(quiet[i])
    ensures held == base + Held(t + quiet)
  {
    HeldOfQuiet(quiet, 0, |quiet|);
    assert quiet[0..|quiet|] == quiet;
    HeldAppend(t, quiet);
  }

  /** What the goroutine does once the dial of `address` has returned
      `outcome`: report the error; or report the port open with its
      service name, show the banner if the read succeeded, and close the
      connection. None of it touches the semaphore. */
  method ReportDial(port: int, service: string, outcome: DialOutcome)
    returns (reported: seq<Event>)
    ensures reported == Reports(port, service, AttemptOf(outcome))
  {
    if outcome.DialFailed? {
      reported := [DialError(port)];
    } else {
      var banner := BannerGrab(outcome.read);
      if banner.Some? {
        reported := [Open(port, service), Banner(port, banner.value), Close(port)];
      } else {
        reported := [Open(port, service), Close(port)];
      }
    }
  }

  /** The probe as the goroutine runs it, against the semaphore `sem`: each
      event is recorded as its step is taken, and at every step the
      semaphore holds the slots it held before plus those the events so far
      hold, one while the probe dials. The deferred receive gives the slot
      back after the connection is closed. */
  method Probe(ip: string, port: int, dial: string -> DialOutcome, sem: Semaphore) returns (events: seq<Event>)
    requires sem.Valid() && sem.held < sem.capacity
    modifies sem
    ensures sem.Valid() && sem.held == old(sem.held) + Held(events) == old(sem.held)
    ensures events == ProbeTrace(ip, port, dial)
  {
    events := [];
    sem.Acquire();
    Recorded(events, Acquire(port), old(sem.held), sem.held);
    events := events + [Acquire(port)];
    var address := Address(ip, port);
    var service := IdentifyService(port);
    assert sem.held == old(sem.held) + Held(events) == old(sem.held) + 1;
    var outcome := dial(address);
    Recorded(events, Dial(port, address), old(sem.held), sem.held);
    events := events + [Dial(port, address)];
    assert events == [Acquire(port), Dial(port, address)];
    var reported := ReportDial(port, service, outcome);
    ReportsBetweenDialAndRelease(port, address, service, AttemptOf(outcome));
    QuietRecorded(events, reported, old(sem.held), sem.held);
    events := events + reported;
    sem.Release();
    Recorded(events, Release(port), old(sem.held), sem.held);
    events := events + [Release(port)];
  }
}
