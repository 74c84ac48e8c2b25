/** The port scan of one host: one probe for every port of an inclusive
    range, at most MaxConcurrency of them holding a slot at a time, and a
    wait until every probe is done. Probes run one after another in port
    order here; the events of the whole scan are the probes' events in
    that order. */
module Scanner {
  import opened Services
  import opened Prober
  import opened Sync

  /** The capacity of the semaphore channel. */
  const MaxConcurrency := 20

  /** The events of a scan of the ports `lo` to `hi` inclusive. */
  function ScanTrace(ip: string, lo: int, hi: int, dial: string -> DialOutcome): seq<Event>
    decreases hi - lo
  {
    if hi < lo then [] else ScanTrace(ip, lo, hi - 1, dial) + ProbeTrace(ip, hi, dial)
  }

  /** The integers from `lo` to `hi` inclusive, in increasing order. */
  function Range(lo: int, hi: int): (r: seq<int>)
    ensures |r| == if hi < lo then 0 else hi - lo + 1
    ensures forall k :: 0 <= k < |r| ==> r[k] == lo + k
    decreases hi - lo
  {
    if hi < lo then [] else Range(lo, hi - 1) + [hi]
  }

  /** The ports dialled in `t`, in order. */
  function DialedPorts(t: seq<Event>): seq<int> {
    if t == [] then []
    else (if t[0].Dial? then [t[0].port] else []) + DialedPorts(t[1..])
  }

  lemma {:induction false} DialedPortsAppend(a: seq<Event>, b: seq<Event>)
    ensures DialedPorts(a + b) == DialedPorts(a) + DialedPorts(b)
    decreases |a|
  {
    if a == [] {
      assert a + b == b;
    } else {
      assert (a + b)[0] == a[0];
      assert (a + b)[1..] == a[1..] + b;
      DialedPortsAppend(a[1..], b);
    }
  }

  /** Each probe dials its own port, once. */
  lemma ProbeDialsOnce(ip: string, port: int, dial: string -> DialOutcome)
    ensures DialedPorts(ProbeTrace(ip, port, dial)) == [port]
  {
    var address := Address(ip, port);
    var t := ProbeTrace(ip, port, dial);
    ProbeOrder(ip, port, dial);
    assert t == [t[0], t[1]] + t[2..];
    DialedPortsAppend([t[0], t[1]], t[2..]);
    NoDialAfterSecond(t, 2);
  }

  lemma {:induction false} NoDialAfterSecond(t: seq<Event>, from: nat)
    requires from <= |t|
    requires forall i :: from <= i < |t| ==> !t[i].Dial?
    ensures DialedPorts(t[from..]) == []
    decreases |t| - from
  {
    if from < |t| {
      assert t[from..][1..] == t[from + 1..];
      NoDialAfterSecond(t, from + 1);
    }
  }

  /** A scan dials every port of the range exactly once, in increasing
      order, and no other port; an inverted range dials nothing. */
  lemma {:induction false} ScanDialsEachPortOnce(ip: string, lo: int, hi: int, dial: string -> DialOutcome)
    ensures DialedPorts(ScanTrace(ip, lo, hi, dial)) == Range(lo, hi)
    decreases hi - lo
  {
    if hi >= lo {
      ScanDialsEachPortOnce(ip, lo, hi - 1, dial);
      DialedPortsAppend(ScanTrace(ip, lo, hi - 1, dial), ProbeTrace(ip, hi, dial));
      ProbeDialsOnce(ip, hi, dial);
    }
  }

  /** Every event of a scan belongs to the probe of a port in the range;
      the probes of the range contribute all their events. */
  lemma {:induction false} ScanMembership(ip: string, lo: int, hi: int, dial: string -> DialOutcome, e: Event)
    ensures e in ScanTrace(ip, lo, hi, dial) <==> lo <= e.port <= hi && e in ProbeTrace(ip, e.port, dial)
    decreases hi - lo
  {
    if hi >= lo {
      ScanMembership(ip, lo, hi - 1, dial, e);
      ProbeReports(ip, hi, dial, e);
    }
  }

  /** A port is reported open, with its tabled service name, exactly when
      it lies in the range and its dial succeeds. */
  lemma ScanReportsOpenPorts(ip: string, lo: int, hi: int, dial: string -> DialOutcome, port: int, service: string)
    ensures Open(port, service) in ScanTrace(ip, lo, hi, dial) <==>
            lo <= port <= hi && dial(Address(ip, port)).Connected? && service == IdentifyService(port)
  {
    ScanMembership(ip, lo, hi, dial, Open(port, service));
    ProbeReports(ip, port, dial, Open(port, service));
  }

  /** A dial error is reported exactly for the ports of the range whose
      dial fails. */
  lemma ScanReportsErrors(ip: string, lo: int, hi: int, dial: string -> DialOutcome, port: int)
    ensures DialError(port) in ScanTrace(ip, lo, hi, dial) <==>
            lo <= port <= hi && dial(Address(ip, port)).DialFailed?
  {
    ScanMembership(ip, lo, hi, dial, DialError(port));
    ProbeReports(ip, port, dial, DialError(port));
  }

  /** A banner is shown exactly for the ports of the range whose dial and
      read both succeed, and it is the trimmed text read. */
  lemma ScanReportsBanners(ip: string, lo: int, hi: int, dial: string -> DialOutcome, port: int, text: string)
    ensures Banner(port, text) in ScanTrace(ip, lo, hi, dial) <==>
            && lo <= port <= hi
            && var outcome := dial(Address(ip, port));
               outcome.Connected? && !outcome.read.failed && text == BannerGrab(outcome.read).value
  {
    ScanMembership(ip, lo, hi, dial, Banner(port, text));
    ProbeReports(ip, port, dial, Banner(port, text));
  }

  /** Every dial of a scan is made to the host's address at that port. */
  lemma ScanDialsTheHost(ip: string, lo: int, hi: int, dial: string -> DialOutcome, port: int, address: string)
    ensures Dial(port, address) in ScanTrace(ip, lo, hi, dial) <==> lo <= port <= hi && address == Address(ip, port)
  {
    ScanMembership(ip, lo, hi, dial, Dial(port, address));
    ProbeReports(ip, port, dial, Dial(port, address));
  }

  /** Running `b` after `a`, which ends with every slot returned, keeps the
      discipline and the final count of `b`. */
  lemma SlotDisciplineAppend(a: seq<Event>, b: seq<Event>, cap: int)
    requires SlotDiscipline(a, cap) && Held(a) == 0
    requires SlotDiscipline(b, cap)
    ensures SlotDiscipline(a + b, cap)
    ensures Held(a + b) == Held(b)
  {
    var t := a + b;
    HeldAppend(a, b);
    forall k | 0 <= k <= |t| ensures 0 <= Held(t[..k]) <= cap {
      if k <= |a| {
        assert t[..k] == a[..k];
      } else {
        HeldAfterReturned(a, b, k);
      }
    }
    forall i | 0 <= i < |t| && t[i].Dial? ensures Held(t[..i]) >= 1 {
      if i < |a| {
        assert t[..i] == a[..i] && t[i] == a[i];
      } else {
        HeldAfterReturned(a, b, i);
        assert t[i] == b[i - |a|];
      }
    }
  }

  /** Once `a` has returned every slot, a prefix reaching into `b` holds
      what the part of `b` in it holds. */
  lemma HeldAfterReturned(a: seq<Event>, b: seq<Event>, k: nat)
    requires Held(a) == 0 && |a| <= k <= |a| + |b|
    ensures Held((a + b)[..k]) == Held(b[..k - |a|])
  {
    assert (a + b)[..k] == a + b[..k - |a|];
    HeldAppend(a, b[..k - |a|]);
  }

  /** Slots are held only after some slot was taken. */
  lemma {:induction false} HeldNeedsAcquire(t: seq<Event>)
    requires Held(t) >= 1
    ensures exists j :: 0 <= j < |t| && t[j].Acquire?
    decreases |t|
  {
    var init := t[..|t| - 1];
    if !t[|t| - 1].Acquire? {
      HeldNeedsAcquire(init);
      var j :| 0 <= j < |init| && init[j].Acquire?;
      assert t[j] == init[j];
    }
  }

  /** In a trace that keeps the discipline, every dial comes after a slot
      was taken. */
  lemma DialAfterAcquire(t: seq<Event>, cap: int)
    requires SlotDiscipline(t, cap)
    ensures forall i :: 0 <= i < |t| && t[i].Dial? ==> exists j :: 0 <= j < i && t[j].Acquire?
  {
    forall i | 0 <= i < |t| && t[i].Dial? ensures exists j :: 0 <= j < i && t[j].Acquire? {
      var before := t[..i];
      HeldNeedsAcquire(before);
      var j :| 0 <= j < |before| && before[j].Acquire?;
      assert t[j] == before[j];
    }
  }

  /** Each probe of a scan runs with exactly one slot held, and all slots
      are back once the scan ends. */
  lemma {:induction false} ScanSlotDiscipline(ip: string, lo: int, hi: int, dial: string -> DialOutcome)
    ensures Held(ScanTrace(ip, lo, hi, dial)) == 0
    ensures SlotDiscipline(ScanTrace(ip, lo, hi, dial), 1)
    decreases hi - lo
  {
    if hi < lo {
      assert ScanTrace(ip, lo, hi, dial) == [];
      assert forall k :: 0 <= k <= 0 ==> ScanTrace(ip, lo, hi, dial)[..k] == [];
    } else {
      ScanSlotDiscipline(ip, lo, hi - 1, dial);
      ProbeSlotDiscipline(ip, hi, dial);
      SlotDisciplineAppend(ScanTrace(ip, lo, hi - 1, dial), ProbeTrace(ip, hi, dial), 1);
    }
  }

  /** A trace that keeps to one slot keeps to any larger capacity. */
  lemma SlotDisciplineWeaken(t: seq<Event>, cap: int, bigger: int)
    requires SlotDiscipline(t, cap) && cap <= bigger
    ensures SlotDiscipline(t, bigger)
  {
  }

  /** `scanPorts(ip, startPort, endPort)`: launches one probe per port from
      `startPort` up to `endPort`, each against the one semaphore of
      MaxConcurrency slots, and waits for them all. `launched` counts the
      probes started. */
  method ScanPorts(ip: string, startPort: int, endPort: int, dial: string -> DialOutcome)
    returns (events: seq<Event>, launched: nat)
    ensures events == ScanTrace(ip, startPort, endPort, dial)
    ensures launched == if endPort < startPort then 0 else endPort - startPort + 1
    ensures DialedPorts(events) == Range(startPort, endPort)
    ensures Held(events) == 0 && SlotDiscipline(events, MaxConcurrency)
  {
    var wg := new WaitGroup();
    var sem := new Semaphore(MaxConcurrency);
    events := [];
    launched := 0;
    var port := startPort;
    while port <= endPort
      invariant startPort <= port && (port <= endPort + 1 || port == startPort)
      invariant events == ScanTrace(ip, startPort, port - 1, dial)
      invariant launched == port - startPort
      invariant sem.Valid() && sem.capacity == MaxConcurrency && sem.held == 0
      invariant wg.count == 0
      decreases endPort - port
    {
      wg.Add();
      var probe := Probe(ip, port, dial, sem);
      wg.Done();
      events := events + probe;
      launched := launched + 1;
      port := port + 1;
    }
    wg.Wait();
    ScanDialsEachPortOnce(ip, startPort, endPort, dial);
    ScanSlotDiscipline(ip, startPort, endPort, dial);
    SlotDisciplineWeaken(events, 1, MaxConcurrency);
  }
}
