/** One batch of addresses typed at the prompt: every token is trimmed,
    validated, looked up and, when both succeed, its host is port-scanned;
    once every token is done, the batch is logged. The address parser,
    the metadata service, the resolver and the network are parameters. */
module Session {
  import opened Strings
  import opened Prober
  import opened Scanner
  import opened ScanLog
  import opened Sync

  /** The range every session scans. */
  const DefaultStartPort := 1
  const DefaultEndPort := 1024

  /** What the reverse lookup shows when the resolver fails. */
  const NotAvailable := "N/A"

  /** The metadata record the lookup service returns for an address. */
  datatype IpInfo = IpInfo(
    ip: string, hostname: string, city: string, region: string, country: string,
    location: string, org: string, timezone: string, postal: string)

  /** `ipinfo.FetchIPInfo`: the record, or an error of any kind. */
  datatype FetchResult = Fetched(info: IpInfo) | FetchError

  /** `net.LookupAddr`: the names of an address, or an error. */
  datatype LookupResult = Names(names: seq<string>) | LookupError

  /** The world a batch runs in: `validateIP`, `ipinfo.FetchIPInfo`,
      `net.LookupAddr` and the dialler. */
  datatype Env = Env(
    validIp: string -> bool,
    fetch: string -> FetchResult,
    lookupAddr: string -> LookupResult,
    dial: string -> DialOutcome)

  /** `reverseDNSLookup(ip)`: "N/A" when the resolver fails, otherwise its
      names separated by ", ". */
  function ReverseDnsLookup(ip: string, lookupAddr: string -> LookupResult): (shown: string)
    ensures lookupAddr(ip).LookupError? ==> shown == NotAvailable
    ensures lookupAddr(ip).Names? && lookupAddr(ip).names == [] ==> shown == ""
    ensures lookupAddr(ip).Names? && |lookupAddr(ip).names| == 1 ==> shown == lookupAddr(ip).names[0]
  {
    match lookupAddr(ip)
    case LookupError => NotAvailable
    case Names(names) => Join(names, ", ")
  }

  /** The names shown can be read back: splitting the text at its commas
      gives the names in order, the first as it is and each later one with
      the blank that `", "` put before it, provided no name contains a
      comma; up to surrounding white space every piece is its name. */
  lemma ReverseDnsListsNames(ip: string, lookupAddr: string -> LookupResult)
    requires lookupAddr(ip).Names? && |lookupAddr(ip).names| >= 1
    requires forall k :: 0 <= k < |lookupAddr(ip).names| ==> ',' !in lookupAddr(ip).names[k]
    ensures var names, pieces := lookupAddr(ip).names, Split(ReverseDnsLookup(ip, lookupAddr), ',');
            && |pieces| == |names|
            && pieces[0] == names[0]
            && (forall k :: 1 <= k < |names| ==> pieces[k] == " " + names[k])
            && (forall k :: 0 <= k < |names| ==> TrimSpace(pieces[k]) == TrimSpace(names[k]))
  {
    var names := lookupAddr(ip).names;
    forall p | p in names ensures ',' !in p {
      var k :| 0 <= k < |names| && names[k] == p;
    }
    SplitCommaSpaceJoin(names);
  }

  /** How the session of one token ends. */
  datatype Report =
    | InvalidAddress(address: string)    // "Invalid IP address: %s"
    | InfoUnavailable(address: string)   // "Error fetching IP info for %s: %s"
    | Scanned(info: IpInfo, reverseDns: string, probes: seq<Event>)

  /** The goroutine `runTool` starts for one token: trim it, validate it,
      fetch its metadata, and scan the ports 1 to 1024 of the address the
      metadata names. */
  function SessionOf(token: string, env: Env): Report {
    var ip := TrimSpace(token);
    if !env.validIp(ip) then InvalidAddress(ip)
    else match env.fetch(ip)
      case FetchError => InfoUnavailable(ip)
      case Fetched(info) =>
        Scanned(info, ReverseDnsLookup(info.ip, env.lookupAddr),
                ScanTrace(info.ip, DefaultStartPort, DefaultEndPort, env.dial))
  }

  /** A session stops at an invalid token, then at a failed lookup, and
      scans exactly when both steps succeed; what it reports for a token
      it stops at is the trimmed token. */
  lemma SessionShortCircuits(token: string, env: Env)
    ensures var ip, r := TrimSpace(token), SessionOf(token, env);
            && (r.InvalidAddress? <==> !env.validIp(ip))
            && (r.InfoUnavailable? <==> env.validIp(ip) && env.fetch(ip).FetchError?)
            && (r.Scanned? <==> env.validIp(ip) && env.fetch(ip).Fetched?)
            && (r.InvalidAddress? || r.InfoUnavailable? ==> r.address == ip)
            && (r.Scanned? ==> r.info == env.fetch(ip).info)
  {
  }

  /** An invalid token makes no network call: its session is the same
      whatever the lookup service, the resolver and the network say. */
  lemma InvalidTokenTouchesNoNetwork(token: string, env: Env, other: Env)
    requires !env.validIp(TrimSpace(token)) && !other.validIp(TrimSpace(token))
    ensures SessionOf(token, env) == SessionOf(token, other)
  {
  }

  /** A token whose lookup fails is never scanned nor resolved: its session
      is the same whatever the resolver and the network say. */
  lemma FailedLookupScansNothing(token: string, env: Env, other: Env)
    requires var ip := TrimSpace(token);
             env.validIp(ip) && other.validIp(ip) && env.fetch(ip).FetchError? && other.fetch(ip).FetchError?
    ensures SessionOf(token, env) == SessionOf(token, other)
  {
  }

  /** Tokens that trim to the same text have the same session. */
  lemma SessionSeesTrimmedToken(a: string, b: string, env: Env)
    requires TrimSpace(a) == TrimSpace(b)
    ensures SessionOf(a, env) == SessionOf(b, env)
  {
  }

  /** White space around a token does not change its session. */
  lemma SessionIgnoresPadding(token: string, env: Env)
    ensures SessionOf(TrimSpace(token), env) == SessionOf(token, env)
  {
    TrimSpaceIdempotent(token);
    SessionSeesTrimmedToken(TrimSpace(token), token, env);
  }

  /** The scan of the default range probes every port from 1 to 1024
      once, in order, at the host's address, and returns every slot. */
  lemma DefaultScanCoversRange(ip: string, dial: string -> DialOutcome)
    ensures var t := ScanTrace(ip, DefaultStartPort, DefaultEndPort, dial);
            && DialedPorts(t) == Range(DefaultStartPort, DefaultEndPort)
            && |Range(DefaultStartPort, DefaultEndPort)| == 1024
            && (forall port, address :: Dial(port, address) in t ==> 1 <= port <= 1024 && address == Address(ip, port))
            && Held(t) == 0 && SlotDiscipline(t, MaxConcurrency)
  {
    var t := ScanTrace(ip, DefaultStartPort, DefaultEndPort, dial);
    ScanDialsEachPortOnce(ip, DefaultStartPort, DefaultEndPort, dial);
    ScanSlotDiscipline(ip, DefaultStartPort, DefaultEndPort, dial);
    forall port, address | Dial(port, address) in t
      ensures 1 <= port <= 1024 && address == Address(ip, port)
    {
      ScanDialsTheHost(ip, DefaultStartPort, DefaultEndPort, dial, port, address);
    }
  }

  /** A scanned session probes every port from 1 to 1024 once, in order,
      at the address the metadata names, and returns every slot. */
  lemma ScannedSessionCoversDefaultRange(token: string, env: Env)
    requires SessionOf(token, env).Scanned?
    ensures var r := SessionOf(token, env);
            && DialedPorts(r.probes) == Range(DefaultStartPort, DefaultEndPort)
            && (forall port, address :: Dial(port, address) in r.probes ==>
                  1 <= port <= 1024 && address == Address(r.info.ip, port))
            && Held(r.probes) == 0 && SlotDiscipline(r.probes, MaxConcurrency)
  {
    var r := SessionOf(token, env);
    DefaultScanCoversRange(r.info.ip, env.dial);
  }

  /** The goroutine body, with its early returns. */
  method HostSession(token: string, env: Env) returns (report: Report)
    ensures report == SessionOf(token, env)
  {
    var ip := TrimSpace(token);
    if !env.validIp(ip) {
      return InvalidAddress(ip);
    }
    var fetched := env.fetch(ip);
    if fetched.FetchError? {
      return InfoUnavailable(ip);
    }
    var info := fetched.info;
    var reverseDns := ReverseDnsLookup(info.ip, env.lookupAddr);
    var probes, launched := ScanPorts(info.ip, DefaultStartPort, DefaultEndPort, env.dial);
    report := Scanned(info, reverseDns, probes);
  }

  /** The reports of `session` for each token, in order. */
  function EachToken(ipList: seq<string>, session: string -> Report): (reports: seq<Report>)
    ensures |reports| == |ipList|
  {
    if ipList == [] then []
    else EachToken(ipList[..|ipList| - 1], session) + [session(ipList[|ipList| - 1])]
  }

  /** The k-th report is the report of the k-th token. */
  lemma {:induction false} EachTokenAt(ipList: seq<string>, session: string -> Report, k: nat)
    requires k < |ipList|
    ensures EachToken(ipList, session)[k] == session(ipList[k])
    decreases |ipList|
  {
    var init := ipList[..|ipList| - 1];
    if k < |ipList| - 1 {
      EachTokenAt(init, session, k);
      assert init[k] == ipList[k];
    }
  }

  lemma EachTokenSnoc(ipList: seq<string>, k: nat, session: string -> Report, reports: seq<Report>, report: Report)
    requires k < |ipList|
    requires reports == EachToken(ipList[..k], session) && report == session(ipList[k])
    ensures reports + [report] == EachToken(ipList[..k + 1], session)
  {
    assert ipList[..k + 1][..k] == ipList[..k];
  }

  /** The sessions of a batch, one per token, in the order typed. */
  function Sessions(ipList: seq<string>, env: Env): (reports: seq<Report>)
    ensures |reports| == |ipList|
  {
    EachToken(ipList, token => SessionOf(token, env))
  }

  /** The k-th report is the session of the k-th token. */
  lemma SessionsOfEachToken(ipList: seq<string>, env: Env, k: nat)
    requires k < |ipList|
    ensures Sessions(ipList, env)[k] == SessionOf(ipList[k], env)
  {
    EachTokenAt(ipList, token => SessionOf(token, env), k);
  }

  /** The loop of `runTool`: one session per token, each counted by the
      wait group, and the wait until all are done. */
  method RunSessions(ipList: seq<string>, env: Env) returns (reports: seq<Report>)
    ensures reports == Sessions(ipList, env)
  {
    var wg := new WaitGroup();
    var session := token => SessionOf(token, env);
    reports := [];
    for k := 0 to |ipList|
      invariant reports == EachToken(ipList[..k], session)
      invariant wg.count == 0
    {
      wg.Add();
      var report := HostSession(ipList[k], env);
      wg.Done();
      EachTokenSnoc(ipList, k, session, reports, report);
      reports := reports + [report];
    }
    assert ipList[..|ipList|] == ipList;
    wg.Wait();
  }

  /** `runTool(ipList)` at time `timestamp`: one session per token; once
      all are done, the batch, as typed, is appended to the log (when the
      log file can be opened). */
  method RunTool(ipList: seq<string>, env: Env, timestamp: string, log: LogFile, canOpen: bool)
    returns (reports: seq<Report>)
    modifies log
    ensures reports == Sessions(ipList, env)
    ensures log.text == if canOpen then old(log.text) + LogRecord(timestamp, ipList) else old(log.text)
  {
    reports := RunSessions(ipList, env);
    log.LogScanResults(timestamp, ipList, canOpen);
  }
}
