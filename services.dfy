/** The service classifier: a fixed table from well-known port numbers to
    service names. */
module Services {

  /** The well-known ports the classifier recognises, with their names. */
  const Table: map<int, string> := map[
    21 := "FTP",
    22 := "SSH",
    23 := "Telnet",
    25 := "SMTP",
    53 := "DNS",
    80 := "HTTP",
    110 := "POP3",
    443 := "HTTPS",
    445 := "Microsoft-DS",
    3306 := "MySQL",
    3389 := "RDP"
  ]

  /** The name shown for a port that is not in the table. */
  const UnknownService := "Unknown"

  /** The service name printed for an open port. */
  function IdentifyService(port: int): (name: string)
    ensures name != ""
  {
    if port in Table then Table[port] else UnknownService
  }

  /** The ports the table lists. */
  const TabledPorts: set<int> := {21, 22, 23, 25, 53, 80, 110, 443, 445, 3306, 3389}

  /** The table lists exactly eleven ports. */
  lemma TableHasElevenPorts()
    ensures Table.Keys == TabledPorts
    ensures |Table.Keys| == 11
  {
    var low: set<int> := {21, 22, 23, 25, 53, 80};
    var high: set<int> := {110, 443, 445, 3306, 3389};
    assert |low| == 6 && |high| == 5;
    assert low * high == {};
    assert TabledPorts == low + high;
  }

  /** Each tabled port gets its own name. */
  lemma IdentifyKnownPorts()
    ensures IdentifyService(21) == "FTP" && IdentifyService(22) == "SSH"
    ensures IdentifyService(23) == "Telnet" && IdentifyService(25) == "SMTP"
    ensures IdentifyService(53) == "DNS" && IdentifyService(80) == "HTTP"
    ensures IdentifyService(110) == "POP3" && IdentifyService(443) == "HTTPS"
    ensures IdentifyService(445) == "Microsoft-DS" && IdentifyService(3306) == "MySQL"
    ensures IdentifyService(3389) == "RDP"
  {
  }

  /** The sentinel comes back for exactly the ports outside the table:
      no tabled service is called "Unknown". */
  lemma UnknownExactlyOffTable(port: int)
    ensures IdentifyService(port) == UnknownService <==> port !in Table.Keys
  {
    if port in Table.Keys {
      assert Table[port] != UnknownService;
    }
  }

  /** Ports 7 and 8080 are not tabled. */
  lemma IdentifyUntabledExamples()
    ensures IdentifyService(7) == UnknownService
    ensures IdentifyService(8080) == UnknownService
  {
  }
}
