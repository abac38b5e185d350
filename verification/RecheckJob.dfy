/** The explicit re-check: group the findings into targets, have them re-scanned, decide. What a
    resolved finding then means, end to end. */
module RecheckJob {
  import opened Wrappers
  import Contracts
  import opened Sorting
  import opened Text
  import opened VerificationContract
  import opened Rules
  import opened InjectionIds
  import opened Recheck
  import opened Verification

  predicate HasTarget(row: Row) {
    row.asset.Some? && row.asset.value != "" && row.port.Some?
  }

  function HostsIn(rows: seq<Row>): set<string> {
    set row | row in rows && HasTarget(row) :: row.asset.value
  }

  function PortsOn(rows: seq<Row>, host: string): set<int> {
    set row | row in rows && HasTarget(row) && row.asset.value == host :: row.port.value
  }

  function SortedHosts(hosts: set<string>): (r: seq<string>)
    ensures |r| == |hosts| && Sorted(r, StringLe)
    ensures forall h :: h in r <==> h in hosts
    ensures forall i, j :: 0 <= i < j < |r| ==> r[i] != r[j]
  {
    StringsAreOrdered();
    Ascending(hosts, StringLe)
  }

  function TargetFor(host: string, ports: set<int>): VerificationTarget {
    VerificationTarget(host, Ascending(ports, IntLe))
  }

  /** One target per host, in host order, with the ascending ports of that host's findings. */
  function TargetsOf(rows: seq<Row>): (targets: seq<VerificationTarget>) {
    TargetsFor(rows, SortedHosts(HostsIn(rows)))
  }

  function TargetsFor(rows: seq<Row>, hosts: seq<string>): (targets: seq<VerificationTarget>)
    ensures |targets| == |hosts|
    ensures forall i :: 0 <= i < |hosts| ==> targets[i] == TargetFor(hosts[i], PortsOn(rows, hosts[i]))
  {
    if hosts == [] then [] else
      var last := hosts[|hosts| - 1];
      TargetsFor(rows, hosts[..|hosts| - 1]) + [TargetFor(last, PortsOn(rows, last))]
  }

  lemma OneMoreRow(rows: seq<Row>, row: Row, host: string)
    ensures HostsIn(rows + [row]) == HostsIn(rows) + (if HasTarget(row) then {row.asset.value} else {})
    ensures PortsOn(rows + [row], host) == PortsOn(rows, host)
      + (if HasTarget(row) && row.asset.value == host then {row.port.value} else {})
  {
    assert forall r :: r in rows + [row] <==> r in rows || r == row;
  }

  function PortsAt(portsByHost: map<string, set<int>>, host: string): set<int> {
    if host in portsByHost then portsByHost[host] else {}
  }

  ghost predicate Groups(portsByHost: map<string, set<int>>, rows: seq<Row>) {
    && portsByHost.Keys == HostsIn(rows)
    && forall h :: PortsAt(portsByHost, h) == PortsOn(rows, h)
  }

  lemma GroupGrows(portsByHost: map<string, set<int>>, rows: seq<Row>, row: Row)
    requires Groups(portsByHost, rows)
    ensures !HasTarget(row) ==> Groups(portsByHost, rows + [row])
    ensures HasTarget(row) ==>
      var host := row.asset.value;
      Groups(portsByHost[host := PortsAt(portsByHost, host) + {row.port.value}], rows + [row])
  {
    forall h { OneMoreRow(rows, row, h); }
  }

  /** `ports_by_host.setdefault(asset, set()).add(port)`, row by row. */
  method GroupPorts(rows: seq<Row>) returns (portsByHost: map<string, set<int>>)
    ensures Groups(portsByHost, rows)
  {
    portsByHost := map[];
    for i := 0 to |rows|
      invariant Groups(portsByHost, rows[..i])
    {
      var row := rows[i];
      assert rows[..i + 1] == rows[..i] + [row];
      GroupGrows(portsByHost, rows[..i], row);
      if HasTarget(row) {
        var host := row.asset.value;
        portsByHost := portsByHost[host := PortsAt(portsByHost, host) + {row.port.value}];
      }
    }
    assert rows[..|rows|] == rows;
  }

  lemma OneMoreHost(rows: seq<Row>, hosts: seq<string>, i: nat, portsByHost: map<string, set<int>>)
    requires i < |hosts| && Groups(portsByHost, rows) && hosts[i] in portsByHost
    ensures TargetsFor(rows, hosts[..i + 1])
         == TargetsFor(rows, hosts[..i]) + [TargetFor(hosts[i], portsByHost[hosts[i]])]
  {
    var front := hosts[..i + 1];
    assert front[..i] == hosts[..i] && front[i] == hosts[i];
    assert PortsAt(portsByHost, hosts[i]) == PortsOn(rows, hosts[i]);
  }

  /** The dictionary of the source, then its sorted items. */
  method Targets(rows: seq<Row>) returns (targets: seq<VerificationTarget>)
    ensures targets == TargetsOf(rows)
  {
    var portsByHost := GroupPorts(rows);
    var hosts := SortedHosts(portsByHost.Keys);
    targets := [];
    for i := 0 to |hosts|
      invariant targets == TargetsFor(rows, hosts[..i])
    {
      assert hosts[i] in hosts;
      OneMoreHost(rows, hosts, i, portsByHost);
      targets := targets + [TargetFor(hosts[i], portsByHost[hosts[i]])];
    }
    assert hosts[..|hosts|] == hosts;
  }

  /** Exactly the ports of the findings are asked for: every finding that has a place to look is
      in one target, and no target asks for a port no finding has. */
  lemma TargetsAreTheFindings(rows: seq<Row>, host: string, port: int)
    ensures (exists row :: row in rows && HasTarget(row) && row.asset.value == host && row.port.value == port)
      <==> exists t :: t in TargetsOf(rows) && t.host == host && port in t.ports
  {
    var targets := TargetsOf(rows);
    if row :| row in rows && HasTarget(row) && row.asset.value == host && row.port.value == port {
      var hosts := SortedHosts(HostsIn(rows));
      assert host in hosts;
      var i :| 0 <= i < |hosts| && hosts[i] == host;
      assert targets[i] in targets && port in PortsOn(rows, host);
    }
  }

  // ----- what a fixed verdict proves -----

  /** The scan behind target i answered and was asked about the port. */
  ghost predicate WasChecked(targets: seq<VerificationTarget>, scanner: Scanner, i: nat, host: string,
                             port: int)
    requires Answers(scanner, targets)
  {
    && i < |Checked(targets)| && targets[i].host == host
    && ResultFor(scanner, i).Parsed? && HostIsUp(ResultFor(scanner, i).hosts, host)
    && port in ValidPorts(targets[i].ports)
  }

  /** A fixed verdict names a target whose scan answered, whose ports hold the finding's and whose
      scan did not produce its id. When the finding is TCP's and that target has at most sixty-four
      distinct valid ports, the finding's own place was scanned too; when it is not TCP's, never. */
  lemma FixedMeansChecked(row: Row, targets: seq<VerificationTarget>, scanner: Scanner, kb: Knowledge,
                          rt: Rules.Runtime, at: int)
    returns (i: nat)
    requires Answers(scanner, targets)
    ensures Decide(row, ReportOf(targets, scanner, kb, rt, at)) == Fixed ==>
      && row.asset.Some? && row.port.Some? && row.rawId.Words?
      && WasChecked(targets, scanner, i, row.asset.value, row.port.value)
      && !HasId(CandidatesOn(targets[i], ResultFor(scanner, i).hosts, kb, rt), row.rawId.text)
      && (IsTcp(row.protocol) && |ValidPorts(targets[i].ports)| <= MAX_PORTS_PER_TARGET ==>
            IsScanned(targets[i], row.protocol, row.port.value))
      && (!IsTcp(row.protocol) ==> !IsScanned(targets[i], row.protocol, row.port.value))
  {
    i := 0;
    var report := ReportOf(targets, scanner, kb, rt, at);
    if Decide(row, report) == Fixed {
      ResolvedExactlyWhenProven(row, report);
      i :| 0 <= i && report.IsFirstFor(row.asset.value, i) && report.coverage[i].scanOk
        && report.coverage[i].reachable && row.port.value in report.coverage[i].portsScanned;
      assert Checked(targets)[i] == targets[i];
      CoversExactly(targets[i], ResultFor(scanner, i), kb, rt, row.port.value);
      ReportObserves(targets, scanner, kb, rt, at, row.rawId.text);
      ScannedForTcpAlone(targets[i], row.protocol, row.port.value);
    }
  }

  lemma ScannedForTcpAlone(target: VerificationTarget, protocol: Option<string>, port: int)
    requires port in ValidPorts(target.ports)
    ensures IsTcp(protocol) && |ValidPorts(target.ports)| <= MAX_PORTS_PER_TARGET ==> IsScanned(target, protocol, port)
    ensures !IsTcp(protocol) ==> !IsScanned(target, protocol, port)
  {
  }

  /** A new finding there would be resolved although no command asked for its place. */
  ghost predicate IsFixedUnscanned(target: VerificationTarget, port: int, protocol: Option<string>,
                                   id: string, report: VerificationReport) {
    && Decide(FindingAt(target.host, port, protocol, id), report) == Fixed
    && !IsScanned(target, protocol, port)
  }

  lemma TargetIsFirst(targets: seq<VerificationTarget>, scanner: Scanner, kb: Knowledge,
                      rt: Rules.Runtime, at: int, i: nat)
    requires Answers(scanner, targets) && i < |Checked(targets)|
    requires forall j :: 0 <= j < i ==> targets[j].host != targets[i].host
    ensures ReportOf(targets, scanner, kb, rt, at).CoverageFor(targets[i].host)
         == Some(VerifyOne(targets[i], ResultFor(scanner, i), kb, rt).0)
  {
    var report := ReportOf(targets, scanner, kb, rt, at);
    forall j | 0 <= j <= i ensures report.coverage[j] == VerifyOne(targets[j], ResultFor(scanner, j), kb, rt).0 {
      assert Checked(targets)[j] == targets[j];
    }
    forall j | 0 <= j <= i ensures report.coverage[j].host == targets[j].host {
      CoversItsHost(targets[j], ResultFor(scanner, j), kb, rt);
    }
    FirstIsFound(report, targets[i].host, i);
  }

  lemma CoversItsHost(target: VerificationTarget, result: ScanResult, kb: Knowledge, rt: Rules.Runtime)
    ensures VerifyOne(target, result, kb, rt).0.host == target.host
  {
  }

  lemma FirstIsFound(report: VerificationReport, host: string, i: nat)
    requires report.IsFirstFor(host, i)
    ensures report.CoverageFor(host) == Some(report.coverage[i])
  {
    forall j | report.IsFirstFor(host, j) ensures j == i {
    }
  }

  /** Some port of the target is one the command does not ask for under the protocol. */
  ghost predicate HasBlindSpot(target: VerificationTarget, protocol: Option<string>) {
    || |ValidPorts(target.ports)| > MAX_PORTS_PER_TARGET
    || (!IsTcp(protocol) && ValidPorts(target.ports) != [])
  }

  /** Exactly there the promise fails: some place on a target's host can be resolved unscanned if and
      only if the target's scan answered, the id was not observed, and the target has more than
      sixty-four distinct valid ports, or any at all while the finding is not TCP's. */
  lemma FixedUnscannedExactly(targets: seq<VerificationTarget>, scanner: Scanner, kb: Knowledge,
                              rt: Rules.Runtime, at: int, i: nat, protocol: Option<string>, id: string)
    requires Answers(scanner, targets) && i < |Checked(targets)|
    requires targets[i].host != "" && id != ""
    requires forall j :: 0 <= j < i ==> targets[j].host != targets[i].host
    ensures var report := ReportOf(targets, scanner, kb, rt, at);
      (exists port :: IsFixedUnscanned(targets[i], port, protocol, id, report)) <==>
        && ResultFor(scanner, i).Parsed? && HostIsUp(ResultFor(scanner, i).hosts, targets[i].host)
        && id !in report.observedCandidateIds
        && HasBlindSpot(targets[i], protocol)
  {
    TargetIsFirst(targets, scanner, kb, rt, at, i);
    var report := ReportOf(targets, scanner, kb, rt, at);
    var proven := ResultFor(scanner, i).Parsed? && HostIsUp(ResultFor(scanner, i).hosts, targets[i].host)
      && id !in report.observedCandidateIds;
    forall port ensures Decide(FindingAt(targets[i].host, port, protocol, id), report) == Fixed
      <==> proven && port in ValidPorts(targets[i].ports)
    {
      FixedAt(targets[i], ResultFor(scanner, i), kb, rt, report, port, protocol, id);
    }
    SomePortIsUnscanned(targets[i], protocol, id, report, proven);
  }

  lemma SomePortIsUnscanned(target: VerificationTarget, protocol: Option<string>, id: string,
                            report: VerificationReport, proven: bool)
    requires forall port :: Decide(FindingAt(target.host, port, protocol, id), report) == Fixed <==>
      (proven && port in ValidPorts(target.ports))
    ensures (exists port :: IsFixedUnscanned(target, port, protocol, id, report))
      <==> proven && HasBlindSpot(target, protocol)
  {
    var valid := ValidPorts(target.ports);
    if proven && |valid| > MAX_PORTS_PER_TARGET {
      var p := UnscannedPort(target.ports);
      assert IsFixedUnscanned(target, p, protocol, id, report);
    } else if proven && !IsTcp(protocol) && valid != [] {
      assert IsFixedUnscanned(target, valid[0], protocol, id, report);
    }
    if port :| IsFixedUnscanned(target, port, protocol, id, report) {
      assert port in valid && !IsScanned(target, protocol, port);
    }
  }

  /** What the decision on such a finding comes down to: the protocol plays no part. */
  lemma FixedAt(target: VerificationTarget, result: ScanResult, kb: Knowledge, rt: Rules.Runtime,
                report: VerificationReport, port: int, protocol: Option<string>, id: string)
    requires target.host != "" && id != ""
    requires report.CoverageFor(target.host) == Some(VerifyOne(target, result, kb, rt).0)
    ensures Decide(FindingAt(target.host, port, protocol, id), report) == Fixed <==>
      && result.Parsed? && HostIsUp(result.hosts, target.host) && port in ValidPorts(target.ports)
      && id !in report.observedCandidateIds
  {
    CoversExactly(target, result, kb, rt, port);
  }

  // ----- a finding of a UDP scan -----

  const MAX_PROTOCOL: nat := 8

  /** The finding stored for a candidate; the fallback is the asset of the whole analysis. */
  function FindingOf(c: Candidate, fallback: Option<string>): Row {
    Row(New, if c.host != "" then Some(c.host) else fallback,
        if c.port.Some? then Some(c.port.value) else None,
        if c.protocol.Some? && c.protocol.value != "" then Some(Clipped(c.protocol.value)) else None,
        Words(c.id), None, [])
  }

  function Clipped(s: string): string {
    if |s| <= MAX_PROTOCOL then s else s[..MAX_PROTOCOL]
  }

  /** The host answers a TCP scan of the port, which is closed. */
  function ShutOverTcp(host: string, port: nat): ScanResult {
    Parsed([NmapHost(host, "", "up", [NmapService(port, TCP, "closed", "", "", "", "", [])])])
  }

  lemma ShutIsUnobserved(host: string, port: nat)
    ensures Observations(ShutOverTcp(host, port).hosts) == [] && HostIsUp(ShutOverTcp(host, port).hosts, host)
  {
    var h := ShutOverTcp(host, port).hosts[0];
    assert [h][..0] == [] && h.services[..0] == [];
    assert HostObservations(h, h.services) == [];
  }

  lemma NothingSeenNothingFires(asset: Option<string>, kb: Knowledge, rt: Rules.Runtime, id: string)
    ensures !HasId(Candidates([], asset, None, kb, rt), id)
  {
    IdsAreThoseThatFire([], asset, None, kb, rt, id);
  }

  /** One finding on one port is enough: whatever rule fires on a service that is not TCP's, the
      re-check of its finding scans the port number over TCP, finds it closed and resolves it,
      although nothing looked at the service. */
  lemma UdpFindingIsResolvedOverTcp(rule: Rule, o: Observation, kb: Knowledge, rt: Rules.Runtime, at: int)
    requires Fires(rule, o, kb) && o.host != "" && o.port.Some? && 1 <= o.port.value <= 65535
    requires !IsTcp(FindingOf(CandidateOf(rule, o, rt), None).protocol)
    ensures var row := FindingOf(CandidateOf(rule, o, rt), None);
      var target := VerificationTarget(o.host, [o.port.value]);
      && HasId(Candidates([o], None, None, kb, rt), row.rawId.text)
      && TargetsOf([row]) == [target] && !IsScanned(target, row.protocol, o.port.value)
      && Decide(row, ReportOf([target], Ran([ShutOverTcp(o.host, o.port.value)]), kb, rt, at)) == Fixed
  {
    var row, port := FindingOf(CandidateOf(rule, o, rt), None), o.port.value;
    IdsAreThoseThatFire([o], None, None, kb, rt, row.rawId.text);
    OneFindingOneTarget(row, o.host, port);
    assert row == FindingAt(o.host, port, row.protocol, row.rawId.text);
    ShutIsFixed(o.host, port, row.protocol, row.rawId.text, kb, rt, at);
  }

  lemma ShutIsFixed(host: string, port: nat, protocol: Option<string>, id: string, kb: Knowledge,
                    rt: Rules.Runtime, at: int)
    requires host != "" && id != "" && 1 <= port <= 65535
    ensures var report := ReportOf([VerificationTarget(host, [port])], Ran([ShutOverTcp(host, port)]), kb, rt, at);
      Decide(FindingAt(host, port, protocol, id), report) == Fixed
  {
    ShutIsUnobserved(host, port);
    NothingSeenIsFixed(VerificationTarget(host, [port]), ShutOverTcp(host, port), port, protocol, id, kb, rt, at);
  }

  lemma NothingSeenIsFixed(target: VerificationTarget, result: ScanResult, port: int, protocol: Option<string>,
                           id: string, kb: Knowledge, rt: Rules.Runtime, at: int)
    requires target.host != "" && id != "" && 1 <= port <= 65535 && port in target.ports
    requires result.Parsed? && Observations(result.hosts) == [] && HostIsUp(result.hosts, target.host)
    ensures Decide(FindingAt(target.host, port, protocol, id), ReportOf([target], Ran([result]), kb, rt, at)) == Fixed
  {
    ReportObserves([target], Ran([result]), kb, rt, at, id);
    NothingSeenNothingFires(Some(target.host), kb, rt, id);
    OneTarget(target, result, kb, rt, at, port, protocol, id);
  }

  /** Closed ports are asked for because their records are the only evidence that a port was
      examined, but no record is looked for: output that lists the host as up and no port of it, as
      of a scan that gave up on the host, resolves every finding of the target. */
  lemma FixedWithoutARecord(target: VerificationTarget, port: int, protocol: Option<string>, id: string,
                            kb: Knowledge, rt: Rules.Runtime, at: int)
    requires target.host != "" && id != "" && 1 <= port <= 65535 && port in target.ports
    ensures var result := Parsed([NmapHost(target.host, "", "up", [])]);
      Decide(FindingAt(target.host, port, protocol, id), ReportOf([target], Ran([result]), kb, rt, at)) == Fixed
  {
    var h := NmapHost(target.host, "", "up", []);
    assert [h][..0] == [] && HostObservations(h, []) == [];
    NothingSeenIsFixed(target, Parsed([h]), port, protocol, id, kb, rt, at);
  }

  lemma OneFindingOneTarget(row: Row, host: string, port: nat)
    requires HasTarget(row) && row.asset == Some(host) && row.port == Some(port as int)
    ensures TargetsOf([row]) == [VerificationTarget(host, [port])]
  {
    assert row in [row];
    assert HostsIn([row]) == {host} && PortsOn([row], host) == {port as int};
    OnlyHost(SortedHosts({host}), host);
    OnlyPort(port);
  }

  lemma OnlyHost(hosts: seq<string>, host: string)
    requires |hosts| == 1 && forall h :: h in hosts <==> h in {host}
    ensures hosts == [host]
  {
    assert hosts[0] in hosts;
  }

  lemma OnlyPort(port: int)
    ensures Ascending({port}, IntLe) == [port]
  {
    var ports := Ascending({port}, IntLe);
    assert ports[0] in ports;
  }

  /** The shipped rule for SNMP, an exposure that is UDP's. */
  const SNMP: RiskyService := RiskyService("snmp-exposed", ["snmp", "snmptrap"], [161, 162], Contracts.Medium)

  lemma SnmpIsResolvedOverTcp(host: string, kb: Knowledge, rt: Rules.Runtime, at: int)
    requires host != "" && Risky(SNMP) in Riskies(kb.risky)
    ensures var o := Observation(host, Some(161), Some("udp"), None, None, None, None, [], [], None, None, None);
      var row, target := FindingOf(CandidateOf(Risky(SNMP), o, rt), None), VerificationTarget(host, [161]);
      && Fires(Risky(SNMP), o, kb) && TargetsOf([row]) == [target] && !IsScanned(target, row.protocol, 161)
      && Decide(row, ReportOf([target], Ran([ShutOverTcp(host, 161)]), kb, rt, at)) == Fixed
  {
    var o := Observation(host, Some(161), Some("udp"), None, None, None, None, [], [], None, None, None);
    assert 161 in SNMP.ports;
    assert Risky(SNMP) in RulesFor(o, kb);
    UdpFindingIsResolvedOverTcp(Risky(SNMP), o, kb, rt, at);
  }

  // ----- a fact that still fires -----

  /** What a finding was made from: a rule firing on an observation, or instruction-like text on a
      host, noted at a port. */
  datatype Fact = OfRule(rule: Rule, on: Observation) | OfText(host: string, port: Option<nat>)

  function FactId(f: Fact, rt: Rules.Runtime): string {
    match f
    case OfRule(rule, on) => CandidateOf(rule, on, rt).id
    case OfText(host, port) => InjectionId(host, port, rt)
  }

  /** A rule of the same id fires at the same place, whatever else is read there and under whatever
      protocol; for text, the first observation of the host that carries any still stands at that port. */
  ghost predicate FiresAgain(f: Fact, observations: seq<Observation>, kb: Knowledge, rt: Rules.Runtime) {
    match f
    case OfRule(rule, on) =>
      exists again, o :: o in observations && Fires(again, o, kb) && IsSameFact(rule, on, again, o)
    case OfText(host, port) => IsFirstMark(observations, Mark(host, port), rt)
  }

  ghost predicate IsSameFact(rule: Rule, on: Observation, again: Rule, o: Observation) {
    && RuleIdOf(again) == RuleIdOf(rule) && o.host == on.host && o.port == on.port
    && DiscriminatorFor(rule, on) == DiscriminatorFor(again, o)
  }

  lemma FiringKeepsTheId(f: Fact, observations: seq<Observation>, asset: Option<string>,
                         kb: Knowledge, rt: Rules.Runtime)
    ensures FiresAgain(f, observations, kb, rt)
        ==> HasId(Candidates(observations, asset, None, kb, rt), FactId(f, rt))
  {
    if !FiresAgain(f, observations, kb, rt) { return; }
    match f
    case OfRule(rule, on) =>
      var again, o :| o in observations && Fires(again, o, kb) && IsSameFact(rule, on, again, o);
      FactKeepsItsId(rule, on, again, o, observations, asset, None, kb, rt);
    case OfText(host, port) =>
      StandingMarkIsThere(observations, asset, None, kb, rt, host, port);
  }

  /** A fact that still fires is never resolved, for every family of rules. The new scan may read
      another banner, product or version; the knowledge base may have moved; the digest may
      collide; the other targets may have failed. If the fact fires again in any parsed target's
      scan, the finding made from it stays as it was. */
  lemma StillFiringIsNeverResolved(row: Row, f: Fact, targets: seq<VerificationTarget>, scanner: Scanner,
                                   kb: Knowledge, rt: Rules.Runtime, at: int, i: nat)
    requires Answers(scanner, targets) && i < |Checked(targets)| && ResultFor(scanner, i).Parsed?
    ensures var report := ReportOf(targets, scanner, kb, rt, at);
      row.rawId == Words(FactId(f, rt)) && FiresAgain(f, Observations(ResultFor(scanner, i).hosts), kb, rt) ==>
        && row.rawId.text in report.observedCandidateIds
        && Decide(row, report) != Fixed && Applied(row, report, "").status == row.status
  {
    var hosts := ResultFor(scanner, i).hosts;
    if row.rawId != Words(FactId(f, rt)) || !FiresAgain(f, Observations(hosts), kb, rt) { return; }
    FiringKeepsTheId(f, Observations(hosts), Some(targets[i].host), kb, rt);
    ReportObserves(targets, scanner, kb, rt, at, row.rawId.text);
    assert HasId(CandidatesOn(targets[i], hosts, kb, rt), row.rawId.text);
    ResolvedExactlyWhenProven(row, ReportOf(targets, scanner, kb, rt, at));
  }

  /** Some parsed scan of the pass has its first text of the host at the port. */
  ghost predicate IsFirstTextAgain(targets: seq<VerificationTarget>, scanner: Scanner, host: string,
                                   port: Option<nat>, rt: Rules.Runtime)
    requires Answers(scanner, targets)
  {
    exists i :: 0 <= i < |Checked(targets)| && ResultFor(scanner, i).Parsed?
      && IsFirstMark(Observations(ResultFor(scanner, i).hosts), Mark(host, port), rt)
  }

  /** Something else in some parsed scan of the pass has the id made for the place. */
  ghost predicate IsSharedInPass(targets: seq<VerificationTarget>, scanner: Scanner, host: string,
                                 port: Option<nat>, kb: Knowledge, rt: Rules.Runtime)
    requires Answers(scanner, targets)
  {
    exists i :: 0 <= i < |Checked(targets)| && ResultFor(scanner, i).Parsed?
      && IsShared(Observations(ResultFor(scanner, i).hosts), Some(targets[i].host), None, kb, rt, host, port)
  }

  /** For a finding about text the condition is needed: it is resolved if and only if its port is
      covered, no scan of the pass has the first text of its host at that port, and nothing else in
      the pass shares its id. Whether the port itself still carries the text does not matter. */
  lemma TextIsResolvedExactly(row: Row, host: string, port: Option<nat>, targets: seq<VerificationTarget>,
                              scanner: Scanner, kb: Knowledge, rt: Rules.Runtime, at: int)
    requires Answers(scanner, targets) && row.rawId == Words(InjectionId(host, port, rt))
    ensures Decide(row, ReportOf(targets, scanner, kb, rt, at)) == Fixed
      <==> && IsCovered(row, ReportOf(targets, scanner, kb, rt, at))
           && !IsFirstTextAgain(targets, scanner, host, port, rt)
           && !IsSharedInPass(targets, scanner, host, port, kb, rt)
  {
    var report := ReportOf(targets, scanner, kb, rt, at);
    ResolvedExactlyWhenProven(row, report);
    TextIsObservedExactly(host, port, targets, scanner, kb, rt, at);
  }

  lemma TextIsObservedExactly(host: string, port: Option<nat>, targets: seq<VerificationTarget>,
                              scanner: Scanner, kb: Knowledge, rt: Rules.Runtime, at: int)
    requires Answers(scanner, targets)
    ensures InjectionId(host, port, rt) in ReportOf(targets, scanner, kb, rt, at).observedCandidateIds
      <==> || IsFirstTextAgain(targets, scanner, host, port, rt)
           || IsSharedInPass(targets, scanner, host, port, kb, rt)
  {
    var id := InjectionId(host, port, rt);
    ReportObserves(targets, scanner, kb, rt, at, id);
    forall i | 0 <= i < |Checked(targets)| && ResultFor(scanner, i).Parsed?
      ensures HasId(CandidatesOn(targets[i], ResultFor(scanner, i).hosts, kb, rt), id)
        <==> || IsFirstMark(Observations(ResultFor(scanner, i).hosts), Mark(host, port), rt)
             || IsShared(Observations(ResultFor(scanner, i).hosts), Some(targets[i].host), None, kb, rt, host, port)
    {
      var observations := Observations(ResultFor(scanner, i).hosts);
      InjectionIdIsThereExactly(observations, Some(targets[i].host), None, kb, rt, host, port);
    }
  }

  /** A host that answers with the same text on two ports. */
  function Chatty(host: string, text: string, p: nat, q: nat): NmapHost {
    NmapHost(host, "", "up", [OpenService(p, text), OpenService(q, text)])
  }

  function OpenService(port: nat, text: string): NmapService {
    NmapService(port, TCP, "open", "", text, "", "", [])
  }

  lemma ChattyIsObserved(host: string, text: string, p: nat, q: nat, rt: Rules.Runtime)
    requires text != "" && rt.detectsInjection(text)
    ensures var h := Chatty(host, text, p, q);
      var first, second := ObservationOf(h, OpenService(p, text)), ObservationOf(h, OpenService(q, text));
      && Observations([h]) == [first, second] && IsMarked(first, rt) && IsMarked(second, rt)
      && MarkOf(first) == Mark(host, Some(p)) && MarkOf(second) == Mark(host, Some(q))
  {
    var h := Chatty(host, text, p, q);
    var a, b := OpenService(p, text), OpenService(q, text);
    var first, second := ObservationOf(h, a), ObservationOf(h, b);
    assert h.services[..1] == [a] && [a][..0] == [] && [h][..0] == [];
    assert HostObservations(h, [a]) == [first];
    assert HostObservations(h, [a, b]) == [first, second];
    assert Untrusted(first)[2] == text && Untrusted(second)[2] == text;
  }

  /** The port that still carries the text is resolved when the same text now stands at another
      port first: for every host, text and pair of ports, unless something else in the scan shares
      the id. */
  lemma TextBehindAnotherPortIsResolved(host: string, text: string, p: nat, q: nat, kb: Knowledge,
                                        rt: Rules.Runtime, at: int)
    requires host != "" && p != q && 1 <= p <= 65535 && 1 <= q <= 65535
    requires text != "" && rt.detectsInjection(text)
    ensures var h := Chatty(host, text, p, q);
      && ObservationOf(h, OpenService(q, text)) in Observations([h])
      && IsMarked(ObservationOf(h, OpenService(q, text)), rt)
      && (Decide(FindingAt(host, q, None, InjectionId(host, Some(q), rt)),
                 ReportOf([VerificationTarget(host, [p, q])], Ran([Parsed([h])]), kb, rt, at)) == Fixed
          <==> !IsShared(Observations([h]), Some(host), None, kb, rt, host, Some(q)))
  {
    var target, result := VerificationTarget(host, [p, q]), Parsed([Chatty(host, text, p, q)]);
    ChattyIsObserved(host, text, p, q, rt);
    ChattyIsUp(host, text, p, q);
    OnlyFirstIsMarked(Observations(result.hosts), Mark(host, Some(q)), rt);
    LaterTextIsResolved(target, result, q, kb, rt, at);
  }

  lemma ChattyIsUp(host: string, text: string, p: nat, q: nat)
    ensures HostIsUp([Chatty(host, text, p, q)], host)
  {
  }

  lemma LaterTextIsResolved(target: VerificationTarget, result: ScanResult, port: nat, kb: Knowledge,
                            rt: Rules.Runtime, at: int)
    requires target.host != "" && 1 <= port <= 65535 && port in target.ports
    requires result.Parsed? && HostIsUp(result.hosts, target.host)
    requires !IsFirstMark(Observations(result.hosts), Mark(target.host, Some(port)), rt)
    ensures var id := InjectionId(target.host, Some(port), rt);
      Decide(FindingAt(target.host, port, None, id), ReportOf([target], Ran([result]), kb, rt, at)) == Fixed
      <==> !IsShared(Observations(result.hosts), Some(target.host), None, kb, rt, target.host, Some(port))
  {
    var id := InjectionId(target.host, Some(port), rt);
    OneScanObservesText(target, result, target.host, Some(port), kb, rt, at);
    TargetIsFirst([target], Ran([result]), kb, rt, at, 0);
    FixedAt(target, result, kb, rt, ReportOf([target], Ran([result]), kb, rt, at), port, None, id);
  }

  lemma OneScanObservesText(target: VerificationTarget, result: ScanResult, host: string, port: Option<nat>,
                            kb: Knowledge, rt: Rules.Runtime, at: int)
    requires result.Parsed?
    ensures InjectionId(host, port, rt) in ReportOf([target], Ran([result]), kb, rt, at).observedCandidateIds
      <==> || IsFirstMark(Observations(result.hosts), Mark(host, port), rt)
           || IsShared(Observations(result.hosts), Some(target.host), None, kb, rt, host, port)
  {
    ReportObserves([target], Ran([result]), kb, rt, at, InjectionId(host, port, rt));
    assert Checked([target]) == [target] && ResultFor(Ran([result]), 0) == result;
    InjectionIdIsThereExactly(Observations(result.hosts), Some(target.host), None, kb, rt, host, port);
  }

  /** With no rule in the way, that is whenever the digest tells the two ports apart. */
  lemma ChattySharesExactly(host: string, text: string, p: nat, q: nat, rt: Rules.Runtime)
    requires p != q && text != "" && rt.detectsInjection(text)
    ensures var observations := Observations([Chatty(host, text, p, q)]);
      IsShared(observations, Some(host), None, Knowledge([], [], []), rt, host, Some(q))
      <==> rt.digest(InjectionKey(host, Some(p))) == rt.digest(InjectionKey(host, Some(q)))
  {
    var observations := Observations([Chatty(host, text, p, q)]);
    var first, id := Mark(host, Some(p)), InjectionId(host, Some(q), rt);
    ChattyIsObserved(host, text, p, q, rt);
    assert IsFirstMarked(observations, 0, rt) && MarkStands(observations, Some(host), None, rt, first);
    if rt.digest(InjectionKey(host, Some(p))) == rt.digest(InjectionKey(host, Some(q))) {
      assert IsMarkId(observations, Some(host), None, rt, first, id);
    }
    if m :| m != Mark(host, Some(q)) && IsMarkId(observations, Some(host), None, rt, m, id) {
      assert m == first;
      UnprefixedDigest(rt, InjectionKey(host, Some(p)), InjectionKey(host, Some(q)));
    }
    assert !IsRuleId(observations, Knowledge([], [], []), rt, id);
  }

  /** A pass over one target that answered. */
  lemma OneTarget(target: VerificationTarget, result: ScanResult, kb: Knowledge, rt: Rules.Runtime, at: int,
                  port: int, protocol: Option<string>, id: string)
    requires target.host != "" && id != "" && result.Parsed?
    requires 1 <= port <= 65535 && port in target.ports
    ensures var report := ReportOf([target], Ran([result]), kb, rt, at);
      HostIsUp(result.hosts, target.host) && id !in report.observedCandidateIds ==>
        Decide(FindingAt(target.host, port, protocol, id), report) == Fixed
  {
    TargetIsFirst([target], Ran([result]), kb, rt, at, 0);
    FixedAt(target, result, kb, rt, ReportOf([target], Ran([result]), kb, rt, at), port, protocol, id);
  }

  lemma OnlyFirstIsMarked(observations: seq<Observation>, m: Mark, rt: Rules.Runtime)
    requires |observations| == 2 && observations[0].host == observations[1].host
    requires IsMarked(observations[0], rt) && MarkOf(observations[0]) != m
    ensures !IsFirstMark(observations, m, rt)
  {
  }
}
