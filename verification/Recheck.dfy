/** Re-scanning the targets of a verification pass, one tool call per target.

    The tool call is the environment: whatever it returns, including raising, is an input here.
    The question is what the resulting coverage claims. It claims every valid port of the target,
    whatever the protocol, while the command names at most sixty-four of them and scans TCP.
 */
module Recheck {
  import opened Wrappers
  import opened Contracts
  import opened Sorting
  import opened Sequences
  import opened VerificationContract
  import opened Rules

  const MAX_TARGETS: nat := 25
  const MAX_PORTS_PER_TARGET: nat := 64

  datatype NmapService = NmapService(port: nat, protocol: string, state: string, service: string,
                                     product: string, version: string, extraInfo: string,
                                     cpe: seq<string>)
  datatype NmapHost = NmapHost(ip: string, hostname: string, state: string,
                               services: seq<NmapService>)

  /** What one tool call came to. */
  datatype ScanResult =
    | Raised
    | Refused
    | Unparsed
    | Parsed(hosts: seq<NmapHost>)

  predicate IntLe(a: int, b: int) { a <= b }

  function ValidPorts(ports: seq<int>): (valid: seq<int>)
    ensures forall p :: p in valid <==> p in ports && 1 <= p <= 65535
  {
    Ascending(ValidSet(ports), IntLe)
  }

  function ValidSet(ports: seq<int>): set<int> {
    set p | p in ports && 1 <= p <= 65535
  }

  /** The ports the scanner is given; None leaves the tool to its default sweep. */
  function PortSpec(ports: seq<int>): Option<seq<int>> {
    var valid := ValidPorts(ports);
    var clipped := if |valid| <= MAX_PORTS_PER_TARGET then valid else valid[..MAX_PORTS_PER_TARGET];
    if clipped == [] then None else Some(clipped)
  }

  function Unavailable(target: VerificationTarget): HostCoverage {
    HostCoverage(target.host, false, false, [])
  }

  /** The first host that is the target decides; otherwise every host named must be up. */
  function HostIsUp(hosts: seq<NmapHost>, host: string): bool {
    NamedHostIsUp(hosts, host, 0)
  }

  function NamedHostIsUp(hosts: seq<NmapHost>, host: string, from: nat): bool
    requires from <= |hosts|
    decreases |hosts| - from
  {
    if from == |hosts| then hosts != [] && forall i :: 0 <= i < |hosts| ==> hosts[i].state != "down"
    else if hosts[from].ip == host || hosts[from].hostname == host then hosts[from].state != "down"
    else NamedHostIsUp(hosts, host, from + 1)
  }

  function NonEmpty(s: string): Option<string> { if s == "" then None else Some(s) }

  function ObservationOf(host: NmapHost, s: NmapService): Observation {
    Observation(host.ip, Some(s.port), NonEmpty(s.protocol), NonEmpty(s.service), NonEmpty(s.product),
                NonEmpty(s.version), NonEmpty(s.extraInfo), s.cpe, [], None, None, None)
  }

  function HostObservations(host: NmapHost, services: seq<NmapService>): seq<Observation> {
    if services == [] then [] else
      var last := services[|services| - 1];
      HostObservations(host, services[..|services| - 1])
        + (if last.state == "open" then [ObservationOf(host, last)] else [])
  }

  function Observations(hosts: seq<NmapHost>): seq<Observation> {
    if hosts == [] then [] else
      var last := hosts[|hosts| - 1];
      Observations(hosts[..|hosts| - 1]) + HostObservations(last, last.services)
  }

  function Ids(candidates: seq<Candidate>): (ids: seq<string>)
    ensures forall id :: id in ids <==> HasId(candidates, id)
  {
    var ids := seq(|candidates|, i requires 0 <= i < |candidates| => candidates[i].id);
    assert forall i :: 0 <= i < |candidates| ==> ids[i] == candidates[i].id;
    ids
  }

  function CandidatesOn(target: VerificationTarget, hosts: seq<NmapHost>, kb: Knowledge, rt: Runtime):
    seq<Candidate>
  {
    Candidates(Observations(hosts), Some(target.host), None, kb, rt)
  }

  /** One target: its coverage, and the candidate ids the rules produced from the fresh scan. */
  function VerifyOne(target: VerificationTarget, result: ScanResult, kb: Knowledge, rt: Runtime):
    (HostCoverage, seq<string>)
  {
    if !result.Parsed? then (Unavailable(target), []) else
      var reachable := HostIsUp(result.hosts, target.host);
      var ports := if reachable && PortSpec(target.ports).Some? then ValidPorts(target.ports) else [];
      (HostCoverage(target.host, true, reachable, ports), Ids(CandidatesOn(target, result.hosts, kb, rt)))
  }

  function Checked(targets: seq<VerificationTarget>): seq<VerificationTarget> {
    if |targets| <= MAX_TARGETS then targets else targets[..MAX_TARGETS]
  }

  /** What the tool server offered: no scanner at all, or one result per checked target. */
  datatype Scanner = NoScanner | Ran(results: seq<ScanResult>)

  ghost predicate Answers(scanner: Scanner, targets: seq<VerificationTarget>) {
    scanner.Ran? ==> |scanner.results| == |Checked(targets)|
  }

  function ResultFor(scanner: Scanner, i: nat): ScanResult
    requires scanner.Ran? ==> i < |scanner.results|
  {
    if scanner.NoScanner? then Refused else scanner.results[i]
  }

  function CoverageOf(checked: seq<VerificationTarget>, scanner: Scanner, kb: Knowledge, rt: Runtime):
    (coverage: seq<HostCoverage>)
    requires scanner.Ran? ==> |scanner.results| == |checked|
    ensures |coverage| == |checked|
    ensures forall i :: 0 <= i < |checked| ==>
      coverage[i] == VerifyOne(checked[i], ResultFor(scanner, i), kb, rt).0
  {
    seq(|checked|, i requires 0 <= i < |checked| =>
      VerifyOne(checked[i], ResultFor(scanner, i), kb, rt).0)
  }

  function IdsOf(checked: seq<VerificationTarget>, scanner: Scanner, kb: Knowledge, rt: Runtime):
    (ids: seq<seq<string>>)
    requires scanner.Ran? ==> |scanner.results| == |checked|
    ensures |ids| == |checked|
    ensures forall i :: 0 <= i < |checked| ==>
      ids[i] == VerifyOne(checked[i], ResultFor(scanner, i), kb, rt).1
  {
    seq(|checked|, i requires 0 <= i < |checked| =>
      VerifyOne(checked[i], ResultFor(scanner, i), kb, rt).1)
  }

  /** The report a pass returns. */
  function ReportOf(targets: seq<VerificationTarget>, scanner: Scanner, kb: Knowledge, rt: Runtime,
                    scannedAt: int): VerificationReport
    requires Answers(scanner, targets)
  {
    var checked := Checked(targets);
    VerificationReport(scannedAt, CoverageOf(checked, scanner, kb, rt),
                       Unique(Flatten(IdsOf(checked, scanner, kb, rt))))
  }

  /** The loop over the targets, folding each one's coverage and ids into the pass's. */
  method CheckTargets(checked: seq<VerificationTarget>, scanner: Scanner, kb: Knowledge, rt: Runtime)
    returns (coverage: seq<HostCoverage>, observed: seq<string>)
    requires scanner.Ran? ==> |scanner.results| == |checked|
    ensures coverage == CoverageOf(checked, scanner, kb, rt)
    ensures observed == Flatten(IdsOf(checked, scanner, kb, rt))
  {
    ghost var entries := CoverageOf(checked, scanner, kb, rt);
    ghost var ids := IdsOf(checked, scanner, kb, rt);
    coverage, observed := [], [];
    for i := 0 to |checked|
      invariant coverage == entries[..i]
      invariant observed == Flatten(ids[..i])
    {
      var outcome := VerifyOne(checked[i], ResultFor(scanner, i), kb, rt);
      coverage := coverage + [outcome.0];
      observed := observed + outcome.1;
      OneMoreEntry(entries, ids, i);
    }
    assert entries[..|checked|] == entries && ids[..|checked|] == ids;
  }

  lemma OneMoreEntry(entries: seq<HostCoverage>, ids: seq<seq<string>>, i: nat)
    requires i < |entries| == |ids|
    ensures entries[..i + 1] == entries[..i] + [entries[i]]
    ensures Flatten(ids[..i + 1]) == Flatten(ids[..i]) + ids[i]
  {
    assert ids[..i + 1] == ids[..i] + [ids[i]];
    OneMoreList(ids[..i], ids[i]);
  }

  /** The whole pass: clip the targets, check each, report. */
  method Verify(targets: seq<VerificationTarget>, scanner: Scanner, kb: Knowledge, rt: Runtime,
                scannedAt: int)
    returns (report: VerificationReport)
    requires Answers(scanner, targets)
    ensures report == ReportOf(targets, scanner, kb, rt, scannedAt)
  {
    var coverage, observed := CheckTargets(Checked(targets), scanner, kb, rt);
    report := VerificationReport(scannedAt, coverage, Unique(observed));
  }

  /** The report observes an id exactly when the rules produced it from some parsed target. */
  lemma ReportObserves(targets: seq<VerificationTarget>, scanner: Scanner, kb: Knowledge, rt: Runtime,
                       at: int, id: string)
    requires Answers(scanner, targets)
    ensures id in ReportOf(targets, scanner, kb, rt, at).observedCandidateIds
      <==> exists i :: 0 <= i < |Checked(targets)| && ResultFor(scanner, i).Parsed?
             && HasId(CandidatesOn(targets[i], ResultFor(scanner, i).hosts, kb, rt), id)
  {
    var checked := Checked(targets);
    var lists := IdsOf(checked, scanner, kb, rt);
    FlattenMembers(lists, id);
    forall i | 0 <= i < |checked|
      ensures id in lists[i] <==> (ResultFor(scanner, i).Parsed?
        && HasId(CandidatesOn(targets[i], ResultFor(scanner, i).hosts, kb, rt), id))
    {
      assert checked[i] == targets[i];
    }
  }

  // ----- what coverage is worth -----

  lemma CoversExactly(target: VerificationTarget, result: ScanResult, kb: Knowledge, rt: Runtime, port: int)
    ensures VerifyOne(target, result, kb, rt).0.Covers(Some(port))
      <==> result.Parsed? && HostIsUp(result.hosts, target.host) && port in ValidPorts(target.ports)
  {
  }

  /** A check is inconclusive when the call failed, the output was unreadable, the host did not
      answer or there was no valid port to name; and then, and only then, it covers nothing. */
  lemma CoversNothingExactlyWhenInconclusive(target: VerificationTarget, result: ScanResult,
                                             kb: Knowledge, rt: Runtime)
    ensures (forall port :: !VerifyOne(target, result, kb, rt).0.Covers(port))
      <==> || !result.Parsed? || !HostIsUp(result.hosts, target.host)
           || forall p :: p in target.ports ==> !(1 <= p <= 65535)
  {
    var valid := ValidPorts(target.ports);
    var coverage := VerifyOne(target, result, kb, rt).0;
    if result.Parsed? && HostIsUp(result.hosts, target.host) && valid != [] {
      assert coverage.Covers(Some(valid[0]));
    } else if valid == [] {
      forall p | p in target.ports ensures !(1 <= p <= 65535) {
        assert p !in valid;
      }
    }
  }

  const TCP: string := "tcp"

  /** The command asks for no UDP scan, so it looks at TCP alone. */
  predicate IsTcp(protocol: Option<string>) { IsUnder(protocol, TCP) }

  /** Did the command for the target name the port? */
  ghost predicate IsNamed(target: VerificationTarget, port: int) {
    PortSpec(target.ports).Some? && port in PortSpec(target.ports).value
  }

  /** And ask for it under that protocol? Whether the scanner then examined it is its own affair. */
  ghost predicate IsScanned(target: VerificationTarget, protocol: Option<string>, port: int) {
    IsTcp(protocol) && IsNamed(target, port)
  }

  /** For findings under the protocol: every port the coverage claims was scanned. */
  ghost predicate IsHonest(coverage: HostCoverage, target: VerificationTarget, protocol: Option<string>) {
    forall p :: coverage.Covers(Some(p)) ==> IsScanned(target, protocol, p)
  }

  ghost predicate IsConclusive(target: VerificationTarget, result: ScanResult) {
    && result.Parsed? && HostIsUp(result.hosts, target.host)
    && exists p :: p in target.ports && 1 <= p <= 65535
  }

  /** Coverage of a target is honest exactly when the check was inconclusive, or the findings are
      TCP's and the target has at most sixty-four distinct valid ports: the command is clipped and
      scans one protocol, the claim is neither. */
  lemma HonestExactlyForTcpUpToTheClip(target: VerificationTarget, result: ScanResult,
                                       protocol: Option<string>, kb: Knowledge, rt: Runtime)
    ensures IsHonest(VerifyOne(target, result, kb, rt).0, target, protocol)
      <==> || !IsConclusive(target, result)
           || (IsTcp(protocol) && |ValidPorts(target.ports)| <= MAX_PORTS_PER_TARGET)
  {
    var valid := ValidPorts(target.ports);
    if IsConclusive(target, result) {
      var port :| port in target.ports && 1 <= port <= 65535;
      assert port in valid;
      assert VerifyOne(target, result, kb, rt).0.Covers(Some(port));
      if |valid| > MAX_PORTS_PER_TARGET {
        var p := UnscannedPort(target.ports);
        assert VerifyOne(target, result, kb, rt).0.Covers(Some(p));
      }
    } else {
      CoversNothingExactlyWhenInconclusive(target, result, kb, rt);
    }
  }

  /** Past the clip there is always a port that is claimed and never scanned. */
  lemma UnscannedPort(ports: seq<int>) returns (p: int)
    requires |ValidPorts(ports)| > MAX_PORTS_PER_TARGET
    ensures p in ValidPorts(ports) && PortSpec(ports).Some? && p !in PortSpec(ports).value
  {
    var valid := ValidPorts(ports);
    assert valid == Ascending(ValidSet(ports), IntLe);
    p := valid[MAX_PORTS_PER_TARGET];
  }

  /** Targets past the limit are not in the report: a host only they name was never examined. */
  lemma TargetsPastTheLimitAreNotCovered(targets: seq<VerificationTarget>, scanner: Scanner,
                                         kb: Knowledge, rt: Runtime, at: int, host: string)
    requires Answers(scanner, targets)
    requires forall i :: 0 <= i < |targets| && targets[i].host == host ==> i >= MAX_TARGETS
    ensures ReportOf(targets, scanner, kb, rt, at).CoverageFor(host) == None
  {
    var checked := Checked(targets);
    var report := ReportOf(targets, scanner, kb, rt, at);
    forall i | 0 <= i < |checked| ensures report.coverage[i].host != host {
      assert checked[i] == targets[i];
    }
  }

  lemma {:induction false} OpenServicesAreObserved(hosts: seq<NmapHost>, host: NmapHost, s: NmapService)
    requires host in hosts && s in host.services && s.state == "open"
    ensures ObservationOf(host, s) in Observations(hosts)
  {
    var n := |hosts| - 1;
    if host == hosts[n] {
      OpenServiceIsObserved(host, host.services, s);
    } else {
      assert hosts == hosts[..n] + [hosts[n]];
      OpenServicesAreObserved(hosts[..n], host, s);
    }
  }

  lemma {:induction false} OpenServiceIsObserved(host: NmapHost, services: seq<NmapService>, s: NmapService)
    requires s in services && s.state == "open"
    ensures ObservationOf(host, s) in HostObservations(host, services)
  {
    var n := |services| - 1;
    if s != services[n] {
      assert services == services[..n] + [services[n]];
      OpenServiceIsObserved(host, services[..n], s);
    }
  }
}
