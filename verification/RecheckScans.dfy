/** Re-checks end to end: the report of each is what the engine made of the targets of the very
    findings the re-check had read. What a resolution over a run then says about the commands given
    to the scanner.
 */
module RecheckScans {
  import opened Wrappers
  import opened Sorting
  import opened VerificationContract
  import opened Recheck
  import opened Verification
  import opened RecheckJob
  import opened VerificationRuns
  import Rules

  /** The report a re-check commits with, if it is given one, came from scanning its targets. */
  ghost predicate CommitsItsScan(s: System, e: Event) {
    e.Apply? && e.job in s.jobs && s.jobs[e.job].report.None? && e.engine.Some? ==>
      IsReportOn(TargetsOfJob(s.jobs[e.job]), e.engine.value)
  }

  ghost predicate IsReportOn(targets: seq<VerificationTarget>, report: VerificationReport) {
    exists scanner, kb, rt: Rules.Runtime, at ::
      Answers(scanner, targets) && report == ReportOf(targets, scanner, kb, rt, at)
  }

  ghost predicate ScannedRun(table: Table, events: seq<Event>) {
    forall k :: 0 <= k < |events| ==> CommitsItsScan(Run(table, events[..k]), events[k])
  }

  /** A target of the pass holds the finding's port; and if the finding is TCP's and the findings read
      for that host name at most sixty-four valid ports, the finding's own place was scanned. */
  ghost predicate WasAskedFor(targets: seq<VerificationTarget>, row: Row) {
    row.asset.Some? && row.port.Some?
      && exists i :: IsAskedBy(targets, i, row.asset.value, row.port.value, row.protocol)
  }

  ghost predicate IsAskedBy(targets: seq<VerificationTarget>, i: int, host: string, port: int,
                            protocol: Option<string>) {
    && 0 <= i < |targets| && targets[i].host == host && port in targets[i].ports
    && (IsTcp(protocol) && |ValidPorts(targets[i].ports)| <= MAX_PORTS_PER_TARGET ==>
          IsScanned(targets[i], protocol, port))
  }

  lemma FixedWasAskedFor(row: Row, targets: seq<VerificationTarget>, report: VerificationReport)
    ensures IsReportOn(targets, report) && ProvenFixed(row, report) ==> WasAskedFor(targets, row)
  {
    if !IsReportOn(targets, report) || !ProvenFixed(row, report) { return; }
    var scanner, kb, rt: Rules.Runtime, at :|
      Answers(scanner, targets) && report == ReportOf(targets, scanner, kb, rt, at);
    ResolvedExactlyWhenProven(row, report);
    var i := FixedMeansChecked(row, targets, scanner, kb, rt, at);
    assert IsAskedBy(targets, i, row.asset.value, row.port.value, row.protocol);
  }

  /** Over runs whose re-checks are scanned so: a finding that ends resolved without an analyst's
      edit was resolved by a pass that proved it as it had read it, when it was open; and if that
      pass was a re-check, its place was scanned, or it is not TCP's, or its host has more than
      sixty-four ports. */
  lemma ResolvedByRecheckWasScanned(table: Table, events: seq<Event>, id: nat) returns (k: nat, r: nat)
    requires id in table && table[id].status != Resolved && ScannedRun(table, events)
    requires id in Run(table, events).table && Run(table, events).table[id].status == Resolved
    requires forall i :: 0 <= i < |events| ==> events[i] != Edit(id, Resolved)
    ensures r < k < |events| && ProvedAsReadAt(table, events, k, r, id)
    ensures var j := Run(table, events[..k]).jobs[events[k].job];
      j.report.None? ==> WasAskedFor(TargetsOfJob(j), j.copies[id])
  {
    k, r := ResolvedOnlyByProof(table, events, id);
    var s, e := Run(table, events[..k]), events[k];
    assert CommitsItsScan(s, e);
    ScannedProofWasAskedFor(s, e, id);
  }

  lemma ScannedProofWasAskedFor(s: System, e: Event, id: nat)
    requires Proves(s, e, id) && CommitsItsScan(s, e)
    ensures var j := s.jobs[e.job]; j.report.None? ==> WasAskedFor(TargetsOfJob(j), j.copies[id])
  {
    var j := s.jobs[e.job];
    if j.report.None? && TargetsOfJob(j) != [] {
      FixedWasAskedFor(j.copies[id], TargetsOfJob(j), e.engine.value);
    }
  }

  // ----- a request that goes past the clip -----

  /** One TCP finding on each of the first n ports of a host. */
  function OnePerPort(host: string, ids: seq<string>): (rows: seq<Row>)
    ensures |rows| == |ids|
    ensures forall i :: 0 <= i < |ids| ==> rows[i] == FindingAt(host, i + 1, Some(TCP), ids[i])
  {
    seq(|ids|, i requires 0 <= i < |ids| => FindingAt(host, i + 1, Some(TCP), ids[i]))
  }

  function FirstPorts(n: nat): (ports: set<int>)
    ensures forall p :: p in ports <==> 1 <= p <= n
    ensures |ports| == n
  {
    if n == 0 then {} else FirstPorts(n - 1) + {n}
  }

  lemma OneTargetForAll(host: string, ids: seq<string>)
    requires host != "" && 0 < |ids| <= 65535
    ensures var targets := TargetsOf(OnePerPort(host, ids));
      && |targets| == 1 && targets[0].host == host
      && (forall p :: p in targets[0].ports <==> 1 <= p <= |ids|)
      && |ValidPorts(targets[0].ports)| == |ids|
  {
    var rows := OnePerPort(host, ids);
    HostAndPortsOf(host, ids);
    var hosts := SortedHosts(HostsIn(rows));
    assert hosts[0] in hosts;
    var ports := TargetsOf(rows)[0].ports;
    assert ValidSet(ports) == FirstPorts(|ids|);
  }

  lemma HostAndPortsOf(host: string, ids: seq<string>)
    requires host != "" && ids != []
    ensures HostsIn(OnePerPort(host, ids)) == {host}
    ensures PortsOn(OnePerPort(host, ids), host) == FirstPorts(|ids|)
  {
    var rows := OnePerPort(host, ids);
    assert rows[0] in rows;
    forall p | 1 <= p <= |ids| ensures p in PortsOn(rows, host) {
      assert rows[p - 1] in rows && rows[p - 1].port.value == p;
    }
  }

  /** Sixty-five findings on one host fit in one request with room to spare, and one of them is
      resolved by a scan that was never told its port: for every host that answers, whatever the
      scan finds, as long as it does not produce their ids. */
  lemma RequestPastTheClip(host: string, ids: seq<string>, result: ScanResult, kb: Rules.Knowledge,
                           rt: Rules.Runtime, at: int) returns (target: VerificationTarget, k: nat)
    requires host != "" && |ids| == MAX_PORTS_PER_TARGET + 1 && forall i :: 0 <= i < |ids| ==> ids[i] != ""
    requires result.Parsed?
    ensures |ids| <= MAX_FINDINGS_PER_RECHECK && k < |ids| && TargetsOf(OnePerPort(host, ids)) == [target]
    ensures !IsNamed(target, OnePerPort(host, ids)[k].port.value)
    ensures var report := ReportOf([target], Ran([result]), kb, rt, at);
      HostIsUp(result.hosts, host) && (forall i :: 0 <= i < |ids| ==> ids[i] !in report.observedCandidateIds) ==>
        Decide(OnePerPort(host, ids)[k], report) == Fixed
  {
    target, k := UnnamedFinding(host, ids);
    OneTarget(target, result, kb, rt, at, k + 1, Some(TCP), ids[k]);
  }

  lemma UnnamedFinding(host: string, ids: seq<string>) returns (target: VerificationTarget, k: nat)
    requires host != "" && |ids| == MAX_PORTS_PER_TARGET + 1
    ensures TargetsOf(OnePerPort(host, ids)) == [target] && target.host == host
    ensures k < |ids| && k + 1 in target.ports && !IsNamed(target, k + 1)
  {
    OneTargetForAll(host, ids);
    target := TargetsOf(OnePerPort(host, ids))[0];
    k := UnnamedPort(target, |ids|);
  }

  lemma UnnamedPort(target: VerificationTarget, n: nat) returns (k: nat)
    requires |ValidPorts(target.ports)| > MAX_PORTS_PER_TARGET
    requires forall p :: p in target.ports <==> 1 <= p <= n
    ensures k < n && k + 1 in target.ports && !IsNamed(target, k + 1)
  {
    var p := UnscannedPort(target.ports);
    assert p in target.ports;
    k := p - 1;
  }
}
