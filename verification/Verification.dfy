/** Deciding whether a finding is actually fixed: one decision per finding and report, the pass
    that persists it, and the reports a backend-parsed scan gives.

    Reason texts and the wall-clock stamp of a history entry are left out.
 */
module Verification {
  import opened Wrappers
  import opened Sorting
  import opened Text
  import opened VerificationContract
  import Recheck

  datatype Status = New | Triaged | Resolved | FalsePositive
  datatype Outcome = Unverifiable | Unverified | StillPresent | Fixed

  /** The candidate id slot of a finding's evidence: absent, text, or some other JSON value. */
  datatype RawId = Missing | Words(text: string) | Other

  datatype Entry = Entry(outcome: Outcome, verifiedAt: int, source: string)

  /** The parts of a stored finding that verification reads or writes. */
  datatype Row = Row(status: Status, asset: Option<string>, port: Option<int>, protocol: Option<string>,
                     rawId: RawId, rawReference: Option<string>, history: seq<Entry>)

  /** A new finding at a place. */
  function FindingAt(host: string, port: int, protocol: Option<string>, id: string): Row {
    Row(New, Some(host), Some(port), protocol, Words(id), None, [])
  }

  predicate IsOpen(s: Status) { s == New || s == Triaged }

  function CandidateIdOf(rawId: RawId): Option<string> {
    if rawId.Words? && rawId.text != "" then Some(rawId.text) else None
  }

  /** One finding's fate against one report. */
  function Decide(row: Row, report: VerificationReport): Outcome {
    if !IsOpen(row.status) then Unverifiable
    else if CandidateIdOf(row.rawId).None? then Unverifiable
    else if row.port.None? then Unverifiable
    else if row.asset.None? || row.asset.value == "" then Unverifiable
    else
      var coverage := report.CoverageFor(row.asset.value);
      if coverage.None? then Unverified
      else if !coverage.value.Covers(row.port) then Unverified
      else if CandidateIdOf(row.rawId).value in report.observedCandidateIds then StillPresent
      else Fixed
  }

  /** The row after one decision: one more history entry, and resolved if it is proved fixed. */
  function Applied(row: Row, report: VerificationReport, source: string): Row {
    var outcome := Decide(row, report);
    row.(history := row.history + [Entry(outcome, report.scannedAt, source)],
         status := if outcome == Fixed then Resolved else row.status)
  }

  /** A row listed n times is decided n times, each time on what the last decision left. */
  function AppliedTimes(row: Row, report: VerificationReport, source: string, n: nat): Row {
    if n == 0 then row else Applied(AppliedTimes(row, report, source, n - 1), report, source)
  }

  // ----- the pass over stored objects -----

  class Finding {
    const id: nat
    const asset: Option<string>
    const port: Option<int>
    const protocol: Option<string>
    const rawId: RawId
    const rawReference: Option<string>
    var status: Status
    var history: seq<Entry>

    constructor (id: nat, row: Row)
      ensures this.id == id && Snapshot() == row
    {
      this.id := id;
      asset, port, protocol := row.asset, row.port, row.protocol;
      rawId, rawReference := row.rawId, row.rawReference;
      status, history := row.status, row.history;
    }

    function Snapshot(): Row
      reads this
    {
      Row(status, asset, port, protocol, rawId, rawReference, history)
    }

    /** Decide this finding and write the result back. */
    method Record(report: VerificationReport, source: string) returns (outcome: FindingOutcome)
      modifies this
      ensures outcome == FindingOutcome(id, Decide(old(Snapshot()), report))
      ensures Snapshot() == Applied(old(Snapshot()), report, source)
    {
      outcome := FindingOutcome(id, Decide(Snapshot(), report));
      history := history + [Entry(outcome.outcome, report.scannedAt, source)];
      if outcome.outcome == Fixed {
        status := Resolved;
      }
    }
  }

  datatype FindingOutcome = FindingOutcome(id: nat, outcome: Outcome)

  /** How often the first n places of the list name f. */
  ghost function Listed(findings: seq<Finding>, n: nat, f: Finding): nat
    requires n <= |findings|
  {
    if n == 0 then 0 else Listed(findings, n - 1, f) + (if findings[n - 1] == f then 1 else 0)
  }

  /** Decide every finding in turn and write the result back into it. The list may name a finding
      more than once. */
  method ApplyVerification(findings: seq<Finding>, report: VerificationReport, source: string)
    returns (outcomes: seq<FindingOutcome>)
    modifies findings
    ensures |outcomes| == |findings|
    ensures forall f :: f in findings ==>
      f.Snapshot() == AppliedTimes(old(f.Snapshot()), report, source, Listed(findings, |findings|, f))
    ensures forall i :: 0 <= i < |findings| ==>
      outcomes[i] == FindingOutcome(findings[i].id,
        Decide(AppliedTimes(old(findings[i].Snapshot()), report, source,
                            Listed(findings, i, findings[i])), report))
  {
    ghost var start: map<Finding, Row> := map f | f in findings :: f.Snapshot();
    outcomes := [];
    for i := 0 to |findings|
      invariant |outcomes| == i
      invariant Tracks(start, findings, i, report, source)
      invariant forall k :: 0 <= k < i ==> outcomes[k] == OutcomeAt(start, findings, k, report, source)
    {
      var outcome := RecordAt(start, findings, i, report, source);
      outcomes := outcomes + [outcome];
    }
  }

  /** Every finding stands as its decisions among the first n leave it. */
  ghost predicate Tracks(start: map<Finding, Row>, findings: seq<Finding>, n: nat,
                         report: VerificationReport, source: string)
    requires n <= |findings|
    reads findings
  {
    forall f :: f in findings ==>
      f in start && f.Snapshot() == AppliedTimes(start[f], report, source, Listed(findings, n, f))
  }

  method RecordAt(ghost start: map<Finding, Row>, findings: seq<Finding>, i: nat,
                  report: VerificationReport, source: string)
    returns (outcome: FindingOutcome)
    requires i < |findings| && Tracks(start, findings, i, report, source)
    modifies findings[i]
    ensures Tracks(start, findings, i + 1, report, source)
    ensures outcome == OutcomeAt(start, findings, i, report, source)
  {
    outcome := findings[i].Record(report, source);
    forall f | f in findings
      ensures f.Snapshot() == AppliedTimes(start[f], report, source, Listed(findings, i + 1, f))
    {
      if f != findings[i] {
        assert f.Snapshot() == old(f.Snapshot());
      }
    }
  }

  /** The i-th decision of a pass, from the rows the pass started with. */
  ghost function OutcomeAt(start: map<Finding, Row>, findings: seq<Finding>, i: nat,
                           report: VerificationReport, source: string): FindingOutcome
    requires i < |findings| && findings[i] in start
  {
    FindingOutcome(findings[i].id,
      Decide(AppliedTimes(start[findings[i]], report, source, Listed(findings, i, findings[i])), report))
  }

  // ----- tallying a pass -----

  function CountOf(outcomes: seq<FindingOutcome>, o: Outcome): nat {
    if outcomes == [] then 0
    else CountOf(outcomes[..|outcomes| - 1], o) + (if outcomes[|outcomes| - 1].outcome == o then 1 else 0)
  }

  method Counts(outcomes: seq<FindingOutcome>) returns (tally: map<Outcome, nat>)
    ensures forall o :: (if o in tally then tally[o] else 0) == CountOf(outcomes, o)
    ensures forall o :: o in tally <==> CountOf(outcomes, o) > 0
  {
    tally := map[];
    for i := 0 to |outcomes|
      invariant forall o :: (if o in tally then tally[o] else 0) == CountOf(outcomes[..i], o)
      invariant forall o :: o in tally <==> CountOf(outcomes[..i], o) > 0
    {
      assert outcomes[..i + 1][..i] == outcomes[..i];
      var o := outcomes[i].outcome;
      tally := tally[o := (if o in tally then tally[o] else 0) + 1];
    }
    assert outcomes[..|outcomes|] == outcomes;
  }

  /** Every decision is tallied under exactly one outcome. */
  lemma {:induction false} TallyIsComplete(outcomes: seq<FindingOutcome>)
    ensures CountOf(outcomes, Unverifiable) + CountOf(outcomes, Unverified)
          + CountOf(outcomes, StillPresent) + CountOf(outcomes, Fixed) == |outcomes|
  {
    if outcomes != [] {
      TallyIsComplete(outcomes[..|outcomes| - 1]);
    }
  }

  // ----- the one rule -----

  /** Coverage proves the port of an open, identified finding was re-checked. */
  ghost predicate IsCovered(row: Row, report: VerificationReport) {
    && IsOpen(row.status)
    && row.rawId.Words? && row.rawId.text != ""
    && row.port.Some? && row.asset.Some? && row.asset.value != ""
    && (exists i :: report.IsFirstFor(row.asset.value, i)
          && report.coverage[i].scanOk && report.coverage[i].reachable
          && row.port.value in report.coverage[i].portsScanned)
  }

  /** And the rules did not fire there again. */
  ghost predicate ProvenFixed(row: Row, report: VerificationReport) {
    IsCovered(row, report) && row.rawId.text !in report.observedCandidateIds
  }

  /** A decision changes a status exactly when coverage proves the absence. */
  lemma ResolvedExactlyWhenProven(row: Row, report: VerificationReport)
    ensures Decide(row, report) == Fixed <==> ProvenFixed(row, report)
  {
    if row.asset.Some? {
      var asset := row.asset.value;
      forall i, j | report.IsFirstFor(asset, i) && report.IsFirstFor(asset, j) ensures i == j {
      }
    }
  }

  ghost predicate Untouched(before: Row, after: Row) {
    && before.asset == after.asset && before.port == after.port && before.protocol == after.protocol
    && before.rawId == after.rawId && before.rawReference == after.rawReference
  }

  /** Once a decision leaves a row not open, deciding it again only records that it was looked at. */
  lemma {:induction false} RepeatsOnlyRecord(row: Row, report: VerificationReport, source: string, n: nat)
    ensures var after := AppliedTimes(row, report, source, n);
      && Untouched(row, after) && row.history <= after.history
      && |after.history| == |row.history| + n
      && after.status == (if n > 0 && ProvenFixed(row, report) then Resolved else row.status)
  {
    if n > 0 {
      RepeatsOnlyRecord(row, report, source, n - 1);
      ResolvedExactlyWhenProven(AppliedTimes(row, report, source, n - 1), report);
    }
  }

  /** A fresh report that observed the finding's id never resolves it, whatever it covers. */
  lemma ObservedIsNeverResolved(row: Row, report: VerificationReport)
    requires CandidateIdOf(row.rawId).Some?
    requires CandidateIdOf(row.rawId).value in report.observedCandidateIds
    ensures Applied(row, report, "").status == row.status
    ensures IsOpen(row.status) ==> Decide(row, report) in {StillPresent, Unverified, Unverifiable}
  {
  }

  // ----- reports from an uploaded scan -----

  datatype ScanHost = ScanHost(address: string, status: string)
  datatype NormalizedScan = NormalizedScan(hosts: seq<ScanHost>, portsRequested: seq<int>)

  function SortedSet(ports: seq<int>): (r: seq<int>)
    ensures forall p :: p in r <==> p in ports
  {
    Ascending(Members(ports), Recheck.IntLe)
  }

  function Members(ports: seq<int>): set<int> { set p | p in ports }

  function ScanCoverage(host: ScanHost, requested: seq<int>): HostCoverage {
    var reachable := Lower(host.status) != "down";
    var conclusive := reachable && requested != [];
    HostCoverage(host.address, true, reachable, if conclusive then requested else [])
  }

  function ScanCoverages(hosts: seq<ScanHost>, requested: seq<int>): seq<HostCoverage> {
    if hosts == [] then []
    else ScanCoverages(hosts[..|hosts| - 1], requested) + [ScanCoverage(hosts[|hosts| - 1], requested)]
  }

  function ObservedIds(batch: seq<RawId>): seq<string> {
    if batch == [] then [] else
      var id := CandidateIdOf(batch[|batch| - 1]);
      ObservedIds(batch[..|batch| - 1]) + (if id.Some? then [id.value] else [])
  }

  function ScanReport(scan: NormalizedScan, batch: seq<RawId>, at: int): VerificationReport {
    VerificationReport(at, ScanCoverages(scan.hosts, SortedSet(scan.portsRequested)),
                       Unique(ObservedIds(batch)))
  }

  lemma OneMoreHost(hosts: seq<ScanHost>, host: ScanHost, requested: seq<int>)
    ensures ScanCoverages(hosts + [host], requested)
         == ScanCoverages(hosts, requested) + [ScanCoverage(host, requested)]
  {
    assert (hosts + [host])[..|hosts|] == hosts;
  }

  method CoverHosts(hosts: seq<ScanHost>, requested: seq<int>) returns (coverage: seq<HostCoverage>)
    ensures coverage == ScanCoverages(hosts, requested)
  {
    coverage := [];
    for i := 0 to |hosts|
      invariant coverage == ScanCoverages(hosts[..i], requested)
    {
      assert hosts[..i + 1] == hosts[..i] + [hosts[i]];
      OneMoreHost(hosts[..i], hosts[i], requested);
      coverage := coverage + [ScanCoverage(hosts[i], requested)];
    }
    assert hosts[..|hosts|] == hosts;
  }

  method ReportFromScan(scan: NormalizedScan, batch: seq<RawId>, at: int)
    returns (report: VerificationReport)
    ensures report == ScanReport(scan, batch, at)
  {
    var coverage := CoverHosts(scan.hosts, SortedSet(scan.portsRequested));
    report := VerificationReport(at, coverage, Unique(ObservedIds(batch)));
  }

  lemma {:induction false} ScanCoverageAt(hosts: seq<ScanHost>, requested: seq<int>)
    ensures |ScanCoverages(hosts, requested)| == |hosts|
    ensures forall i :: 0 <= i < |hosts| ==>
      ScanCoverages(hosts, requested)[i] == ScanCoverage(hosts[i], requested)
  {
    if hosts != [] { ScanCoverageAt(hosts[..|hosts| - 1], requested); }
  }

  lemma {:induction false} ObservedIdsMembers(batch: seq<RawId>, id: string)
    requires id != ""
    ensures id in ObservedIds(batch) <==> Words(id) in batch
  {
    if batch != [] {
      var n := |batch| - 1;
      ObservedIdsMembers(batch[..n], id);
      assert batch == batch[..n] + [batch[n]];
    }
  }

  /** An uploaded scan proves a fix exactly when it states a port range holding the port, its
      first entry for the host is not down, and no finding of its own batch carries the id. The
      ports found open play no part. */
  lemma UploadProvesExactly(row: Row, scan: NormalizedScan, batch: seq<RawId>, at: int)
    requires IsOpen(row.status) && row.rawId.Words? && row.rawId.text != ""
    requires row.port.Some? && row.asset.Some? && row.asset.value != ""
    ensures Decide(row, ScanReport(scan, batch, at)) == Fixed
      <==> && row.port.value in scan.portsRequested
           && (exists i :: 0 <= i < |scan.hosts| && scan.hosts[i].address == row.asset.value
                 && Lower(scan.hosts[i].status) != "down"
                 && forall j :: 0 <= j < i ==> scan.hosts[j].address != row.asset.value)
           && row.rawId !in batch
  {
    var requested := SortedSet(scan.portsRequested);
    var report := ScanReport(scan, batch, at);
    ScanCoverageAt(scan.hosts, requested);
    ObservedIdsMembers(batch, row.rawId.text);
    ResolvedExactlyWhenProven(row, report);
    var host := row.asset.value;
    if ProvenFixed(row, report) {
      var i :| report.IsFirstFor(host, i) && report.coverage[i].reachable
            && row.port.value in report.coverage[i].portsScanned;
      assert scan.hosts[i].address == host;
      forall j | 0 <= j < i ensures scan.hosts[j].address != host {
        assert report.coverage[j].host != host;
      }
    }
    if i :| (0 <= i < |scan.hosts| && scan.hosts[i].address == host
             && Lower(scan.hosts[i].status) != "down"
             && forall j :: 0 <= j < i ==> scan.hosts[j].address != host) {
      assert report.IsFirstFor(host, i);
    }
  }
}
