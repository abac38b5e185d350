/** What one re-check covered and observed, as it crosses between the services. */
module VerificationContract {
  import opened Wrappers

  /** Is a place recorded with the first protocol one that a scan under the second looks at? A place
      recorded without a protocol is given the benefit of the doubt. */
  predicate IsUnder(recorded: Option<string>, scanned: string) {
    recorded.None? || recorded.value == scanned
  }

  datatype VerificationTarget = VerificationTarget(host: string, ports: seq<int>)

  datatype HostCoverage = HostCoverage(host: string, scanOk: bool, reachable: bool,
                                       portsScanned: seq<int>)
  {
    /** Was this port genuinely re-checked? A finding with no port never was. */
    predicate Covers(port: Option<int>) {
      port.Some? && scanOk && reachable && port.value in portsScanned
    }
  }

  datatype VerificationReport = VerificationReport(scannedAt: int, coverage: seq<HostCoverage>,
                                                   observedCandidateIds: seq<string>)
  {
    /** The first entry for the host, if it was examined at all. */
    function CoverageFor(host: string): (c: Option<HostCoverage>)
      ensures c.Some? ==> exists i :: IsFirstFor(host, i) && c.value == coverage[i]
      ensures c.None? ==> forall i :: 0 <= i < |coverage| ==> coverage[i].host != host
    {
      FirstFor(host, 0)
    }

    function FirstFor(host: string, from: nat): (c: Option<HostCoverage>)
      requires from <= |coverage| && forall j :: 0 <= j < from ==> coverage[j].host != host
      ensures c.Some? ==> exists i :: IsFirstFor(host, i) && c.value == coverage[i]
      ensures c.None? ==> forall i :: 0 <= i < |coverage| ==> coverage[i].host != host
      decreases |coverage| - from
    {
      if from == |coverage| then None
      else if coverage[from].host == host then
        assert IsFirstFor(host, from);
        Some(coverage[from])
      else FirstFor(host, from + 1)
    }

    ghost predicate IsFirstFor(host: string, i: int) {
      && 0 <= i < |coverage| && coverage[i].host == host
      && forall j :: 0 <= j < i ==> coverage[j].host != host
    }
  }

  /** `list(dict.fromkeys(ids))`: first occurrences, in order. */
  function Unique(ids: seq<string>): (r: seq<string>)
    ensures forall id :: id in r <==> id in ids
  {
    if ids == [] then [] else
      var front, last := Unique(ids[..|ids| - 1]), ids[|ids| - 1];
      assert ids == ids[..|ids| - 1] + [last];
      if last in front then front else front + [last]
  }
}
