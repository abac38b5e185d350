/** What an uploaded scan says it was asked to examine, and what a fix proved by it is worth.

    The report's `scaninfo` elements each name a protocol and the ports asked for under it. The
    parser merges their ports into one list, in which the protocols are gone.
 */
module UploadedScans {
  import opened Wrappers
  import opened Sorting
  import opened Text
  import opened VerificationContract
  import opened Verification
  import Recheck

  const MAX_REQUESTED_PORT_SPAN: int := 4096

  /** One comma-separated part of the attribute: a port, a range, or text that is neither. */
  datatype Part = One(port: int) | Range(low: int, high: int) | Unreadable

  datatype ScanInfo = ScanInfo(protocol: string, parts: seq<Part>)

  datatype Document = Document(hosts: seq<ScanHost>, infos: seq<ScanInfo>)

  predicate IsPort(p: int) { 1 <= p <= 65535 }

  /** What the part asks for. A range that is too wide is treated as unstated. */
  predicate PartAsks(part: Part, p: int) {
    match part
    case One(port) => p == port && IsPort(p)
    case Range(low, high) => low <= p <= high && high - low <= MAX_REQUESTED_PORT_SPAN && IsPort(p)
    case Unreadable => false
  }

  predicate Asks(info: ScanInfo, p: int) {
    exists i :: 0 <= i < |info.parts| && PartAsks(info.parts[i], p)
  }

  /** The document asks for the place: for the port, under the recorded protocol. */
  predicate IsAsked(infos: seq<ScanInfo>, protocol: Option<string>, p: int) {
    exists i :: 0 <= i < |infos| && IsUnder(protocol, infos[i].protocol) && Asks(infos[i], p)
  }

  predicate IsAskedAtAll(infos: seq<ScanInfo>, p: int) { IsAsked(infos, None, p) }

  // ----- the parser -----

  ghost predicate Holds(ports: set<int>, infos: seq<ScanInfo>, info: ScanInfo) {
    forall p :: IsPort(p) ==> (p in ports <==> IsAskedAtAll(infos, p) || Asks(info, p))
  }

  function Between(first: int, last: int): (ports: set<int>)
    ensures forall p :: p in ports <==> first <= p <= last
    decreases last - first
  {
    if first > last then {} else {first} + Between(first + 1, last)
  }

  method AddPart(ports: set<int>, part: Part) returns (more: set<int>)
    ensures forall p :: IsPort(p) ==> (p in more <==> p in ports || PartAsks(part, p))
  {
    more := ports;
    match part
    case Unreadable =>
    case One(port) => more := more + {port};
    case Range(low, high) =>
      if low > high || high - low > MAX_REQUESTED_PORT_SPAN { return; }
      var first, last := if low >= 1 then low else 1, if high <= 65535 then high else 65535;
      more := more + Between(first, last);
  }

  lemma OneMorePart(protocol: string, parts: seq<Part>, i: nat, p: int)
    requires i < |parts|
    ensures Asks(ScanInfo(protocol, parts[..i + 1]), p)
      <==> Asks(ScanInfo(protocol, parts[..i]), p) || PartAsks(parts[i], p)
  {
    assert forall k :: 0 <= k < i ==> parts[..i + 1][k] == parts[..i][k];
    assert parts[..i + 1][i] == parts[i];
  }

  lemma OneMoreInfo(infos: seq<ScanInfo>, i: nat, p: int)
    requires i < |infos|
    ensures IsAskedAtAll(infos[..i + 1], p) <==> IsAskedAtAll(infos[..i], p) || Asks(infos[i], p)
  {
    assert forall k :: 0 <= k < i ==> infos[..i + 1][k] == infos[..i][k];
    assert infos[..i + 1][i] == infos[i];
  }

  method AddInfo(ports: set<int>, infos: seq<ScanInfo>, info: ScanInfo) returns (more: set<int>)
    requires Holds(ports, infos, ScanInfo(info.protocol, []))
    ensures Holds(more, infos, info)
  {
    more := ports;
    for i := 0 to |info.parts|
      invariant Holds(more, infos, ScanInfo(info.protocol, info.parts[..i]))
    {
      more := AddPart(more, info.parts[i]);
      forall p { OneMorePart(info.protocol, info.parts, i, p); }
    }
    assert info.parts[..|info.parts|] == info.parts;
  }

  /** Ascending, valid, without repetition, and exactly the ports some element asks for, under
      whatever protocol. */
  method ParseRequestedPorts(infos: seq<ScanInfo>) returns (ports: seq<int>)
    ensures ports == RequestedPorts(infos)
    ensures forall p :: p in ports <==> IsAskedAtAll(infos, p)
    ensures forall i, j :: 0 <= i < j < |ports| ==> ports[i] < ports[j]
  {
    var found: set<int> := {};
    for i := 0 to |infos|
      invariant forall p :: IsPort(p) ==> (p in found <==> IsAskedAtAll(infos[..i], p))
    {
      found := AddInfo(found, infos[..i], infos[i]);
      forall p { OneMoreInfo(infos, i, p); }
    }
    assert infos[..|infos|] == infos;
    AskedArePorts(infos);
    var valid := set p | p in found && IsPort(p);
    assert valid == Requested(infos);
    ports := Ascending(valid, Recheck.IntLe);
  }

  lemma AskedArePorts(infos: seq<ScanInfo>)
    ensures forall p :: IsAskedAtAll(infos, p) ==> IsPort(p)
  {
  }

  function Requested(infos: seq<ScanInfo>): set<int> {
    set p | 1 <= p <= 65535 && IsAskedAtAll(infos, p)
  }

  function RequestedPorts(infos: seq<ScanInfo>): seq<int> {
    Ascending(Requested(infos), Recheck.IntLe)
  }

  lemma RequestedAreAsked(infos: seq<ScanInfo>, p: int)
    ensures p in RequestedPorts(infos) <==> IsAskedAtAll(infos, p)
  {
    AskedArePorts(infos);
  }

  function Normalized(doc: Document): NormalizedScan {
    NormalizedScan(doc.hosts, RequestedPorts(doc.infos))
  }

  // ----- what a fix proved by an upload is worth -----

  /** The document's first entry for the host is not down. */
  ghost predicate AnsweredFirst(hosts: seq<ScanHost>, host: string) {
    exists i :: 0 <= i < |hosts| && hosts[i].address == host && Lower(hosts[i].status) != "down"
      && forall j :: 0 <= j < i ==> hosts[j].address != host
  }

  /** An upload proves a fix exactly when it asks for the port under some protocol, its host
      answered and its own findings lack the id. The protocol plays no part. */
  lemma FixedByUploadExactly(row: Row, doc: Document, batch: seq<RawId>, at: int)
    requires IsOpen(row.status) && row.rawId.Words? && row.rawId.text != ""
    requires row.port.Some? && row.asset.Some? && row.asset.value != ""
    ensures Decide(row, ScanReport(Normalized(doc), batch, at)) == Fixed
      <==> && IsAskedAtAll(doc.infos, row.port.value) && AnsweredFirst(doc.hosts, row.asset.value)
           && row.rawId !in batch
  {
    UploadProvesExactly(row, Normalized(doc), batch, at);
    RequestedAreAsked(doc.infos, row.port.value);
  }

  /** The finding would be resolved although the document does not ask for its place. */
  ghost predicate IsFixedUnasked(doc: Document, host: string, port: int, protocol: Option<string>, id: string,
                                 batch: seq<RawId>, at: int) {
    && Decide(FindingAt(host, port, protocol, id), ScanReport(Normalized(doc), batch, at)) == Fixed
    && !IsAsked(doc.infos, protocol, port)
  }

  /** A document asks for some port, but not under this protocol. */
  ghost predicate AsksOnlyElsewhere(infos: seq<ScanInfo>, protocol: Option<string>) {
    exists port :: IsAskedAtAll(infos, port) && !IsAsked(infos, protocol, port)
  }

  /** Some place on a host can be resolved although the upload never asked for it if and only if the
      host answered, the id is absent, and some port is asked for under other protocols alone. */
  lemma UploadFixedUnaskedExactly(doc: Document, host: string, protocol: Option<string>, id: string,
                                  batch: seq<RawId>, at: int)
    requires host != "" && id != ""
    ensures (exists port :: IsFixedUnasked(doc, host, port, protocol, id, batch, at))
      <==> AnsweredFirst(doc.hosts, host) && Words(id) !in batch && AsksOnlyElsewhere(doc.infos, protocol)
  {
    forall port ensures IsFixedUnasked(doc, host, port, protocol, id, batch, at) <==>
      && IsAskedAtAll(doc.infos, port) && !IsAsked(doc.infos, protocol, port)
      && AnsweredFirst(doc.hosts, host) && Words(id) !in batch
    {
      FixedByUploadExactly(FindingAt(host, port, protocol, id), doc, batch, at);
    }
    if AnsweredFirst(doc.hosts, host) && Words(id) !in batch && AsksOnlyElsewhere(doc.infos, protocol) {
      var port :| IsAskedAtAll(doc.infos, port) && !IsAsked(doc.infos, protocol, port);
      assert IsFixedUnasked(doc, host, port, protocol, id, batch, at);
    }
  }

  /** A document of one protocol is safe for the findings of that protocol, and for no others: a TCP
      scan of a port resolves the UDP finding on it, for every host that answered. */
  lemma OneProtocolExactly(info: ScanInfo, host: string, status: string, port: int, protocol: Option<string>,
                           id: string, at: int)
    requires host != "" && id != "" && Asks(info, port) && Lower(status) != "down"
    ensures IsFixedUnasked(Document([ScanHost(host, status)], [info]), host, port, protocol, id, [], at)
      <==> !IsUnder(protocol, info.protocol)
  {
    var doc := Document([ScanHost(host, status)], [info]);
    FixedByUploadExactly(FindingAt(host, port, protocol, id), doc, [], at);
    assert doc.infos[0] == info && doc.hosts[0].address == host;
  }
}
