/** The deterministic rule engine: which candidates a set of observations yields, and under
    which content-addressed ids.

    The digest behind an id and the detector for instruction-like text are parameters. No lemma
    assumes the digest is injective: everything holds even where two facts share an id.
 */
module Rules {
  import opened Wrappers
  import opened Contracts
  import opened Sorting
  import opened Sequences
  import opened Text
  import opened Versions

  datatype Runtime = Runtime(digest: string -> string, detectsInjection: string -> bool)

  datatype Observation = Observation(
    host: string,
    port: Option<nat>,
    protocol: Option<string>,
    service: Option<string>,
    product: Option<string>,
    version: Option<string>,
    extrainfo: Option<string>,
    cpe: seq<string>,
    assertedCveIds: seq<string>,
    assertedSeverity: Option<Severity>,
    assertedSummary: Option<string>,
    assertedSolution: Option<string>)

  datatype Baseline = Baseline(productMatch: string, minVersion: string, severity: Severity)
  datatype RiskyService = RiskyService(ruleId: string, serviceNames: seq<string>, ports: seq<nat>,
                                       severity: Severity)
  datatype KnownCve = KnownCve(productMatch: string, cveId: string, introduced: string,
                               fixed_: Option<string>, severity: Severity)

  datatype Knowledge = Knowledge(baselines: seq<Baseline>, risky: seq<RiskyService>,
                                 cves: seq<KnownCve>)

  datatype Candidate = Candidate(id: string, ruleId: string, host: string, port: Option<nat>,
                                 protocol: Option<string>, service: Option<string>, severity: Severity,
                                 cveIds: seq<string>)

  const INJECTION_RULE_ID: string := "prompt-injection-in-scan-output"
  const ARTIFACT_PSEUDO_HOST: string := "(scan artifact)"

  // ----- ids -----

  /** What an id is made from. The protocol is not in it. */
  function Key(ruleId: string, host: string, port: Option<nat>, discriminator: string): string {
    ruleId + ['|'] + (host + ['|'] + PortText(port) + (['|'] + discriminator))
  }

  function PortText(port: Option<nat>): string {
    if port.Some? then Digits(port.value) else "-"
  }

  function DeriveCandidateId(ruleId: string, host: string, port: Option<nat>, discriminator: string,
                             rt: Runtime): string {
    "cand_" + rt.digest(Key(ruleId, host, port, discriminator))
  }

  function OrElse(a: Option<string>, b: string): string {
    if a.Some? && a.value != "" then a.value else b
  }

  /** Empty whenever there is a port: a service name is attacker-controlled and must not make
      the id churn. */
  function Discriminator(o: Observation): string {
    if o.port.Some? then "" else Lower(OrElse(o.service, OrElse(o.product, "")))
  }

  function MakeCandidate(ruleId: string, o: Observation, severity: Severity, cveIds: seq<string>,
                         discriminator: string, rt: Runtime): Candidate {
    Candidate(DeriveCandidateId(ruleId, o.host, o.port, discriminator, rt), ruleId, o.host, o.port,
              o.protocol, o.service, severity, cveIds)
  }

  // ----- what the families match on -----

  function Joined(parts: seq<Option<string>>): string {
    if parts == [] then "" else
      var front, last := Joined(parts[..|parts| - 1]), OrElse(parts[|parts| - 1], "");
      if front == "" then last else if last == "" then front else front + " " + last
  }

  function Banner(o: Observation): string {
    Lower(Joined([o.product, o.service, o.extrainfo]))
  }

  predicate Contains(s: string, sub: string) {
    sub <= s || (s != "" && Contains(s[1..], sub))
  }

  function Dashed(s: string): string {
    seq(|s|, k requires 0 <= k < |s| => if s[k] == ' ' then '-' else s[k])
  }

  predicate MatchesBaseline(o: Observation, b: Baseline) {
    && Banner(o) != "" && Contains(Banner(o), b.productMatch)
    && IsBelow(o.version, b.minVersion) == Some(true)
  }

  predicate MatchesRisky(o: Observation, r: RiskyService) {
    var name := Lower(OrElse(o.service, ""));
    || (name != "" && exists i :: 0 <= i < |r.serviceNames| && Lower(r.serviceNames[i]) == name)
    || (o.port.Some? && o.port.value in r.ports)
  }

  predicate MatchesCve(o: Observation, c: KnownCve) {
    && Banner(o) != "" && Contains(Banner(o), c.productMatch)
    && InRange(o.version, c.introduced, c.fixed_) == Some(true)
  }

  /** A rule that can fire on one observation. */
  datatype Rule =
    | Outdated(baseline: Baseline)
    | Risky(service: RiskyService)
    | Cve(entry: KnownCve)
    | Asserted(cveId: string)

  predicate Matches(rule: Rule, o: Observation) {
    match rule
    case Outdated(b) => MatchesBaseline(o, b)
    case Risky(r) => MatchesRisky(o, r)
    case Cve(c) => MatchesCve(o, c)
    case Asserted(_) => true
  }

  /** Every rule tried on an observation, family by family. */
  function RulesFor(o: Observation, kb: Knowledge): seq<Rule> {
    Baselines(kb.baselines) + Riskies(kb.risky) + Cves(kb.cves) + Assertions(o.assertedCveIds)
  }

  function Baselines(entries: seq<Baseline>): seq<Rule> {
    if entries == [] then []
    else Baselines(entries[..|entries| - 1]) + [Outdated(entries[|entries| - 1])]
  }

  function Riskies(entries: seq<RiskyService>): seq<Rule> {
    if entries == [] then []
    else Riskies(entries[..|entries| - 1]) + [Risky(entries[|entries| - 1])]
  }

  function Cves(entries: seq<KnownCve>): seq<Rule> {
    if entries == [] then []
    else Cves(entries[..|entries| - 1]) + [Cve(entries[|entries| - 1])]
  }

  function Assertions(ids: seq<string>): seq<Rule> {
    if ids == [] then [] else Assertions(ids[..|ids| - 1]) + [Asserted(ids[|ids| - 1])]
  }

  predicate Fires(rule: Rule, o: Observation, kb: Knowledge) {
    rule in RulesFor(o, kb) && Matches(rule, o)
  }

  function RuleIdOf(rule: Rule): string {
    match rule
    case Outdated(b) => "outdated-" + Dashed(b.productMatch)
    case Risky(r) => r.ruleId
    case Cve(c) => "cve-" + c.cveId
    case Asserted(id) => "scanner-cve-" + id
  }

  function DiscriminatorFor(rule: Rule, o: Observation): string {
    if rule.Asserted? then Discriminator(o) + ['|'] + rule.cveId else Discriminator(o)
  }

  function SeverityFor(rule: Rule, o: Observation): Severity {
    match rule
    case Outdated(b) => b.severity
    case Risky(r) => r.severity
    case Cve(c) => c.severity
    case Asserted(_) => if o.assertedSeverity.Some? then o.assertedSeverity.value else Medium
  }

  function CvesOf(rule: Rule): seq<string> {
    match rule
    case Cve(c) => [c.cveId]
    case Asserted(id) => [id]
    case _ => []
  }

  /** The candidate a rule yields on an observation. */
  function CandidateOf(rule: Rule, o: Observation, rt: Runtime): Candidate {
    MakeCandidate(RuleIdOf(rule), o, SeverityFor(rule, o), CvesOf(rule), DiscriminatorFor(rule, o), rt)
  }

  function Matcher(o: Observation): Rule -> bool { rule => Matches(rule, o) }

  function Maker(o: Observation, rt: Runtime): Rule -> Candidate { rule => CandidateOf(rule, o, rt) }

  function Yield(rules: seq<Rule>, o: Observation, rt: Runtime): seq<Candidate> {
    FilterMap(rules, Matcher(o), Maker(o, rt))
  }

  function YieldsOf(o: Observation, kb: Knowledge, rt: Runtime): seq<Candidate> {
    Yield(RulesFor(o, kb), o, rt)
  }

  function YieldLists(observations: seq<Observation>, kb: Knowledge, rt: Runtime): (lists: seq<seq<Candidate>>)
    ensures |lists| == |observations|
    ensures forall i :: 0 <= i < |lists| ==> lists[i] == YieldsOf(observations[i], kb, rt)
  {
    seq(|observations|, i requires 0 <= i < |observations| => YieldsOf(observations[i], kb, rt))
  }

  function AllYields(observations: seq<Observation>, kb: Knowledge, rt: Runtime): seq<Candidate> {
    Flatten(YieldLists(observations, kb, rt))
  }

  // ----- instruction-like text: one candidate per host -----

  function Untrusted(o: Observation): seq<string> {
    [o.host, OrElse(o.service, ""), OrElse(o.product, ""), OrElse(o.version, ""),
     OrElse(o.extrainfo, ""), OrElse(o.assertedSummary, ""), OrElse(o.assertedSolution, "")] + o.cpe
  }

  predicate AnyDetected(texts: seq<string>, rt: Runtime) {
    exists i :: 0 <= i < |texts| && texts[i] != "" && rt.detectsInjection(texts[i])
  }

  predicate IsMarked(o: Observation, rt: Runtime) {
    AnyDetected(Untrusted(o), rt)
  }

  /** A marked host and the port of the first observation that marked it. */
  datatype Mark = Mark(host: string, port: Option<nat>)

  predicate HasHost(marks: seq<Mark>, host: string) {
    exists i :: 0 <= i < |marks| && marks[i].host == host
  }

  function AddMark(marks: seq<Mark>, host: string, port: Option<nat>): seq<Mark> {
    if HasHost(marks, host) then marks else marks + [Mark(host, port)]
  }

  function Marks(observations: seq<Observation>, rt: Runtime): seq<Mark> {
    if observations == [] then [] else
      var last := observations[|observations| - 1];
      var marks := Marks(observations[..|observations| - 1], rt);
      if IsMarked(last, rt) then AddMark(marks, last.host, last.port) else marks
  }

  function ArtifactMark(asset: Option<string>, raw: Option<string>, rt: Runtime): seq<Mark> {
    if raw.Some? && raw.value != "" && rt.detectsInjection(raw.value)
    then [Mark(OrElse(asset, ARTIFACT_PSEUDO_HOST), None)] else []
  }

  function AllMarks(observations: seq<Observation>, asset: Option<string>, raw: Option<string>,
                    rt: Runtime): seq<Mark> {
    var artifact := ArtifactMark(asset, raw, rt);
    if artifact == [] then Marks(observations, rt)
    else AddMark(Marks(observations, rt), artifact[0].host, artifact[0].port)
  }

  function Injection(mark: Mark, rt: Runtime): Candidate {
    Candidate(DeriveCandidateId(INJECTION_RULE_ID, mark.host, mark.port, "", rt), INJECTION_RULE_ID,
              mark.host, mark.port, None, None, High, [])
  }

  function Injections(marks: seq<Mark>, rt: Runtime): seq<Candidate> {
    if marks == [] then []
    else Injections(marks[..|marks| - 1], rt) + [Injection(marks[|marks| - 1], rt)]
  }

  // ----- deduplication and order -----

  predicate HasId(candidates: seq<Candidate>, id: string) {
    exists i :: 0 <= i < |candidates| && candidates[i].id == id
  }

  /** First candidate per id, in order. */
  function Deduped(found: seq<Candidate>): seq<Candidate> {
    if found == [] then [] else
      var kept, last := Deduped(found[..|found| - 1]), found[|found| - 1];
      if HasId(kept, last.id) then kept else kept + [last]
  }

  function PortOrZero(port: Option<nat>): nat { if port.Some? then port.value else 0 }

  /** Most severe first, then by host, port and rule. */
  predicate KeyLe(a: Candidate, b: Candidate) {
    if a.severity != b.severity then SeverityOrder(a.severity) > SeverityOrder(b.severity)
    else if a.host != b.host then StringLe(a.host, b.host)
    else if PortOrZero(a.port) != PortOrZero(b.port) then PortOrZero(a.port) < PortOrZero(b.port)
    else StringLe(a.ruleId, b.ruleId)
  }

  function Found(observations: seq<Observation>, asset: Option<string>, raw: Option<string>,
                 kb: Knowledge, rt: Runtime): seq<Candidate> {
    AllYields(observations, kb, rt) + Injections(AllMarks(observations, asset, raw, rt), rt)
  }

  function Candidates(observations: seq<Observation>, asset: Option<string>, raw: Option<string>,
                      kb: Knowledge, rt: Runtime): seq<Candidate> {
    Sort(Deduped(Found(observations, asset, raw, kb, rt)), KeyLe)
  }

  // ----- the loops of the source -----

  lemma OneMoreAssertion(ids: seq<string>, i: nat, o: Observation, rt: Runtime)
    requires i < |ids|
    ensures Yield(Assertions(ids[..i + 1]), o, rt)
         == Yield(Assertions(ids[..i]), o, rt) + [CandidateOf(Asserted(ids[i]), o, rt)]
  {
    assert ids[..i + 1][..i] == ids[..i];
  }

  method OutdatedService(o: Observation, kb: Knowledge, rt: Runtime) returns (found: seq<Candidate>)
    ensures found == Yield(Baselines(kb.baselines), o, rt)
  {
    found := [];
    if Banner(o) == "" {
      NoBannerNoBaseline(kb.baselines, o, rt);
      return;
    }
    for i := 0 to |kb.baselines|
      invariant found == Yield(Baselines(kb.baselines[..i]), o, rt)
    {
      assert kb.baselines[..i + 1] == kb.baselines[..i] + [kb.baselines[i]];
      if MatchesBaseline(o, kb.baselines[i]) {
        found := found + [CandidateOf(Outdated(kb.baselines[i]), o, rt)];
      }
    }
    assert kb.baselines[..|kb.baselines|] == kb.baselines;
  }

  method RiskyExposed(o: Observation, kb: Knowledge, rt: Runtime) returns (found: seq<Candidate>)
    ensures found == Yield(Riskies(kb.risky), o, rt)
  {
    found := [];
    for i := 0 to |kb.risky|
      invariant found == Yield(Riskies(kb.risky[..i]), o, rt)
    {
      assert kb.risky[..i + 1] == kb.risky[..i] + [kb.risky[i]];
      if MatchesRisky(o, kb.risky[i]) {
        found := found + [CandidateOf(Risky(kb.risky[i]), o, rt)];
      }
    }
    assert kb.risky[..|kb.risky|] == kb.risky;
  }

  method KnownCves(o: Observation, kb: Knowledge, rt: Runtime) returns (found: seq<Candidate>)
    ensures found == Yield(Cves(kb.cves), o, rt)
  {
    found := [];
    if Banner(o) == "" {
      NoBannerNoCve(kb.cves, o, rt);
      return;
    }
    for i := 0 to |kb.cves|
      invariant found == Yield(Cves(kb.cves[..i]), o, rt)
    {
      assert kb.cves[..i + 1] == kb.cves[..i] + [kb.cves[i]];
      if MatchesCve(o, kb.cves[i]) {
        found := found + [CandidateOf(Cve(kb.cves[i]), o, rt)];
      }
    }
    assert kb.cves[..|kb.cves|] == kb.cves;
  }

  method ScannerAssertedCves(o: Observation, rt: Runtime) returns (found: seq<Candidate>)
    ensures found == Yield(Assertions(o.assertedCveIds), o, rt)
  {
    found := [];
    var ids := o.assertedCveIds;
    for i := 0 to |ids|
      invariant found == Yield(Assertions(ids[..i]), o, rt)
    {
      OneMoreAssertion(ids, i, o, rt);
      found := found + [CandidateOf(Asserted(ids[i]), o, rt)];
    }
    assert ids[..|ids|] == ids;
  }

  lemma OneMoreText(texts: seq<string>, j: nat, rt: Runtime)
    requires j < |texts|
    ensures AnyDetected(texts[..j + 1], rt)
      <==> AnyDetected(texts[..j], rt) || (texts[j] != "" && rt.detectsInjection(texts[j]))
  {
    assert forall i :: 0 <= i < j ==> texts[..j + 1][i] == texts[..j][i];
    assert texts[..j + 1][j] == texts[j];
  }

  /** The inner loop of the injection rule: any detected field marks the host, once. */
  method MarkObservation(before: seq<Mark>, o: Observation, rt: Runtime) returns (marks: seq<Mark>)
    ensures marks == if IsMarked(o, rt) then AddMark(before, o.host, o.port) else before
  {
    marks := before;
    var texts := Untrusted(o);
    for j := 0 to |texts|
      invariant marks == if AnyDetected(texts[..j], rt) then AddMark(before, o.host, o.port) else before
    {
      OneMoreText(texts, j, rt);
      if texts[j] != "" && rt.detectsInjection(texts[j]) {
        MarkedOnce(before, o.host, o.port);
        marks := AddMark(marks, o.host, o.port);
      }
    }
    assert texts[..|texts|] == texts;
  }

  method InjectionCandidates(observations: seq<Observation>, asset: Option<string>, raw: Option<string>,
                             rt: Runtime)
    returns (found: seq<Candidate>)
    ensures found == Injections(AllMarks(observations, asset, raw, rt), rt)
    ensures forall c :: c in found <==> exists m :: MarkStands(observations, asset, raw, rt, m) && c == Injection(m, rt)
    ensures forall i, j :: 0 <= i < j < |found| ==> found[i].host != found[j].host
  {
    var marks: seq<Mark> := [];
    for i := 0 to |observations|
      invariant marks == Marks(observations[..i], rt)
    {
      assert observations[..i + 1][..i] == observations[..i];
      marks := MarkObservation(marks, observations[i], rt);
    }
    assert observations[..|observations|] == observations;
    var artifact := ArtifactMark(asset, raw, rt);
    if artifact != [] {
      marks := AddMark(marks, artifact[0].host, artifact[0].port);
    }
    found := [];
    for i := 0 to |marks|
      invariant found == Injections(marks[..i], rt)
    {
      assert marks[..i + 1][..i] == marks[..i];
      found := found + [Injection(marks[i], rt)];
    }
    assert marks[..|marks|] == marks;
    InjectionsOfMarks(observations, asset, raw, rt);
  }

  lemma InjectionsOfMarks(observations: seq<Observation>, asset: Option<string>, raw: Option<string>, rt: Runtime)
    ensures var found := Injections(AllMarks(observations, asset, raw, rt), rt);
      && (forall c :: c in found <==> exists m :: MarkStands(observations, asset, raw, rt, m) && c == Injection(m, rt))
      && (forall i, j :: 0 <= i < j < |found| ==> found[i].host != found[j].host)
  {
    var marks := AllMarks(observations, asset, raw, rt);
    MarksAreThoseThatStand(observations, asset, raw, rt);
    InjectionAt(marks, rt);
    forall c
      ensures c in Injections(marks, rt)
        <==> exists m :: MarkStands(observations, asset, raw, rt, m) && c == Injection(m, rt)
    {
      InjectionMembers(marks, c, rt);
    }
  }

  lemma {:induction false} InjectionAt(marks: seq<Mark>, rt: Runtime)
    ensures |Injections(marks, rt)| == |marks|
    ensures forall i :: 0 <= i < |marks| ==> Injections(marks, rt)[i] == Injection(marks[i], rt)
  {
    if marks != [] { InjectionAt(marks[..|marks| - 1], rt); }
  }

  /** One observation through all the per-observation families. */
  method ObservationCandidates(o: Observation, kb: Knowledge, rt: Runtime)
    returns (found: seq<Candidate>)
    ensures found == YieldsOf(o, kb, rt)
  {
    var outdated := OutdatedService(o, kb, rt);
    var risky := RiskyExposed(o, kb, rt);
    var cves := KnownCves(o, kb, rt);
    var asserted := ScannerAssertedCves(o, rt);
    YieldOfConcat(Baselines(kb.baselines), Riskies(kb.risky), o, rt);
    YieldOfConcat(Baselines(kb.baselines) + Riskies(kb.risky), Cves(kb.cves), o, rt);
    YieldOfConcat(Baselines(kb.baselines) + Riskies(kb.risky) + Cves(kb.cves),
                  Assertions(o.assertedCveIds), o, rt);
    found := outdated + risky + cves + asserted;
  }

  method Dedupe(found: seq<Candidate>) returns (deduped: seq<Candidate>)
    ensures deduped == Deduped(found)
  {
    deduped := [];
    for i := 0 to |found|
      invariant deduped == Deduped(found[..i])
    {
      assert found[..i + 1][..i] == found[..i];
      if !HasId(deduped, found[i].id) {
        deduped := deduped + [found[i]];
      }
    }
    assert found[..|found|] == found;
  }

  lemma OneMoreObservation(observations: seq<Observation>, i: nat, kb: Knowledge, rt: Runtime)
    requires i < |observations|
    ensures AllYields(observations[..i + 1], kb, rt)
         == AllYields(observations[..i], kb, rt) + YieldsOf(observations[i], kb, rt)
  {
    var before, after, last := YieldLists(observations[..i], kb, rt), YieldLists(observations[..i + 1], kb, rt),
                               YieldsOf(observations[i], kb, rt);
    assert forall k :: 0 <= k < i ==> observations[..i][k] == observations[..i + 1][k];
    assert after[i] == last;
    Appended(before, after, last);
    OneMoreList(before, last);
  }

  lemma Appended<T>(before: seq<T>, after: seq<T>, last: T)
    requires |after| == |before| + 1 && after[|before|] == last
    requires forall k :: 0 <= k < |before| ==> after[k] == before[k]
    ensures after == before + [last]
  {
  }

  method BuildCandidates(observations: seq<Observation>, asset: Option<string>, raw: Option<string>,
                         kb: Knowledge, rt: Runtime)
    returns (candidates: seq<Candidate>)
    ensures candidates == Candidates(observations, asset, raw, kb, rt)
    ensures Sorted(candidates, KeyLe)
  {
    var found: seq<Candidate> := [];
    for i := 0 to |observations|
      invariant found == AllYields(observations[..i], kb, rt)
    {
      OneMoreObservation(observations, i, kb, rt);
      var more := ObservationCandidates(observations[i], kb, rt);
      found := found + more;
    }
    assert observations[..|observations|] == observations;
    var injected := InjectionCandidates(observations, asset, raw, rt);
    var deduped := Dedupe(found + injected);
    KeysAreOrdered();
    SortSorts(deduped, KeyLe);
    candidates := Sort(deduped, KeyLe);
  }

  lemma MarkedOnce(marks: seq<Mark>, host: string, port: Option<nat>)
    ensures AddMark(AddMark(marks, host, port), host, port) == AddMark(marks, host, port)
  {
    if !HasHost(marks, host) {
      assert (marks + [Mark(host, port)])[|marks|].host == host;
    }
  }

  // ----- which hosts are marked, and at which port -----

  function MarkOf(o: Observation): Mark { Mark(o.host, o.port) }

  /** Observation i is the first on its host to carry instruction-like text. */
  ghost predicate IsFirstMarked(observations: seq<Observation>, i: int, rt: Runtime) {
    && 0 <= i < |observations| && IsMarked(observations[i], rt)
    && forall j :: 0 <= j < i && observations[j].host == observations[i].host ==> !IsMarked(observations[j], rt)
  }

  ghost predicate IsFirstMark(observations: seq<Observation>, m: Mark, rt: Runtime) {
    exists i :: IsFirstMarked(observations, i, rt) && MarkOf(observations[i]) == m
  }

  ghost predicate HostIsMarked(observations: seq<Observation>, host: string, rt: Runtime) {
    exists i :: 0 <= i < |observations| && observations[i].host == host && IsMarked(observations[i], rt)
  }

  /** The mark is one the scan gives: of the first marked observation of its host, or of the
      artefact when no observation of that host is marked. */
  ghost predicate MarkStands(observations: seq<Observation>, asset: Option<string>, raw: Option<string>,
                             rt: Runtime, m: Mark) {
    || IsFirstMark(observations, m, rt)
    || (ArtifactMark(asset, raw, rt) == [m] && !HostIsMarked(observations, m.host, rt))
  }

  ghost predicate DistinctHosts(marks: seq<Mark>) {
    forall i, j :: 0 <= i < j < |marks| ==> marks[i].host != marks[j].host
  }

  lemma AddMarkAdds(marks: seq<Mark>, x: Mark)
    requires DistinctHosts(marks)
    ensures var after := AddMark(marks, x.host, x.port);
      && DistinctHosts(after)
      && (forall m :: m in after <==> m in marks || (m == x && !HasHost(marks, x.host)))
      && (forall h :: HasHost(after, h) <==> HasHost(marks, h) || h == x.host)
  {
    var after := AddMark(marks, x.host, x.port);
    forall h | HasHost(marks, h) ensures HasHost(after, h) {
      var i :| 0 <= i < |marks| && marks[i].host == h;
      assert after[i].host == h;
    }
    if !HasHost(marks, x.host) {
      assert after[|marks|].host == x.host;
    }
  }

  lemma FirstMarkedGrows(init: seq<Observation>, last: Observation, i: int, rt: Runtime)
    ensures i < |init| ==> (IsFirstMarked(init + [last], i, rt) <==> IsFirstMarked(init, i, rt))
    ensures IsFirstMarked(init + [last], |init|, rt) <==> IsMarked(last, rt) && !HostIsMarked(init, last.host, rt)
  {
    var all := init + [last];
    assert forall j :: 0 <= j < |init| ==> all[j] == init[j];
  }

  lemma HostIsMarkedGrows(init: seq<Observation>, last: Observation, host: string, rt: Runtime)
    ensures HostIsMarked(init + [last], host, rt)
      <==> HostIsMarked(init, host, rt) || (last.host == host && IsMarked(last, rt))
  {
    var all := init + [last];
    if HostIsMarked(init, host, rt) {
      var i :| 0 <= i < |init| && init[i].host == host && IsMarked(init[i], rt);
      assert all[i].host == host && IsMarked(all[i], rt);
    }
    if last.host == host && IsMarked(last, rt) {
      assert all[|init|].host == host && IsMarked(all[|init|], rt);
    }
  }

  lemma FirstMarkGrows(init: seq<Observation>, last: Observation, m: Mark, rt: Runtime)
    ensures IsFirstMark(init + [last], m, rt)
      <==> IsFirstMark(init, m, rt) || (MarkOf(last) == m && IsMarked(last, rt) && !HostIsMarked(init, last.host, rt))
  {
    var all := init + [last];
    FirstMarkedGrows(init, last, 0, rt);
    if IsFirstMark(init, m, rt) {
      var i :| IsFirstMarked(init, i, rt) && MarkOf(init[i]) == m;
      FirstMarkedGrows(init, last, i, rt);
      assert all[i] == init[i];
    }
    if IsFirstMark(all, m, rt) {
      var i :| IsFirstMarked(all, i, rt) && MarkOf(all[i]) == m;
      FirstMarkedGrows(init, last, i, rt);
      if i < |init| { assert init[i] == all[i]; }
    }
    assert all[|init|] == last;
  }

  /** A host is marked once, if and only if some observation of it is, and at the port of the first
      of those. */
  lemma {:induction false} MarksAreFirst(observations: seq<Observation>, rt: Runtime)
    ensures DistinctHosts(Marks(observations, rt))
    ensures forall m :: m in Marks(observations, rt) <==> IsFirstMark(observations, m, rt)
    ensures forall h :: HasHost(Marks(observations, rt), h) <==> HostIsMarked(observations, h, rt)
  {
    if observations != [] {
      var init, last := observations[..|observations| - 1], observations[|observations| - 1];
      assert observations == init + [last];
      MarksAreFirst(init, rt);
      AddMarkAdds(Marks(init, rt), MarkOf(last));
      forall m { FirstMarkGrows(init, last, m, rt); }
      forall h { HostIsMarkedGrows(init, last, h, rt); }
    }
  }

  /** The marks of a scan are exactly those that stand, one to a host. */
  lemma MarksAreThoseThatStand(observations: seq<Observation>, asset: Option<string>, raw: Option<string>, rt: Runtime)
    ensures DistinctHosts(AllMarks(observations, asset, raw, rt))
    ensures forall m :: m in AllMarks(observations, asset, raw, rt) <==> MarkStands(observations, asset, raw, rt, m)
  {
    MarksAreFirst(observations, rt);
    var artifact := ArtifactMark(asset, raw, rt);
    if artifact != [] {
      AddMarkAdds(Marks(observations, rt), artifact[0]);
    }
    forall m ensures m in AllMarks(observations, asset, raw, rt) <==> MarkStands(observations, asset, raw, rt, m) {
      assert IsFirstMark(observations, m, rt) <==> m in Marks(observations, rt);
    }
  }

  lemma KeysAreOrdered()
    ensures TotalPreorder(KeyLe)
  {
    StringsAreOrdered();
  }

  lemma {:induction false} NoBannerNoBaseline(entries: seq<Baseline>, o: Observation, rt: Runtime)
    requires Banner(o) == ""
    ensures Yield(Baselines(entries), o, rt) == []
  {
    if entries != [] {
      NoBannerNoBaseline(entries[..|entries| - 1], o, rt);
    }
  }

  lemma {:induction false} NoBannerNoCve(entries: seq<KnownCve>, o: Observation, rt: Runtime)
    requires Banner(o) == ""
    ensures Yield(Cves(entries), o, rt) == []
  {
    if entries != [] {
      NoBannerNoCve(entries[..|entries| - 1], o, rt);
    }
  }

  lemma YieldOfConcat(a: seq<Rule>, b: seq<Rule>, o: Observation, rt: Runtime)
    ensures Yield(a + b, o, rt) == Yield(a, o, rt) + Yield(b, o, rt)
  {
    FilterMapOfConcat(a, b, Matcher(o), Maker(o, rt));
  }

  // ----- a candidate is there exactly when a rule fires -----

  lemma YieldMembers(rules: seq<Rule>, o: Observation, c: Candidate, rt: Runtime)
    ensures c in Yield(rules, o, rt)
      <==> exists rule :: rule in rules && Matches(rule, o) && c == CandidateOf(rule, o, rt)
  {
    FilterMapMembers(rules, Matcher(o), Maker(o, rt), c);
  }

  /** A rule fires on o and the candidate is its. */
  ghost predicate FiredOn(o: Observation, c: Candidate, kb: Knowledge, rt: Runtime) {
    exists rule :: Fires(rule, o, kb) && c == CandidateOf(rule, o, rt)
  }

  lemma YieldsOfMembers(o: Observation, c: Candidate, kb: Knowledge, rt: Runtime)
    ensures c in YieldsOf(o, kb, rt) <==> FiredOn(o, c, kb, rt)
  {
    YieldMembers(RulesFor(o, kb), o, c, rt);
  }

  lemma AllYieldsMembers(observations: seq<Observation>, c: Candidate, kb: Knowledge, rt: Runtime)
    ensures c in AllYields(observations, kb, rt) <==> exists o :: o in observations && FiredOn(o, c, kb, rt)
  {
    FlattenMembers(YieldLists(observations, kb, rt), c);
    forall i | 0 <= i < |observations|
      ensures c in YieldLists(observations, kb, rt)[i] <==> FiredOn(observations[i], c, kb, rt)
    {
      YieldsOfMembers(observations[i], c, kb, rt);
    }
  }

  lemma {:induction false} InjectionMembers(marks: seq<Mark>, c: Candidate, rt: Runtime)
    ensures c in Injections(marks, rt) <==> exists m :: m in marks && c == Injection(m, rt)
  {
    if marks != [] {
      var n := |marks| - 1;
      InjectionMembers(marks[..n], c, rt);
      assert marks == marks[..n] + [marks[n]];
      assert marks[n] in marks;
    }
  }

  /** Dropping later candidates with a known id keeps every id, once. */
  lemma {:induction false} DedupeKeepsIds(found: seq<Candidate>)
    ensures forall c :: c in Deduped(found) ==> c in found
    ensures forall c :: c in found ==> HasId(Deduped(found), c.id)
    ensures forall i, j :: 0 <= i < j < |Deduped(found)| ==> Deduped(found)[i].id != Deduped(found)[j].id
  {
    if found != [] {
      var n := |found| - 1;
      DedupeKeepsIds(found[..n]);
      assert found == found[..n] + [found[n]];
      var kept, all := Deduped(found[..n]), Deduped(found);
      forall c | c in found ensures HasId(all, c.id) {
        if c in found[..n] {
          var i :| 0 <= i < |kept| && kept[i].id == c.id;
          assert all[i].id == c.id;
        } else if !HasId(kept, c.id) {
          assert all[|kept|].id == c.id;
        }
      }
    }
  }

  /** No earlier candidate has the id of the i-th. */
  ghost predicate IsFirstOfId(found: seq<Candidate>, i: int) {
    0 <= i < |found| && forall j :: 0 <= j < i ==> found[j].id != found[i].id
  }

  ghost predicate IsSomeFirst(found: seq<Candidate>, c: Candidate) {
    exists i :: IsFirstOfId(found, i) && found[i] == c
  }

  lemma FirstOfIdGrows(init: seq<Candidate>, last: Candidate, c: Candidate)
    ensures IsSomeFirst(init + [last], c) <==> IsSomeFirst(init, c) || (c == last && !HasId(init, last.id))
  {
    var all := init + [last];
    assert forall j :: 0 <= j < |init| ==> all[j] == init[j];
    if i :| IsFirstOfId(init, i) && init[i] == c { assert IsFirstOfId(all, i); }
    if i :| IsFirstOfId(all, i) && all[i] == c {
      if i < |init| { assert IsFirstOfId(init, i); }
    }
    if !HasId(init, last.id) { assert IsFirstOfId(all, |init|); }
  }

  /** Ids survive, candidates need not: a candidate is kept if and only if no earlier one has its id. */
  lemma {:induction false} KeptExactlyWhenFirst(found: seq<Candidate>, c: Candidate)
    ensures c in Deduped(found) <==> IsSomeFirst(found, c)
  {
    if found != [] {
      var n := |found| - 1;
      KeptExactlyWhenFirst(found[..n], c);
      FirstOfIdGrows(found[..n], found[n], c);
      assert found == found[..n] + [found[n]];
      SameIds(found[..n], found[n].id);
    }
  }

  lemma SameIds(found: seq<Candidate>, id: string)
    ensures HasId(Deduped(found), id) <==> HasId(found, id)
  {
    DedupeKeepsIds(found);
    var kept := Deduped(found);
    if i :| 0 <= i < |kept| && kept[i].id == id {
      var j :| 0 <= j < |found| && found[j] == kept[i];
    }
    if i :| 0 <= i < |found| && found[i].id == id {
      assert found[i] in found;
    }
  }

  lemma SortedKeepsMembers(deduped: seq<Candidate>, c: Candidate)
    ensures c in Sort(deduped, KeyLe) <==> c in deduped
  {
    SortIsPermutation(deduped, KeyLe);
    assert c in Sort(deduped, KeyLe) <==> c in multiset(Sort(deduped, KeyLe));
    assert c in deduped <==> c in multiset(deduped);
  }

  /** What a scan reports: of everything its rules and marks yield, in the order they are tried,
      exactly the candidates no earlier one shares its id with. */
  lemma ReportedExactlyWhenFirst(observations: seq<Observation>, asset: Option<string>, raw: Option<string>,
                                 kb: Knowledge, rt: Runtime, c: Candidate)
    ensures c in Candidates(observations, asset, raw, kb, rt)
      <==> IsSomeFirst(Found(observations, asset, raw, kb, rt), c)
  {
    var found := Found(observations, asset, raw, kb, rt);
    KeptExactlyWhenFirst(found, c);
    SortedKeepsMembers(Deduped(found), c);
  }

  /** One service open over two protocols is two facts and one candidate: the protocol is not in the
      id, so whatever rule fires on both, the second is lost. */
  lemma SecondProtocolIsLost(rule: Rule, o: Observation, protocol: Option<string>, asset: Option<string>,
                             raw: Option<string>, kb: Knowledge, rt: Runtime)
    requires Fires(rule, o, kb) && protocol != o.protocol
    ensures var p := o.(protocol := protocol);
      && Fires(rule, p, kb) && CandidateOf(rule, p, rt) != CandidateOf(rule, o, rt)
      && CandidateOf(rule, p, rt) !in Candidates([o, p], asset, raw, kb, rt)
  {
    var p := o.(protocol := protocol);
    var c, found := CandidateOf(rule, p, rt), Found([o, p], asset, raw, kb, rt);
    var first := YieldsOf(o, kb, rt);
    assert Fires(rule, p, kb);
    assert FiredOn(o, CandidateOf(rule, o, rt), kb, rt);
    YieldsOfMembers(o, CandidateOf(rule, o, rt), kb, rt);
    YieldsOfMembers(o, c, kb, rt);
    var rest := FoundStarts(o, p, asset, raw, kb, rt);
    var k :| 0 <= k < |first| && first[k] == CandidateOf(rule, o, rt);
    NotFirstAfter(first, rest, k, c);
    ReportedExactlyWhenFirst([o, p], asset, raw, kb, rt, c);
  }

  lemma FoundStarts(o: Observation, p: Observation, asset: Option<string>, raw: Option<string>, kb: Knowledge,
                    rt: Runtime) returns (rest: seq<Candidate>)
    ensures Found([o, p], asset, raw, kb, rt) == YieldsOf(o, kb, rt) + rest
  {
    var lists := YieldLists([o, p], kb, rt);
    assert lists == [] + [YieldsOf(o, kb, rt)] + [YieldsOf(p, kb, rt)];
    OneMoreList([], YieldsOf(o, kb, rt));
    OneMoreList([] + [YieldsOf(o, kb, rt)], YieldsOf(p, kb, rt));
    rest := YieldsOf(p, kb, rt) + Injections(AllMarks([o, p], asset, raw, rt), rt);
  }

  lemma NotFirstAfter(first: seq<Candidate>, rest: seq<Candidate>, k: nat, c: Candidate)
    requires k < |first| && first[k].id == c.id && c !in first
    ensures !IsSomeFirst(first + rest, c)
  {
    var all := first + rest;
    forall i | 0 <= i < |first| ensures all[i] != c {
      assert all[i] == first[i] && first[i] in first;
    }
    assert all[k] == first[k];
  }

  /** The ids of a scan: the ids of the rules that fire on it and of its injection marks, no more
      and no fewer, whatever collisions the digest produces. */
  lemma IdsAreThoseThatFire(observations: seq<Observation>, asset: Option<string>, raw: Option<string>,
                            kb: Knowledge, rt: Runtime, id: string)
    ensures HasId(Candidates(observations, asset, raw, kb, rt), id)
      <==> || (exists rule, o :: o in observations && Fires(rule, o, kb) && CandidateOf(rule, o, rt).id == id)
           || (exists m :: MarkStands(observations, asset, raw, rt, m) && Injection(m, rt).id == id)
  {
    MarksAreThoseThatStand(observations, asset, raw, rt);
    var found := Found(observations, asset, raw, kb, rt);
    var candidates := Candidates(observations, asset, raw, kb, rt);
    DedupeKeepsIds(found);
    SortIsPermutation(Deduped(found), KeyLe);
    assert forall c :: c in candidates <==> c in Deduped(found) by {
      assert forall c :: c in candidates <==> c in multiset(candidates);
      assert forall c :: c in Deduped(found) <==> c in multiset(Deduped(found));
    }
    if HasId(candidates, id) {
      var i :| 0 <= i < |candidates| && candidates[i].id == id;
      var c := candidates[i];
      assert c in candidates;
      AllYieldsMembers(observations, c, kb, rt);
      InjectionMembers(AllMarks(observations, asset, raw, rt), c, rt);
    }
    if rule, o :| o in observations && Fires(rule, o, kb) && CandidateOf(rule, o, rt).id == id {
      AllYieldsMembers(observations, CandidateOf(rule, o, rt), kb, rt);
      assert FiredOn(o, CandidateOf(rule, o, rt), kb, rt);
      IdSurvives(candidates, found, CandidateOf(rule, o, rt));
    }
    if m :| MarkStands(observations, asset, raw, rt, m) && Injection(m, rt).id == id {
      InjectionMembers(AllMarks(observations, asset, raw, rt), Injection(m, rt), rt);
      IdSurvives(candidates, found, Injection(m, rt));
    }
  }

  lemma IdSurvives(candidates: seq<Candidate>, found: seq<Candidate>, c: Candidate)
    requires c in found && forall d :: d in candidates <==> d in Deduped(found)
    ensures HasId(candidates, c.id)
  {
    DedupeKeepsIds(found);
    var deduped := Deduped(found);
    var i :| 0 <= i < |deduped| && deduped[i].id == c.id;
    assert deduped[i] in candidates;
  }

  /** With a port, what tells two observations of one place apart is fixed by the rule: no service,
      product, version or banner enters it. */
  lemma BannerIsNotInTheId(rule: Rule, before: Observation, after: Observation)
    requires before.port.Some? && after.port.Some?
    ensures DiscriminatorFor(rule, before) == DiscriminatorFor(rule, after)
  {
  }

  /** A fact that fires again keeps its id: whatever else the new scan reads there, under whichever
      protocol, and whatever rule entry now fires under that rule id, the id the old observation gave
      is among the new scan's ids. */
  lemma FactKeepsItsId(rule: Rule, before: Observation, again: Rule, after: Observation,
                       observations: seq<Observation>, asset: Option<string>, raw: Option<string>,
                       kb: Knowledge, rt: Runtime)
    requires after in observations && Fires(again, after, kb) && RuleIdOf(again) == RuleIdOf(rule)
    requires before.host == after.host && before.port == after.port
    requires DiscriminatorFor(rule, before) == DiscriminatorFor(again, after)
    ensures HasId(Candidates(observations, asset, raw, kb, rt), CandidateOf(rule, before, rt).id)
  {
    assert CandidateOf(rule, before, rt).id == CandidateOf(again, after, rt).id;
    IdsAreThoseThatFire(observations, asset, raw, kb, rt, CandidateOf(again, after, rt).id);
  }
}
