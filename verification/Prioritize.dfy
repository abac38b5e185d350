/** Remediation ranking: an additive score out of 100 per candidate, a stable order, and the
    per-asset aggregate.

    Every point value is a whole number, so the rounding of a sum to two places changes nothing
    and scores are natural numbers; the aggregate takes any real scores.
 */
module Prioritize {
  import opened Wrappers
  import opened Contracts
  import opened Sorting
  import opened Text
  import Rules

  type Candidate = Rules.Candidate

  const MAX_SCORE: nat := 100

  datatype PriorityInputs = PriorityInputs(exposure: string, exploit: string, authentication: string,
                                           criticality: string, assetType: string)

  /** One named contribution and the most it could have been. */
  datatype Factor = Factor(name: string, points: nat, maxPoints: nat)

  function SeverityPoints(s: Severity): nat {
    match s
    case Critical => 35
    case High => 26
    case Medium => 15
    case Low => 6
    case Info => 1
  }

  function ExposurePoints(s: string): nat {
    if s == "internet" then 22 else if s == "internal" then 5 else 11
  }

  function ExploitPoints(s: string): nat {
    if s == "known-exploited" then 18
    else if s == "public-exploit" then 13
    else if s == "likely" then 8
    else if s == "none" then 0
    else 4
  }

  function AuthPoints(s: string): nat {
    if s == "none" then 10 else if s == "single" then 3 else if s == "multiple" then 0 else 5
  }

  function CriticalityPoints(s: string): nat {
    if s == "critical" then 8 else if s == "high" then 6 else if s == "low" then 0 else 3
  }

  function AssetTypePoints(s: string): nat {
    if s == "database" || s == "gateway" || s == "directory" then 7
    else if s == "server" then 4
    else if s == "workstation" then 2
    else 3
  }

  const DATABASE_PORTS: set<nat> := {1433, 1521, 3306, 5432, 6379, 9200, 11211, 27017, 27018}
  const GATEWAY_PORTS: set<nat> := {23, 3389, 5900, 8291}
  const DIRECTORY_PORTS: set<nat> := {389, 636, 3268, 3269}

  function InferAssetType(c: Candidate): string {
    var service := Lower(Rules.OrElse(c.service, ""));
    if c.port.None? then "container"
    else if c.port.value in DATABASE_PORTS
         || Rules.Contains(service, "sql") || Rules.Contains(service, "redis")
         || Rules.Contains(service, "mongo") || Rules.Contains(service, "elastic")
         || Rules.Contains(service, "memcach") then "database"
    else if c.port.value in DIRECTORY_PORTS || Rules.Contains(service, "ldap") then "directory"
    else if c.port.value in GATEWAY_PORTS then "gateway"
    else "server"
  }

  function Factors(c: Candidate, inputs: PriorityInputs): seq<Factor> {
    var assetType := if inputs.assetType == "unknown" then InferAssetType(c) else inputs.assetType;
    [Factor("severity", SeverityPoints(c.severity), 35),
     Factor("internet_exposure", ExposurePoints(inputs.exposure), 22),
     Factor("exploit_availability", ExploitPoints(inputs.exploit), 18),
     Factor("authentication_required", AuthPoints(inputs.authentication), 10),
     Factor("business_criticality", CriticalityPoints(inputs.criticality), 8),
     Factor("asset_type", AssetTypePoints(assetType), 7)]
  }

  function Points(factors: seq<Factor>): nat {
    if factors == [] then 0 else Points(factors[..|factors| - 1]) + factors[|factors| - 1].points
  }

  function Score(c: Candidate, inputs: PriorityInputs): nat {
    Points(Factors(c, inputs))
  }

  function MaxPoints(factors: seq<Factor>): nat {
    if factors == [] then 0 else MaxPoints(factors[..|factors| - 1]) + factors[|factors| - 1].maxPoints
  }

  lemma {:induction false} PointsWithinMaxima(factors: seq<Factor>)
    requires forall i :: 0 <= i < |factors| ==> factors[i].points <= factors[i].maxPoints
    ensures Points(factors) <= MaxPoints(factors)
  {
    if factors != [] {
      PointsWithinMaxima(factors[..|factors| - 1]);
    }
  }

  /** No factor exceeds its stated maximum, the maxima add up to 100, so no score exceeds 100. */
  lemma ScoresAreOutOfOneHundred(c: Candidate, inputs: PriorityInputs)
    ensures var factors := Factors(c, inputs);
      && (forall i :: 0 <= i < |factors| ==> factors[i].points <= factors[i].maxPoints)
      && MaxPoints(factors) == MAX_SCORE && Score(c, inputs) <= MAX_SCORE
  {
    var f := Factors(c, inputs);
    PointsWithinMaxima(f);
    assert f[..5][..4] == f[..4] && f[..4][..3] == f[..3] && f[..3][..2] == f[..2];
    assert f[..2][..1] == f[..1] && f[..1][..0] == [];
    assert MaxPoints(f[..1]) == 35;
    assert MaxPoints(f[..2]) == 57;
    assert MaxPoints(f[..3]) == 75;
    assert MaxPoints(f[..4]) == 85;
    assert MaxPoints(f[..5]) == 93;
  }

  // ----- the queue -----

  datatype Priority = Priority(candidateId: string, score: nat, rank: nat, factors: seq<Factor>)

  datatype Scored = Scored(score: nat, position: nat, candidate: Candidate, factors: seq<Factor>)

  /** Higher score first, then the order the candidates came in. */
  predicate ScoredLe(a: Scored, b: Scored) {
    a.score > b.score || (a.score == b.score && a.position <= b.position)
  }

  function InputsFor(c: Candidate, lookup: map<string, PriorityInputs>, fallback: PriorityInputs):
    PriorityInputs
  {
    if c.id in lookup then lookup[c.id] else fallback
  }

  function ScoredAt(candidates: seq<Candidate>, i: nat, lookup: map<string, PriorityInputs>,
                    fallback: PriorityInputs): Scored
    requires i < |candidates|
  {
    var inputs := InputsFor(candidates[i], lookup, fallback);
    Scored(Score(candidates[i], inputs), i, candidates[i], Factors(candidates[i], inputs))
  }

  /** A queue over the candidates: order names the candidate behind each place. */
  ghost predicate IsQueue(queue: seq<Priority>, order: seq<nat>, candidates: seq<Candidate>,
                          lookup: map<string, PriorityInputs>, fallback: PriorityInputs)
  {
    && |queue| == |order| == |candidates|
    && (forall i :: 0 <= i < |order| ==> order[i] < |candidates|)
    && (forall i, j :: 0 <= i < j < |order| ==> order[i] != order[j])
    && (forall i :: 0 <= i < |queue| ==>
          queue[i] == Priority(candidates[order[i]].id,
                               ScoredAt(candidates, order[i], lookup, fallback).score, i + 1,
                               ScoredAt(candidates, order[i], lookup, fallback).factors))
    && (forall i, j :: 0 <= i < j < |queue| ==>
          queue[i].score > queue[j].score || (queue[i].score == queue[j].score && order[i] < order[j]))
  }

  /** Score in order, sort, number. Every candidate appears once, ranks run from one, scores never
      rise, and candidates with equal scores keep the order they came in. */
  method PrioritizeCandidates(candidates: seq<Candidate>, lookup: map<string, PriorityInputs>,
                              fallback: PriorityInputs)
    returns (queue: seq<Priority>)
    ensures exists order :: IsQueue(queue, order, candidates, lookup, fallback)
  {
    var scored: seq<Scored> := [];
    for i := 0 to |candidates|
      invariant |scored| == i
      invariant forall k :: 0 <= k < i ==> scored[k] == ScoredAt(candidates, k, lookup, fallback)
    {
      scored := scored + [ScoredAt(candidates, i, lookup, fallback)];
    }
    var sorted := Sort(scored, ScoredLe);
    SortSorts(scored, ScoredLe);
    ghost var order := SortedPositions(candidates, scored, sorted, lookup, fallback);
    queue := Numbered(sorted);
    assert IsQueue(queue, order, candidates, lookup, fallback);
  }

  /** The final pass: ranks from one. */
  method Numbered(sorted: seq<Scored>) returns (queue: seq<Priority>)
    ensures |queue| == |sorted|
    ensures forall k :: 0 <= k < |queue| ==>
      queue[k] == Priority(sorted[k].candidate.id, sorted[k].score, k + 1, sorted[k].factors)
  {
    queue := [];
    for i := 0 to |sorted|
      invariant |queue| == i
      invariant forall k :: 0 <= k < i ==>
        queue[k] == Priority(sorted[k].candidate.id, sorted[k].score, k + 1, sorted[k].factors)
    {
      queue := queue + [Priority(sorted[i].candidate.id, sorted[i].score, i + 1, sorted[i].factors)];
    }
  }

  /** Where each sorted row came from: its position, each exactly once. */
  lemma SortedPositions(candidates: seq<Candidate>, scored: seq<Scored>, sorted: seq<Scored>,
                        lookup: map<string, PriorityInputs>, fallback: PriorityInputs)
    returns (order: seq<nat>)
    requires |scored| == |candidates| && sorted == Sort(scored, ScoredLe)
    requires forall k :: 0 <= k < |scored| ==> scored[k] == ScoredAt(candidates, k, lookup, fallback)
    ensures |order| == |sorted| == |candidates|
    ensures forall i :: 0 <= i < |order| ==>
      order[i] < |candidates| && sorted[i] == ScoredAt(candidates, order[i], lookup, fallback)
    ensures forall i, j :: 0 <= i < j < |order| ==> order[i] != order[j]
  {
    SortIsPermutation(scored, ScoredLe);
    forall i | 0 <= i < |sorted| ensures sorted[i] in scored {
      assert sorted[i] in multiset(scored);
    }
    order := seq(|sorted|, i requires 0 <= i < |sorted| => sorted[i].position);
    forall x | x in multiset(scored) ensures multiset(scored)[x] == 1 {
      OnlyOnce(scored, x);
    }
    forall i, j | 0 <= i < j < |order| ensures order[i] != order[j] {
      if order[i] == order[j] {
        assert sorted[i] == sorted[j];
        TwiceCountsTwo(sorted, i, j);
      }
    }
  }

  lemma OnlyOnce(scored: seq<Scored>, x: Scored)
    requires x in scored && forall k :: 0 <= k < |scored| ==> scored[k].position == k
    ensures multiset(scored)[x] == 1
  {
    var k := x.position;
    assert scored == scored[..k] + [x] + scored[k + 1..];
    assert x !in scored[..k] && x !in scored[k + 1..];
    assert multiset(scored) == multiset(scored[..k]) + multiset{x} + multiset(scored[k + 1..]);
  }

  lemma TwiceCountsTwo(s: seq<Scored>, i: nat, j: nat)
    requires i < j < |s| && s[i] == s[j]
    ensures multiset(s)[s[i]] >= 2
  {
    assert s == s[..i] + [s[i]] + s[i + 1..j] + [s[j]] + s[j + 1..];
  }
}
