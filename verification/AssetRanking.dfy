/** Aggregate risk per asset: which assets are worst, ranked by their single worst finding. */
module AssetRanking {
  import opened Wrappers
  import opened Contracts
  import opened Sorting
  import opened Text
  import Rules

  type Candidate = Rules.Candidate

  /** The two fields of a priority the aggregate reads. */
  datatype Ranked = Ranked(candidateId: string, score: real)

  /** A priority whose candidate is known, reduced to what is aggregated. */
  datatype Item = Item(host: string, score: real, severity: Severity)

  datatype AssetRisk = AssetRisk(asset: string, findingCount: nat, topScore: real, totalScore: real,
                                 worstSeverity: Severity, severities: map<Severity, nat>)

  /** `{c.candidate_id: c for c in candidates}`: the last one wins. */
  function ById(candidates: seq<Candidate>): map<string, Candidate> {
    if candidates == [] then map[]
    else ById(candidates[..|candidates| - 1])[candidates[|candidates| - 1].id := candidates[|candidates| - 1]]
  }

  function Items(priorities: seq<Ranked>, byId: map<string, Candidate>): seq<Item> {
    if priorities == [] then [] else
      var p := priorities[|priorities| - 1];
      Items(priorities[..|priorities| - 1], byId)
        + (if p.candidateId in byId
           then [Item(byId[p.candidateId].host, p.score, byId[p.candidateId].severity)] else [])
  }

  function OnHost(items: seq<Item>, host: string): seq<Item> {
    if items == [] then [] else
      var last := items[|items| - 1];
      OnHost(items[..|items| - 1], host) + (if last.host == host then [last] else [])
  }

  function MaxScore(items: seq<Item>): real
    requires items != []
  {
    var last := items[|items| - 1].score;
    if |items| == 1 then last else
      var rest := MaxScore(items[..|items| - 1]);
      if last > rest then last else rest
  }

  function Total(items: seq<Item>): real {
    if items == [] then 0.0 else Total(items[..|items| - 1]) + items[|items| - 1].score
  }

  function Tally(items: seq<Item>): map<Severity, nat> {
    if items == [] then map[] else
      var rest, s := Tally(items[..|items| - 1]), items[|items| - 1].severity;
      rest[s := (if s in rest then rest[s] else 0) + 1]
  }

  /** The worst severity the tally names. */
  function Worst(tally: map<Severity, nat>): Severity {
    if Critical in tally then Critical
    else if High in tally then High
    else if Medium in tally then Medium
    else if Low in tally then Low
    else Info
  }

  function RiskOf(host: string, items: seq<Item>): AssetRisk
    requires items != []
  {
    AssetRisk(host, |items|, MaxScore(items), Total(items), Worst(Tally(items)), Tally(items))
  }

  /** Worse top score first, then worse total, then by name. */
  predicate RiskLe(a: AssetRisk, b: AssetRisk) {
    if a.topScore != b.topScore then a.topScore > b.topScore
    else if a.totalScore != b.totalScore then a.totalScore > b.totalScore
    else StringLe(a.asset, b.asset)
  }

  function ItemsAt(groups: map<string, seq<Item>>, host: string): seq<Item> {
    if host in groups then groups[host] else []
  }

  function Registered(hosts: seq<string>, groups: map<string, seq<Item>>, host: string): seq<string> {
    if host in groups then hosts else hosts + [host]
  }

  /** The host dictionary: its keys in insertion order, and the items under each. */
  ghost predicate IsGrouped(hosts: seq<string>, groups: map<string, seq<Item>>, items: seq<Item>) {
    && (forall h :: h in hosts <==> h in groups)
    && (forall i, j :: 0 <= i < j < |hosts| ==> hosts[i] != hosts[j])
    && (forall h :: ItemsAt(groups, h) == OnHost(items, h))
    && (forall h :: h in groups ==> groups[h] != [])
  }

  lemma OnHostAppend(items: seq<Item>, x: Item, host: string)
    ensures OnHost(items + [x], host)
         == if x.host == host then OnHost(items, host) + [x] else OnHost(items, host)
  {
    assert (items + [x])[..|items|] == items;
    assert OnHost(items, host) + [] == OnHost(items, host);
  }

  lemma GroupGrows(hosts: seq<string>, groups: map<string, seq<Item>>, items: seq<Item>, x: Item)
    requires IsGrouped(hosts, groups, items)
    ensures IsGrouped(Registered(hosts, groups, x.host), groups[x.host := ItemsAt(groups, x.host) + [x]], items + [x])
  {
    var after := groups[x.host := ItemsAt(groups, x.host) + [x]];
    forall h: string ensures ItemsAt(after, h) == OnHost(items + [x], h) {
      OnHostAppend(items, x, h);
    }
  }

  method GroupByHost(items: seq<Item>) returns (hosts: seq<string>, groups: map<string, seq<Item>>)
    ensures IsGrouped(hosts, groups, items)
  {
    hosts, groups := [], map[];
    for i := 0 to |items|
      invariant IsGrouped(hosts, groups, items[..i])
    {
      var item := items[i];
      assert items[..i + 1] == items[..i] + [item];
      GroupGrows(hosts, groups, items[..i], item);
      hosts := Registered(hosts, groups, item.host);
      groups := groups[item.host := ItemsAt(groups, item.host) + [item]];
    }
    assert items[..|items|] == items;
  }

  /** A ranking of the assets of the items. */
  ghost predicate IsRanking(risks: seq<AssetRisk>, items: seq<Item>) {
    && (forall i :: 0 <= i < |risks| ==>
          OnHost(items, risks[i].asset) != [] && risks[i] == RiskOf(risks[i].asset, OnHost(items, risks[i].asset)))
    && (forall h :: OnHost(items, h) != [] ==> exists i :: 0 <= i < |risks| && risks[i].asset == h)
    && (forall i, j :: 0 <= i < j < |risks| ==> risks[i].asset != risks[j].asset)
    && (forall i, j :: 0 <= i < j < |risks| ==> RiskLe(risks[i], risks[j]) && !RiskLe(risks[j], risks[i]))
  }

  function Risks(hosts: seq<string>, items: seq<Item>): (risks: seq<AssetRisk>)
    requires forall i :: 0 <= i < |hosts| ==> OnHost(items, hosts[i]) != []
    ensures |risks| == |hosts|
    ensures forall i :: 0 <= i < |hosts| ==> risks[i] == RiskOf(hosts[i], OnHost(items, hosts[i]))
  {
    seq(|hosts|, i requires 0 <= i < |hosts| => RiskOf(hosts[i], OnHost(items, hosts[i])))
  }

  /** Group, aggregate, sort. Each asset with a finding appears once with its own figures, and the
      order is strict: no two assets tie. */
  method RankAssets(candidates: seq<Candidate>, priorities: seq<Ranked>) returns (risks: seq<AssetRisk>)
    ensures IsRanking(risks, Items(priorities, ById(candidates)))
  {
    var byId: map<string, Candidate> := map[];
    for i := 0 to |candidates|
      invariant byId == ById(candidates[..i])
    {
      assert candidates[..i + 1][..i] == candidates[..i];
      byId := byId[candidates[i].id := candidates[i]];
    }
    assert candidates[..|candidates|] == candidates;
    var items: seq<Item> := [];
    for i := 0 to |priorities|
      invariant items == Items(priorities[..i], byId)
    {
      assert priorities[..i + 1][..i] == priorities[..i];
      var p := priorities[i];
      if p.candidateId in byId {
        items := items + [Item(byId[p.candidateId].host, p.score, byId[p.candidateId].severity)];
      }
    }
    assert priorities[..|priorities|] == priorities;
    var hosts, groups := GroupByHost(items);
    forall i | 0 <= i < |hosts| ensures OnHost(items, hosts[i]) != [] {
      assert hosts[i] in groups;
    }
    var unsorted := Risks(hosts, items);
    risks := Sort(unsorted, RiskLe);
    SortedRisksAreRanked(hosts, groups, items, unsorted, risks);
  }

  lemma RisksAreOrdered()
    ensures TotalPreorder(RiskLe)
  {
    StringsAreOrdered();
  }

  lemma SortedRisksAreRanked(hosts: seq<string>, groups: map<string, seq<Item>>, items: seq<Item>,
                             unsorted: seq<AssetRisk>, risks: seq<AssetRisk>)
    requires IsGrouped(hosts, groups, items)
    requires forall i :: 0 <= i < |hosts| ==> OnHost(items, hosts[i]) != []
    requires unsorted == Risks(hosts, items) && risks == Sort(unsorted, RiskLe)
    ensures IsRanking(risks, items)
  {
    RisksAreOrdered();
    SortSorts(unsorted, RiskLe);
    SortIsPermutation(unsorted, RiskLe);
    MembersOfPermutation(unsorted, risks);
    DistinctAssets(unsorted, risks);
    StrictlyRanked(risks);
    forall h | OnHost(items, h) != [] ensures exists i :: 0 <= i < |risks| && risks[i].asset == h {
      assert h in groups && h in hosts;
      var k :| 0 <= k < |hosts| && hosts[k] == h;
      assert unsorted[k] in risks;
    }
    forall i | 0 <= i < |risks|
      ensures OnHost(items, risks[i].asset) != []
      ensures risks[i] == RiskOf(risks[i].asset, OnHost(items, risks[i].asset))
    {
      assert risks[i] in unsorted;
    }
  }

  lemma StrictlyRanked(risks: seq<AssetRisk>)
    requires Sorted(risks, RiskLe)
    requires forall i, j :: 0 <= i < j < |risks| ==> risks[i].asset != risks[j].asset
    ensures forall i, j :: 0 <= i < j < |risks| ==> RiskLe(risks[i], risks[j]) && !RiskLe(risks[j], risks[i])
  {
    forall i, j | 0 <= i < j < |risks| ensures RiskLe(risks[i], risks[j]) && !RiskLe(risks[j], risks[i]) {
      assert RiskLe(risks[i], risks[j]);
      if RiskLe(risks[j], risks[i]) { StringLeAntisymmetric(risks[i].asset, risks[j].asset); }
    }
  }

  lemma MembersOfPermutation(a: seq<AssetRisk>, b: seq<AssetRisk>)
    requires multiset(a) == multiset(b)
    ensures forall x :: x in a <==> x in b
  {
    assert forall x :: x in a <==> x in multiset(a);
    assert forall x :: x in b <==> x in multiset(b);
  }

  lemma {:induction false} DistinctAssets(a: seq<AssetRisk>, b: seq<AssetRisk>)
    requires multiset(a) == multiset(b)
    requires forall i, j :: 0 <= i < j < |a| ==> a[i].asset != a[j].asset
    ensures forall i, j :: 0 <= i < j < |b| ==> b[i].asset != b[j].asset
    decreases |a|
  {
    if a == [] {
      assert |multiset(b)| == 0;
    } else {
      var k := CutLast(a, b);
      var init, rest := a[..|a| - 1], b[..k] + b[k + 1..];
      DistinctAssets(init, rest);
      MembersOfPermutation(init, rest);
      forall i | 0 <= i < |b| && i != k ensures b[i].asset != b[k].asset {
        assert b[i] == rest[if i < k then i else i - 1];
        assert b[i] in init;
      }
      forall i, j | 0 <= i < j < |b| && i != k && j != k ensures b[i].asset != b[j].asset {
        assert b[i] == rest[if i < k then i else i - 1] && b[j] == rest[if j < k then j else j - 1];
      }
    }
  }

  // ----- what the figures mean -----

  function CountOf(items: seq<Item>, s: Severity): nat {
    if items == [] then 0
    else CountOf(items[..|items| - 1], s) + (if items[|items| - 1].severity == s then 1 else 0)
  }

  lemma {:induction false} TallyCounts(items: seq<Item>)
    ensures forall s :: (if s in Tally(items) then Tally(items)[s] else 0) == CountOf(items, s)
    ensures forall s :: s in Tally(items) <==> CountOf(items, s) > 0
    ensures CountOf(items, Info) + CountOf(items, Low) + CountOf(items, Medium) + CountOf(items, High)
          + CountOf(items, Critical) == |items|
  {
    if items != [] {
      var n := |items| - 1;
      TallyCounts(items[..n]);
    }
  }

  lemma {:induction false} TallyNames(items: seq<Item>, s: Severity)
    ensures s in Tally(items) <==> exists x :: x in items && x.severity == s
  {
    if items != [] {
      var n := |items| - 1;
      TallyNames(items[..n], s);
      assert items == items[..n] + [items[n]];
      assert items[n] in items;
    }
  }

  /** An asset's figures agree with its own findings: the top score is reached and not exceeded,
      the worst severity likewise, and the tally counts each severity and adds up. */
  lemma {:induction false} FiguresAgree(host: string, items: seq<Item>)
    requires items != []
    ensures var r := RiskOf(host, items);
      && (exists x :: x in items && x.score == r.topScore)
      && (forall x :: x in items ==> x.score <= r.topScore)
      && (exists x :: x in items && x.severity == r.worstSeverity)
      && (forall x :: x in items ==> SeverityOrder(x.severity) <= SeverityOrder(r.worstSeverity))
      && (forall s :: s in r.severities ==> r.severities[s] == CountOf(items, s))
  {
    TallyCounts(items);
    forall s { TallyNames(items, s); }
    MaxIsReached(items);
    assert items[0] in items && items[0].severity in Tally(items);
  }

  lemma {:induction false} MaxIsReached(items: seq<Item>)
    requires items != []
    ensures exists x :: x in items && x.score == MaxScore(items)
    ensures forall x :: x in items ==> x.score <= MaxScore(items)
  {
    var n := |items| - 1;
    assert items == items[..n] + [items[n]];
    assert items[n] in items;
    if n > 0 {
      MaxIsReached(items[..n]);
      var x :| x in items[..n] && x.score == MaxScore(items[..n]);
      assert x in items;
    }
  }

  function SumCounts(risks: seq<AssetRisk>): nat {
    if risks == [] then 0 else SumCounts(risks[..|risks| - 1]) + risks[|risks| - 1].findingCount
  }

  function SumTotals(risks: seq<AssetRisk>): real {
    if risks == [] then 0.0 else SumTotals(risks[..|risks| - 1]) + risks[|risks| - 1].totalScore
  }

  /** Number and total of the items on any of the ranked assets. */
  function CountOn(risks: seq<AssetRisk>, items: seq<Item>): nat {
    if risks == [] then 0 else CountOn(risks[..|risks| - 1], items) + |OnHost(items, risks[|risks| - 1].asset)|
  }

  function TotalOn(risks: seq<AssetRisk>, items: seq<Item>): real {
    if risks == [] then 0.0 else TotalOn(risks[..|risks| - 1], items) + Total(OnHost(items, risks[|risks| - 1].asset))
  }

  lemma TotalAppend(items: seq<Item>, x: Item)
    ensures Total(items + [x]) == Total(items) + x.score
  {
    assert (items + [x])[..|items|] == items;
  }

  predicate Ranks(risks: seq<AssetRisk>, host: string) {
    exists i :: 0 <= i < |risks| && risks[i].asset == host
  }

  lemma RanksLast(risks: seq<AssetRisk>, host: string)
    requires risks != []
    ensures Ranks(risks, host) <==> Ranks(risks[..|risks| - 1], host) || risks[|risks| - 1].asset == host
  {
    if Ranks(risks[..|risks| - 1], host) {
      var i :| 0 <= i < |risks| - 1 && risks[..|risks| - 1][i].asset == host;
      assert risks[i].asset == host;
    }
  }

  lemma {:induction false} OneMoreItem(risks: seq<AssetRisk>, items: seq<Item>, x: Item)
    requires forall i, j :: 0 <= i < j < |risks| ==> risks[i].asset != risks[j].asset
    ensures var here := Ranks(risks, x.host);
      && CountOn(risks, items + [x]) == CountOn(risks, items) + (if here then 1 else 0)
      && TotalOn(risks, items + [x]) == TotalOn(risks, items) + (if here then x.score else 0.0)
  {
    if risks != [] {
      var n := |risks| - 1;
      OneMoreItem(risks[..n], items, x);
      RanksLast(risks, x.host);
      assert risks[n].asset == x.host ==> !Ranks(risks[..n], x.host);
      OneMoreOnAsset(risks[n].asset, items, x);
    }
  }

  lemma OneMoreOnAsset(host: string, items: seq<Item>, x: Item)
    ensures |OnHost(items + [x], host)| == |OnHost(items, host)| + (if x.host == host then 1 else 0)
    ensures Total(OnHost(items + [x], host)) == Total(OnHost(items, host)) + (if x.host == host then x.score else 0.0)
  {
    OnHostAppend(items, x, host);
    TotalAppend(OnHost(items, host), x);
  }

  lemma {:induction false} EveryItemIsOnOneAsset(risks: seq<AssetRisk>, items: seq<Item>)
    requires forall i, j :: 0 <= i < j < |risks| ==> risks[i].asset != risks[j].asset
    requires forall x :: x in items ==> Ranks(risks, x.host)
    ensures CountOn(risks, items) == |items| && TotalOn(risks, items) == Total(items)
  {
    if items == [] {
      NothingOnAnyAsset(risks);
    } else {
      var n := |items| - 1;
      assert items == items[..n] + [items[n]];
      assert items[n] in items;
      EveryItemIsOnOneAsset(risks, items[..n]);
      OneMoreItem(risks, items[..n], items[n]);
    }
  }

  lemma {:induction false} NothingOnAnyAsset(risks: seq<AssetRisk>)
    ensures CountOn(risks, []) == 0 && TotalOn(risks, []) == 0.0
  {
    if risks != [] { NothingOnAnyAsset(risks[..|risks| - 1]); }
  }

  lemma {:induction false} SumsAreOn(risks: seq<AssetRisk>, items: seq<Item>)
    requires forall i :: 0 <= i < |risks| ==>
      OnHost(items, risks[i].asset) != [] && risks[i] == RiskOf(risks[i].asset, OnHost(items, risks[i].asset))
    ensures SumCounts(risks) == CountOn(risks, items) && SumTotals(risks) == TotalOn(risks, items)
  {
    if risks != [] {
      SumsAreOn(risks[..|risks| - 1], items);
    }
  }

  lemma {:induction false} HostHasItsItems(items: seq<Item>, x: Item)
    requires x in items
    ensures OnHost(items, x.host) != []
  {
    var n := |items| - 1;
    if items[n] != x {
      assert items == items[..n] + [items[n]];
      HostHasItsItems(items[..n], x);
    }
  }

  /** Nothing is lost and nothing counted twice: over the ranking, the finding counts add up to the
      priorities with a known candidate, and the totals to their scores. */
  lemma RankingConserves(risks: seq<AssetRisk>, items: seq<Item>)
    requires IsRanking(risks, items)
    ensures SumCounts(risks) == |items| && SumTotals(risks) == Total(items)
  {
    SumsAreOn(risks, items);
    forall x | x in items ensures Ranks(risks, x.host) {
      HostHasItsItems(items, x);
    }
    EveryItemIsOnOneAsset(risks, items);
  }

  /** Ranked on the single worst finding: an asset never stands below one whose every finding
      scores less than its own best. */
  lemma WorstFindingLeads(risks: seq<AssetRisk>, items: seq<Item>, i: nat, j: nat, x: Item)
    requires IsRanking(risks, items) && i < |risks| && j < |risks|
    requires x in OnHost(items, risks[i].asset)
    requires forall y :: y in OnHost(items, risks[j].asset) ==> y.score < x.score
    ensures i < j
  {
    assert j < i ==> RiskLe(risks[j], risks[i]);
    FiguresAgree(risks[i].asset, OnHost(items, risks[i].asset));
    FiguresAgree(risks[j].asset, OnHost(items, risks[j].asset));
  }
}
