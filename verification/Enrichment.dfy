/** From detection to the reported severity: keep the heaviest indicators, fold enrichment's into
    them, score the result, and let the model raise the severity but never lower it.

    A dictionary keyed by indicator id is an insertion-ordered sequence of indicators here.
 */
module Enrichment {
  import opened Wrappers
  import opened Contracts
  import opened Sorting
  import opened Text
  import opened Scoring

  predicate HasId(s: seq<Indicator>, id: string) {
    exists i :: 0 <= i < |s| && s[i].id == id
  }

  /** `combined[x.id] = x`: a known id keeps its place and takes the new value. */
  function Put(s: seq<Indicator>, x: Indicator): seq<Indicator> {
    if s == [] then [x]
    else if s[0].id == x.id then [x] + s[1..]
    else [s[0]] + Put(s[1..], x)
  }

  /** `combined.setdefault(x.id, x)`: a known id keeps its value. */
  function SetDefault(s: seq<Indicator>, x: Indicator): seq<Indicator> {
    if HasId(s, x.id) then s else s + [x]
  }

  function FromExisting(existing: seq<Indicator>): seq<Indicator> {
    if existing == [] then []
    else Put(FromExisting(existing[..|existing| - 1]), existing[|existing| - 1])
  }

  function Folded(combined: seq<Indicator>, added: seq<Indicator>): seq<Indicator> {
    if added == [] then combined
    else SetDefault(Folded(combined, added[..|added| - 1]), added[|added| - 1])
  }

  /** Heaviest first, then by rule and locus. */
  predicate KeyLe(a: Indicator, b: Indicator) {
    if a.weight != b.weight then a.weight > b.weight
    else if a.ruleId != b.ruleId then StringLe(a.ruleId, b.ruleId)
    else StringLe(a.locus, b.locus)
  }

  function Merged(existing: seq<Indicator>, added: seq<Indicator>): seq<Indicator> {
    Sort(Folded(FromExisting(existing), added), KeyLe)
  }

  method Merge(existing: seq<Indicator>, added: seq<Indicator>) returns (merged: seq<Indicator>)
    ensures merged == Merged(existing, added)
    ensures Sorted(merged, KeyLe)
  {
    var combined: seq<Indicator> := [];
    for i := 0 to |existing|
      invariant combined == FromExisting(existing[..i])
    {
      combined := Put(combined, existing[i]);
      assert existing[..i + 1][..i] == existing[..i];
    }
    assert existing[..|existing|] == existing;
    for i := 0 to |added|
      invariant combined == Folded(FromExisting(existing), added[..i])
    {
      combined := SetDefault(combined, added[i]);
      assert added[..i + 1][..i] == added[..i];
    }
    assert added[..|added|] == added;
    KeysAreOrdered();
    SortSorts(combined, KeyLe);
    merged := Sort(combined, KeyLe);
  }

  lemma KeysAreOrdered()
    ensures TotalPreorder(KeyLe)
  {
    StringsAreOrdered();
  }

  // ----- what the merged set holds -----

  lemma {:induction false} PutNew(s: seq<Indicator>, x: Indicator)
    requires !HasId(s, x.id)
    ensures Put(s, x) == s + [x]
  {
    if s != [] {
      assert s[0].id != x.id;
      forall i | 0 <= i < |s[1..]| ensures s[1..][i].id != x.id { assert s[1..][i] == s[i + 1]; }
      PutNew(s[1..], x);
    }
  }

  lemma {:induction false} DistinctIsKept(existing: seq<Indicator>)
    requires DistinctIds(existing)
    ensures FromExisting(existing) == existing
  {
    if existing != [] {
      var n := |existing| - 1;
      DistinctIsKept(existing[..n]);
      PutNew(existing[..n], existing[n]);
      assert existing == existing[..n] + [existing[n]];
    }
  }

  lemma SetDefaultAppends(s: seq<Indicator>, x: Indicator)
    requires DistinctIds(s)
    ensures s <= SetDefault(s, x) && DistinctIds(SetDefault(s, x))
    ensures forall id :: HasId(s, id) || id == x.id ==> HasId(SetDefault(s, x), id)
    ensures !HasId(s, x.id) ==> SetDefault(s, x) == s + [x]
    ensures HasId(s, x.id) ==> SetDefault(s, x) == s
  {
    var after := SetDefault(s, x);
    forall id | HasId(s, id) ensures HasId(after, id) {
      var i :| 0 <= i < |s| && s[i].id == id;
      assert after[i].id == id;
    }
    if !HasId(s, x.id) {
      assert after[|s|].id == x.id;
    }
  }

  /** Folding appends: what was there stays, and only new ids from `added` come behind it. */
  lemma {:induction false} FoldedAppends(combined: seq<Indicator>, added: seq<Indicator>)
    requires DistinctIds(combined)
    ensures combined <= Folded(combined, added) && DistinctIds(Folded(combined, added))
    ensures var folded := Folded(combined, added);
      forall k :: |combined| <= k < |folded| ==>
        folded[k] in added && !HasId(combined, folded[k].id)
    ensures forall x :: x in added ==> HasId(Folded(combined, added), x.id)
  {
    if added != [] {
      var n := |added| - 1;
      FoldedAppends(combined, added[..n]);
      var before := Folded(combined, added[..n]);
      SetDefaultAppends(before, added[n]);
      assert added == added[..n] + [added[n]];
      assert forall x :: x in added ==> x in added[..n] || x == added[n];
      assert forall id :: HasId(combined, id) ==> HasId(before, id);
    }
  }

  lemma MergedIsSorted(existing: seq<Indicator>, added: seq<Indicator>, folded: seq<Indicator>)
    requires folded == Folded(FromExisting(existing), added)
    ensures multiset(Merged(existing, added)) == multiset(folded)
  {
    SortIsPermutation(folded, KeyLe);
  }

  /** Every id is there exactly once, existing indicators are untouched, and nothing else is. */
  lemma MergeAddsOnlyNewIds(existing: seq<Indicator>, added: seq<Indicator>)
    returns (fresh_: seq<Indicator>)
    requires DistinctIds(existing)
    ensures multiset(Merged(existing, added)) == multiset(existing + fresh_)
    ensures DistinctIds(existing + fresh_)
    ensures forall x :: x in fresh_ ==> x in added && !HasId(existing, x.id)
    ensures forall x :: x in added ==> HasId(existing + fresh_, x.id)
  {
    DistinctIsKept(existing);
    FoldedAppends(existing, added);
    var folded := Folded(existing, added);
    fresh_ := folded[|existing|..];
    MergedIsSorted(existing, added, folded);
    SuffixIsNew(existing, added, folded, fresh_);
  }

  lemma SuffixIsNew(existing: seq<Indicator>, added: seq<Indicator>, folded: seq<Indicator>, fresh_: seq<Indicator>)
    requires existing <= folded && fresh_ == folded[|existing|..]
    requires forall k :: |existing| <= k < |folded| ==> folded[k] in added && !HasId(existing, folded[k].id)
    ensures folded == existing + fresh_
    ensures forall x :: x in fresh_ ==> x in added && !HasId(existing, x.id)
  {
    forall x | x in fresh_ ensures x in added && !HasId(existing, x.id) {
      var k :| 0 <= k < |fresh_| && fresh_[k] == x;
      assert folded[|existing| + k] == x;
    }
  }

  // ----- the cap on what the rules found -----

  /** The first indicator of each id, heaviest first. */
  function Detected(found: seq<Indicator>): seq<Indicator> {
    Sort(Folded([], found), KeyLe)
  }

  function Capped(found: seq<Indicator>, cap: nat): seq<Indicator> {
    var detected := Detected(found);
    if |detected| <= cap then detected else detected[..cap]
  }

  lemma {:induction false} InsertIsDistinct(x: Indicator, s: seq<Indicator>)
    requires DistinctIds(s) && !HasId(s, x.id)
    ensures DistinctIds(Insert(x, s, KeyLe))
    ensures forall id :: HasId(Insert(x, s, KeyLe), id) ==> HasId(s, id) || id == x.id
  {
    if s != [] && KeyLe(s[0], x) {
      var rest := s[1..];
      forall id | HasId(rest, id) ensures HasId(s, id) && id != s[0].id {
        var i :| 0 <= i < |rest| && rest[i].id == id;
        assert s[i + 1].id == id;
      }
      InsertIsDistinct(x, rest);
      ConsIsDistinct(s[0], Insert(x, rest, KeyLe));
      assert s[0].id != x.id;
      assert HasId(s, s[0].id);
    } else {
      ConsIsDistinct(x, s);
    }
  }

  lemma ConsIsDistinct(x: Indicator, s: seq<Indicator>)
    requires DistinctIds(s)
    ensures !HasId(s, x.id) ==> DistinctIds([x] + s)
    ensures forall id :: HasId([x] + s, id) ==> HasId(s, id) || id == x.id
  {
    var all := [x] + s;
    forall i | 0 < i < |all| ensures all[i] == s[i - 1] && HasId(s, all[i].id) {
      assert all[i] == s[i - 1];
    }
  }

  lemma {:induction false} SortIsDistinct(s: seq<Indicator>)
    requires DistinctIds(s)
    ensures DistinctIds(Sort(s, KeyLe))
    ensures forall id :: HasId(Sort(s, KeyLe), id) ==> HasId(s, id)
  {
    if s != [] {
      var n := |s| - 1;
      SortIsDistinct(s[..n]);
      assert !HasId(s[..n], s[n].id);
      InsertIsDistinct(s[n], Sort(s[..n], KeyLe));
      forall id | HasId(s[..n], id) ensures HasId(s, id) {
        var i :| 0 <= i < n && s[..n][i].id == id;
        assert s[i].id == id;
      }
    }
  }

  lemma CappedIsDistinct(found: seq<Indicator>, cap: nat)
    ensures DistinctIds(Detected(found)) && DistinctIds(Capped(found, cap))
  {
    FoldedAppends([], found);
    SortIsDistinct(Folded([], found));
  }

  lemma CappedAreFound(found: seq<Indicator>, cap: nat)
    ensures forall x :: x in Detected(found) ==> x in found
    ensures forall x :: x in Capped(found, cap) ==> x in Detected(found)
  {
    FoldedAppends([], found);
    var folded, detected := Folded([], found), Detected(found);
    SortIsPermutation(folded, KeyLe);
    forall x | x in detected ensures x in found {
      assert x in multiset(detected) && x in multiset(folded);
    }
  }

  /** Every dropped indicator claims no more than some kept one, or nothing. */
  ghost predicate DropsNoFloor(detected: seq<Indicator>, cap: nat) {
    forall j :: cap <= j < |detected| ==> IsMatched(detected, cap, detected[j].severityFloor)
  }

  ghost predicate IsMatched(detected: seq<Indicator>, cap: nat, floor: Severity) {
    || floor == Info
    || (exists i :: 0 <= i < cap && i < |detected|
          && SeverityOrder(detected[i].severityFloor) >= SeverityOrder(floor))
  }

  /** The cap drops the lightest indicators, but looks at no floor: it keeps the strongest floor if
      and only if each dropped indicator is matched by a kept one of at least its floor. */
  lemma CapKeepsFloorExactly(found: seq<Indicator>, cap: nat)
    ensures FloorFromIndicators(Capped(found, cap)) == FloorFromIndicators(Detected(found))
      <==> DropsNoFloor(Detected(found), cap)
  {
    var detected := Detected(found);
    if |detected| > cap {
      PrefixFloorExactly(detected, cap);
    }
  }

  lemma PrefixFloorExactly(s: seq<Indicator>, cap: nat)
    requires cap < |s|
    ensures FloorFromIndicators(s[..cap]) == FloorFromIndicators(s) <==> DropsNoFloor(s, cap)
  {
    var kept := s[..cap];
    FloorIsMaximum(s);
    FloorIsMaximum(kept);
    forall floor ensures IsMatched(s, cap, floor)
      <==> SeverityOrder(floor) <= SeverityOrder(FloorFromIndicators(kept))
    {
      FloorMatches(s, cap, floor);
    }
    var i :| 0 <= i < |s| && s[i].severityFloor == FloorFromIndicators(s);
    if i < cap {
      assert kept[i] == s[i] && kept[i] in kept;
    }
    if kept != [] {
      var x :| x in kept && x.severityFloor == FloorFromIndicators(kept);
      assert x in s;
    }
    var a, b := FloorFromIndicators(kept), FloorFromIndicators(s);
    if SeverityOrder(a) == SeverityOrder(b) { SeverityOrderIsInjective(a, b); }
  }

  lemma FloorMatches(s: seq<Indicator>, cap: nat, floor: Severity)
    requires cap <= |s|
    ensures IsMatched(s, cap, floor) <==> SeverityOrder(floor) <= SeverityOrder(FloorFromIndicators(s[..cap]))
  {
    var kept := s[..cap];
    FloorIsMaximum(kept);
    if i :| 0 <= i < cap && SeverityOrder(s[i].severityFloor) >= SeverityOrder(floor) {
      assert kept[i] in kept;
    }
    if kept != [] {
      var x :| x in kept && x.severityFloor == FloorFromIndicators(kept);
      var i :| 0 <= i < cap && kept[i] == x;
      assert s[i] == x;
    }
  }

  /** A light indicator with a strong floor gives way to a heavier one with a weak floor. */
  lemma CapDropsAFloor(x: Indicator, y: Indicator)
    requires x.id != y.id && x.weight > y.weight
    requires SeverityOrder(y.severityFloor) > SeverityOrder(x.severityFloor)
    ensures Detected([y, x]) == [x, y] && Capped([y, x], 1) == [x]
    ensures !DropsNoFloor(Detected([y, x]), 1)
  {
    assert [y, x][..1] == [y] && [y][..0] == [];
    assert Folded([], [y]) == [y];
    assert [y][0].id != x.id;
    assert Folded([], [y, x]) == [y, x];
    assert Sort([y], KeyLe) == Insert(y, [], KeyLe) == [y];
    assert Insert(x, [y], KeyLe) == [x] + [y];
  }

  // ----- enrichment only ever adds -----

  /** Enrichment never removes signal: the value, the band and the strongest single floor after
      merging are at least what they were, for any indicators enrichment may return, as long as
      no weight is negative. */
  lemma EnrichmentNeverLowers(existing: seq<Indicator>, added: seq<Indicator>)
    requires DistinctIds(existing) && AllNonNegative(existing) && AllNonNegative(added)
    ensures NotLower(Merged(existing, added), existing)
  {
    var fresh_ := MergeAddsOnlyNewIds(existing, added);
    forall i | 0 <= i < |fresh_| ensures fresh_[i].weight >= 0.0 { assert fresh_[i] in fresh_; }
    AppendingNeverLowers(existing, fresh_);
    PermutationIsNotLower(Merged(existing, added), existing + fresh_, existing);
  }

  /** May this indicator be merged into any deterministic set without lowering its value? */
  ghost predicate IsSafeToAdd(x: Indicator) {
    forall existing :: DistinctIds(existing) && AllNonNegative(existing)
      ==> RawValue(Merged(existing, [x])) >= RawValue(existing)
  }

  /** The code does not check the sign of a weight, and the sign is exactly what the promise
      depends on. */
  lemma SafeExactlyWhenNonNegative(x: Indicator)
    ensures IsSafeToAdd(x) <==> x.weight >= 0.0
  {
    if x.weight >= 0.0 {
      forall existing | DistinctIds(existing) && AllNonNegative(existing)
        ensures RawValue(Merged(existing, [x])) >= RawValue(existing)
      {
        EnrichmentNeverLowers(existing, [x]);
      }
    } else {
      NegativeIsUnsafe(x);
    }
  }

  lemma NegativeIsUnsafe(x: Indicator)
    requires x.weight < 0.0
    ensures !IsSafeToAdd(x)
  {
    var otherId := x.id + ['+'];
    assert |otherId| != |x.id|;
    var e := Indicator(otherId, "", x.category, "", 0.2, Info);
    NegativeWeightLowers(e, x);
    assert DistinctIds([e]) && AllNonNegative([e]);
  }

  lemma NegativeWeightLowers(e: Indicator, x: Indicator)
    requires e.id != x.id && e.category == x.category && e.weight == 0.2 && x.weight < 0.0
    ensures RawValue(Merged([e], [x])) < RawValue([e])
  {
    var fresh_ := MergeAddsOnlyNewIds([e], [x]);
    var all := [e] + fresh_;
    assert HasId(all, x.id);
    assert |all| > 2 ==> all[1].id != all[2].id;
    forall i | 1 <= i < |all| ensures all[i] == x {
      assert fresh_[i - 1] in fresh_;
    }
    assert |all| <= 2;
    assert all == [e] + [x];
    RawValueIgnoresOrder(Merged([e], [x]), [e] + [x]);
    PairInOneCategory(e, x);
  }

  lemma PairInOneCategory(e: Indicator, x: Indicator)
    requires e.category == x.category && e.weight == 0.2 && x.weight < 0.0
    ensures RawValue([e] + [x]) < RawValue([e])
  {
    forall c: Category { OtherCategories(e, x, c); }
    PairContribution(e, x);
    SixCategories([e]);
    SixCategories([e] + [x]);
    LoneFamily(e);
    assert Subtotal([e] + [x], 6) < Subtotal([e], 6) == 0.2;
  }

  lemma OtherCategories(e: Indicator, x: Indicator, c: Category)
    requires e.category == x.category
    ensures Present([e] + [x], c) == Present([e], c)
    ensures c != e.category ==> Contribution([e] + [x], c) == Contribution([e], c) == 0.0
  {
    LoneIndicator(e, c);
    AddOne([e], x, c);
    AddOne([], e, c);
    assert [] + [e] == [e];
  }

  lemma LoneFamily(e: Indicator)
    ensures Families([e], 6) == 1
  {
    SixCategories([e]);
    LoneIndicator(e, Authentication);
    LoneIndicator(e, Identity);
    LoneIndicator(e, Url);
    LoneIndicator(e, Content);
    LoneIndicator(e, Attachment);
    LoneIndicator(e, Injection);
  }

  lemma PairContribution(e: Indicator, x: Indicator)
    requires e.category == x.category && e.weight == 0.2 && x.weight < 0.0
    ensures Contribution([e] + [x], e.category) < Contribution([e], e.category) == 0.2
  {
    var c := e.category;
    LoneIndicator(e, c);
    AddOne([], e, c);
    AddOne([e], x, c);
    assert [] + [e] == [e];
    var w := [0.2, x.weight];
    assert Weights(InCategory([e] + [x], c)) == w;
    assert w[..1] == [0.2] && [0.2][..0] == [];
    assert Sort([0.2], Heavier) == Insert(0.2, [], Heavier) == [0.2];
    assert Insert(x.weight, [0.2], Heavier) == [0.2] + Insert(x.weight, [0.2][1..], Heavier);
    assert Sort(w, Heavier) == w;
    assert Decayed(w, 0) == 0.2 * 1.0 + Decayed(w[1..], 1);
    assert Decayed(w[1..], 1) == x.weight * 0.35 + Decayed(w[1..][1..], 2);
  }

  // ----- the reported severity -----

  /** What the model proposed: nothing when no model ran, an unrecognised word as None. */
  datatype Proposal = NoModel | Proposed(severity: Option<Severity>)

  function FinalSeverity(computed: Score, model: Proposal): (Severity, bool) {
    match model
    case NoModel => (computed.band, false)
    case Proposed(parsed) =>
      var proposed := if parsed.Some? then parsed.value else computed.band;
      if SeverityOrder(proposed) < SeverityOrder(computed.band)
      then (computed.band, true)
      else (proposed, false)
  }

  /** The model may raise, never lower. Without a model, or with a severity word nobody knows, the
      floor is reported and nothing is called an undercut; otherwise the higher of proposal and
      floor is reported, and an undercut exactly when the proposal is below the floor. */
  lemma ModelOnlyRaises(computed: Score, model: Proposal)
    ensures var (severity, undercut) := FinalSeverity(computed, model);
      && SeverityOrder(severity) >= SeverityOrder(computed.band)
      && (model == NoModel || model == Proposed(None) ==> severity == computed.band && !undercut)
      && forall p :: model == Proposed(Some(p)) ==>
           && SeverityOrder(severity) >= SeverityOrder(p) && severity in {p, computed.band}
           && (undercut <==> SeverityOrder(p) < SeverityOrder(computed.band))
  {
  }

  /** No enrichment result and no model answer can bring the reported severity below the floor of
      any indicator scoring started from, nor below the band they scored. */
  lemma NothingTalksSeverityDown(existing: seq<Indicator>, added: seq<Indicator>, model: Proposal)
    requires DistinctIds(existing) && AllNonNegative(existing) && AllNonNegative(added)
    ensures var severity := FinalSeverity(ScoreOf(Merged(existing, added)), model).0;
      && SeverityOrder(severity) >= SeverityOrder(ScoreOf(existing).band)
      && forall x :: x in existing ==> SeverityOrder(severity) >= SeverityOrder(x.severityFloor)
  {
    EnrichmentNeverLowers(existing, added);
    FloorIsMaximum(existing);
  }

  /** End to end: whatever enrichment adds and the model says, the reported severity is at least
      every floor the rules found, whether kept or dropped, as long as the cap drops no floor. */
  lemma NothingFoundIsTalkedDown(found: seq<Indicator>, cap: nat, added: seq<Indicator>, model: Proposal)
    requires AllNonNegative(found) && AllNonNegative(added) && DropsNoFloor(Detected(found), cap)
    ensures var severity := FinalSeverity(ScoreOf(Merged(Capped(found, cap), added)), model).0;
      forall x :: x in Detected(found) ==> SeverityOrder(severity) >= SeverityOrder(x.severityFloor)
  {
    var kept := Capped(found, cap);
    CappedIsDistinct(found, cap);
    CappedAreFound(found, cap);
    assert AllNonNegative(kept) by {
      forall i | 0 <= i < |kept| ensures kept[i].weight >= 0.0 { assert kept[i] in kept; }
    }
    NothingTalksSeverityDown(kept, added, model);
    CapKeepsFloorExactly(found, cap);
    FloorIsMaximum(kept);
    FloorIsMaximum(Detected(found));
  }
}
