/** Turning phishing indicators into a score and a severity floor.

    Scores are exact reals; the rounding to four places is the round-half-even of the source.
    Two facts carry everything built on the score: it does not depend on the order of the
    indicators, and one more indicator of non-negative weight never lowers it.
 */
module Scoring {
  import opened Contracts
  import opened Sorting

  datatype Category = Authentication | Identity | Url | Content | Attachment | Injection

  datatype Indicator = Indicator(
    id: string,
    ruleId: string,
    category: Category,
    locus: string,
    weight: real,
    severityFloor: Severity)

  ghost predicate DistinctIds(s: seq<Indicator>) {
    forall i, j :: 0 <= i < j < |s| ==> s[i].id != s[j].id
  }

  datatype Score = Score(value: real, band: Severity)

  function Ceiling(c: Category): (ceiling: real)
    ensures 0.0 < ceiling <= 1.0
  {
    match c
    case Authentication => 1.0
    case Identity => 1.0
    case Url => 0.9
    case Content => 0.45
    case Attachment => 0.95
    case Injection => 0.9
  }

  /** The order the category enumeration is walked in. */
  const CATEGORIES: seq<Category> := [Authentication, Identity, Url, Content, Attachment, Injection]

  const AVAILABLE: real := 5.2

  function Decay(position: nat): (d: real)
    ensures 0.0 < d <= 1.0
  {
    if position == 0 then 1.0
    else if position == 1 then 0.35
    else if position == 2 then 0.15
    else 0.15 / (position + 1) as real
  }

  function MinReal(a: real, b: real): real { if a <= b then a else b }

  predicate Heavier(a: real, b: real) { a >= b }

  /** What a weight contributes at a position. */
  function Share(weight: real, position: nat): real { weight * Decay(position) }

  /** The decayed sum of weights, the first of them standing at the given position. */
  function Decayed(weights: seq<real>, position: nat): real {
    if weights == [] then 0.0
    else Share(weights[0], position) + Decayed(weights[1..], position + 1)
  }

  function Weights(indicators: seq<Indicator>): seq<real> {
    if indicators == [] then []
    else Weights(indicators[..|indicators| - 1]) + [indicators[|indicators| - 1].weight]
  }

  function InCategory(indicators: seq<Indicator>, c: Category): seq<Indicator> {
    if indicators == [] then [] else
      var last := indicators[|indicators| - 1];
      InCategory(indicators[..|indicators| - 1], c) + (if last.category == c then [last] else [])
  }

  function CategoryTotal(indicators: seq<Indicator>): real {
    Decayed(Sort(Weights(indicators), Heavier), 0)
  }

  function Contribution(indicators: seq<Indicator>, c: Category): real {
    var found := InCategory(indicators, c);
    if found == [] then 0.0 else MinReal(CategoryTotal(found), Ceiling(c))
  }

  function Present(indicators: seq<Indicator>, c: Category): nat {
    if InCategory(indicators, c) == [] then 0 else 1
  }

  /** Sum over the categories, as far as the walk has come. */
  function Subtotal(indicators: seq<Indicator>, n: nat): real
    requires n <= |CATEGORIES|
  {
    if n == 0 then 0.0 else Subtotal(indicators, n - 1) + Contribution(indicators, CATEGORIES[n - 1])
  }

  function Families(indicators: seq<Indicator>, n: nat): nat
    requires n <= |CATEGORIES|
  {
    if n == 0 then 0 else Families(indicators, n - 1) + Present(indicators, CATEGORIES[n - 1])
  }

  function Combination(families: nat): real {
    MinReal(0.06 * (if families == 0 then 0 else families - 1) as real, 0.18)
  }

  /** The value before it is rounded for display; the band is read off this one. */
  function RawValue(indicators: seq<Indicator>): real {
    MinReal(Subtotal(indicators, 6) / AVAILABLE + Combination(Families(indicators, 6)), 1.0)
  }

  function BandFor(value: real): Severity {
    if value >= 0.80 then Critical
    else if value >= 0.55 then High
    else if value >= 0.30 then Medium
    else if value >= 0.12 then Low
    else Info
  }

  /** Four decimal places, ties to even. */
  function Round4(x: real): real {
    var n := (x * 10000.0).Floor;
    var rest := x * 10000.0 - n as real;
    (if rest < 0.5 || (rest == 0.5 && n % 2 == 0) then n else n + 1) as real / 10000.0
  }

  function WeightedScore(indicators: seq<Indicator>): Score {
    Score(Round4(RawValue(indicators)), BandFor(RawValue(indicators)))
  }

  function FloorFromIndicators(indicators: seq<Indicator>): Severity {
    if indicators == [] then Info else
      var rest := FloorFromIndicators(indicators[..|indicators| - 1]);
      var last := indicators[|indicators| - 1].severityFloor;
      if SeverityOrder(last) > SeverityOrder(rest) then last else rest
  }

  function ScoreOf(indicators: seq<Indicator>): Score {
    var aggregate := WeightedScore(indicators);
    var strongest := FloorFromIndicators(indicators);
    if SeverityOrder(strongest) > SeverityOrder(aggregate.band)
    then aggregate.(band := strongest)
    else aggregate
  }

  // ----- the loops of the source -----

  lemma DecayedFrom(weights: seq<real>, position: nat)
    requires position < |weights|
    ensures Decayed(weights[position..], position)
         == Share(weights[position], position) + Decayed(weights[position + 1..], position + 1)
  {
    assert weights[position..][1..] == weights[position + 1..];
  }

  method CategoryContribution(indicators: seq<Indicator>) returns (total: real)
    ensures total == CategoryTotal(indicators)
  {
    var ordered := Sort(Weights(indicators), Heavier);
    total := 0.0;
    for position := 0 to |ordered|
      invariant total + Decayed(ordered[position..], position) == Decayed(ordered, 0)
    {
      DecayedFrom(ordered, position);
      total := total + Share(ordered[position], position);
    }
    assert ordered[|ordered|..] == [];
  }

  ghost predicate IsGrouped(byCategory: map<Category, seq<Indicator>>, indicators: seq<Indicator>) {
    forall c ::
      (if c in byCategory then byCategory[c] else []) == InCategory(indicators, c)
      && (c in byCategory ==> byCategory[c] != [])
  }

  method GroupByCategory(indicators: seq<Indicator>) returns (byCategory: map<Category, seq<Indicator>>)
    ensures IsGrouped(byCategory, indicators)
  {
    byCategory := map[];
    for i := 0 to |indicators|
      invariant IsGrouped(byCategory, indicators[..i])
    {
      var x := indicators[i];
      assert indicators[..i + 1] == indicators[..i] + [x];
      forall c { OneMoreInCategory(indicators[..i], x, c); }
      var found := if x.category in byCategory then byCategory[x.category] else [];
      byCategory := byCategory[x.category := found + [x]];
    }
    assert indicators[..|indicators|] == indicators;
  }

  lemma OneMoreInCategory(s: seq<Indicator>, x: Indicator, c: Category)
    ensures InCategory(s + [x], c) == if x.category == c then InCategory(s, c) + [x] else InCategory(s, c)
  {
    assert (s + [x])[..|s|] == s;
    assert InCategory(s, c) + [] == InCategory(s, c);
  }

  /** Group by category, then walk the categories adding each one's capped contribution. */
  method ComputeWeightedScore(indicators: seq<Indicator>) returns (s: Score)
    ensures s == WeightedScore(indicators)
  {
    var byCategory := GroupByCategory(indicators);
    var subtotal, families := AddCategories(byCategory, indicators);
    var value := MinReal(subtotal / AVAILABLE + Combination(families), 1.0);
    s := Score(Round4(value), BandFor(value));
  }

  method AddCategories(byCategory: map<Category, seq<Indicator>>, ghost indicators: seq<Indicator>)
    returns (subtotal: real, families: nat)
    requires IsGrouped(byCategory, indicators)
    ensures subtotal == Subtotal(indicators, 6) && families == Families(indicators, 6)
  {
    subtotal, families := 0.0, 0;
    for n := 0 to |CATEGORIES|
      invariant subtotal == Subtotal(indicators, n) && families == Families(indicators, n)
    {
      var c := CATEGORIES[n];
      assert c !in byCategory ==> InCategory(indicators, c) == [];
      if c in byCategory {
        assert byCategory[c] == InCategory(indicators, c) != [];
        var total := CategoryContribution(byCategory[c]);
        subtotal := subtotal + MinReal(total, Ceiling(c));
        families := families + 1;
      }
    }
  }

  // ----- the order of the indicators does not matter -----

  lemma {:induction false} WeightsOfConcat(s: seq<Indicator>, t: seq<Indicator>)
    ensures Weights(s + t) == Weights(s) + Weights(t)
  {
    if t == [] {
      assert s + t == s;
    } else {
      WeightsOfConcat(s, t[..|t| - 1]);
      assert (s + t)[..|s + t| - 1] == s + t[..|t| - 1];
    }
  }

  lemma {:induction false} CategoryOfConcat(s: seq<Indicator>, t: seq<Indicator>, c: Category)
    ensures InCategory(s + t, c) == InCategory(s, c) + InCategory(t, c)
  {
    if t == [] {
      assert s + t == s;
    } else {
      CategoryOfConcat(s, t[..|t| - 1], c);
      assert (s + t)[..|s + t| - 1] == s + t[..|t| - 1];
    }
  }

  lemma {:induction false} CategoryMembers(s: seq<Indicator>, c: Category)
    ensures forall x :: x in InCategory(s, c) <==> x in s && x.category == c
    ensures InCategory(s, c) != [] ==> exists x :: x in s && x.category == c
  {
    if s != [] {
      CategoryMembers(s[..|s| - 1], c);
      assert s == s[..|s| - 1] + [s[|s| - 1]];
      assert s[|s| - 1] in s;
    }
  }

  /** The bag of weights one category holds. */
  ghost function Bag(s: seq<Indicator>, c: Category): multiset<real> {
    multiset(Weights(InCategory(s, c)))
  }

  lemma BagOfConcat(s: seq<Indicator>, t: seq<Indicator>, c: Category)
    ensures Bag(s + t, c) == Bag(s, c) + Bag(t, c)
  {
    CategoryOfConcat(s, t, c);
    WeightsOfConcat(InCategory(s, c), InCategory(t, c));
  }

  lemma {:induction false} BagOfPermutation(s: seq<Indicator>, t: seq<Indicator>, c: Category)
    requires multiset(s) == multiset(t)
    ensures Bag(s, c) == Bag(t, c)
    decreases |s|
  {
    if s == [] {
      assert |multiset(t)| == 0;
    } else {
      var k := CutLast(s, t);
      var init, x, front, back := s[..|s| - 1], s[|s| - 1], t[..k], t[k + 1..];
      BagOfPermutation(init, front + back, c);
      assert s == init + [x];
      BagOfConcat(init, [x], c);
      BagOfConcat(front, back, c);
      BagOfConcat(front, [x], c);
      BagOfConcat(front + [x], back, c);
    }
  }

  lemma AddOne(s: seq<Indicator>, x: Indicator, c: Category)
    ensures InCategory(s + [x], c) == InCategory(s, c) + (if x.category == c then [x] else [])
    ensures Weights(InCategory(s + [x], c))
         == Weights(InCategory(s, c)) + (if x.category == c then [x.weight] else [])
  {
    assert (s + [x])[..|s|] == s;
    var found := InCategory(s, c);
    assert (found + [x])[..|found|] == found;
    assert found + [] == found && Weights(found) + [] == Weights(found);
  }

  lemma {:induction false} FloorIsMaximum(s: seq<Indicator>)
    ensures forall x :: x in s ==>
      SeverityOrder(x.severityFloor) <= SeverityOrder(FloorFromIndicators(s))
    ensures s != [] ==> exists x :: x in s && x.severityFloor == FloorFromIndicators(s)
  {
    if s != [] {
      var n := |s| - 1;
      FloorIsMaximum(s[..n]);
      assert s == s[..n] + [s[n]];
      assert s[n] in s;
      if n > 0 {
        var x :| x in s[..n] && x.severityFloor == FloorFromIndicators(s[..n]);
        assert x in s;
      }
    }
  }

  lemma PermutationKeepsFloor(s: seq<Indicator>, t: seq<Indicator>)
    requires multiset(s) == multiset(t)
    ensures FloorFromIndicators(s) == FloorFromIndicators(t)
  {
    assert forall x :: x in s <==> x in multiset(s);
    assert forall x :: x in t <==> x in multiset(t);
    FloorIsMaximum(s);
    FloorIsMaximum(t);
    if s != [] {
      assert s[0] in t;
      SeverityOrderIsInjective(FloorFromIndicators(s), FloorFromIndicators(t));
    } else {
      assert |multiset(t)| == 0;
    }
  }

  lemma {:induction false} PermutationKeepsSums(s: seq<Indicator>, t: seq<Indicator>, n: nat)
    requires multiset(s) == multiset(t) && n <= |CATEGORIES|
    ensures Subtotal(s, n) == Subtotal(t, n) && Families(s, n) == Families(t, n)
  {
    if n > 0 {
      PermutationKeepsSums(s, t, n - 1);
      var c := CATEGORIES[n - 1];
      BagOfPermutation(s, t, c);
      WeightsCount(InCategory(s, c));
      WeightsCount(InCategory(t, c));
      SortIgnoresInputOrder(Weights(InCategory(s, c)), Weights(InCategory(t, c)), Heavier);
    }
  }

  lemma {:induction false} WeightsCount(s: seq<Indicator>)
    ensures |Weights(s)| == |s| == |multiset(Weights(s))|
  {
    if s != [] { WeightsCount(s[..|s| - 1]); }
  }

  lemma RawValueIgnoresOrder(s: seq<Indicator>, t: seq<Indicator>)
    requires multiset(s) == multiset(t)
    ensures RawValue(s) == RawValue(t)
  {
    PermutationKeepsSums(s, t, 6);
    assert Subtotal(s, 6) == Subtotal(t, 6) && Families(s, 6) == Families(t, 6);
  }

  /** Any reordering of the indicators scores the same. */
  lemma ScoreIgnoresOrder(s: seq<Indicator>, t: seq<Indicator>)
    requires multiset(s) == multiset(t)
    ensures ScoreOf(s) == ScoreOf(t)
  {
    RawValueIgnoresOrder(s, t);
    PermutationKeepsFloor(s, t);
    var raw := RawValue(s);
    assert WeightedScore(s) == Score(Round4(raw), BandFor(raw)) == WeightedScore(t);
  }

  // ----- one more indicator never lowers the score -----

  ghost predicate NonNegative(weights: seq<real>) {
    forall i :: 0 <= i < |weights| ==> weights[i] >= 0.0
  }

  ghost predicate AllNonNegative(s: seq<Indicator>) {
    forall i :: 0 <= i < |s| ==> s[i].weight >= 0.0
  }

  lemma ShareRises(a: real, b: real, position: nat)
    requires a >= b
    ensures Share(a, position) >= Share(b, position)
    ensures a >= 0.0 ==> Share(a, position) >= 0.0
  {
  }

  /** Pushing every weight down one place, behind one at least as heavy, loses nothing: each
      weight that moves is replaced in its old place by one no lighter. */
  lemma {:induction false} PrependRaises(w: real, s: seq<real>, k: nat)
    requires Sorted(s, Heavier) && NonNegative(s)
    requires w >= 0.0 && (s != [] ==> w >= s[0])
    ensures Decayed([w] + s, k) >= Decayed(s, k)
    decreases |s|
  {
    DecayedCons(w, s, k);
    if s == [] {
      ShareRises(w, w, k);
    } else {
      var first, rest := s[0], s[1..];
      assert s == [first] + rest;
      PrependRaises(first, rest, k + 1);
      DecayedCons(first, rest, k);
      ShareRises(w, first, k);
    }
  }

  lemma DecayedCons(w: real, s: seq<real>, k: nat)
    ensures Decayed([w] + s, k) == Share(w, k) + Decayed(s, k + 1)
  {
    assert ([w] + s)[1..] == s;
  }

  lemma {:induction false} InsertRaises(w: real, s: seq<real>, k: nat)
    requires Sorted(s, Heavier) && NonNegative(s) && w >= 0.0
    ensures Decayed(Insert(w, s, Heavier), k) >= Decayed(s, k)
  {
    if s == [] || !Heavier(s[0], w) {
      PrependRaises(w, s, k);
    } else {
      var first, rest := s[0], s[1..];
      InsertRaises(w, rest, k + 1);
      DecayedCons(first, Insert(w, rest, Heavier), k);
    }
  }

  lemma {:induction false} DecayedNonNegative(s: seq<real>, k: nat)
    requires NonNegative(s)
    ensures Decayed(s, k) >= 0.0
  {
    if s != [] {
      DecayedNonNegative(s[1..], k + 1);
      ShareRises(s[0], s[0], k);
    }
  }

  lemma {:induction false} WeightsNonNegative(s: seq<Indicator>, c: Category)
    requires AllNonNegative(s)
    ensures NonNegative(Weights(InCategory(s, c)))
  {
    if s != [] {
      var init, last := s[..|s| - 1], s[|s| - 1];
      WeightsNonNegative(init, c);
      assert s == init + [last];
      AddOne(init, last, c);
      assert Weights(InCategory(init, c)) + [] == Weights(InCategory(init, c));
    }
  }

  lemma SortedWeightsNonNegative(weights: seq<real>)
    requires NonNegative(weights)
    ensures NonNegative(Sort(weights, Heavier)) && Sorted(Sort(weights, Heavier), Heavier)
  {
    SortSorts(weights, Heavier);
    SortIsPermutation(weights, Heavier);
    var sorted := Sort(weights, Heavier);
    forall i | 0 <= i < |sorted| ensures sorted[i] >= 0.0 {
      assert sorted[i] in multiset(weights);
    }
  }

  /** One more weight raises a category's total, and a total is never negative. */
  lemma TotalRises(weights: seq<real>, w: real)
    requires NonNegative(weights) && w >= 0.0
    ensures 0.0 <= Decayed(Sort(weights, Heavier), 0) <= Decayed(Sort(weights + [w], Heavier), 0)
  {
    assert (weights + [w])[..|weights|] == weights;
    SortedWeightsNonNegative(weights);
    InsertRaises(w, Sort(weights, Heavier), 0);
    DecayedNonNegative(Sort(weights, Heavier), 0);
  }

  lemma ContributionRises(s: seq<Indicator>, x: Indicator, c: Category)
    requires AllNonNegative(s) && x.weight >= 0.0
    ensures Contribution(s + [x], c) >= Contribution(s, c)
    ensures Present(s + [x], c) >= Present(s, c)
  {
    AddOne(s, x, c);
    var found := InCategory(s, c);
    if x.category != c {
      assert found + [] == found;
    } else {
      WeightsNonNegative(s, c);
      TotalRises(Weights(found), x.weight);
      assert InCategory(s + [x], c) == found + [x] != [];
      assert 0.0 <= CategoryTotal(found) <= CategoryTotal(found + [x]);
    }
  }

  lemma {:induction false} SumsRise(s: seq<Indicator>, x: Indicator, n: nat)
    requires AllNonNegative(s) && x.weight >= 0.0 && n <= |CATEGORIES|
    ensures Subtotal(s + [x], n) >= Subtotal(s, n) && Families(s + [x], n) >= Families(s, n)
  {
    if n > 0 {
      SumsRise(s, x, n - 1);
      ContributionRises(s, x, CATEGORIES[n - 1]);
    }
  }

  lemma RoundIsNearest(x: real)
    ensures x - 0.00005 <= Round4(x) <= x + 0.00005
  {
  }

  lemma RoundIsMonotone(x: real, y: real)
    requires x <= y
    ensures Round4(x) <= Round4(y)
  {
    var m, n := (x * 10000.0).Floor, (y * 10000.0).Floor;
    assert m <= n;
  }

  ghost predicate AtLeast(a: Score, b: Score) {
    a.value >= b.value && SeverityOrder(a.band) >= SeverityOrder(b.band)
  }

  /** Nothing an analyst reads is lower for `after` than for `before`: the exact value, the
      rounded value and band, and the strongest floor a single indicator claims. */
  ghost predicate NotLower(after: seq<Indicator>, before: seq<Indicator>) {
    && RawValue(after) >= RawValue(before)
    && AtLeast(ScoreOf(after), ScoreOf(before))
    && SeverityOrder(FloorFromIndicators(after)) >= SeverityOrder(FloorFromIndicators(before))
  }

  lemma OneMoreNeverLowers(s: seq<Indicator>, x: Indicator)
    requires AllNonNegative(s) && x.weight >= 0.0
    ensures NotLower(s + [x], s)
  {
    RawValueRises(s, x);
    FloorRises(s, x);
    ScoreFollows(s, s + [x]);
  }

  lemma RawValueRises(s: seq<Indicator>, x: Indicator)
    requires AllNonNegative(s) && x.weight >= 0.0
    ensures RawValue(s + [x]) >= RawValue(s)
  {
    SumsRise(s, x, 6);
  }

  lemma FloorRises(s: seq<Indicator>, x: Indicator)
    ensures SeverityOrder(FloorFromIndicators(s + [x])) >= SeverityOrder(FloorFromIndicators(s))
  {
    assert (s + [x])[..|s|] == s;
  }

  lemma ScoreFollows(before: seq<Indicator>, after: seq<Indicator>)
    requires RawValue(after) >= RawValue(before)
    requires SeverityOrder(FloorFromIndicators(after)) >= SeverityOrder(FloorFromIndicators(before))
    ensures AtLeast(ScoreOf(after), ScoreOf(before))
  {
    RoundIsMonotone(RawValue(before), RawValue(after));
  }

  /** Appending any number of non-negative indicators never lowers anything. */
  lemma {:induction false} AppendingNeverLowers(s: seq<Indicator>, more: seq<Indicator>)
    requires AllNonNegative(s) && AllNonNegative(more)
    ensures NotLower(s + more, s)
  {
    if more == [] {
      assert s + more == s;
    } else {
      var init, x := more[..|more| - 1], more[|more| - 1];
      AppendingNeverLowers(s, init);
      assert AllNonNegative(s + init);
      OneMoreNeverLowers(s + init, x);
      assert s + more == s + init + [x];
    }
  }

  lemma PermutationIsNotLower(s: seq<Indicator>, t: seq<Indicator>, before: seq<Indicator>)
    requires multiset(s) == multiset(t) && NotLower(t, before)
    ensures NotLower(s, before)
  {
    RawValueIgnoresOrder(s, t);
    ScoreIgnoresOrder(s, t);
    PermutationKeepsFloor(s, t);
  }

  // ----- saturation -----

  lemma ContributionIsCapped(s: seq<Indicator>, c: Category)
    ensures Present(s, c) <= 1
    ensures Contribution(s, c) <= Cap(Present(s, c), Ceiling(c))
    ensures AllNonNegative(s) ==> Contribution(s, c) >= 0.0
  {
    if AllNonNegative(s) {
      WeightsNonNegative(s, c);
      SortedWeightsNonNegative(Weights(InCategory(s, c)));
      DecayedNonNegative(Sort(Weights(InCategory(s, c)), Heavier), 0);
    }
  }

  /** How much each number of families can reach at most, before the corroboration bonus. */
  function Reach(families: nat): real {
    match families
    case 0 => 0.0
    case 1 => 1.0
    case 2 => 2.0
    case 3 => 2.95
    case 4 => 3.85
    case 5 => 4.75
    case _ => 5.2
  }

  lemma SixCategories(s: seq<Indicator>)
    ensures Subtotal(s, 6)
      == Contribution(s, Authentication) + Contribution(s, Identity) + Contribution(s, Url)
       + Contribution(s, Content) + Contribution(s, Attachment) + Contribution(s, Injection)
    ensures Families(s, 6)
      == Present(s, Authentication) + Present(s, Identity) + Present(s, Url)
       + Present(s, Content) + Present(s, Attachment) + Present(s, Injection)
  {
    assert Subtotal(s, 1) == Subtotal(s, 0) + Contribution(s, Authentication);
    assert Subtotal(s, 2) == Subtotal(s, 1) + Contribution(s, Identity);
    assert Subtotal(s, 3) == Subtotal(s, 2) + Contribution(s, Url);
    assert Subtotal(s, 4) == Subtotal(s, 3) + Contribution(s, Content);
    assert Subtotal(s, 5) == Subtotal(s, 4) + Contribution(s, Attachment);
    assert Families(s, 1) == Families(s, 0) + Present(s, Authentication);
    assert Families(s, 2) == Families(s, 1) + Present(s, Identity);
    assert Families(s, 3) == Families(s, 2) + Present(s, Url);
    assert Families(s, 4) == Families(s, 3) + Present(s, Content);
    assert Families(s, 5) == Families(s, 4) + Present(s, Attachment);
  }

  function Cap(present: nat, ceiling: real): real { if present == 1 then ceiling else 0.0 }

  lemma SubtotalIsCapped(s: seq<Indicator>)
    ensures Families(s, 6) <= 6 && Subtotal(s, 6) <= Reach(Families(s, 6))
  {
    SixCategories(s);
    ContributionIsCapped(s, Authentication);
    ContributionIsCapped(s, Identity);
    ContributionIsCapped(s, Url);
    ContributionIsCapped(s, Content);
    ContributionIsCapped(s, Attachment);
    ContributionIsCapped(s, Injection);
  }

  lemma {:induction false} SubtotalNonNegative(s: seq<Indicator>, n: nat)
    requires AllNonNegative(s) && n <= |CATEGORIES|
    ensures Subtotal(s, n) >= 0.0
  {
    if n > 0 {
      SubtotalNonNegative(s, n - 1);
      ContributionIsCapped(s, CATEGORIES[n - 1]);
    }
  }

  /** However many indicators there are, the value stays in [0, 1]. */
  lemma ValueStaysInUnitInterval(s: seq<Indicator>)
    requires AllNonNegative(s)
    ensures 0.0 <= RawValue(s) <= 1.0 && 0.0 <= ScoreOf(s).value <= 1.0
  {
    SubtotalIsCapped(s);
    SubtotalNonNegative(s, 6);
    RoundIsMonotone(0.0, RawValue(s));
    RoundIsMonotone(RawValue(s), 1.0);
    assert Round4(0.0) == 0.0 && Round4(1.0) == 1.0;
  }

  /** Quantity cannot stand in for independence: each higher band takes one more family of
      evidence, whatever the weights. */
  lemma BandsNeedFamilies(s: seq<Indicator>)
    ensures WeightedScore(s).band == Low ==> Families(s, 6) >= 1
    ensures WeightedScore(s).band == Medium ==> Families(s, 6) >= 2
    ensures WeightedScore(s).band == High ==> Families(s, 6) >= 3
    ensures WeightedScore(s).band == Critical ==> Families(s, 6) >= 4
  {
    SubtotalIsCapped(s);
  }

  /** Wording alone, however much of it, never rates above info in the aggregate. */
  lemma ContentAloneIsInfo(s: seq<Indicator>)
    requires forall x :: x in s ==> x.category == Content
    ensures WeightedScore(s).band == Info
  {
    SixCategories(s);
    forall c | c != Content ensures InCategory(s, c) == [] {
      CategoryMembers(s, c);
    }
    ContributionIsCapped(s, Content);
  }

  lemma LoneIndicator(x: Indicator, c: Category)
    ensures Contribution([x], c)
         == if x.category == c then MinReal(x.weight, Ceiling(c)) else 0.0
    ensures Present([x], c) == if x.category == c then 1 else 0
  {
    AddOne([], x, c);
    assert [] + [x] == [x];
    LoneTotal(x.weight);
  }

  lemma LoneTotal(w: real)
    ensures Decayed(Sort([w], Heavier), 0) == w
  {
    assert [w][..0] == [];
    assert Sort([w], Heavier) == Insert(w, [], Heavier) == [w] + [];
    DecayedCons(w, [], 0);
  }
}
