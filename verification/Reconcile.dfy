/** Matching the model's ranking back to the indicators that exist: the model may reorder, never
    add or remove. */
module Reconcile {
  import opened Sorting
  import opened Text
  import opened Scoring

  datatype Reconciliation = Reconciliation(
    ranked: seq<Indicator>,
    namedIds: seq<string>,
    unknownIds: seq<string>,
    duplicateIds: seq<string>)

  function ById(indicators: seq<Indicator>): map<string, Indicator> {
    if indicators == [] then map[]
    else ById(indicators[..|indicators| - 1])[indicators[|indicators| - 1].id := indicators[|indicators| - 1]]
  }

  function Ids(indicators: seq<Indicator>): set<string> {
    set x | x in indicators :: x.id
  }

  lemma {:induction false} ByIdKeys(indicators: seq<Indicator>)
    ensures ById(indicators).Keys == Ids(indicators)
    ensures forall id :: id in ById(indicators) ==> ById(indicators)[id] in indicators && ById(indicators)[id].id == id
  {
    if indicators != [] {
      var n := |indicators| - 1;
      ByIdKeys(indicators[..n]);
      assert indicators == indicators[..n] + [indicators[n]];
      assert Ids(indicators) == Ids(indicators[..n]) + {indicators[n].id};
    }
  }

  /** The known ids the answer names, at their first mention. */
  function Named(answer: seq<string>, known: set<string>): seq<string> {
    if answer == [] then [] else
      var front, id := Named(answer[..|answer| - 1], known), Strip(answer[|answer| - 1]);
      if id in known && id !in front then front + [id] else front
  }

  function Unknown(answer: seq<string>, known: set<string>): seq<string> {
    if answer == [] then [] else
      var last := answer[|answer| - 1];
      Unknown(answer[..|answer| - 1], known) + (if Strip(last) in known then [] else [last])
  }

  function Duplicate(answer: seq<string>, known: set<string>): seq<string> {
    if answer == [] then [] else
      var id := Strip(answer[|answer| - 1]);
      Duplicate(answer[..|answer| - 1], known)
        + (if id in known && id in Named(answer[..|answer| - 1], known) then [id] else [])
  }

  /** The indicators whose id is not among the named ones, in rule order. */
  function Unmentioned(indicators: seq<Indicator>, named: seq<string>): seq<Indicator> {
    if indicators == [] then [] else
      var last := indicators[|indicators| - 1];
      Unmentioned(indicators[..|indicators| - 1], named) + (if last.id in named then [] else [last])
  }

  function Looked(named: seq<string>, byId: map<string, Indicator>): (r: seq<Indicator>)
    requires forall i :: 0 <= i < |named| ==> named[i] in byId
    ensures |r| == |named| && forall i :: 0 <= i < |named| ==> r[i] == byId[named[i]]
  {
    seq(|named|, i requires 0 <= i < |named| => byId[named[i]])
  }

  lemma {:induction false} NamedAreKnown(answer: seq<string>, known: set<string>)
    ensures forall i :: 0 <= i < |Named(answer, known)| ==> Named(answer, known)[i] in known
    ensures forall i, j :: 0 <= i < j < |Named(answer, known)| ==> Named(answer, known)[i] != Named(answer, known)[j]
  {
    if answer != [] { NamedAreKnown(answer[..|answer| - 1], known); }
  }

  /** The model's ranking first, then everything it did not mention, in rule order. */
  function RankedBy(indicators: seq<Indicator>, answer: seq<string>): seq<Indicator> {
    var named := Named(answer, Ids(indicators));
    NamedAreKnown(answer, Ids(indicators));
    ByIdKeys(indicators);
    Looked(named, ById(indicators)) + Unmentioned(indicators, named)
  }

  method ReconcileAnswer(indicators: seq<Indicator>, answer: seq<string>) returns (r: Reconciliation)
    ensures var known := Ids(indicators);
      && r.namedIds == Named(answer, known)
      && r.unknownIds == Unknown(answer, known)
      && r.duplicateIds == Duplicate(answer, known)
    ensures r.ranked == RankedBy(indicators, answer)
  {
    var byId: map<string, Indicator> := map[];
    for i := 0 to |indicators|
      invariant byId == ById(indicators[..i])
    {
      assert indicators[..i + 1][..i] == indicators[..i];
      byId := byId[indicators[i].id := indicators[i]];
    }
    assert indicators[..|indicators|] == indicators;
    ByIdKeys(indicators);

    var named: seq<string>, unknown: seq<string>, duplicate: seq<string> := [], [], [];
    var seen: set<string> := {};
    for i := 0 to |answer|
      invariant named == Named(answer[..i], byId.Keys)
      invariant unknown == Unknown(answer[..i], byId.Keys)
      invariant duplicate == Duplicate(answer[..i], byId.Keys)
      invariant forall id :: id in seen <==> id in named
      invariant forall k :: 0 <= k < |named| ==> named[k] in byId
    {
      assert answer[..i + 1][..i] == answer[..i];
      var identifier := Strip(answer[i]);
      if identifier !in byId {
        unknown := unknown + [answer[i]];
      } else if identifier in seen {
        duplicate := duplicate + [identifier];
      } else {
        seen := seen + {identifier};
        named := named + [identifier];
      }
    }
    assert answer[..|answer|] == answer;

    var ranked := Looked(named, byId);
    for i := 0 to |indicators|
      invariant ranked == Looked(named, byId) + Unmentioned(indicators[..i], named)
    {
      assert indicators[..i + 1][..i] == indicators[..i];
      if indicators[i].id !in seen {
        ranked := ranked + [indicators[i]];
      }
    }
    r := Reconciliation(ranked, named, unknown, duplicate);
  }

  // ----- the answer is accounted for -----

  /** Every entry of the answer is named, unknown or a duplicate, and exactly one of them. */
  lemma {:induction false} AnswerIsAccountedFor(answer: seq<string>, known: set<string>)
    ensures |Named(answer, known)| + |Unknown(answer, known)| + |Duplicate(answer, known)| == |answer|
  {
    if answer != [] { AnswerIsAccountedFor(answer[..|answer| - 1], known); }
  }

  ghost predicate FirstMention(answer: seq<string>, id: string, k: int) {
    && 0 <= k < |answer| && Strip(answer[k]) == id
    && forall m :: 0 <= m < k ==> Strip(answer[m]) != id
  }

  /** An id is named exactly when it is known and mentioned. */
  lemma {:induction false} NamedAreTheMentioned(answer: seq<string>, known: set<string>, id: string)
    ensures id in Named(answer, known) <==> id in known && exists k :: FirstMention(answer, id, k)
  {
    if answer != [] {
      var n := |answer| - 1;
      NamedAreTheMentioned(answer[..n], known, id);
      if exists k :: FirstMention(answer[..n], id, k) {
        var k :| FirstMention(answer[..n], id, k);
        assert FirstMention(answer, id, k);
      } else if Strip(answer[n]) == id {
        if m :| 0 <= m < n && Strip(answer[m]) == id {
          EarliestMention(answer[..n], id, m);
        }
        assert FirstMention(answer, id, n);
      }
      if exists k :: FirstMention(answer, id, k) {
        var k :| FirstMention(answer, id, k);
        assert k < n ==> FirstMention(answer[..n], id, k);
      }
    }
  }

  lemma {:induction false} EarliestMention(answer: seq<string>, id: string, m: nat)
    requires m < |answer| && Strip(answer[m]) == id
    ensures exists k :: FirstMention(answer, id, k)
  {
    if j :| 0 <= j < m && Strip(answer[j]) == id {
      EarliestMention(answer, id, j);
    } else {
      assert FirstMention(answer, id, m);
    }
  }

  /** Named ids stand in the order of their first mentions. */
  lemma {:induction false} NamedInMentionOrder(answer: seq<string>, known: set<string>, i: nat, j: nat,
                                               k: int, m: int)
    requires i < j < |Named(answer, known)|
    requires FirstMention(answer, Named(answer, known)[i], k) && FirstMention(answer, Named(answer, known)[j], m)
    ensures k < m
  {
    var n := |answer| - 1;
    var front, id := Named(answer[..n], known), Strip(answer[n]);
    NamedAreTheMentioned(answer[..n], known, Named(answer, known)[i]);
    assert Named(answer, known)[i] == front[i];
    assert front[i] in front;
    var k' :| FirstMention(answer[..n], front[i], k');
    assert k == k';
    if j < |front| {
      NamedAreTheMentioned(answer[..n], known, front[j]);
      assert front[j] in front;
      var m' :| FirstMention(answer[..n], front[j], m');
      assert m == m';
      NamedInMentionOrder(answer[..n], known, i, j, k, m);
    } else {
      if m < n {
        assert FirstMention(answer[..n], id, m);
        NamedAreTheMentioned(answer[..n], known, id);
      }
    }
  }

  // ----- the ranking is a permutation -----

  lemma {:induction false} DistinctIdsCountOnce(s: seq<Indicator>)
    requires DistinctIds(s)
    ensures forall x :: multiset(s)[x] == if x in s then 1 else 0
  {
    if s != [] {
      var n := |s| - 1;
      DistinctIdsCountOnce(s[..n]);
      assert s == s[..n] + [s[n]];
      assert s[n] !in s[..n];
    }
  }

  lemma {:induction false} UnmentionedMembers(indicators: seq<Indicator>, named: seq<string>)
    ensures forall x :: x in Unmentioned(indicators, named) <==> x in indicators && x.id !in named
    ensures DistinctIds(indicators) ==> DistinctIds(Unmentioned(indicators, named))
  {
    if indicators != [] {
      var n := |indicators| - 1;
      UnmentionedMembers(indicators[..n], named);
      assert indicators == indicators[..n] + [indicators[n]];
      var front := Unmentioned(indicators[..n], named);
      if DistinctIds(indicators) && indicators[n].id !in named {
        forall i | 0 <= i < |front| ensures front[i].id != indicators[n].id {
          assert front[i] in indicators[..n];
        }
      }
    }
  }

  lemma {:induction false} DistinctLookup(indicators: seq<Indicator>, x: Indicator)
    requires DistinctIds(indicators) && x in indicators
    ensures x.id in ById(indicators) && ById(indicators)[x.id] == x
  {
    var n := |indicators| - 1;
    if indicators[n] != x {
      assert indicators == indicators[..n] + [indicators[n]];
      DistinctLookup(indicators[..n], x);
    }
  }

  lemma RankedMembers(indicators: seq<Indicator>, answer: seq<string>, x: Indicator)
    requires DistinctIds(indicators)
    ensures x in RankedBy(indicators, answer) <==> x in indicators
  {
    var named, byId := Named(answer, Ids(indicators)), ById(indicators);
    NamedAreKnown(answer, Ids(indicators));
    ByIdKeys(indicators);
    UnmentionedMembers(indicators, named);
    var front := Looked(named, byId);
    forall k | 0 <= k < |front| ensures front[k] in indicators {
      assert front[k] == byId[named[k]];
    }
    if x in indicators && x.id in named {
      DistinctLookup(indicators, x);
      var k :| 0 <= k < |named| && named[k] == x.id;
      assert front[k] == x;
    }
  }

  lemma RankedAreDistinct(indicators: seq<Indicator>, answer: seq<string>)
    requires DistinctIds(indicators)
    ensures DistinctIds(RankedBy(indicators, answer))
  {
    var named, byId := Named(answer, Ids(indicators)), ById(indicators);
    NamedAreKnown(answer, Ids(indicators));
    ByIdKeys(indicators);
    UnmentionedMembers(indicators, named);
    var front, back := Looked(named, byId), Unmentioned(indicators, named);
    assert forall k :: 0 <= k < |front| ==> front[k].id == named[k];
    forall i, j | 0 <= i < |front| && 0 <= j < |back| ensures front[i].id != back[j].id {
      assert back[j] in back && named[i] in named;
    }
  }

  /** Whatever the model answered - invented, repeated or missing ids - every indicator is ranked
      exactly once, as long as the indicators' ids are distinct. */
  lemma RankingIsPermutation(indicators: seq<Indicator>, answer: seq<string>)
    requires DistinctIds(indicators)
    ensures multiset(RankedBy(indicators, answer)) == multiset(indicators)
  {
    var ranked := RankedBy(indicators, answer);
    RankedAreDistinct(indicators, answer);
    forall x: Indicator { RankedMembers(indicators, answer, x); }
    DistinctIdsCountOnce(ranked);
    DistinctIdsCountOnce(indicators);
    assert forall x :: multiset(ranked)[x] == multiset(indicators)[x];
  }

  lemma {:induction false} MentionedDropOut(indicators: seq<Indicator>, id: string)
    ensures |Unmentioned(indicators, [id])| <= |indicators|
    ensures forall i, j :: 0 <= i < j < |indicators| && indicators[i].id == id == indicators[j].id ==>
      |Unmentioned(indicators, [id])| <= |indicators| - 2
    ensures forall i :: 0 <= i < |indicators| && indicators[i].id == id ==>
      |Unmentioned(indicators, [id])| <= |indicators| - 1
  {
    if indicators != [] {
      MentionedDropOut(indicators[..|indicators| - 1], id);
    }
  }

  /** Distinct ids are not only enough but needed: ids of a form a model can name give a full
      ranking under every answer exactly when no two are equal. */
  lemma FullRankingExactlyWhenDistinct(indicators: seq<Indicator>)
    requires forall i :: 0 <= i < |indicators| ==> Strip(indicators[i].id) == indicators[i].id
    ensures (forall answer :: multiset(RankedBy(indicators, answer)) == multiset(indicators))
      <==> DistinctIds(indicators)
  {
    if DistinctIds(indicators) {
      forall answer ensures multiset(RankedBy(indicators, answer)) == multiset(indicators) {
        RankingIsPermutation(indicators, answer);
      }
    } else {
      var i, j :| 0 <= i < j < |indicators| && indicators[i].id == indicators[j].id;
      var answer := [indicators[i].id];
      assert indicators[i] in indicators;
      assert Named(answer, Ids(indicators)) == answer by {
        assert answer[..0] == [];
      }
      MentionedDropOut(indicators, indicators[i].id);
      assert |RankedBy(indicators, answer)| < |indicators|;
      assert |multiset(RankedBy(indicators, answer))| != |multiset(indicators)|;
    }
  }
}
