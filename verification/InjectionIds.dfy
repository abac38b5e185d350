/** Ids of the findings about instruction-like text. There is one such finding per host, and its id
    is made from the port of the first observation that carries such text, so the id follows that
    observation: it stays while that one stays first, and is gone when another port comes before,
    unless something else in the scan happens to share the id.
 */
module InjectionIds {
  import opened Wrappers
  import opened Text
  import opened Versions
  import opened Rules

  function InjectionKey(host: string, port: Option<nat>): string {
    Key(INJECTION_RULE_ID, host, port, "")
  }

  function InjectionId(host: string, port: Option<nat>, rt: Runtime): string {
    DeriveCandidateId(INJECTION_RULE_ID, host, port, "", rt)
  }

  // ----- the keys are told apart -----

  lemma BarIsLast(a: string, x: string, bar: char)
    requires bar !in x
    ensures var s := a + [bar] + x;
      && s[|a|] == bar && s[..|a|] == a && s[|a| + 1..] == x
      && forall k :: |a| < k < |s| ==> s[k] != bar
  {
    var s := a + [bar] + x;
    forall k | |a| < k < |s| ensures s[k] != bar {
      assert s[k] == x[k - |a| - 1];
    }
  }

  lemma LastBar(a: string, x: string, b: string, y: string, bar: char)
    requires a + [bar] + x == b + [bar] + y && bar !in x && bar !in y
    ensures a == b && x == y
  {
    BarIsLast(a, x, bar);
    BarIsLast(b, y, bar);
  }

  lemma EqualTail(front: string, a: string, b: string)
    requires front + a == front + b
    ensures a == b
  {
    assert (front + a)[|front|..] == a && (front + b)[|front|..] == b;
  }

  lemma EqualFront(a: string, b: string, tail: string)
    requires a + tail == b + tail
    ensures a == b
  {
    assert (a + tail)[..|a|] == a && (b + tail)[..|a|] == b;
  }

  /** Keys under one rule id and no discriminator are equal only for one host and port. */
  lemma KeysTellPlaces(ruleId: string, h: string, p: Option<nat>, k: string, q: Option<nat>)
    requires Key(ruleId, h, p, "") == Key(ruleId, k, q, "")
    ensures h == k && p == q
  {
    var a, b := h + ['|'] + PortText(p), k + ['|'] + PortText(q);
    EqualTail(ruleId + ['|'], a + (['|'] + ""), b + (['|'] + ""));
    EqualFront(a, b, ['|'] + "");
    LastBar(h, PortText(p), k, PortText(q), '|');
  }

  /** Two keys are different when the first rule id does not begin with the second. */
  lemma KeysTellRules(ruleId: string, h: string, p: Option<nat>, d: string, other: string,
                      k: string, q: Option<nat>, e: string)
    requires '|' !in other && !(other <= ruleId)
    ensures Key(ruleId, h, p, d) != Key(other, k, q, e)
  {
    var x, y := Key(ruleId, h, p, d), Key(other, k, q, e);
    if |ruleId| < |other| {
      assert y[|ruleId|] == y[..|other|][|ruleId|] && other[|ruleId|] in other;
    } else {
      assert x[..|other|] == ruleId[..|other|];
    }
  }

  // ----- when an id is in a scan -----

  /** Something else in the scan has the id: a rule that fires, or the mark of another place. */
  ghost predicate IsShared(observations: seq<Observation>, asset: Option<string>, raw: Option<string>,
                           kb: Knowledge, rt: Runtime, host: string, port: Option<nat>) {
    || IsRuleId(observations, kb, rt, InjectionId(host, port, rt))
    || (exists m :: m != Mark(host, port) && IsMarkId(observations, asset, raw, rt, m, InjectionId(host, port, rt)))
  }

  ghost predicate IsRuleId(observations: seq<Observation>, kb: Knowledge, rt: Runtime, id: string) {
    exists rule, o :: o in observations && Fires(rule, o, kb) && CandidateOf(rule, o, rt).id == id
  }

  ghost predicate IsMarkId(observations: seq<Observation>, asset: Option<string>, raw: Option<string>,
                           rt: Runtime, m: Mark, id: string) {
    MarkStands(observations, asset, raw, rt, m) && Injection(m, rt).id == id
  }

  /** No risky-service entry is named like the rule for instruction-like text. */
  ghost predicate RiskyIdsApart(kb: Knowledge) {
    forall r :: r in kb.risky ==> !(INJECTION_RULE_ID <= r.ruleId)
  }

  lemma NoBarInRuleId(ruleId: string)
    requires ruleId == INJECTION_RULE_ID
    ensures '|' !in ruleId && |ruleId| > 0 && ruleId[0] == 'p'
  {
  }

  lemma {:induction false} RiskiesAreEntries(entries: seq<RiskyService>, rule: Rule)
    requires rule in Riskies(entries)
    ensures rule.Risky? && rule.service in entries
  {
    var n := |entries| - 1;
    if rule != Risky(entries[n]) { RiskiesAreEntries(entries[..n], rule); }
  }

  lemma {:induction false} OthersAreNotRisky(baselines: seq<Baseline>, cves: seq<KnownCve>, ids: seq<string>,
                                             rule: Rule)
    requires rule in Baselines(baselines) || rule in Cves(cves) || rule in Assertions(ids)
    ensures !rule.Risky?
    decreases |baselines| + |cves| + |ids|
  {
    if rule in Baselines(baselines) {
      if rule != Outdated(baselines[|baselines| - 1]) {
        OthersAreNotRisky(baselines[..|baselines| - 1], [], [], rule);
      }
    } else if rule in Cves(cves) {
      if rule != Cve(cves[|cves| - 1]) {
        OthersAreNotRisky([], cves[..|cves| - 1], [], rule);
      }
    } else if rule != Asserted(ids[|ids| - 1]) {
      OthersAreNotRisky([], [], ids[..|ids| - 1], rule);
    }
  }

  lemma RuleIdsApart(rule: Rule, o: Observation, kb: Knowledge)
    requires Fires(rule, o, kb) && RiskyIdsApart(kb)
    ensures !(INJECTION_RULE_ID <= RuleIdOf(rule))
  {
    NoBarInRuleId(INJECTION_RULE_ID);
    if rule.Risky? {
      if rule !in Riskies(kb.risky) { OthersAreNotRisky(kb.baselines, kb.cves, o.assertedCveIds, rule); }
      RiskiesAreEntries(kb.risky, rule);
    } else {
      assert RuleIdOf(rule)[0] != 'p';
    }
  }

  /** The id of a standing mark is always among the scan's ids. */
  lemma StandingMarkIsThere(observations: seq<Observation>, asset: Option<string>, raw: Option<string>,
                            kb: Knowledge, rt: Runtime, host: string, port: Option<nat>)
    requires MarkStands(observations, asset, raw, rt, Mark(host, port))
    ensures HasId(Candidates(observations, asset, raw, kb, rt), InjectionId(host, port, rt))
  {
    assert Injection(Mark(host, port), rt).id == InjectionId(host, port, rt);
    IdsAreThoseThatFire(observations, asset, raw, kb, rt, InjectionId(host, port, rt));
  }

  lemma UnprefixedDigest(rt: Runtime, x: string, y: string)
    requires "cand_" + rt.digest(x) == "cand_" + rt.digest(y)
    ensures rt.digest(x) == rt.digest(y)
  {
    EqualTail("cand_", rt.digest(x), rt.digest(y));
  }

  /** And nothing but sharing adds to that: the id for a host and port is in a scan if and only if
      the first observation of the host with such text stands at that port, or the artefact carries
      such text and no observation of the host does, or something else in this scan shares the id. */
  lemma InjectionIdIsThereExactly(observations: seq<Observation>, asset: Option<string>, raw: Option<string>,
                                  kb: Knowledge, rt: Runtime, host: string, port: Option<nat>)
    ensures HasId(Candidates(observations, asset, raw, kb, rt), InjectionId(host, port, rt))
      <==> || MarkStands(observations, asset, raw, rt, Mark(host, port))
           || IsShared(observations, asset, raw, kb, rt, host, port)
  {
    var id := InjectionId(host, port, rt);
    IdsAreThoseThatFire(observations, asset, raw, kb, rt, id);
    assert Injection(Mark(host, port), rt).id == id;
    if m :| MarkStands(observations, asset, raw, rt, m) && Injection(m, rt).id == id {
      assert IsMarkId(observations, asset, raw, rt, m, id);
    }
  }

  /** Sharing takes two keys with one digest, as long as no risky-service entry borrows the name of
      the rule for instruction-like text. */
  lemma SharingIsACollision(observations: seq<Observation>, asset: Option<string>, raw: Option<string>,
                            kb: Knowledge, rt: Runtime, host: string, port: Option<nat>)
    returns (other: string)
    requires RiskyIdsApart(kb)
    ensures IsShared(observations, asset, raw, kb, rt, host, port) ==>
      other != InjectionKey(host, port) && rt.digest(other) == rt.digest(InjectionKey(host, port))
  {
    other := "";
    var id := InjectionId(host, port, rt);
    if rule, o :| o in observations && Fires(rule, o, kb) && CandidateOf(rule, o, rt).id == id {
      RuleIdsApart(rule, o, kb);
      NoBarInRuleId(INJECTION_RULE_ID);
      other := Key(RuleIdOf(rule), o.host, o.port, DiscriminatorFor(rule, o));
      UnprefixedDigest(rt, other, InjectionKey(host, port));
      KeysTellRules(RuleIdOf(rule), o.host, o.port, DiscriminatorFor(rule, o), INJECTION_RULE_ID, host, port, "");
    } else if m :| m != Mark(host, port) && IsMarkId(observations, asset, raw, rt, m, id) {
      other := InjectionKey(m.host, m.port);
      UnprefixedDigest(rt, other, InjectionKey(host, port));
      if other == InjectionKey(host, port) {
        KeysTellPlaces(INJECTION_RULE_ID, m.host, m.port, host, port);
      }
    }
  }
}
