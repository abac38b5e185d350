/** Deciding whether a host imitates a legitimate domain.

    What the source takes from its runtime and its tables is a parameter here: which strings are
    IP literals, how one punycode label decodes, how a string folds to what it looks like, and
    which two-label suffixes are public. Everything below holds for all of them.
 */
module Lookalike {
  import opened Sorting
  import opened Text
  import opened EditDistance

  datatype Runtime = Runtime(
    isIp: string -> bool,
    decodeLabel: string -> string,
    fold: string -> string,
    multiLabelSuffixes: set<string>)

  datatype Technique = NotImitating | Homoglyph | Punycode | BrandInSubdomain | Typosquat

  const MAX_LOOKALIKE_DISTANCE: nat := 2
  const MIN_COMPARABLE_LENGTH: nat := 4

  predicate IsBracket(c: char) { c == '[' || c == ']' }
  predicate IsDot(c: char) { c == '.' }

  function NonEmpty(parts: seq<string>): (r: seq<string>)
    ensures forall i :: 0 <= i < |r| ==> r[i] != "" && r[i] in parts
  {
    if parts == [] then []
    else NonEmpty(parts[..|parts| - 1]) + (if parts[|parts| - 1] == "" then [] else [parts[|parts| - 1]])
  }

  function Cleaned(host: string): string {
    Trim(Strip(Lower(host)), IsBracket)
  }

  function Labels(cleaned: string): seq<string> {
    NonEmpty(Split(Trim(cleaned, IsDot), '.'))
  }

  function LastLabels(labels: seq<string>, n: nat): string
    requires n <= |labels|
  {
    Join(labels[|labels| - n..], '.')
  }

  /** The labels someone registered, out of all the labels of a host. */
  function Registered(labels: seq<string>, rt: Runtime): string {
    if |labels| <= 2 then Join(labels, '.')
    else if LastLabels(labels, 2) in rt.multiLabelSuffixes then LastLabels(labels, 3)
    else LastLabels(labels, 2)
  }

  function RegistrableDomain(host: string, rt: Runtime): string {
    var cleaned := Cleaned(host);
    if rt.isIp(cleaned) then cleaned else Registered(Labels(cleaned), rt)
  }

  predicate IsEncoded(part: string) { "xn--" <= part }

  function Decoded(labels: seq<string>, rt: Runtime): (r: seq<string>)
    ensures |r| == |labels|
    ensures forall i :: 0 <= i < |labels| ==>
      r[i] == (if IsEncoded(labels[i]) then rt.decodeLabel(labels[i]) else labels[i])
  {
    seq(|labels|, i requires 0 <= i < |labels| =>
      if IsEncoded(labels[i]) then rt.decodeLabel(labels[i]) else labels[i])
  }

  function DecodePunycode(host: string, rt: Runtime): string {
    Join(Decoded(Split(host, '.'), rt), '.')
  }

  predicate HasPunycode(host: string) {
    exists i :: 0 <= i < |Split(Lower(host), '.')| && IsEncoded(Split(Lower(host), '.')[i])
  }

  /** Is `host` imitating `legitimate`, and by which trick? */
  function IsLookalike(host: string, legitimate: string, rt: Runtime): Technique {
    var candidate := RegistrableDomain(DecodePunycode(host, rt), rt);
    var target := RegistrableDomain(legitimate, rt);
    if candidate == "" || target == "" || candidate == target then NotImitating
    else
      var seen, genuine := rt.fold(candidate), rt.fold(target);
      var brand := Split(target, '.')[0];
      if seen == genuine then Homoglyph
      else if HasPunycode(host) && Distance(seen, genuine) <= MAX_LOOKALIKE_DISTANCE then Punycode
      else if && |brand| >= MIN_COMPARABLE_LENGTH
              && brand in Split(rt.fold(DecodePunycode(host, rt)), '.')
              && brand != Split(seen, '.')[0] then BrandInSubdomain
      else if && |genuine| >= MIN_COMPARABLE_LENGTH && |seen| >= MIN_COMPARABLE_LENGTH
              && 0 < Distance(seen, genuine) <= MAX_LOOKALIKE_DISTANCE then Typosquat
      else NotImitating
  }

  // ----- registrable domains -----

  predicate IsPlainChar(c: char) {
    !IsSpace(c) && !IsBracket(c) && LowerChar(c) == c
  }

  /** A label that cleaning leaves alone. */
  ghost predicate IsPlainLabel(part: string) {
    part != "" && '.' !in part && forall c :: c in part ==> IsPlainChar(c)
  }

  ghost predicate PlainLabels(labels: seq<string>) {
    forall i :: 0 <= i < |labels| ==> IsPlainLabel(labels[i])
  }

  lemma {:induction false} NonEmptyKeepsAll(parts: seq<string>)
    requires forall i :: 0 <= i < |parts| ==> parts[i] != ""
    ensures NonEmpty(parts) == parts
  {
    if parts != [] {
      NonEmptyKeepsAll(parts[..|parts| - 1]);
    }
  }

  /** Cleaning finds nothing to do on plain characters. */
  lemma PlainCharactersStay(host: string)
    requires forall k :: 0 <= k < |host| ==> IsPlainChar(host[k])
    ensures Cleaned(host) == host
  {
    assert Lower(host) == host;
    NothingToTrim(host, IsSpace);
    NothingToTrim(host, IsBracket);
  }

  /** A host written out of plain labels is its own cleaned form, and reads back as those labels. */
  lemma PlainHost(labels: seq<string>)
    requires PlainLabels(labels)
    ensures Cleaned(Join(labels, '.')) == Join(labels, '.')
    ensures Labels(Join(labels, '.')) == labels
  {
    var host := Join(labels, '.');
    JoinCharacters(labels, '.');
    forall k | 0 <= k < |host| ensures IsPlainChar(host[k]) {
      assert host[k] in host;
    }
    PlainCharactersStay(host);
    if labels == [] {
      assert NonEmpty([""]) == NonEmpty([]);
    } else {
      JoinEnds(labels, '.');
      assert host[0] in labels[0] && host[|host| - 1] in labels[|labels| - 1];
      NothingToTrim(host, IsDot);
      SplitJoin(labels, '.');
      NonEmptyKeepsAll(labels);
    }
  }

  /** Whatever an address check says, plain labels register to themselves when they are short. */
  lemma PlainDomainIsRegistered(labels: seq<string>, rt: Runtime)
    requires PlainLabels(labels) && Registered(labels, rt) == Join(labels, '.')
    ensures RegistrableDomain(Join(labels, '.'), rt) == Join(labels, '.')
  {
    PlainHost(labels);
  }

  lemma CleanedOfSpotless(host: string)
    requires forall c :: c in host ==> !IsSpace(c) && !IsBracket(c)
    ensures Cleaned(host) == Lower(host)
    ensures forall c :: c in Lower(host) ==> IsPlainChar(c)
    ensures Cleaned(Lower(host)) == Lower(host)
  {
    var low := Lower(host);
    forall c | c in low ensures IsPlainChar(c) {
      var k :| 0 <= k < |low| && low[k] == c;
      assert c == LowerChar(host[k]) && host[k] in host;
    }
    NothingToTrim(low, IsSpace);
    NothingToTrim(low, IsBracket);
    assert Lower(low) == low;
  }

  lemma LabelsArePlain(cleaned: string)
    requires forall c :: c in cleaned ==> IsPlainChar(c)
    ensures PlainLabels(Labels(cleaned))
  {
    var inner := Trim(cleaned, IsDot);
    var a := TrimLeftCuts(cleaned, IsDot);
    var b := TrimRightCuts(TrimLeft(cleaned, IsDot), IsDot);
    assert forall c :: c in inner ==> c in cleaned;
    SplitPieces(inner, '.');
    var labels := Labels(cleaned);
    forall i | 0 <= i < |labels| ensures IsPlainLabel(labels[i]) {
      var k :| 0 <= k < |Split(inner, '.')| && Split(inner, '.')[k] == labels[i];
    }
  }

  lemma RegisteredIsItsOwn(labels: seq<string>, rt: Runtime) returns (own: seq<string>)
    requires PlainLabels(labels)
    ensures PlainLabels(own) && Registered(labels, rt) == Join(own, '.') == Registered(own, rt)
  {
    if |labels| <= 2 {
      own := labels;
    } else if LastLabels(labels, 2) in rt.multiLabelSuffixes {
      own := labels[|labels| - 3..];
      assert own[1..] == labels[|labels| - 2..];
    } else {
      own := labels[|labels| - 2..];
    }
  }

  /** Asking for the registrable domain of a registrable domain changes nothing, on hosts with
      no white space and no brackets, whatever counts as an IP literal. */
  lemma RegistrableIsIdempotent(host: string, rt: Runtime)
    requires forall c :: c in host ==> !IsSpace(c) && !IsBracket(c)
    ensures RegistrableDomain(RegistrableDomain(host, rt), rt) == RegistrableDomain(host, rt)
  {
    CleanedOfSpotless(host);
    if !rt.isIp(Cleaned(host)) {
      LabelsArePlain(Cleaned(host));
      var own := RegisteredIsItsOwn(Labels(Cleaned(host)), rt);
      PlainDomainIsRegistered(own, rt);
    }
  }

  /** A domain someone can register: a name under a single-label suffix, or under a listed
      two-label one. */
  ghost predicate IsDomain(labels: seq<string>, rt: Runtime) {
    && PlainLabels(labels)
    && (|| (|labels| == 2 && LastLabels(labels, 2) !in rt.multiLabelSuffixes)
        || (|labels| == 3 && LastLabels(labels, 2) in rt.multiLabelSuffixes))
  }

  /** Those are exactly the label lists, other than bare listed suffixes and single labels, that
      are their own registrable domain. */
  lemma DomainsAreTheFixedPoints(labels: seq<string>, rt: Runtime)
    requires PlainLabels(labels) && |labels| >= 2 && Join(labels, '.') !in rt.multiLabelSuffixes
    ensures IsDomain(labels, rt) <==> Registered(labels, rt) == Join(labels, '.')
  {
    assert labels[|labels| - |labels|..] == labels;
    if |labels| > 2 {
      var n := if LastLabels(labels, 2) in rt.multiLabelSuffixes then 3 else 2;
      if n < |labels| {
        var front, back := labels[..|labels| - n], labels[|labels| - n..];
        assert front + back == labels;
        JoinOfConcat(front, back);
      }
    }
  }

  lemma {:induction false} JoinOfConcat(front: seq<string>, back: seq<string>)
    requires front != [] && back != []
    ensures Join(front + back, '.') == Join(front, '.') + ['.'] + Join(back, '.')
  {
    var all, n := front + back, |back| - 1;
    assert all[..|all| - 1] == front + back[..n];
    if n == 0 {
      assert back[..n] == [] && all[..|all| - 1] == front;
    } else {
      JoinOfConcat(front, back[..n]);
    }
  }

  lemma LastLabelsIgnorePrefix(prefix: seq<string>, domain: seq<string>, n: nat)
    requires n <= |domain|
    ensures LastLabels(prefix + domain, n) == LastLabels(domain, n)
  {
    var all := prefix + domain;
    assert all[|all| - n..] == domain[|domain| - n..];
  }

  /** Putting labels in front does not change what is registered. */
  lemma RegisteredIgnoresPrefix(prefix: seq<string>, domain: seq<string>, rt: Runtime)
    requires IsDomain(domain, rt)
    ensures Registered(prefix + domain, rt) == Join(domain, '.')
  {
    assert LastLabels(domain, |domain|) == Join(domain, '.') by {
      assert domain[|domain| - |domain|..] == domain;
    }
    if prefix == [] {
      assert prefix + domain == domain;
    } else {
      LastLabelsIgnorePrefix(prefix, domain, 2);
      LastLabelsIgnorePrefix(prefix, domain, |domain|);
    }
  }

  /** Subdomains of a domain register to that domain. */
  lemma SubdomainRegistersToDomain(prefix: seq<string>, domain: seq<string>, rt: Runtime)
    requires PlainLabels(prefix) && IsDomain(domain, rt)
    requires !rt.isIp(Join(prefix + domain, '.'))
    ensures RegistrableDomain(Join(prefix + domain, '.'), rt) == Join(domain, '.')
  {
    PlainHost(prefix + domain);
    RegisteredIgnoresPrefix(prefix, domain, rt);
  }

  lemma PlainHostDecodesToItself(labels: seq<string>, rt: Runtime)
    requires PlainLabels(labels) && labels != []
    requires forall i :: 0 <= i < |labels| ==> !IsEncoded(labels[i])
    ensures DecodePunycode(Join(labels, '.'), rt) == Join(labels, '.')
  {
    SplitJoin(labels, '.');
    assert Decoded(labels, rt) == labels;
  }

  /** The true negative that keeps the rule credible: a host under its own domain, written
      without punycode, is never flagged against that domain, whatever the folding does. */
  lemma OwnSubdomainIsNeverFlagged(prefix: seq<string>, domain: seq<string>, rt: Runtime)
    requires PlainLabels(prefix) && IsDomain(domain, rt)
    requires forall i :: 0 <= i < |prefix + domain| ==> !IsEncoded((prefix + domain)[i])
    requires !rt.isIp(Join(prefix + domain, '.'))
    ensures IsLookalike(Join(prefix + domain, '.'), Join(domain, '.'), rt) == NotImitating
  {
    PlainHostDecodesToItself(prefix + domain, rt);
    SubdomainRegistersToDomain(prefix, domain, rt);
    DomainRegistersToItself(domain, rt);
  }

  lemma DomainRegistersToItself(domain: seq<string>, rt: Runtime)
    requires IsDomain(domain, rt)
    ensures RegistrableDomain(Join(domain, '.'), rt) == Join(domain, '.')
  {
    RegisteredIgnoresPrefix([], domain, rt);
    assert [] + domain == domain;
    PlainDomainIsRegistered(domain, rt);
  }

  // ----- a brand among the labels -----

  function Each(s: string, f: char -> char): (r: string)
    ensures |r| == |s| && forall k :: 0 <= k < |s| ==> r[k] == f(s[k])
  {
    seq(|s|, k requires 0 <= k < |s| => f(s[k]))
  }

  function EachLabel(labels: seq<string>, f: char -> char): (r: seq<string>)
    ensures |r| == |labels| && forall i :: 0 <= i < |labels| ==> r[i] == Each(labels[i], f)
  {
    seq(|labels|, i requires 0 <= i < |labels| => Each(labels[i], f))
  }

  /** A table of characters: dots stay dots, nothing else becomes one, and what a character is
      rewritten to stays. */
  ghost predicate IsTable(f: char -> char) {
    (forall c :: f(c) == '.' <==> c == '.') && forall c :: f(f(c)) == f(c)
  }

  lemma EachOfConcat(a: string, b: string, f: char -> char)
    ensures Each(a + b, f) == Each(a, f) + Each(b, f)
  {
  }

  lemma {:induction false} EachOfJoin(labels: seq<string>, f: char -> char)
    requires IsTable(f)
    ensures Each(Join(labels, '.'), f) == Join(EachLabel(labels, f), '.')
  {
    if |labels| > 1 {
      var n := |labels| - 1;
      EachOfJoin(labels[..n], f);
      EachOfConcat(Join(labels[..n], '.') + ['.'], labels[n], f);
      EachOfConcat(Join(labels[..n], '.'), ['.'], f);
      assert Each(['.'], f) == ['.'];
      assert EachLabel(labels, f)[..n] == EachLabel(labels[..n], f);
    }
  }

  /** Folding a plain host by a table folds it label by label. */
  lemma FoldedLabels(labels: seq<string>, f: char -> char)
    requires IsTable(f) && PlainLabels(labels) && labels != []
    ensures Split(Each(Join(labels, '.'), f), '.') == EachLabel(labels, f)
  {
    var folded := EachLabel(labels, f);
    forall i | 0 <= i < |folded| ensures '.' !in folded[i] {
      assert forall k :: 0 <= k < |labels[i]| ==> labels[i][k] in labels[i];
    }
    EachOfJoin(labels, f);
    SplitJoin(folded, '.');
  }

  lemma EachTwice(x: string, f: char -> char)
    requires IsTable(f)
    ensures Each(Each(x, f), f) == Each(x, f)
  {
  }

  /** Hosts for which only the brand test is left: plain text that folds by the table, under a domain
      whose folded form is more than two edits from the brand's. */
  ghost predicate OnlyTheBrandIsLeft(front: seq<string>, domain: seq<string>, brand: seq<string>,
                                     f: char -> char, rt: Runtime) {
    var host, candidate, target := Join(front + domain, '.'), Join(domain, '.'), Join(brand, '.');
    && PlainLabels(front) && IsDomain(domain, rt) && IsDomain(brand, rt) && |brand[0]| >= MIN_COMPARABLE_LENGTH
    && (forall i :: 0 <= i < |front + domain| ==> !IsEncoded((front + domain)[i])) && !rt.isIp(host)
    && IsTable(f) && rt.fold(host) == Each(host, f) && rt.fold(candidate) == Each(candidate, f)
    && Distance(rt.fold(candidate), rt.fold(target)) > MAX_LOOKALIKE_DISTANCE
  }

  lemma PlainHasNoPunycode(labels: seq<string>)
    requires PlainLabels(labels) && labels != []
    requires forall i :: 0 <= i < |labels| ==> !IsEncoded(labels[i])
    ensures !HasPunycode(Join(labels, '.'))
  {
    var host := Join(labels, '.');
    JoinCharacters(labels, '.');
    assert Lower(host) == host by {
      forall k | 0 <= k < |host| ensures LowerChar(host[k]) == host[k] { assert host[k] in host; }
    }
    SplitJoin(labels, '.');
  }

  /** There a host is flagged if and only if one of its labels folds to the brand's first label as it
      is written, and its own domain's does not. The label is compared unfolded. */
  lemma BrandInFrontExactly(front: seq<string>, domain: seq<string>, brand: seq<string>, f: char -> char,
                            rt: Runtime)
    requires OnlyTheBrandIsLeft(front, domain, brand, f, rt)
    ensures IsLookalike(Join(front + domain, '.'), Join(brand, '.'), rt)
         == if brand[0] in EachLabel(front + domain, f) && Each(domain[0], f) != brand[0]
            then BrandInSubdomain else NotImitating
  {
    PlainHostDecodesToItself(front + domain, rt);
    PlainHasNoPunycode(front + domain);
    SubdomainRegistersToDomain(front, domain, rt);
    DomainRegistersToItself(brand, rt);
    FoldedLabels(front + domain, f);
    FoldedLabels(domain, f);
    SplitJoin(brand, '.');
    ZeroIffEqual(rt.fold(Join(domain, '.')), rt.fold(Join(brand, '.')));
    JoinEnds(domain, '.');
    JoinEnds(brand, '.');
  }

  /** So a host that carries the brand's own label in front of an unrelated domain is flagged if and
      only if the fold leaves that label alone: a brand with a character it rewrites, such as a
      digit, is never found in a subdomain. */
  lemma BrandIsFoundExactlyWhenKept(front: seq<string>, domain: seq<string>, brand: seq<string>,
                                    f: char -> char, rt: Runtime)
    requires OnlyTheBrandIsLeft(front, domain, brand, f, rt)
    requires brand[0] in front && Each(domain[0], f) != brand[0]
    ensures IsLookalike(Join(front + domain, '.'), Join(brand, '.'), rt)
         == if Each(brand[0], f) == brand[0] then BrandInSubdomain else NotImitating
  {
    BrandInFrontExactly(front, domain, brand, f, rt);
    var labels := front + domain;
    var i :| 0 <= i < |front| && front[i] == brand[0];
    assert labels[i] == brand[0] && EachLabel(labels, f)[i] == Each(brand[0], f);
    if Each(brand[0], f) != brand[0] {
      forall k | 0 <= k < |labels| ensures EachLabel(labels, f)[k] != brand[0] {
        EachTwice(labels[k], f);
      }
    }
  }

  // ----- what a verdict means, in edit scripts -----

  /** No pair of different comparable names within two edits goes unnoticed. */
  lemma QuietMeansFarApart(host: string, legitimate: string, rt: Runtime, s: Script)
    requires IsLookalike(host, legitimate, rt) == NotImitating
    requires var seen := RegistrableDomain(DecodePunycode(host, rt), rt);
             var genuine := RegistrableDomain(legitimate, rt);
             && seen != "" && genuine != "" && seen != genuine
             && |rt.fold(seen)| >= MIN_COMPARABLE_LENGTH && |rt.fold(genuine)| >= MIN_COMPARABLE_LENGTH
             && Rewrites(s, rt.fold(seen), rt.fold(genuine))
    ensures Cost(s) > MAX_LOOKALIKE_DISTANCE
  {
    var seen := rt.fold(RegistrableDomain(DecodePunycode(host, rt), rt));
    var genuine := rt.fold(RegistrableDomain(legitimate, rt));
    DistanceIsMinimum(seen, genuine);
    ZeroIffEqual(seen, genuine);
  }

  /** Each accusation other than a brand in a subdomain comes with an edit script of at most
      two edits between the folded names: none for a homoglyph, at least one otherwise. */
  lemma AccusationHasScript(host: string, legitimate: string, rt: Runtime) returns (s: Script)
    ensures var technique := IsLookalike(host, legitimate, rt);
      technique in {Homoglyph, Punycode, Typosquat} ==>
        && Rewrites(s, rt.fold(RegistrableDomain(DecodePunycode(host, rt), rt)),
                    rt.fold(RegistrableDomain(legitimate, rt)))
        && Cost(s) <= MAX_LOOKALIKE_DISTANCE && (Cost(s) == 0 <==> technique == Homoglyph)
        && RegistrableDomain(DecodePunycode(host, rt), rt) != RegistrableDomain(legitimate, rt)
  {
    var seen := rt.fold(RegistrableDomain(DecodePunycode(host, rt), rt));
    var genuine := rt.fold(RegistrableDomain(legitimate, rt));
    DistanceIsMinimum(seen, genuine);
    ZeroIffEqual(seen, genuine);
    s :| Rewrites(s, seen, genuine) && Cost(s) == Distance(seen, genuine);
  }

  // ----- searching a set of legitimate domains -----

  /** The least member of the set the host imitates, with the technique; empty when it imitates
      none. */
  ghost predicate IsSearchResult(host: string, domains: set<string>, rt: Runtime, found: string, technique: Technique) {
    && (technique == NotImitating ==> found == "")
    && (technique == NotImitating <==> forall d :: d in domains ==> IsLookalike(host, d, rt) == NotImitating)
    && (technique != NotImitating ==>
          && found in domains && technique == IsLookalike(host, found, rt)
          && forall d :: d in domains && IsLookalike(host, d, rt) != NotImitating ==> StringLe(found, d))
  }

  /** The first domain, in sorted order, that the host imitates. */
  method FindLookalike(host: string, legitimateDomains: set<string>, rt: Runtime)
    returns (found: string, technique: Technique)
    ensures IsSearchResult(host, legitimateDomains, rt, found, technique)
  {
    StringsAreOrdered();
    var domains := Ascending(legitimateDomains, StringLe);
    for i := 0 to |domains|
      invariant forall k :: 0 <= k < i ==> IsLookalike(host, domains[k], rt) == NotImitating
    {
      technique := IsLookalike(host, domains[i], rt);
      if technique != NotImitating {
        forall d | d in legitimateDomains && IsLookalike(host, d, rt) != NotImitating
          ensures StringLe(domains[i], d)
        {
          var k :| 0 <= k < |domains| && domains[k] == d;
          StringLeTotal(d, d);
        }
        return domains[i], technique;
      }
    }
    return "", NotImitating;
  }

  ghost predicate ImitateNobody(domains: set<string>, rt: Runtime) {
    forall a, b :: a in domains && b in domains && a != b ==> IsLookalike(a, b, rt) == NotImitating
  }

  ghost predicate IsQuietOn(host: string, domains: set<string>, rt: Runtime) {
    forall found, technique :: IsSearchResult(host, domains, rt, found, technique) ==>
      found == "" && technique == NotImitating
  }

  lemma ResultWhenQuiet(host: string, domains: set<string>, rt: Runtime)
    ensures IsQuietOn(host, domains, rt)
      <==> forall d :: d in domains ==> IsLookalike(host, d, rt) == NotImitating
  {
    if d :| d in domains && IsLookalike(host, d, rt) != NotImitating {
      LeastFlagged(host, domains, rt, d);
    }
  }

  lemma LeastFlagged(host: string, domains: set<string>, rt: Runtime, d: string)
    requires d in domains && IsLookalike(host, d, rt) != NotImitating
    ensures !IsQuietOn(host, domains, rt)
  {
    var flagged := set x | x in domains && IsLookalike(host, x, rt) != NotImitating;
    assert d in flagged;
    StringsAreOrdered();
    var least := LeastExists(flagged, StringLe);
    forall x | x in domains && IsLookalike(host, x, rt) != NotImitating ensures StringLe(least, x) {
      assert x in flagged;
    }
    assert IsSearchResult(host, domains, rt, least, IsLookalike(host, least, rt));
  }

  /** A search finds nothing for the members of its own set, written without punycode, if and only
      if no two of them imitate each other. */
  lemma QuietOnOwnMembersExactly(domains: set<string>, rt: Runtime)
    requires forall d :: d in domains ==> DecodePunycode(d, rt) == d
    ensures (forall host :: host in domains ==> IsQuietOn(host, domains, rt)) <==> ImitateNobody(domains, rt)
  {
    forall host | host in domains
      ensures IsQuietOn(host, domains, rt)
        <==> forall d :: d in domains && d != host ==> IsLookalike(host, d, rt) == NotImitating
    {
      ResultWhenQuiet(host, domains, rt);
    }
  }

  /** Two different names one inserted letter apart, both long enough to compare, are flagged. */
  lemma OneLetterApartIsFlagged(host: string, legitimate: string, front: string, back: string,
                                c: char, rt: Runtime)
    requires rt.fold(RegistrableDomain(DecodePunycode(host, rt), rt)) == front + back
    requires rt.fold(RegistrableDomain(legitimate, rt)) == front + [c] + back
    requires RegistrableDomain(DecodePunycode(host, rt), rt) != ""
    requires RegistrableDomain(legitimate, rt) != ""
    requires |front + back| >= MIN_COMPARABLE_LENGTH
    ensures IsLookalike(host, legitimate, rt) != NotImitating
  {
    OneInsertion(front, back, c);
    ZeroIffEqual(front + back, front + [c] + back);
    assert |front + back| != |front + [c] + back|;
  }

  /** Two legitimate domains can imitate each other: any two names under one suffix that differ by
      one inserted letter do, as ups.com and usps.com. */
  lemma LegitimateDomainsCanCollide(name: string, longer: string, front: string, back: string,
                                    c: char, tld: string, rt: Runtime)
    requires name == front + back && longer == front + [c] + back
    requires IsPlainLabel(name) && IsPlainLabel(longer) && IsPlainLabel(tld)
    requires name[0] != 'x' && longer[0] != 'x' && tld[0] != 'x'
    requires var host, other := name + ['.'] + tld, longer + ['.'] + tld;
      rt.fold(host) == host && rt.fold(other) == other && |host| >= MIN_COMPARABLE_LENGTH
    ensures IsLookalike(name + ['.'] + tld, longer + ['.'] + tld, rt) != NotImitating
  {
    TwoLabels(name, tld, rt);
    TwoLabels(longer, tld, rt);
    Regroup(front, c, back, tld);
    OneLetterApartIsFlagged(name + ['.'] + tld, longer + ['.'] + tld, front, back + ['.'] + tld, c, rt);
  }

  lemma Regroup(front: string, c: char, back: string, tld: string)
    ensures front + back + ['.'] + tld == front + (back + ['.'] + tld)
    ensures front + [c] + back + ['.'] + tld == front + [c] + (back + ['.'] + tld)
  {
  }

  lemma TwoLabels(name: string, tld: string, rt: Runtime)
    requires IsPlainLabel(name) && IsPlainLabel(tld) && name[0] != 'x' && tld[0] != 'x'
    ensures DecodePunycode(name + ['.'] + tld, rt) == name + ['.'] + tld
    ensures RegistrableDomain(name + ['.'] + tld, rt) == name + ['.'] + tld
  {
    var labels := [name, tld];
    assert labels[..1] == [name];
    assert !IsEncoded(name) && !IsEncoded(tld) by { assert "xn--"[0] == 'x'; }
    assert Join(labels, '.') == name + ['.'] + tld;
    PlainHostDecodesToItself(labels, rt);
    PlainDomainIsRegistered(labels, rt);
  }
}
