/** Which addresses and ranges may be scanned: CIDR blocks (section 3.1 of RFC 4632), the
    allowlist checks of the scanner, and the bounded entries an operator may attest to.

    Text is parsed by the runtime: an entry is blank, unreadable, or an address and prefix length.
 */
module ScanScope {
  import opened Wrappers

  datatype Version = V4 | V6

  datatype Address = Address(version: Version, value: nat)

  /** A block: the addresses from base on that share its prefix. */
  datatype Network = Network(version: Version, base: nat, prefix: nat)

  datatype Raw = Blank | Unreadable | Block(version: Version, address: nat, prefix: nat)

  const MAX_SWEEP_ADDRESSES: nat := 1024
  const MAX_SCOPE_ADDRESSES: nat := 65536

  const FORBIDDEN: seq<Network> := [
    Network(V4, 0xA9FE_0000, 16),   // 169.254.0.0/16
    Network(V4, 0xE000_0000, 4),    // 224.0.0.0/4
    Network(V4, 0, 8)               // 0.0.0.0/8
  ]

  function Width(v: Version): nat { if v == V4 then 32 else 128 }

  function Pow2(n: nat): (p: nat)
    ensures p > 0
  {
    if n == 0 then 1 else 2 * Pow2(n - 1)
  }

  /** Number of addresses of a block; a prefix too long for the version, which no parsed network has,
      is read as a single address. */
  function Size(n: Network): (s: nat)
    ensures s > 0
  {
    Pow2(if n.prefix <= Width(n.version) then Width(n.version) - n.prefix else 0)
  }

  /** What a parsed network satisfies: its base has no host bits and it fits the address space. */
  ghost predicate IsNetwork(n: Network) {
    && n.prefix <= Width(n.version)
    && n.base % Size(n) == 0 && n.base + Size(n) <= Pow2(Width(n.version))
  }

  /** The multiple of s at or below x: an address with its low bits masked away. */
  function RoundDown(x: nat, s: nat): nat
    requires s > 0
  {
    x / s * s
  }

  /** Non-strict parsing: host bits are masked away. */
  function ParseNetwork(raw: Raw): Option<Network> {
    if raw.Block? && raw.prefix <= Width(raw.version) && raw.address < Pow2(Width(raw.version)) then
      var size := Pow2(Width(raw.version) - raw.prefix);
      Some(Network(raw.version, RoundDown(raw.address, size), raw.prefix))
    else None
  }

  function Broadcast(n: Network): nat
  {
    n.base + Size(n) - 1
  }

  /** `address in network`: the masked address is the network's base. */
  predicate Contains(n: Network, a: Address)
  {
    a.version == n.version && RoundDown(a.value, Size(n)) == n.base
  }

  predicate SubnetOf(n: Network, m: Network)
  {
    m.base <= n.base && Broadcast(n) <= Broadcast(m)
  }

  /** An endpoint of one lies in the other. */
  predicate Overlaps(n: Network, m: Network)
  {
    || Contains(n, Address(m.version, m.base)) || Contains(n, Address(m.version, Broadcast(m)))
    || Contains(m, Address(n.version, n.base)) || Contains(m, Address(n.version, Broadcast(n)))
  }

  // ----- blocks are laminar -----

  lemma {:induction false} Pow2Splits(i: nat, j: nat)
    ensures Pow2(i + j) == Pow2(i) * Pow2(j)
  {
    if i > 0 {
      Pow2Splits(i - 1, j);
      assert 2 * Pow2(i - 1) * Pow2(j) == 2 * (Pow2(i - 1) * Pow2(j));
    }
  }

  lemma QuotientIsUnique(x: nat, q: nat, s: nat)
    requires s > 0
    ensures x / s == q <==> q * s <= x < q * s + s
  {
    assert x == x / s * s + x % s;
    if q * s <= x < q * s + s {
      if x / s < q { LessTimes(x / s, q, s); }
      if q < x / s { LessTimes(q, x / s, s); }
    }
  }

  lemma LessTimes(p: nat, q: nat, s: nat)
    requires p < q
    ensures p * s + s <= q * s
  {
    assert (q - p - 1) * s >= 0;
    assert q * s == p * s + s + (q - p - 1) * s;
  }

  /** The mask test is the interval test. */
  lemma ContainsIsInterval(n: Network, a: Address)
    requires IsNetwork(n)
    ensures Contains(n, a) <==> a.version == n.version && n.base <= a.value <= Broadcast(n)
  {
    var s := Size(n);
    assert n.base == n.base / s * s;
    QuotientIsUnique(a.value, n.base / s, s);
    if a.value / s * s == n.base && a.value / s != n.base / s {
      if a.value / s < n.base / s {
        LessTimes(a.value / s, n.base / s, s);
      } else {
        LessTimes(n.base / s, a.value / s, s);
      }
    }
  }

  lemma ParsedIsNetwork(raw: Raw)
    ensures ParseNetwork(raw).Some? ==> IsNetwork(ParseNetwork(raw).value)
  {
    if ParseNetwork(raw).Some? {
      var w := Width(raw.version);
      var s := Pow2(w - raw.prefix);
      var q := raw.address / s;
      Pow2Splits(raw.prefix, w - raw.prefix);
      QuotientIsUnique(raw.address, q, s);
      assert q < Pow2(raw.prefix) by {
        if q >= Pow2(raw.prefix) { Monotone(Pow2(raw.prefix), q, s); }
      }
      LessTimes(q, Pow2(raw.prefix), s);
      MultipleHasNoRemainder(q, s);
    }
  }

  lemma Monotone(p: nat, q: nat, s: nat)
    requires p <= q
    ensures p * s <= q * s
  {
    if p < q { LessTimes(p, q, s); }
  }

  lemma MultipleHasNoRemainder(q: nat, s: nat)
    requires s > 0
    ensures (q * s) % s == 0
  {
    QuotientIsUnique(q * s, q, s);
  }

  /** Two blocks, the first no larger: an address in both puts the first inside the second. */
  lemma SmallerIsInside(n: Network, m: Network, x: nat)
    requires IsNetwork(n) && IsNetwork(m) && n.version == m.version && n.prefix >= m.prefix
    requires n.base <= x <= Broadcast(n) && m.base <= x <= Broadcast(m)
    ensures SubnetOf(n, m)
  {
    var q, p, k := SharedUnits(n, m);
    StretchHolds(q, p, k, Size(n), x);
  }

  lemma AsMultiple(b: nat, s: nat) returns (q: nat)
    requires s > 0 && b % s == 0
    ensures b == q * s
  {
    q := b / s;
  }

  /** Both blocks in units of the smaller one. */
  lemma SharedUnits(n: Network, m: Network) returns (q: nat, p: nat, k: nat)
    requires IsNetwork(n) && IsNetwork(m) && n.version == m.version && n.prefix >= m.prefix
    ensures n.base == q * Size(n)
    ensures m.base == p * Size(n) && m.base + Size(m) == (p + k) * Size(n)
  {
    k := Pow2(n.prefix - m.prefix);
    Pow2Splits(n.prefix - m.prefix, Width(n.version) - n.prefix);
    q := AsMultiple(n.base, Size(n));
    var r := AsMultiple(m.base, Size(m));
    Regroup(r, k, Size(n));
    p := r * k;
  }

  lemma Regroup(r: nat, k: nat, s: nat)
    ensures r * (k * s) == (r * k) * s && (r * k) * s + k * s == (r * k + k) * s
  {
  }

  /** A unit stretch that meets a stretch of k units starting on a unit boundary lies within it. */
  lemma StretchHolds(q: nat, p: nat, k: nat, s: nat, x: nat)
    requires q * s <= x < q * s + s && p * s <= x < (p + k) * s
    ensures p * s <= q * s && q * s + s <= (p + k) * s
  {
    if q < p {
      LessTimes(q, p, s);
    } else if q >= p + k {
      Monotone(p + k, q, s);
    } else {
      Monotone(p, q, s);
      LessTimes(q, p + k, s);
    }
  }

  /** Two networks of one version overlap exactly when one contains the other; there is no
      partial overlap. */
  lemma BlocksAreLaminar(n: Network, m: Network)
    requires IsNetwork(n) && IsNetwork(m) && n.version == m.version
    ensures Overlaps(n, m) <==> SubnetOf(n, m) || SubnetOf(m, n)
  {
    ContainsIsInterval(n, Address(m.version, m.base));
    ContainsIsInterval(n, Address(m.version, Broadcast(m)));
    ContainsIsInterval(m, Address(n.version, n.base));
    ContainsIsInterval(m, Address(n.version, Broadcast(n)));
    if Overlaps(n, m) {
      var x := if Contains(n, Address(m.version, m.base)) then m.base
               else if Contains(n, Address(m.version, Broadcast(m))) then Broadcast(m)
               else n.base;
      if n.prefix >= m.prefix {
        SmallerIsInside(n, m, x);
      } else {
        SmallerIsInside(m, n, x);
      }
    }
  }

  /** The endpoint test finds every common address. */
  lemma OverlapMeansCommonAddress(n: Network, m: Network)
    requires IsNetwork(n) && IsNetwork(m) && n.version == m.version
    ensures Overlaps(n, m) <==> exists a :: Contains(n, a) && Contains(m, a)
  {
    ContainsIsInterval(n, Address(m.version, m.base));
    ContainsIsInterval(n, Address(m.version, Broadcast(m)));
    ContainsIsInterval(m, Address(n.version, n.base));
    ContainsIsInterval(m, Address(n.version, Broadcast(n)));
    ContainsIsInterval(m, Address(m.version, m.base));
    ContainsIsInterval(m, Address(m.version, Broadcast(m)));
    ContainsIsInterval(n, Address(n.version, n.base));
    ContainsIsInterval(n, Address(n.version, Broadcast(n)));
    if a :| Contains(n, a) && Contains(m, a) {
      ContainsIsInterval(n, a);
      ContainsIsInterval(m, a);
    }
  }

  /** Every address of n is one of m. */
  ghost predicate IsSubset(n: Network, m: Network)
  {
    forall a :: Contains(n, a) ==> Contains(m, a)
  }

  lemma EndpointsAreThere(n: Network)
    requires IsNetwork(n)
    ensures Contains(n, Address(n.version, n.base)) && Contains(n, Address(n.version, Broadcast(n)))
  {
    ContainsIsInterval(n, Address(n.version, n.base));
    ContainsIsInterval(n, Address(n.version, Broadcast(n)));
  }

  /** Being inside is being a subset, address by address. */
  lemma SubnetMeansSubset(n: Network, m: Network)
    requires IsNetwork(n) && IsNetwork(m) && n.version == m.version
    ensures SubnetOf(n, m) <==> IsSubset(n, m)
  {
    if SubnetOf(n, m) {
      forall a | Contains(n, a) ensures Contains(m, a) {
        ContainsIsInterval(n, a);
        ContainsIsInterval(m, a);
      }
    }
    if IsSubset(n, m) {
      EndpointsAreThere(n);
      ContainsIsInterval(m, Address(n.version, n.base));
      ContainsIsInterval(m, Address(n.version, Broadcast(n)));
    }
  }

  // ----- the allowlist -----

  ghost predicate AreNetworks(allowed: seq<Network>) {
    forall i :: 0 <= i < |allowed| ==> IsNetwork(allowed[i])
  }

  method ParseNetworks(entries: seq<Raw>) returns (networks: seq<Network>)
    ensures AreNetworks(networks)
    ensures forall n :: n in networks <==> exists i :: 0 <= i < |entries| && ParseNetwork(entries[i]) == Some(n)
  {
    networks := [];
    for i := 0 to |entries|
      invariant AreNetworks(networks)
      invariant forall n :: n in networks <==> exists k :: 0 <= k < i && ParseNetwork(entries[k]) == Some(n)
    {
      ParsedIsNetwork(entries[i]);
      var parsed := ParseNetwork(entries[i]);
      if parsed.Some? {
        networks := networks + [parsed.value];
      }
    }
  }

  predicate InScope(a: Address, allowed: seq<Network>)
  {
    exists i :: 0 <= i < |allowed| && Contains(allowed[i], a)
  }

  datatype TargetDecision = TargetDecision(allowed: bool, target: Option<Address>)

  function DecideAddress(a: Address, allowed: seq<Network>): TargetDecision
  {
    TargetDecision(InScope(a, allowed), Some(a))
  }

  /** What looking a name up gave: each answer is an address or unreadable. */
  datatype Resolution = LookupFailed | Resolved(answers: seq<Option<Address>>)

  function Preferred(addresses: seq<Address>): Address
    requires addresses != []
  {
    FirstV4(addresses, addresses[0])
  }

  function FirstV4(addresses: seq<Address>, default: Address): Address {
    if addresses == [] then default
    else if addresses[0].version == V4 then addresses[0]
    else FirstV4(addresses[1..], default)
  }

  /** Place of the first IPv4 address; the length when there is none. */
  lemma {:induction false} FirstV4IsFirst(addresses: seq<Address>, default: Address) returns (k: nat)
    ensures k <= |addresses| && forall j :: 0 <= j < k ==> addresses[j].version != V4
    ensures k < |addresses| ==> addresses[k].version == V4
    ensures FirstV4(addresses, default) == if k < |addresses| then addresses[k] else default
  {
    if addresses == [] || addresses[0].version == V4 {
      k := 0;
    } else {
      k := FirstV4IsFirst(addresses[1..], default);
      k := k + 1;
    }
  }

  /** The first IPv4 answer, or the first answer when none is IPv4. */
  ghost predicate IsPreferred(answers: seq<Option<Address>>, i: int) {
    && 0 <= i < |answers| && answers[i].Some?
    && (answers[i].value.version == V4 ==>
          forall j :: 0 <= j < i && answers[j].Some? ==> answers[j].value.version != V4)
    && (answers[i].value.version != V4 ==>
          i == 0 && forall j :: 0 <= j < |answers| && answers[j].Some? ==> answers[j].value.version != V4)
  }

  /** A name is allowed exactly when it resolved, every answer is readable and every address is in
      scope; the scanner is then handed the first IPv4 address, or the first of all if there is
      none. */
  method DecideHostname(resolution: Resolution, allowed: seq<Network>) returns (d: TargetDecision)
    requires AreNetworks(allowed)
    ensures d.allowed <==>
      && resolution.Resolved? && resolution.answers != []
      && forall i :: 0 <= i < |resolution.answers| ==>
           resolution.answers[i].Some? && InScope(resolution.answers[i].value, allowed)
    ensures d.allowed ==> d.target.Some? && d.target in resolution.answers && InScope(d.target.value, allowed)
    ensures d.allowed ==> exists i :: IsPreferred(resolution.answers, i) && resolution.answers[i] == d.target
  {
    if resolution.LookupFailed? || resolution.answers == [] {
      return TargetDecision(false, None);
    }
    var answers := resolution.answers;
    var addresses: seq<Address> := [];
    for i := 0 to |answers|
      invariant |addresses| == i
      invariant forall k :: 0 <= k < i ==> answers[k] == Some(addresses[k])
    {
      if answers[i].None? {
        return TargetDecision(false, None);
      }
      addresses := addresses + [answers[i].value];
    }
    for i := 0 to |addresses|
      invariant forall k :: 0 <= k < i ==> InScope(addresses[k], allowed)
    {
      if !InScope(addresses[i], allowed) {
        assert answers[i] == Some(addresses[i]);
        return TargetDecision(false, None);
      }
    }
    var target := Preferred(addresses);
    ghost var k := FirstV4IsFirst(addresses, addresses[0]);
    assert IsPreferred(answers, if k < |addresses| then k else 0);
    assert target in addresses;
    d := TargetDecision(true, Some(target));
  }

  // ----- ranges -----

  datatype Refusal = NothingSupplied | NotARange | IsForbidden | TooLarge | OutOfScope
  datatype RangeDecision = Refused(reason: Refusal) | Allowed(network: Network, addressCount: nat)

  predicate TouchesForbidden(n: Network)
  {
    exists i :: 0 <= i < |FORBIDDEN| && n.version == FORBIDDEN[i].version && Overlaps(n, FORBIDDEN[i])
  }

  predicate Covers(n: Network, entry: Network)
  {
    n.version == entry.version && SubnetOf(n, entry)
  }

  function CheckRange(raw: Raw, allowed: seq<Network>): RangeDecision
  {
    if raw.Blank? then Refused(NothingSupplied)
    else
      var parsed := ParseNetwork(raw);
      if parsed.None? then Refused(NotARange)
      else if TouchesForbidden(parsed.value) then Refused(IsForbidden)
      else if Size(parsed.value) > MAX_SWEEP_ADDRESSES then Refused(TooLarge)
      else if !exists i :: 0 <= i < |allowed| && Covers(parsed.value, allowed[i]) then Refused(OutOfScope)
      else Allowed(parsed.value, Size(parsed.value))
  }

  lemma ForbiddenAreNetworks()
    ensures AreNetworks(FORBIDDEN)
  {
    Pow2Values();
  }

  lemma Pow2Values()
    ensures Pow2(16) == 65536 && Pow2(28) == 0x1000_0000 && Pow2(24) == 0x100_0000
    ensures Pow2(32) == 0x1_0000_0000
  {
    assert Pow2(8) == 256;
    Pow2Splits(8, 8);
    Pow2Splits(8, 16);
    Pow2Splits(16, 16);
    assert Pow2(4) == 16;
    Pow2Splits(4, 24);
  }

  /** No address of the block is in any forbidden range. */
  ghost predicate AvoidsForbidden(n: Network)
  {
    forall a, i :: 0 <= i < |FORBIDDEN| && Contains(n, a) ==> !Contains(FORBIDDEN[i], a)
  }

  lemma TouchMeansSharing(n: Network)
    requires IsNetwork(n)
    ensures TouchesForbidden(n) <==> !AvoidsForbidden(n)
  {
    ForbiddenAreNetworks();
    forall i | 0 <= i < |FORBIDDEN| && FORBIDDEN[i].version == n.version
      ensures Overlaps(n, FORBIDDEN[i]) <==> exists a :: Contains(n, a) && Contains(FORBIDDEN[i], a)
    {
      OverlapMeansCommonAddress(n, FORBIDDEN[i]);
    }
  }

  /** A range is allowed exactly when it is one: every address of it avoids the forbidden ranges,
      it is small enough to sweep, and one allowlist entry holds every address of it. */
  lemma AllowedExactlyWhenContained(raw: Raw, allowed: seq<Network>)
    requires AreNetworks(allowed)
    ensures CheckRange(raw, allowed).Allowed? <==>
      && ParseNetwork(raw).Some?
      && AvoidsForbidden(ParseNetwork(raw).value)
      && Size(ParseNetwork(raw).value) <= MAX_SWEEP_ADDRESSES
      && exists i :: 0 <= i < |allowed| && IsSubset(ParseNetwork(raw).value, allowed[i])
  {
    if ParseNetwork(raw).Some? {
      var n := ParseNetwork(raw).value;
      ParsedIsNetwork(raw);
      TouchMeansSharing(n);
      forall i | 0 <= i < |allowed|
        ensures Covers(n, allowed[i]) <==> IsSubset(n, allowed[i])
      {
        if n.version == allowed[i].version {
          SubnetMeansSubset(n, allowed[i]);
        } else {
          EndpointsAreThere(n);
        }
      }
    }
  }

  /** Whatever a sweep of an allowed range reaches, the single-address check would have allowed,
      and none of it is forbidden. */
  lemma AllowedRangeReachesOnlyScope(raw: Raw, allowed: seq<Network>, a: Address)
    requires AreNetworks(allowed) && CheckRange(raw, allowed).Allowed?
    requires Contains(CheckRange(raw, allowed).network, a)
    ensures InScope(a, allowed) && DecideAddress(a, allowed).allowed
    ensures forall i :: 0 <= i < |FORBIDDEN| ==> !Contains(FORBIDDEN[i], a)
    ensures CheckRange(raw, allowed).addressCount == Size(CheckRange(raw, allowed).network) <= MAX_SWEEP_ADDRESSES
  {
    AllowedExactlyWhenContained(raw, allowed);
  }

  /** No address the single-address check admits is forbidden. */
  ghost predicate AdmitsNoForbidden(allowed: seq<Network>) {
    forall a, i :: 0 <= i < |FORBIDDEN| && DecideAddress(a, allowed).allowed ==> !Contains(FORBIDDEN[i], a)
  }

  /** The single-address check tests the allowlist and nothing else: it admits no forbidden address
      if and only if no allowlist entry overlaps a forbidden block. */
  lemma AddressesAreCleanExactly(allowed: seq<Network>)
    requires AreNetworks(allowed)
    ensures AdmitsNoForbidden(allowed) <==> forall j :: 0 <= j < |allowed| ==> !TouchesForbidden(allowed[j])
  {
    forall j | 0 <= j < |allowed| ensures TouchesForbidden(allowed[j]) <==> !AvoidsForbidden(allowed[j]) {
      TouchMeansSharing(allowed[j]);
    }
    if j :| 0 <= j < |allowed| && !AvoidsForbidden(allowed[j]) {
      var a, i :| 0 <= i < |FORBIDDEN| && Contains(allowed[j], a) && Contains(FORBIDDEN[i], a);
      assert DecideAddress(a, allowed).allowed;
    }
  }

  /** Widening the allowlist never takes an allowance away. */
  lemma MoreScopeNeverRefuses(raw: Raw, allowed: seq<Network>, more: seq<Network>)
    requires AreNetworks(allowed) && AreNetworks(more)
    requires forall n :: n in allowed ==> n in more
    ensures CheckRange(raw, allowed).Allowed? ==> CheckRange(raw, more) == CheckRange(raw, allowed)
    ensures forall a :: InScope(a, allowed) ==> InScope(a, more)
  {
    if CheckRange(raw, allowed).Allowed? {
      var i :| 0 <= i < |allowed| && Covers(ParseNetwork(raw).value, allowed[i]);
      assert allowed[i] in more;
    }
    forall a | InScope(a, allowed) ensures InScope(a, more) {
      var i :| 0 <= i < |allowed| && Contains(allowed[i], a);
      assert allowed[i] in more;
    }
  }

  function LowerHalf(n: Network): Network { Network(n.version, n.base, n.prefix + 1) }

  function UpperHalf(n: Network): Network
    requires n.prefix < Width(n.version)
  {
    Network(n.version, n.base + Size(n) / 2, n.prefix + 1)
  }

  lemma HalvesAreNetworks(n: Network)
    requires IsNetwork(n) && n.prefix < Width(n.version)
    ensures Size(n) == 2 * Size(LowerHalf(n)) && Size(UpperHalf(n)) == Size(LowerHalf(n))
    ensures IsNetwork(LowerHalf(n)) && IsNetwork(UpperHalf(n))
  {
    var h := Size(LowerHalf(n));
    assert Size(n) == 2 * h;
    var q := AsMultiple(n.base, Size(n));
    assert q * (2 * h) == (2 * q) * h && (2 * q) * h + h == (2 * q + 1) * h;
    MultipleHasNoRemainder(2 * q, h);
    MultipleHasNoRemainder(2 * q + 1, h);
  }

  /** The single-entry rule is strictly narrower than the addresses it protects: a range authorised
      as its two halves is refused, although each of its addresses is in scope. */
  lemma TwoHalvesAreNotTheWhole(raw: Raw)
    requires ParseNetwork(raw).Some? && ParseNetwork(raw).value.prefix < Width(raw.version)
    requires AvoidsForbidden(ParseNetwork(raw).value)
    requires Size(ParseNetwork(raw).value) <= MAX_SWEEP_ADDRESSES
    ensures var n := ParseNetwork(raw).value;
      var halves := [LowerHalf(n), UpperHalf(n)];
      && AreNetworks(halves)
      && (forall a :: Contains(n, a) ==> InScope(a, halves))
      && CheckRange(raw, halves) == Refused(OutOfScope)
  {
    var n := ParseNetwork(raw).value;
    var halves := [LowerHalf(n), UpperHalf(n)];
    ParsedIsNetwork(raw);
    HalvesAreNetworks(n);
    TouchMeansSharing(n);
    forall a | Contains(n, a) ensures InScope(a, halves) {
      ContainsIsInterval(n, a);
      ContainsIsInterval(halves[0], a);
      ContainsIsInterval(halves[1], a);
      assert Contains(halves[0], a) || Contains(halves[1], a);
    }
  }

  // ----- attested scope -----

  datatype Attested = Accepted(network: Network) | Rejected(reason: Refusal)

  function NormalizeScopeTarget(raw: Raw): Attested {
    if raw.Blank? then Rejected(NothingSupplied)
    else
      var parsed := ParseNetwork(raw);
      if parsed.None? then Rejected(NotARange)
      else if Size(parsed.value) > MAX_SCOPE_ADDRESSES then Rejected(TooLarge)
      else if TouchesForbidden(parsed.value) then Rejected(IsForbidden)
      else Accepted(parsed.value)
  }

  /** An accepted entry is bounded and shares no address with a forbidden range. */
  lemma AcceptedIsBoundedAndClean(raw: Raw)
    requires NormalizeScopeTarget(raw).Accepted?
    ensures IsNetwork(NormalizeScopeTarget(raw).network)
    ensures Size(NormalizeScopeTarget(raw).network) <= MAX_SCOPE_ADDRESSES
    ensures AvoidsForbidden(NormalizeScopeTarget(raw).network)
  {
    ParsedIsNetwork(raw);
    TouchMeansSharing(NormalizeScopeTarget(raw).network);
  }

  /** The two limits fit together: any range inside an attested entry is either small enough to
      sweep and allowed, or refused for its size alone. */
  lemma AttestedScopeIsSweepable(entry: Raw, raw: Raw, allowed: seq<Network>)
    requires AreNetworks(allowed) && NormalizeScopeTarget(entry).Accepted?
    requires NormalizeScopeTarget(entry).network in allowed
    requires ParseNetwork(raw).Some? && Covers(ParseNetwork(raw).value, NormalizeScopeTarget(entry).network)
    ensures CheckRange(raw, allowed)
         == if Size(ParseNetwork(raw).value) <= MAX_SWEEP_ADDRESSES
            then Allowed(ParseNetwork(raw).value, Size(ParseNetwork(raw).value))
            else Refused(TooLarge)
  {
    var n, m := ParseNetwork(raw).value, NormalizeScopeTarget(entry).network;
    ParsedIsNetwork(raw);
    AcceptedIsBoundedAndClean(entry);
    SubnetMeansSubset(n, m);
    TouchMeansSharing(n);
  }

  // ----- forbidden addresses in another form -----

  const MAPPED_BASE: nat := 0xFFFF_0000_0000

  /** The IPv4-mapped form of an address, and of a block (section 2.5.5.2 of RFC 4291). */
  function Mapped(a: Address): Address { Address(V6, MAPPED_BASE + a.value) }

  function MappedBlock(n: Network): Network { Network(V6, MAPPED_BASE + n.base, 96 + n.prefix) }

  /** No address of the block is the mapped form of a forbidden address. */
  ghost predicate AvoidsMapped(n: Network)
  {
    forall i, a :: 0 <= i < |FORBIDDEN| && Contains(FORBIDDEN[i], a) ==> !Contains(n, Mapped(a))
  }

  lemma MappedBlockIs(i: nat)
    requires i < |FORBIDDEN|
    ensures var f := FORBIDDEN[i];
      && IsNetwork(f) && f.version == V4 && IsNetwork(MappedBlock(f)) && Size(MappedBlock(f)) == Size(f)
  {
    ForbiddenAreNetworks();
    MappedIsNetwork(FORBIDDEN[i]);
  }

  lemma MappedIsNetwork(f: Network)
    requires IsNetwork(f) && f.version == V4
    ensures IsNetwork(MappedBlock(f)) && Size(MappedBlock(f)) == Size(f)
  {
    var s, p := Size(f), Pow2(f.prefix);
    Pow2Splits(f.prefix, 32 - f.prefix);
    Pow2Values();
    MappedFits();
    var q := AsMultiple(f.base, s);
    MappedMultiple(p, q, s);
    MultipleHasNoRemainder(0xFFFF * p + q, s);
  }

  lemma MappedMultiple(p: nat, q: nat, s: nat)
    requires p * s == 0x1_0000_0000
    ensures MAPPED_BASE + q * s == (0xFFFF * p + q) * s
  {
    assert MAPPED_BASE == 0xFFFF * (p * s);
  }

  lemma MappedFits()
    ensures MAPPED_BASE + Pow2(32) <= Pow2(128)
  {
    Pow2Values();
    Pow2Splits(32, 16);
    Pow2Splits(48, 80);
    assert Pow2(80) >= 1;
  }

  lemma MappedBlockHolds(i: nat, b: Address)
    requires i < |FORBIDDEN|
    ensures Contains(MappedBlock(FORBIDDEN[i]), b)
      <==> exists a :: Contains(FORBIDDEN[i], a) && b == Mapped(a)
  {
    var f := FORBIDDEN[i];
    MappedBlockIs(i);
    ContainsIsInterval(MappedBlock(f), b);
    if Contains(MappedBlock(f), b) {
      var a := Address(V4, b.value - MAPPED_BASE);
      ContainsIsInterval(f, a);
      assert Contains(f, a) && b == Mapped(a);
    }
    if a :| Contains(f, a) && b == Mapped(a) {
      ContainsIsInterval(f, a);
    }
  }

  /** The forbidden test looks at one address family only. A block holds no mapped form of a
      forbidden address if and only if it is an IPv4 block or overlaps no forbidden block's mapped
      form. */
  lemma MappedFormsAreAvoidedExactly(n: Network)
    requires IsNetwork(n)
    ensures AvoidsMapped(n)
      <==> n.version == V4 || forall i :: 0 <= i < |FORBIDDEN| ==> !Overlaps(n, MappedBlock(FORBIDDEN[i]))
  {
    if n.version == V6 {
      forall i | 0 <= i < |FORBIDDEN|
        ensures Overlaps(n, MappedBlock(FORBIDDEN[i]))
          <==> exists a :: Contains(FORBIDDEN[i], a) && Contains(n, Mapped(a))
      {
        MappedOverlap(n, i);
      }
    }
  }

  lemma MappedOverlap(n: Network, i: nat)
    requires IsNetwork(n) && n.version == V6 && i < |FORBIDDEN|
    ensures Overlaps(n, MappedBlock(FORBIDDEN[i])) <==> exists a :: Contains(FORBIDDEN[i], a) && Contains(n, Mapped(a))
  {
    MappedBlockIs(i);
    OverlapMeansCommonAddress(n, MappedBlock(FORBIDDEN[i]));
    if b :| Contains(n, b) && Contains(MappedBlock(FORBIDDEN[i]), b) {
      MappedBlockHolds(i, b);
    }
    if a :| Contains(FORBIDDEN[i], a) && Contains(n, Mapped(a)) {
      MappedBlockHolds(i, Mapped(a));
    }
  }

  /** The mapped form of the link-local block is accepted as a scope entry. */
  lemma MappedFormIsAccepted()
    ensures var raw := Block(V6, 0xFFFF_A9FE_0000, 112);
      && NormalizeScopeTarget(raw).Accepted?
      && NormalizeScopeTarget(raw).network == MappedBlock(FORBIDDEN[0])
      && !AvoidsMapped(NormalizeScopeTarget(raw).network)
  {
    Pow2Values();
    MappedBlockIs(0);
    var n, a := MappedBlock(FORBIDDEN[0]), Address(V4, 0xA9FE_0000);
    assert 0xFFFF_A9FE_0000 == 0xFFFF_A9FE * 65536;
    ContainsIsInterval(FORBIDDEN[0], a);
    ContainsIsInterval(n, Mapped(a));
    assert Contains(FORBIDDEN[0], a) && Contains(n, Mapped(a));
  }
}
