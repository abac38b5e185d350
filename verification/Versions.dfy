/** Version comparison for messy scanner strings: read the leading dotted number, refuse to
    compare when there is none, and otherwise order by components with zeros assumed beyond the
    end. */
module Versions {
  import opened Wrappers
  import opened Text

  type Version = seq<nat>

  /** Longer runs of digits are refused by the language's integer conversion. */
  const MAX_DIGITS: nat := 4300

  // ----- reading -----

  function DigitRun(s: string): (n: nat)
    ensures n <= |s| && forall k :: 0 <= k < n ==> IsDigit(s[k])
    ensures n < |s| ==> !IsDigit(s[n])
  {
    if s != "" && IsDigit(s[0]) then 1 + DigitRun(s[1..]) else 0
  }

  /** The groups of `\d+(\.\d+)*` at the start of s; none when it does not start with a digit. */
  function Groups(s: string): seq<string> {
    var n := DigitRun(s);
    if n == 0 then []
    else if n < |s| && s[n] == '.' then [s[..n]] + Groups(s[n + 1..])
    else [s[..n]]
  }

  function DigitValue(c: char): nat
    requires IsDigit(c)
  {
    c as int - '0' as int
  }

  function Value(digits: string): nat
    requires forall k :: 0 <= k < |digits| ==> IsDigit(digits[k])
  {
    if digits == "" then 0
    else 10 * Value(digits[..|digits| - 1]) + DigitValue(digits[|digits| - 1])
  }

  lemma {:induction false} GroupsAreDigits(s: string)
    ensures forall i, k :: 0 <= i < |Groups(s)| && 0 <= k < |Groups(s)[i]| ==> IsDigit(Groups(s)[i][k])
  {
    var n := DigitRun(s);
    if 0 < n < |s| && s[n] == '.' {
      GroupsAreDigits(s[n + 1..]);
    }
  }

  function Values(groups: seq<string>): (v: Version)
    requires forall i, k :: 0 <= i < |groups| && 0 <= k < |groups[i]| ==> IsDigit(groups[i][k])
    ensures |v| == |groups| && forall i :: 0 <= i < |v| ==> v[i] == Value(groups[i])
  {
    seq(|groups|, i requires 0 <= i < |groups| => Value(groups[i]))
  }

  /** Skip white space and one optional v. */
  function Unprefixed(raw: string): string {
    var s := TrimLeft(raw, IsSpace);
    if s != "" && s[0] == 'v' then s[1..] else s
  }

  function ParseVersion(raw: Option<string>): Option<Version> {
    if raw.None? || raw.value == "" then None else
      var groups := Groups(Unprefixed(raw.value));
      if groups == [] then None
      else if exists i :: 0 <= i < |groups| && |groups[i]| > MAX_DIGITS then None
      else
        GroupsAreDigits(Unprefixed(raw.value));
        Some(Values(groups))
  }

  // ----- comparing -----

  function Zeros(n: nat): (z: Version)
    ensures |z| == n && forall i :: 0 <= i < n ==> z[i] == 0
  {
    seq(n, _ => 0)
  }

  function Pad(v: Version, width: nat): Version
    requires |v| <= width
  {
    v + Zeros(width - |v|)
  }

  /** How the language compares tuples. */
  predicate TupleLess(a: Version, b: Version) {
    if b == [] then false
    else if a == [] then true
    else if a[0] != b[0] then a[0] < b[0]
    else TupleLess(a[1..], b[1..])
  }

  predicate Below(a: Version, b: Version) {
    var width := if |a| >= |b| then |a| else |b|;
    TupleLess(Pad(a, width), Pad(b, width))
  }

  function IsBelow(candidate: Option<string>, baseline: string): Option<bool> {
    var left, right := ParseVersion(candidate), ParseVersion(Some(baseline));
    if left.None? || right.None? then None else Some(Below(left.value, right.value))
  }

  function InRange(candidate: Option<string>, introduced: string, fixed_: Option<string>): Option<bool> {
    var version := ParseVersion(candidate);
    if version.None? then None else
      var lower := ParseVersion(Some(introduced));
      if lower.Some? && Below(version.value, lower.value) then Some(false)
      else if fixed_.None? then Some(true)
      else
        var upper := ParseVersion(fixed_);
        if upper.None? then None else Some(Below(version.value, upper.value))
  }

  // ----- the order, independently of tuples and padding -----

  /** The i-th component, with zeros beyond the end. */
  function At(v: Version, i: nat): nat { if i < |v| then v[i] else 0 }

  ghost predicate Same(a: Version, b: Version) {
    forall i: nat :: At(a, i) == At(b, i)
  }

  /** The versions first differ at k, and there a is smaller. */
  ghost predicate OlderAt(a: Version, b: Version, k: nat) {
    At(a, k) < At(b, k) && forall i: nat :: i < k ==> At(a, i) == At(b, i)
  }

  ghost predicate Older(a: Version, b: Version) {
    exists k: nat :: OlderAt(a, b, k)
  }

  lemma {:induction false} TupleLessIsOlder(a: Version, b: Version)
    requires |a| == |b|
    ensures TupleLess(a, b) <==> Older(a, b)
  {
    if a != [] {
      TupleLessIsOlder(a[1..], b[1..]);
      OlderByHead(a, b);
    }
  }

  /** Unequal heads decide; equal ones pass the decision on to the tails. */
  lemma OlderByHead(a: Version, b: Version)
    requires |a| == |b| > 0
    ensures Older(a, b) <==> a[0] < b[0] || (a[0] == b[0] && Older(a[1..], b[1..]))
  {
    forall i: nat ensures At(a[1..], i) == At(a, i + 1) && At(b[1..], i) == At(b, i + 1) { }
    assert At(a, 0) == a[0] && At(b, 0) == b[0];
    if a[0] < b[0] { assert OlderAt(a, b, 0); }
    if a[0] == b[0] && Older(a[1..], b[1..]) {
      var k: nat :| OlderAt(a[1..], b[1..], k);
      OlderAtTails(a, b, k);
    }
    if Older(a, b) {
      var k: nat :| OlderAt(a, b, k);
      if k > 0 { OlderAtTails(a, b, k - 1); }
    }
  }

  lemma OlderAtTails(a: Version, b: Version, k: nat)
    requires |a| == |b| > 0
    ensures OlderAt(a, b, k + 1) <==> a[0] == b[0] && OlderAt(a[1..], b[1..], k)
  {
    forall i: nat ensures At(a[1..], i) == At(a, i + 1) && At(b[1..], i) == At(b, i + 1) { }
    assert At(a, 0) == a[0] && At(b, 0) == b[0];
    if OlderAt(a, b, k + 1) {
      forall i: nat | i < k ensures At(a[1..], i) == At(b[1..], i) {
        assert At(a, i + 1) == At(b, i + 1);
      }
    }
    if a[0] == b[0] && OlderAt(a[1..], b[1..], k) {
      forall i: nat | i < k + 1 ensures At(a, i) == At(b, i) {
        if i > 0 { assert At(a[1..], i - 1) == At(b[1..], i - 1); }
      }
    }
  }

  lemma SameIsInvisible(a: Version, a': Version, b: Version, b': Version)
    requires Same(a, a') && Same(b, b')
    ensures Older(a, b) <==> Older(a', b')
  {
    if Older(a, b) {
      var k: nat :| OlderAt(a, b, k);
      assert OlderAt(a', b', k);
    }
    if Older(a', b') {
      var k: nat :| OlderAt(a', b', k);
      assert OlderAt(a, b, k);
    }
  }

  /** The padded tuple comparison of the source is the component order. */
  lemma BelowIsOlder(a: Version, b: Version)
    ensures Below(a, b) <==> Older(a, b)
  {
    var width := if |a| >= |b| then |a| else |b|;
    TupleLessIsOlder(Pad(a, width), Pad(b, width));
    SameIsInvisible(a, Pad(a, width), b, Pad(b, width));
  }

  lemma OlderIsTransitive(a: Version, b: Version, c: Version)
    requires Older(a, b) && Older(b, c)
    ensures Older(a, c)
  {
    var j: nat, k: nat :| OlderAt(a, b, j) && OlderAt(b, c, k);
    assert OlderAt(a, c, if j < k then j else k);
  }

  lemma {:induction false} FirstDifference(a: Version, b: Version, n: nat)
    ensures (forall i: nat :: i < n ==> At(a, i) == At(b, i)) || Older(a, b) || Older(b, a)
  {
    if n > 0 {
      FirstDifference(a, b, n - 1);
      if forall i: nat :: i < n - 1 ==> At(a, i) == At(b, i) {
        if At(a, n - 1) < At(b, n - 1) {
          assert OlderAt(a, b, n - 1);
        } else if At(b, n - 1) < At(a, n - 1) {
          assert OlderAt(b, a, n - 1);
        }
      }
    }
  }

  /** Two versions neither of which is below the other are the same one up to trailing zeros. */
  lemma Trichotomy(a: Version, b: Version)
    ensures Below(a, b) || Below(b, a) || Same(a, b)
  {
    BelowIsOlder(a, b);
    BelowIsOlder(b, a);
    FirstDifference(a, b, |a| + |b|);
  }

  /** A strict weak order: no version is below itself, being below chains, and a version that is
      not below and not above the middle one can be slipped past it. */
  lemma BelowIsStrictWeakOrder(a: Version, b: Version, c: Version)
    ensures !Below(a, a)
    ensures Below(a, b) && Below(b, c) ==> Below(a, c)
    ensures Below(a, c) ==> Below(a, b) || Below(b, c)
  {
    BelowIsOlder(a, a);
    BelowIsOlder(a, b);
    BelowIsOlder(b, c);
    BelowIsOlder(a, c);
    if Older(a, b) && Older(b, c) { OlderIsTransitive(a, b, c); }
    if Older(a, c) && !Older(a, b) && !Older(b, c) {
      Trichotomy(a, b);
      Trichotomy(b, c);
      BelowIsOlder(b, a);
      BelowIsOlder(c, b);
      if Older(b, a) {
        OlderIsTransitive(b, a, c);
      } else if Older(c, b) {
        OlderIsTransitive(a, c, b);
      }
    }
  }

  lemma TrailingZerosAreIgnored(a: Version, b: Version, m: nat, n: nat)
    ensures Below(a + Zeros(m), b + Zeros(n)) <==> Below(a, b)
  {
    BelowIsOlder(a, b);
    BelowIsOlder(a + Zeros(m), b + Zeros(n));
    SameIsInvisible(a, a + Zeros(m), b, b + Zeros(n));
  }

  // ----- ranges -----

  /** The half-open interval, read from the component order. */
  ghost predicate Within(v: Version, introduced: Version, fixed_: Version) {
    !Older(v, introduced) && Older(v, fixed_)
  }

  lemma InRangeIsTheInterval(candidate: string, introduced: string, fixed_: string)
    requires ParseVersion(Some(candidate)).Some? && ParseVersion(Some(introduced)).Some?
    requires ParseVersion(Some(fixed_)).Some?
    ensures InRange(Some(candidate), introduced, Some(fixed_))
         == Some(Within(ParseVersion(Some(candidate)).value, ParseVersion(Some(introduced)).value,
                        ParseVersion(Some(fixed_)).value))
  {
    BelowIsOlder(ParseVersion(Some(candidate)).value, ParseVersion(Some(introduced)).value);
    BelowIsOlder(ParseVersion(Some(candidate)).value, ParseVersion(Some(fixed_)).value);
  }

  /** Consecutive ranges cut the joint range in two: nothing falls between them or in both. */
  lemma AdjacentRangesPartition(v: Version, a: Version, b: Version, c: Version)
    requires !Older(b, a) && !Older(c, b)
    ensures Within(v, a, c) <==> Within(v, a, b) || Within(v, b, c)
    ensures !(Within(v, a, b) && Within(v, b, c))
  {
    Weak(v, a, b);
    Weak(v, b, c);
    Weak(v, c, b);
    Weak(v, b, a);
  }

  lemma Weak(v: Version, x: Version, y: Version)
    ensures Older(v, y) && !Older(x, y) ==> Older(v, x)
    ensures Older(v, x) && !Older(y, x) ==> Older(v, y)
  {
    BelowIsOlder(v, x);
    BelowIsOlder(v, y);
    BelowIsOlder(x, y);
    BelowIsOlder(y, x);
    BelowIsStrictWeakOrder(v, x, y);
    BelowIsStrictWeakOrder(v, y, x);
  }

  // ----- printing and reading back -----

  function Digits(n: nat): (s: string)
    ensures s != "" && forall k :: 0 <= k < |s| ==> IsDigit(s[k])
    ensures Value(s) == n
    decreases n
  {
    var last := [('0' as int + n % 10) as char];
    if n < 10 then
      assert last[..0] == "";
      last
    else
      var front := Digits(n / 10);
      assert (front + last)[..|front|] == front;
      front + last
  }

  function Dotted(v: Version): string {
    if v == [] then ""
    else if |v| == 1 then Digits(v[0])
    else Digits(v[0]) + "." + Dotted(v[1..])
  }

  /** A suffix that cannot be read as part of the number before it. */
  predicate Stops(suffix: string) {
    suffix == "" || (!IsDigit(suffix[0]) && !(suffix[0] == '.' && |suffix| > 1 && IsDigit(suffix[1])))
  }

  lemma {:induction false} RunOfDigits(digits: string, rest: string)
    requires forall k :: 0 <= k < |digits| ==> IsDigit(digits[k])
    requires rest == "" || !IsDigit(rest[0])
    ensures DigitRun(digits + rest) == |digits|
  {
    if digits == "" {
      assert digits + rest == rest;
    } else {
      RunOfDigits(digits[1..], rest);
      assert (digits + rest)[1..] == digits[1..] + rest;
    }
  }

  lemma FirstGroup(first: string, tail: string)
    requires first != "" && forall k :: 0 <= k < |first| ==> IsDigit(first[k])
    requires tail == "" || !IsDigit(tail[0])
    ensures Groups(first + tail)
         == if tail != "" && tail[0] == '.' then [first] + Groups(tail[1..]) else [first]
  {
    RunOfDigits(first, tail);
    assert (first + tail)[..|first|] == first;
    if tail != "" {
      assert (first + tail)[|first|] == tail[0];
      assert (first + tail)[|first| + 1..] == tail[1..];
    }
  }

  function Printed(v: Version): (groups: seq<string>)
    ensures |groups| == |v| && forall i :: 0 <= i < |v| ==> groups[i] == Digits(v[i])
  {
    seq(|v|, i requires 0 <= i < |v| => Digits(v[i]))
  }

  lemma ReadsLast(first: string, suffix: string)
    requires first != "" && forall k :: 0 <= k < |first| ==> IsDigit(first[k])
    requires Stops(suffix)
    ensures Groups(first + suffix) == [first]
  {
    FirstGroup(first, suffix);
    if suffix != "" && suffix[0] == '.' {
      assert DigitRun(suffix[1..]) == 0;
      assert [first] + [] == [first];
    }
  }

  lemma ReadsFirst(first: string, dot: string, rest: string)
    requires first != "" && forall k :: 0 <= k < |first| ==> IsDigit(first[k])
    requires |dot| == 1 && dot[0] == '.'
    ensures Groups(first + dot + rest) == [first] + Groups(rest)
  {
    var tail := dot + rest;
    FirstGroup(first, tail);
    assert tail[0] == '.' && tail[1..] == rest;
    assert first + dot + rest == first + tail;
  }

  lemma Regroup(a: string, b: string, c: string, d: string)
    ensures a + b + (c + d) == a + b + c + d
  {
  }

  lemma {:induction false} ReadsBack(v: Version, suffix: string)
    requires v != [] && Stops(suffix)
    ensures Groups(Dotted(v) + suffix) == Printed(v)
    decreases |v|
  {
    if |v| == 1 {
      ReadsLast(Digits(v[0]), suffix);
      assert Printed(v) == [Digits(v[0])];
    } else {
      var first, rest := Digits(v[0]), Dotted(v[1..]);
      ReadsBack(v[1..], suffix);
      ReadsFirst(first, ".", rest + suffix);
      Regroup(first, ".", rest, suffix);
      assert Printed(v) == [first] + Printed(v[1..]);
    }
  }

  lemma {:induction false} LeadIsSkipped(lead: string, text: string)
    requires forall k :: 0 <= k < |lead| ==> IsSpace(lead[k])
    requires text != "" && !IsSpace(text[0])
    ensures TrimLeft(lead + text, IsSpace) == text
  {
    if lead == "" {
      assert lead + text == text;
    } else {
      LeadIsSkipped(lead[1..], text);
      assert (lead + text)[1..] == lead[1..] + text;
    }
  }

  lemma MarkerIsSkipped(lead: string, marker: string, number: string)
    requires forall k :: 0 <= k < |lead| ==> IsSpace(lead[k])
    requires marker in {"", "v"} && number != "" && IsDigit(number[0])
    ensures Unprefixed(lead + marker + number) == number
  {
    var text := marker + number;
    LeadIsSkipped(lead, text);
    assert lead + marker + number == lead + text;
    if marker == "" {
      assert text == number;
    } else {
      assert text[1..] == number;
    }
  }

  /** Printing a version and parsing it gives it back, behind any white space and an optional v,
      and in front of any suffix that does not continue the number. */
  lemma PrintThenParse(v: Version, lead: string, marker: string, suffix: string)
    requires v != [] && Stops(suffix) && marker in {"", "v"}
    requires forall k :: 0 <= k < |lead| ==> IsSpace(lead[k])
    requires forall i :: 0 <= i < |v| ==> |Digits(v[i])| <= MAX_DIGITS
    ensures ParseVersion(Some(lead + marker + (Dotted(v) + suffix))) == Some(v)
  {
    var number := Dotted(v) + suffix;
    MarkerIsSkipped(lead, marker, number);
    ReadsBack(v, suffix);
    GroupsAreDigits(number);
    assert Values(Printed(v)) == v;
  }
}
