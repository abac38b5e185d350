/** The string operations the components share: trimming, splitting on a separator, joining,
    and the order strings sort in. */
module Text {
  import opened Sorting

  /** What `str.strip`, `str.split` and the regex `\s` treat as white space. */
  predicate IsSpace(c: char) {
    var n := c as int;
    || 0x09 <= n <= 0x0D || 0x1C <= n <= 0x20 || n == 0x85 || n == 0xA0 || n == 0x1680
    || 0x2000 <= n <= 0x200A || n == 0x2028 || n == 0x2029 || n == 0x202F || n == 0x205F
    || n == 0x3000
  }

  predicate IsDigit(c: char) { '0' <= c <= '9' }

  function LowerChar(c: char): char {
    if 'A' <= c <= 'Z' then (c as int + 32) as char else c
  }

  function Lower(s: string): (r: string)
    ensures |r| == |s| && forall k :: 0 <= k < |s| ==> r[k] == LowerChar(s[k])
  {
    seq(|s|, k requires 0 <= k < |s| => LowerChar(s[k]))
  }

  // ----- trimming -----

  function TrimLeft(s: string, drop: char -> bool): string {
    if s != "" && drop(s[0]) then TrimLeft(s[1..], drop) else s
  }

  function TrimRight(s: string, drop: char -> bool): string {
    if s != "" && drop(s[|s| - 1]) then TrimRight(s[..|s| - 1], drop) else s
  }

  function Trim(s: string, drop: char -> bool): string {
    TrimRight(TrimLeft(s, drop), drop)
  }

  function Strip(s: string): string { Trim(s, IsSpace) }

  /** Trimming cuts a prefix and a suffix of dropped characters, and stops at a kept one. */
  lemma {:induction false} TrimLeftCuts(s: string, drop: char -> bool) returns (n: nat)
    ensures n <= |s| && TrimLeft(s, drop) == s[n..]
    ensures forall k :: 0 <= k < n ==> drop(s[k])
    ensures n < |s| ==> !drop(s[n])
  {
    if s != "" && drop(s[0]) {
      n := TrimLeftCuts(s[1..], drop);
      n := n + 1;
    } else {
      n := 0;
    }
  }

  lemma {:induction false} TrimRightCuts(s: string, drop: char -> bool) returns (n: nat)
    ensures n <= |s| && TrimRight(s, drop) == s[..n]
    ensures forall k :: n <= k < |s| ==> drop(s[k])
    ensures n > 0 ==> !drop(s[n - 1])
  {
    if s != "" && drop(s[|s| - 1]) {
      n := TrimRightCuts(s[..|s| - 1], drop);
      assert s[..|s| - 1][..n] == s[..n];
    } else {
      n := |s|;
      assert s[..n] == s;
    }
  }

  lemma NothingToTrim(s: string, drop: char -> bool)
    requires s != "" ==> !drop(s[0]) && !drop(s[|s| - 1])
    ensures Trim(s, drop) == s
  {
  }

  // ----- splitting and joining -----

  /** `s.split(sep)`: the stretches between separators, empty ones included. */
  function Split(s: string, sep: char): (parts: seq<string>)
    ensures parts != []
  {
    if s == "" then [""]
    else if s[|s| - 1] == sep then Split(s[..|s| - 1], sep) + [""]
    else
      var rest := Split(s[..|s| - 1], sep);
      rest[..|rest| - 1] + [rest[|rest| - 1] + [s[|s| - 1]]]
  }

  function Join(parts: seq<string>, sep: char): string {
    if parts == [] then ""
    else if |parts| == 1 then parts[0]
    else Join(parts[..|parts| - 1], sep) + [sep] + parts[|parts| - 1]
  }

  ghost predicate Free(parts: seq<string>, sep: char) {
    forall i :: 0 <= i < |parts| ==> sep !in parts[i]
  }

  lemma {:induction false} SplitPieces(s: string, sep: char)
    ensures Free(Split(s, sep), sep)
    ensures forall i, c :: 0 <= i < |Split(s, sep)| && c in Split(s, sep)[i] ==> c in s
  {
    if s != "" {
      var init, parts := s[..|s| - 1], Split(s, sep);
      SplitPieces(init, sep);
      forall i, c | 0 <= i < |parts| && c in parts[i]
        ensures c in s
      {
        if c != s[|s| - 1] {
          assert c in Split(init, sep)[i];
          assert c in init;
        }
      }
    }
  }

  lemma {:induction false} SplitBeforeLast(s: string, sep: char, last: string)
    requires sep !in last
    ensures Split(s + [sep] + last, sep) == Split(s, sep) + [last]
    decreases |last|
  {
    var t := s + [sep] + last;
    if last == "" {
      assert t[..|t| - 1] == s;
    } else {
      var n := |last| - 1;
      SplitBeforeLast(s, sep, last[..n]);
      assert t[..|t| - 1] == s + [sep] + last[..n];
      assert last[..n] + [last[n]] == last;
    }
  }

  lemma {:induction false} SplitOfFree(s: string, sep: char)
    requires sep !in s
    ensures Split(s, sep) == [s]
  {
    if s != "" {
      SplitOfFree(s[..|s| - 1], sep);
      assert s[..|s| - 1] + [s[|s| - 1]] == s;
    }
  }

  lemma JoinBeforeLast(parts: seq<string>, sep: char, last: string)
    requires parts != []
    ensures Join(parts + [last], sep) == Join(parts, sep) + [sep] + last
  {
    assert (parts + [last])[..|parts|] == parts;
  }

  /** Joining and splitting again gives the pieces back. */
  lemma {:induction false} SplitJoin(parts: seq<string>, sep: char)
    requires parts != [] && Free(parts, sep)
    ensures Split(Join(parts, sep), sep) == parts
  {
    var n := |parts| - 1;
    if n == 0 {
      SplitOfFree(parts[0], sep);
    } else {
      var front, last := parts[..n], parts[n];
      assert front + [last] == parts;
      SplitJoin(front, sep);
      JoinBeforeLast(front, sep, last);
      SplitBeforeLast(Join(front, sep), sep, last);
    }
  }

  lemma JoinGrows(parts: seq<string>, sep: char, c: char)
    requires parts != []
    ensures Join(parts[..|parts| - 1] + [parts[|parts| - 1] + [c]], sep) == Join(parts, sep) + [c]
  {
    var m := |parts| - 1;
    var front, last := parts[..m], parts[m];
    if m > 0 {
      JoinBeforeLast(front, sep, last + [c]);
    }
  }

  /** Splitting and joining again gives the string back. */
  lemma {:induction false} JoinSplit(s: string, sep: char)
    ensures Join(Split(s, sep), sep) == s
  {
    if s != "" {
      var init, c := s[..|s| - 1], s[|s| - 1];
      JoinSplit(init, sep);
      var rest := Split(init, sep);
      assert s == init + [c];
      if c == sep {
        JoinBeforeLast(rest, sep, "");
      } else {
        JoinGrows(rest, sep, c);
      }
    }
  }

  lemma {:induction false} JoinCharacters(parts: seq<string>, sep: char)
    ensures forall c :: c in Join(parts, sep) ==> c == sep || exists i :: 0 <= i < |parts| && c in parts[i]
  {
    if |parts| > 1 {
      var n := |parts| - 1;
      JoinCharacters(parts[..n], sep);
      forall c | c in Join(parts, sep)
        ensures c == sep || exists i :: 0 <= i < |parts| && c in parts[i]
      {
        if c in Join(parts[..n], sep) && c != sep {
          var i :| 0 <= i < |parts[..n]| && c in parts[..n][i];
          assert c in parts[i];
        }
      }
    }
  }

  lemma {:induction false} JoinEnds(parts: seq<string>, sep: char)
    requires parts != [] && forall i :: 0 <= i < |parts| ==> parts[i] != ""
    ensures var j := Join(parts, sep);
      j != "" && j[0] == parts[0][0] && j[|j| - 1] == parts[|parts| - 1][|parts[|parts| - 1]| - 1]
  {
    if |parts| > 1 {
      JoinEnds(parts[..|parts| - 1], sep);
    }
  }

  // ----- the order strings sort in -----

  /** Code-point order, shorter first on a tie: how `sorted` orders strings. */
  predicate StringLe(a: string, b: string) {
    if a == "" then true
    else if b == "" then false
    else if a[0] != b[0] then a[0] < b[0]
    else StringLe(a[1..], b[1..])
  }

  lemma {:induction false} StringLeTotal(a: string, b: string)
    ensures StringLe(a, b) || StringLe(b, a)
  {
    if a != "" && b != "" && a[0] == b[0] { StringLeTotal(a[1..], b[1..]); }
  }

  lemma {:induction false} StringLeAntisymmetric(a: string, b: string)
    requires StringLe(a, b) && StringLe(b, a)
    ensures a == b
  {
    if a != "" && b != "" {
      StringLeAntisymmetric(a[1..], b[1..]);
      assert a == [a[0]] + a[1..] && b == [b[0]] + b[1..];
    }
  }

  lemma {:induction false} StringLeTransitive(a: string, b: string, c: string)
    requires StringLe(a, b) && StringLe(b, c)
    ensures StringLe(a, c)
  {
    if a != "" && b != "" && c != "" && a[0] == b[0] == c[0] {
      StringLeTransitive(a[1..], b[1..], c[1..]);
    }
  }

  lemma StringsAreOrdered()
    ensures TotalOrder(StringLe)
  {
    forall a, b ensures StringLe(a, b) || StringLe(b, a) { StringLeTotal(a, b); }
    forall a, b | StringLe(a, b) && StringLe(b, a) ensures a == b { StringLeAntisymmetric(a, b); }
    forall a, b, c | StringLe(a, b) && StringLe(b, c) ensures StringLe(a, c) {
      StringLeTransitive(a, b, c);
    }
  }
}
