/** The edit distance behind the lookalike-domain rules: insertion, deletion, substitution and
    transposition of neighbours, where no part of the text is edited twice (the restricted
    Damerau-Levenshtein distance, also called optimal string alignment).

    The independent definition is the edit script below. The recursive table `Dist` and the
    three-row loop `DamerauLevenshtein` are both proved to compute the cheapest script.
 */
module EditDistance {

  /** One step of an edit script, carrying what it consumes on the left and emits on the right. */
  datatype Edit =
    | Keep(c: char)
    | Replace(before: char, after: char)
    | Insert(ins: char)
    | Delete(del: char)
    | Swap(first: char, second: char)

  type Script = seq<Edit>

  function Consumed(e: Edit): string {
    match e
    case Keep(c) => [c]
    case Replace(a, _) => [a]
    case Insert(_) => []
    case Delete(a) => [a]
    case Swap(a, b) => [a, b]
  }

  function Emitted(e: Edit): string {
    match e
    case Keep(c) => [c]
    case Replace(_, b) => [b]
    case Insert(b) => [b]
    case Delete(_) => []
    case Swap(a, b) => [b, a]
  }

  /** Swapping two equal characters changes nothing and costs nothing. */
  function EditCost(e: Edit): nat {
    match e
    case Keep(_) => 0
    case Swap(a, b) => if a == b then 0 else 1
    case _ => 1
  }

  function Source(s: Script): string {
    if s == [] then "" else Source(s[..|s| - 1]) + Consumed(s[|s| - 1])
  }

  function Target(s: Script): string {
    if s == [] then "" else Target(s[..|s| - 1]) + Emitted(s[|s| - 1])
  }

  function Cost(s: Script): nat {
    if s == [] then 0 else Cost(s[..|s| - 1]) + EditCost(s[|s| - 1])
  }

  ghost predicate Rewrites(s: Script, left: string, right: string) {
    Source(s) == left && Target(s) == right
  }

  ghost predicate IsMinimum(d: nat, left: string, right: string) {
    && (exists s: Script :: Rewrites(s, left, right) && Cost(s) == d)
    && (forall s: Script :: Rewrites(s, left, right) ==> d <= Cost(s))
  }

  function Min(a: nat, b: nat): nat { if a <= b then a else b }

  /** Do the last two characters of the two prefixes trade places? */
  predicate Crosses(left: string, right: string, i: nat, j: nat)
    requires i <= |left| && j <= |right|
  {
    i > 1 && j > 1 && left[i - 1] == right[j - 2] && left[i - 2] == right[j - 1]
  }

  function Mismatch(left: string, right: string, i: nat, j: nat): nat
    requires 0 < i <= |left| && 0 < j <= |right|
  {
    if left[i - 1] == right[j - 1] then 0 else 1
  }

  /** The table the loop fills: the cell for the first i characters of left and j of right. */
  function Dist(left: string, right: string, i: nat, j: nat): nat
    requires i <= |left| && j <= |right|
    decreases i + j
  {
    if i == 0 then j
    else if j == 0 then i
    else
      var cost := Mismatch(left, right, i, j);
      var best := Min(Min(Dist(left, right, i - 1, j) + 1, Dist(left, right, i, j - 1) + 1),
                      Dist(left, right, i - 1, j - 1) + cost);
      if Crosses(left, right, i, j) then Min(best, Dist(left, right, i - 2, j - 2) + cost) else best
  }

  function Distance(left: string, right: string): nat {
    Dist(left, right, |left|, |right|)
  }

  /** The first cells of a row hold the table's values. */
  ghost predicate Holds(row: seq<nat>, left: string, right: string, i: nat, cells: nat)
    requires i <= |left| && cells <= |right| + 1
  {
    cells <= |row| && forall k :: 0 <= k < cells ==> row[k] == Dist(left, right, i, k)
  }

  lemma RowGrows(left: string, right: string, i: nat, j: nat, row: seq<nat>, cell: nat)
    requires i <= |left| && j <= |right| && j < |row|
    requires Holds(row, left, right, i, j) && cell == Dist(left, right, i, j)
    ensures Holds(row[j := cell], left, right, i, j + 1)
  {
  }

  /** The inner loop of the source: overwrite the current row left to right. */
  method FillRow(left: string, right: string, i: nat,
                 beforePrevious: array<nat>, previous: array<nat>, current: array<nat>)
    requires 0 < i <= |left| && current.Length == |right| + 1
    requires current != previous && current != beforePrevious
    requires current[0] == i
    requires Holds(previous[..], left, right, i - 1, |right| + 1)
    requires i > 1 ==> Holds(beforePrevious[..], left, right, i - 2, |right| + 1)
    modifies current
    ensures Holds(current[..], left, right, i, |right| + 1)
  {
    var j := 0;
    while j < |right|
      invariant 0 <= j <= |right|
      invariant Holds(current[..], left, right, i, j + 1)
    {
      j := j + 1;
      ghost var row := current[..];
      var cost := Mismatch(left, right, i, j);
      var cell := Min(Min(previous[j] + 1, current[j - 1] + 1), previous[j - 1] + cost);
      if Crosses(left, right, i, j) {
        cell := Min(cell, beforePrevious[j - 2] + cost);
      }
      current[j] := cell;
      assert current[..] == row[j := cell];
      RowGrows(left, right, i, j, row, cell);
    }
  }

  /** The loop of the source: three rows, rotated before each new row is filled. */
  method DamerauLevenshtein(left: string, right: string) returns (d: nat)
    ensures d == Distance(left, right)
    ensures IsMinimum(d, left, right)
  {
    if left == right {
      EqualStringsAreFree(left);
      DistanceIsMinimum(left, right);
      return 0;
    }
    if left == "" { DistanceIsMinimum(left, right); return |right|; }
    if right == "" { DistanceIsMinimum(left, right); return |left|; }

    var previous := new nat[0];
    var current := new nat[|right| + 1](k requires k >= 0 => k);
    var i := 0;
    while i < |left|
      invariant 0 <= i <= |left| && fresh(current) && fresh(previous) && current != previous
      invariant Holds(current[..], left, right, i, |right| + 1)
      invariant i > 0 ==> Holds(previous[..], left, right, i - 1, |right| + 1)
    {
      i := i + 1;
      var beforePrevious := previous;
      previous := current;
      current := new nat[|right| + 1](k => 0);
      current[0] := i;
      FillRow(left, right, i, beforePrevious, previous, current);
    }
    DistanceIsMinimum(left, right);
    d := current[..][|right|];
  }

  // ----- the table is the cheapest script -----

  lemma Append(s: Script, e: Edit)
    ensures Source(s + [e]) == Source(s) + Consumed(e)
    ensures Target(s + [e]) == Target(s) + Emitted(e)
    ensures Cost(s + [e]) == Cost(s) + EditCost(e)
  {
    assert (s + [e])[..|s|] == s;
  }

  /** Edit e can be the last step on the first i characters of left and j of right. */
  ghost predicate Ends(e: Edit, left: string, right: string, i: nat, j: nat)
    requires i <= |left| && j <= |right|
  {
    match e
    case Keep(c) => i > 0 && j > 0 && left[i - 1] == c == right[j - 1]
    case Replace(a, b) => i > 0 && j > 0 && left[i - 1] == a && right[j - 1] == b
    case Insert(b) => j > 0 && right[j - 1] == b
    case Delete(a) => i > 0 && left[i - 1] == a
    case Swap(a, b) =>
      i > 1 && j > 1 && left[i - 2] == a == right[j - 1] && left[i - 1] == b == right[j - 2]
  }

  lemma EndsGivesPrefixes(e: Edit, left: string, right: string, i: nat, j: nat)
    requires i <= |left| && j <= |right| && Ends(e, left, right, i, j)
    ensures |Consumed(e)| <= i && left[..i] == left[..i - |Consumed(e)|] + Consumed(e)
    ensures |Emitted(e)| <= j && right[..j] == right[..j - |Emitted(e)|] + Emitted(e)
  {
  }

  lemma PrefixesGiveEnds(e: Edit, left: string, right: string, i: nat, j: nat, l: string, r: string)
    requires i <= |left| && j <= |right|
    requires left[..i] == l + Consumed(e) && right[..j] == r + Emitted(e)
    ensures Ends(e, left, right, i, j)
    ensures l == left[..i - |Consumed(e)|] && r == right[..j - |Emitted(e)|]
  {
    if e.Swap? {
      assert Consumed(e)[1] == e.second && Emitted(e)[1] == e.first;
    }
  }

  // The cell is never above what its neighbours allow...

  lemma UpBound(left: string, right: string, i: nat, j: nat)
    requires 0 < i <= |left| && j <= |right|
    ensures Dist(left, right, i, j) <= Dist(left, right, i - 1, j) + 1
  {
  }

  lemma BackBound(left: string, right: string, i: nat, j: nat)
    requires i <= |left| && 0 < j <= |right|
    ensures Dist(left, right, i, j) <= Dist(left, right, i, j - 1) + 1
  {
  }

  lemma DiagonalBound(left: string, right: string, i: nat, j: nat)
    requires 0 < i <= |left| && 0 < j <= |right|
    ensures Dist(left, right, i, j) <= Dist(left, right, i - 1, j - 1) + Mismatch(left, right, i, j)
  {
  }

  lemma CrossBound(left: string, right: string, i: nat, j: nat)
    requires i <= |left| && j <= |right| && Crosses(left, right, i, j)
    ensures Dist(left, right, i, j) <= Dist(left, right, i - 2, j - 2) + Mismatch(left, right, i, j)
  {
  }

  // ...and one of them is where its value comes from.

  lemma CellIsReached(left: string, right: string, i: nat, j: nat)
    requires 0 < i <= |left| && 0 < j <= |right|
    ensures var d, cost := Dist(left, right, i, j), Mismatch(left, right, i, j);
      || d == Dist(left, right, i - 1, j) + 1
      || d == Dist(left, right, i, j - 1) + 1
      || d == Dist(left, right, i - 1, j - 1) + cost
      || (Crosses(left, right, i, j) && d == Dist(left, right, i - 2, j - 2) + cost)
  {
  }

  /** Every edit that can come last bounds the cell by the cell it comes from. */
  lemma StepBound(e: Edit, left: string, right: string, i: nat, j: nat, m: nat, n: nat)
    requires i <= |left| && j <= |right| && Ends(e, left, right, i, j)
    requires m + |Consumed(e)| == i && n + |Emitted(e)| == j
    ensures Dist(left, right, i, j) <= Dist(left, right, m, n) + EditCost(e)
  {
    match e
    case Delete(_) => UpBound(left, right, i, j);
    case Insert(_) => BackBound(left, right, i, j);
    case Swap(_, _) => CrossBound(left, right, i, j);
    case Keep(_) => DiagonalBound(left, right, i, j);
    case Replace(_, _) => DiagonalBound(left, right, i, j);
  }

  lemma Shorten(s: Script, left: string, right: string, i: nat, j: nat)
    returns (e: Edit, rest: Script, m: nat, n: nat)
    requires i <= |left| && j <= |right| && s != [] && Rewrites(s, left[..i], right[..j])
    ensures m + |Consumed(e)| == i && n + |Emitted(e)| == j && Ends(e, left, right, i, j)
    ensures Rewrites(rest, left[..m], right[..n])
    ensures |rest| < |s| && Cost(s) == Cost(rest) + EditCost(e)
  {
    e, rest := s[|s| - 1], s[..|s| - 1];
    PrefixesGiveEnds(e, left, right, i, j, Source(rest), Target(rest));
    m, n := |Source(rest)|, |Target(rest)|;
  }

  /** No script is cheaper than the table says. */
  lemma {:induction false} DistIsLowerBound(left: string, right: string, i: nat, j: nat, s: Script)
    requires i <= |left| && j <= |right|
    requires Rewrites(s, left[..i], right[..j])
    ensures Dist(left, right, i, j) <= Cost(s)
    decreases |s|
  {
    if s == [] {
      assert |left[..i]| == 0 && |right[..j]| == 0;
    } else {
      var e, rest, m, n := Shorten(s, left, right, i, j);
      DistIsLowerBound(left, right, m, n, rest);
      StepBound(e, left, right, i, j, m, n);
    }
  }

  /** A script for shorter prefixes, with one more edit at the end. */
  lemma Extend(rest: Script, e: Edit, left: string, right: string, i: nat, j: nat, m: nat, n: nat)
    requires i <= |left| && j <= |right| && Ends(e, left, right, i, j)
    requires m + |Consumed(e)| == i && n + |Emitted(e)| == j
    requires Rewrites(rest, left[..m], right[..n])
    ensures Rewrites(rest + [e], left[..i], right[..j]) && Cost(rest + [e]) == Cost(rest) + EditCost(e)
  {
    Append(rest, e);
    EndsGivesPrefixes(e, left, right, i, j);
  }

  /** The last step of a cheapest script, and the cell it comes from. */
  lemma StepBack(left: string, right: string, i: nat, j: nat) returns (e: Edit, m: nat, n: nat)
    requires i <= |left| && j <= |right| && i + j > 0
    ensures m + |Consumed(e)| == i && n + |Emitted(e)| == j && Ends(e, left, right, i, j)
    ensures Dist(left, right, i, j) == Dist(left, right, m, n) + EditCost(e)
  {
    if i == 0 { return Insert(right[j - 1]), i, j - 1; }
    if j == 0 { return Delete(left[i - 1]), i - 1, j; }
    CellIsReached(left, right, i, j);
    var a, b, d := left[i - 1], right[j - 1], Dist(left, right, i, j);
    if d == Dist(left, right, i - 1, j) + 1 { return Delete(a), i - 1, j; }
    if d == Dist(left, right, i, j - 1) + 1 { return Insert(b), i, j - 1; }
    if d == Dist(left, right, i - 1, j - 1) + Mismatch(left, right, i, j) {
      return if a == b then Keep(a) else Replace(a, b), i - 1, j - 1;
    }
    return Swap(left[i - 2], a), i - 2, j - 2;
  }

  /** Some script costs exactly what the table says. */
  lemma {:induction false} DistIsReached(left: string, right: string, i: nat, j: nat)
    returns (s: Script)
    requires i <= |left| && j <= |right|
    ensures Rewrites(s, left[..i], right[..j]) && Cost(s) == Dist(left, right, i, j)
    decreases i + j
  {
    if i + j == 0 {
      s := [];
    } else {
      var e, m, n := StepBack(left, right, i, j);
      var rest := DistIsReached(left, right, m, n);
      Extend(rest, e, left, right, i, j, m, n);
      s := rest + [e];
    }
  }

  lemma DistanceIsMinimum(left: string, right: string)
    ensures IsMinimum(Distance(left, right), left, right)
  {
    assert left[..|left|] == left && right[..|right|] == right;
    var s := DistIsReached(left, right, |left|, |right|);
    forall t: Script | Rewrites(t, left, right)
      ensures Distance(left, right) <= Cost(t)
    {
      DistIsLowerBound(left, right, |left|, |right|, t);
    }
  }

  /** The table is the only function of the two strings with that property. */
  lemma MinimumIsUnique(d: nat, left: string, right: string)
    requires IsMinimum(d, left, right)
    ensures d == Distance(left, right)
  {
    DistanceIsMinimum(left, right);
  }

  // ----- consequences, each argued on scripts -----

  lemma {:induction false} KeepAll(s: string) returns (k: Script)
    ensures Rewrites(k, s, s) && Cost(k) == 0
  {
    if s == "" {
      k := [];
    } else {
      var n := |s| - 1;
      var rest := KeepAll(s[..n]);
      Append(rest, Keep(s[n]));
      assert s == s[..n] + [s[n]];
      k := rest + [Keep(s[n])];
    }
  }

  lemma EqualStringsAreFree(s: string)
    ensures Distance(s, s) == 0
  {
    var k := KeepAll(s);
    DistanceIsMinimum(s, s);
  }

  lemma {:induction false} FreeScriptsChangeNothing(s: Script)
    requires Cost(s) == 0
    ensures Source(s) == Target(s)
  {
    if s != [] {
      FreeScriptsChangeNothing(s[..|s| - 1]);
    }
  }

  lemma ZeroIffEqual(left: string, right: string)
    ensures Distance(left, right) == 0 <==> left == right
  {
    DistanceIsMinimum(left, right);
    if left == right {
      EqualStringsAreFree(left);
    } else if Distance(left, right) == 0 {
      var s: Script :| Rewrites(s, left, right) && Cost(s) == 0;
      FreeScriptsChangeNothing(s);
    }
  }

  function Inverse(e: Edit): Edit {
    match e
    case Keep(c) => Keep(c)
    case Replace(a, b) => Replace(b, a)
    case Insert(b) => Delete(b)
    case Delete(a) => Insert(a)
    case Swap(a, b) => Swap(b, a)
  }

  lemma InverseTurnsRound(e: Edit)
    ensures Consumed(Inverse(e)) == Emitted(e) && Emitted(Inverse(e)) == Consumed(e)
    ensures EditCost(Inverse(e)) == EditCost(e)
  {
  }

  lemma {:induction false} Undo(s: Script) returns (u: Script)
    ensures Rewrites(u, Target(s), Source(s)) && Cost(u) == Cost(s)
  {
    if s == [] {
      u := [];
    } else {
      var e, rest := s[|s| - 1], s[..|s| - 1];
      var v := Undo(rest);
      Append(v, Inverse(e));
      InverseTurnsRound(e);
      u := v + [Inverse(e)];
    }
  }

  lemma NotLonger(left: string, right: string)
    ensures Distance(right, left) <= Distance(left, right)
  {
    DistanceIsMinimum(left, right);
    DistanceIsMinimum(right, left);
    var s: Script :| Rewrites(s, left, right) && Cost(s) == Distance(left, right);
    var u := Undo(s);
  }

  lemma Symmetric(left: string, right: string)
    ensures Distance(left, right) == Distance(right, left)
  {
    NotLonger(left, right);
    NotLonger(right, left);
  }

  lemma {:induction false} ScriptCoversLengthGap(s: Script)
    ensures -(Cost(s) as int) <= |Source(s)| - |Target(s)| <= Cost(s)
  {
    if s != [] {
      ScriptCoversLengthGap(s[..|s| - 1]);
    }
  }

  lemma {:induction false} DistAtMostLonger(left: string, right: string, i: nat, j: nat)
    requires i <= |left| && j <= |right|
    ensures Dist(left, right, i, j) <= if i <= j then j else i
    decreases i
  {
    if i > 0 && j > 0 {
      DistAtMostLonger(left, right, i - 1, j - 1);
    }
  }

  /** Between the difference of the lengths and the longer length. */
  lemma Bounds(left: string, right: string)
    ensures |left| - |right| <= Distance(left, right)
    ensures |right| - |left| <= Distance(left, right)
    ensures Distance(left, right) <= if |left| <= |right| then |right| else |left|
  {
    DistanceIsMinimum(left, right);
    var s: Script :| Rewrites(s, left, right) && Cost(s) == Distance(left, right);
    ScriptCoversLengthGap(s);
    DistAtMostLonger(left, right, |left|, |right|);
  }

  /** Drop the last consumed character from a script, for at most one more edit. */
  lemma {:induction false} DropLast(s: Script, left: string, c: char) returns (t: Script)
    requires Source(s) == left + [c]
    ensures Rewrites(t, left, Target(s)) && Cost(t) <= Cost(s) + 1
  {
    var e, rest := s[|s| - 1], s[..|s| - 1];
    match e
    case Insert(b) =>
      var u := DropLast(rest, left, c);
      Append(u, e);
      t := u + [e];
    case Keep(k) =>
      TailOfOne(Source(rest), k, left, c);
      Append(rest, Insert(k));
      t := rest + [Insert(k)];
    case Replace(a, b) =>
      TailOfOne(Source(rest), a, left, c);
      Append(rest, Insert(b));
      t := rest + [Insert(b)];
    case Delete(a) =>
      TailOfOne(Source(rest), a, left, c);
      t := rest;
    case Swap(a, b) =>
      TailOfTwo(Source(rest), a, b, left, c);
      t := DropSwap(rest, a, b);
  }

  lemma TailOfOne(x: string, y: char, left: string, c: char)
    requires x + [y] == left + [c]
    ensures x == left && y == c
  {
    assert (x + [y])[..|x|] == x && (left + [c])[..|left|] == left;
    assert (x + [y])[|x|] == y;
  }

  lemma TailOfTwo(x: string, a: char, b: char, left: string, c: char)
    requires x + [a, b] == left + [c]
    ensures left == x + [a] && b == c
  {
    assert x + [a, b] == (x + [a]) + [b];
    TailOfOne(x + [a], b, left, c);
  }

  /** A swap without its second character: insert that one instead, and keep the first. */
  lemma DropSwap(rest: Script, a: char, b: char) returns (t: Script)
    ensures Source(t) == Source(rest) + [a] && Target(t) == Target(rest) + [b, a]
    ensures Cost(t) == Cost(rest) + 1
  {
    var once := rest + [Insert(b)];
    Append(rest, Insert(b));
    Append(once, Keep(a));
    t := once + [Keep(a)];
    assert Source(rest) + [] == Source(rest);
    assert (Target(rest) + [b]) + [a] == Target(rest) + [b, a];
  }

  /** Typing one more character moves the distance by at most one. */
  lemma AppendMovesByOne(left: string, right: string, c: char)
    ensures Distance(left + [c], right) <= Distance(left, right) + 1
    ensures Distance(left, right) <= Distance(left + [c], right) + 1
  {
    DistanceIsMinimum(left, right);
    DistanceIsMinimum(left + [c], right);
    var s: Script :| Rewrites(s, left, right) && Cost(s) == Distance(left, right);
    Append(s, Delete(c));
    assert Rewrites(s + [Delete(c)], left + [c], right);
    var t: Script :| Rewrites(t, left + [c], right) && Cost(t) == Distance(left + [c], right);
    var u := DropLast(t, left, c);
  }

  /** The restricted distance is not a metric: going through "ac" is shorter than going direct. */
  lemma TriangleFails()
    ensures Distance("ca", "ac") + Distance("ac", "abc") < Distance("ca", "abc")
  {
    OneSwap('c', 'a');
    OneInsertion("a", "c", 'b');
    assert "a" + "c" == "ac" && "a" + ['b'] + "c" == "abc";
    DirectIsThree("ca", "abc");
  }

  lemma OneSwap(a: char, b: char)
    ensures Distance([a, b], [b, a]) <= 1
  {
    var s := [Swap(a, b)];
    Append([], Swap(a, b));
    assert [] + s == s;
    DistanceIsMinimum([a, b], [b, a]);
    assert Rewrites(s, [a, b], [b, a]);
  }

  /** One inserted character is at most one edit. */
  lemma OneInsertion(front: string, back: string, c: char)
    ensures Distance(front + back, front + [c] + back) <= 1
  {
    var k := KeepAll(front);
    Append(k, Insert(c));
    var s := OneInsertionScript(k + [Insert(c)], back);
    assert front + [] + back == front + back;
    assert Rewrites(s, front + back, front + [c] + back);
    DistanceIsMinimum(front + back, front + [c] + back);
  }

  lemma {:induction false} OneInsertionScript(k: Script, back: string) returns (s: Script)
    ensures Rewrites(s, Source(k) + back, Target(k) + back) && Cost(s) == Cost(k)
  {
    if back == "" {
      s := k;
      assert Source(k) + back == Source(k) && Target(k) + back == Target(k);
    } else {
      var n := |back| - 1;
      var t := OneInsertionScript(k, back[..n]);
      Append(t, Keep(back[n]));
      s := t + [Keep(back[n])];
      assert back == back[..n] + [back[n]];
      assert Source(k) + back == Source(k) + back[..n] + [back[n]];
      assert Target(k) + back == Target(k) + back[..n] + [back[n]];
    }
  }

  lemma DirectIsThree(x: string, z: string)
    requires x == "ca" && z == "abc"
    ensures Distance(x, z) == 3
  {
    assert Dist(x, z, 1, 1) == 1;
    assert Dist(x, z, 1, 2) == 2;
    assert Dist(x, z, 1, 3) == 2;
    assert Dist(x, z, 2, 1) == 1;
    assert Dist(x, z, 2, 2) == 2;
  }
}
