/** Splitting a normal-output service banner into product, version and extra info: cut the
    trailing parenthesised group by scanning from the right, then start the version at the first
    word that begins with a digit. */
module NmapBanner {
  import opened Text

  // ----- the parenthesised group -----

  /** Closing minus opening parentheses from position i on. */
  function Depth(s: string, i: nat): int
    requires i <= |s|
    decreases |s| - i
  {
    if i == |s| then 0
    else Depth(s, i + 1) + (if s[i] == ')' then 1 else if s[i] == '(' then -1 else 0)
  }

  /** The text from i on is balanced: every opening parenthesis in it is closed in it, and no
      parenthesis in it closes one before it. */
  ghost predicate IsBalancedFrom(s: string, i: nat) {
    && i <= |s| && Depth(s, i) == 0
    && forall k :: i <= k <= |s| ==> Depth(s, k) >= 0
  }

  /** The shortest non-empty balanced suffix starts at i. */
  ghost predicate IsShortest(s: string, i: nat) {
    && i < |s| && IsBalancedFrom(s, i)
    && forall k :: i < k < |s| ==> !IsBalancedFrom(s, k)
  }

  /** Scan leftwards with a depth counter until the group closes; the length when it never does. */
  method FindGroup(s: string) returns (index: nat)
    requires s != "" && s[|s| - 1] == ')'
    ensures index <= |s|
    ensures index < |s| <==> exists i :: IsShortest(s, i)
    ensures index < |s| ==> IsShortest(s, index) && s[index] == '(' && index < |s| - 1
  {
    var depth := 0;
    var i := |s|;
    while i > 0
      invariant 0 <= i <= |s| && depth == Depth(s, i)
      invariant forall k :: i <= k < |s| ==> Depth(s, k) > 0
    {
      i := i - 1;
      if s[i] == ')' {
        depth := depth + 1;
      } else if s[i] == '(' {
        depth := depth - 1;
        if depth == 0 {
          assert IsShortest(s, i);
          return i;
        }
      }
    }
    return |s|;
  }

  ghost predicate IsSplitAt(s: string, i: int, body: string, extra: string) {
    IsGroup(s, i) && body == TrimRight(s[..i], IsSpace) && extra == Strip(s[i + 1..|s| - 1])
  }

  /** The split the source returns: body and group, or the text and nothing. */
  ghost predicate IsSplit(text: string, body: string, extra: string) {
    var s := TrimRight(text, IsSpace);
    || (exists i :: IsSplitAt(s, i, body, extra))
    || ((forall i :: !IsGroup(s, i)) && body == s && extra == "")
  }

  /** The shortest balanced suffix, when the text ends in a parenthesis at all. */
  ghost predicate IsGroup(s: string, i: int) {
    && s != "" && s[|s| - 1] == ')' && 0 <= i < |s| - 1 && s[i] == '(' && IsShortest(s, i)
  }

  method SplitTrailingParens(text: string) returns (body: string, extra: string)
    ensures IsSplit(text, body, extra)
  {
    var stripped := TrimRight(text, IsSpace);
    if stripped == "" || stripped[|stripped| - 1] != ')' {
      return stripped, "";
    }
    var index := FindGroup(stripped);
    if index < |stripped| {
      body, extra := TrimRight(stripped[..index], IsSpace), Strip(stripped[index + 1..|stripped| - 1]);
      assert IsSplitAt(stripped, index, body, extra);
      return;
    }
    return stripped, "";
  }

  lemma SplitIsUnique(text: string, b1: string, e1: string, b2: string, e2: string)
    requires IsSplit(text, b1, e1) && IsSplit(text, b2, e2)
    ensures b1 == b2 && e1 == e2
  {
    var s := TrimRight(text, IsSpace);
    forall i, j | IsGroup(s, i) && IsGroup(s, j) ensures i == j { }
  }

  predicate AllSpace(s: string) { forall k :: 0 <= k < |s| ==> IsSpace(s[k]) }

  lemma RightTrimRebuilds(s: string) returns (space: string)
    ensures s == TrimRight(s, IsSpace) + space && AllSpace(space)
  {
    var n := TrimRightCuts(s, IsSpace);
    space := s[n..];
  }

  lemma StripRebuilds(s: string) returns (left: string, right: string)
    ensures s == left + Strip(s) + right && AllSpace(left) && AllSpace(right)
  {
    var n := TrimLeftCuts(s, IsSpace);
    var m := TrimRightCuts(TrimLeft(s, IsSpace), IsSpace);
    left, right := s[..n], s[n..][m..];
    assert s == s[..n] + s[n..] && s[n..] == s[n..][..m] + s[n..][m..];
  }

  lemma GroupRebuilds(s: string, i: nat) returns (a: string, b: string, c: string)
    requires i < |s| - 1 && s[i] == '(' && s[|s| - 1] == ')'
    ensures AllSpace(a) && AllSpace(b) && AllSpace(c)
    ensures s == (TrimRight(s[..i], IsSpace) + a) + ['('] + (b + Strip(s[i + 1..|s| - 1]) + c) + [')']
  {
    a := RightTrimRebuilds(s[..i]);
    b, c := StripRebuilds(s[i + 1..|s| - 1]);
  }

  /** Nothing is lost: body and group, with the parentheses and some white space, are the text. */
  lemma SplitRebuilds(text: string, body: string, extra: string)
    returns (a: string, b: string, c: string, d: string)
    requires IsSplit(text, body, extra)
    ensures AllSpace(a) && AllSpace(b) && AllSpace(c) && AllSpace(d)
    ensures text == (body + a) + ['('] + (b + extra + c) + [')'] + d || (text == body + d && extra == "")
  {
    var s := TrimRight(text, IsSpace);
    d := RightTrimRebuilds(text);
    a, b, c := "", "", "";
    if i :| IsSplitAt(s, i, body, extra) {
      a, b, c := GroupRebuilds(s, i);
    }
  }

  /** A balanced text, read forwards or backwards. */
  ghost predicate IsBalanced(e: string) { IsBalancedFrom(e, 0) }

  lemma {:induction false} DepthOfConcat(x: string, y: string, i: nat)
    requires i <= |x|
    ensures Depth(x + y, i) == Depth(x, i) + Depth(y, 0)
    decreases |x| - i
  {
    if i == |x| {
      DepthOfSuffix(x, y, 0);
    } else {
      DepthOfConcat(x, y, i + 1);
    }
  }

  lemma {:induction false} DepthOfSuffix(x: string, y: string, i: nat)
    requires i <= |y|
    ensures Depth(x + y, |x| + i) == Depth(y, i)
    decreases |y| - i
  {
    if i < |y| {
      DepthOfSuffix(x, y, i + 1);
      assert (x + y)[|x| + i] == y[i];
    }
  }

  lemma DepthInsideGroup(body: string, e: string, k: nat)
    requires k <= |e|
    ensures Depth(body + ['('] + e + [')'], |body| + 1 + k) == Depth(e, k) + 1
  {
    var y := e + [')'];
    assert body + ['('] + e + [')'] == (body + ['(']) + y;
    DepthOfSuffix(body + ['('], y, k);
    DepthOfConcat(e, [')'], k);
    assert Depth([')'], 0) == 1;
  }

  /** A body followed by a balanced group in parentheses splits back into the two, whatever
      parentheses the body or the group hold. */
  lemma GroupSplitsBack(body: string, e: string)
    requires IsBalanced(e)
    ensures IsSplit(body + ['('] + e + [')'], TrimRight(body, IsSpace), Strip(e))
  {
    var s := body + ['('] + e + [')'];
    var i := |body|;
    GroupParts(body, e, s);
    forall k | i < k < |s| ensures Depth(s, k) > 0 {
      DepthInsideGroup(body, e, k - i - 1);
    }
    DepthInsideGroup(body, e, 0);
    GroupIsShortest(s, i);
    assert IsSplitAt(s, i, TrimRight(body, IsSpace), Strip(e));
  }

  lemma GroupParts(body: string, e: string, s: string)
    requires s == body + ['('] + e + [')']
    ensures var n, i := |s|, |body|;
      i < n - 1 && s[i] == '(' && s[n - 1] == ')' && s[..i] == body && s[i + 1..n - 1] == e
    ensures TrimRight(s, IsSpace) == s
  {
  }

  lemma GroupIsShortest(s: string, i: nat)
    requires i < |s| - 1 && s[i] == '(' && s[|s| - 1] == ')' && Depth(s, i + 1) == 1
    requires forall k :: i < k < |s| ==> Depth(s, k) > 0
    ensures IsGroup(s, i)
  {
    assert Depth(s, i) == 0;
  }

  // ----- words -----

  /** `text.split()`: the runs of other characters between white space. */
  function Words(s: string): (words: seq<string>)
    ensures forall i :: 0 <= i < |words| ==> words[i] != ""
  {
    if s == "" then []
    else if IsSpace(s[|s| - 1]) then Words(s[..|s| - 1])
    else
      var rest := Words(s[..|s| - 1]);
      if rest != [] && |s| > 1 && !IsSpace(s[|s| - 2])
      then rest[..|rest| - 1] + [rest[|rest| - 1] + [s[|s| - 1]]]
      else rest + [[s[|s| - 1]]]
  }

  ghost predicate AreWords(words: seq<string>) {
    forall i :: 0 <= i < |words| ==> words[i] != "" && forall c :: c in words[i] ==> !IsSpace(c)
  }

  lemma {:induction false} WordsAreWords(s: string)
    ensures AreWords(Words(s))
  {
    if s != "" {
      WordsAreWords(s[..|s| - 1]);
    }
  }

  /** After white space, or at the start, a character begins a word. */
  lemma WordStarts(s: string, c: char)
    requires (s == "" || IsSpace(s[|s| - 1])) && !IsSpace(c)
    ensures Words(s + [c]) == Words(s) + [[c]]
  {
    var t := s + [c];
    assert t[..|t| - 1] == s;
    assert |t| > 1 ==> t[|t| - 2] == s[|s| - 1];
  }

  lemma WordGrowsBehind(s: string, front: string, c: char)
    requires front != "" && !IsSpace(front[|front| - 1]) && !IsSpace(c)
    ensures Words(s + front) == Words(s) + [front] ==> Words(s + (front + [c])) == Words(s) + [front + [c]]
  {
    assert s + (front + [c]) == s + front + [c];
  }

  lemma {:induction false} LastWord(s: string, w: string)
    requires w != "" && (forall k :: 0 <= k < |w| ==> !IsSpace(w[k]))
    requires s == "" || IsSpace(s[|s| - 1])
    ensures Words(s + w) == Words(s) + [w]
  {
    var front, c := w[..|w| - 1], w[|w| - 1];
    assert w == front + [c];
    if front == "" {
      WordStarts(s, c);
    } else {
      LastWord(s, front);
      WordGrowsBehind(s, front, c);
    }
  }

  lemma AppendWord(front: string, w: string)
    requires w != "" && (forall k :: 0 <= k < |w| ==> !IsSpace(w[k]))
    ensures Words(front + [' '] + w) == Words(front) + [w]
  {
    var spaced := front + [' '];
    assert spaced[..|spaced| - 1] == front;
    assert Words(spaced) == Words(front);
    LastWord(spaced, w);
  }

  /** Words joined by single spaces are read back as they were. */
  lemma {:induction false} JoinedWordsReadBack(words: seq<string>)
    requires AreWords(words)
    ensures Words(Join(words, ' ')) == words
  {
    if words != [] {
      var init, w := words[..|words| - 1], words[|words| - 1];
      assert words == init + [w];
      assert forall k :: 0 <= k < |w| ==> w[k] in w;
      if init == [] {
        LastWord("", w);
        assert "" + w == w && Words("") == [];
      } else {
        JoinedWordsReadBack(init);
        AppendWord(Join(init, ' '), w);
      }
    }
  }

  // ----- the banner -----

  predicate StartsWithDigit(w: string) { w != "" && IsDigit(w[0]) }

  /** Position of the first word that starts with a digit; the number of words if none does. */
  function FirstVersionWord(words: seq<string>): (k: nat)
    ensures k <= |words| && forall i :: 0 <= i < k ==> !StartsWithDigit(words[i])
    ensures k < |words| ==> StartsWithDigit(words[k])
  {
    if words == [] then 0
    else if StartsWithDigit(words[0]) then 0
    else 1 + FirstVersionWord(words[1..])
  }

  /** The product is the words before the first that starts with a digit, the version that word
      and all after it; without one, the body is all product, spacing included. */
  ghost predicate IsBannerSplit(body: string, product: string, version: string) {
    var words := Words(body);
    var k := FirstVersionWord(words);
    if k == |words| then product == body && version == ""
    else product == Join(words[..k], ' ') && version == Join(words[k..], ' ')
  }

  lemma FirstVersionWordIs(words: seq<string>, k: nat)
    requires k <= |words| && (forall i :: 0 <= i < k ==> !StartsWithDigit(words[i]))
    requires k < |words| ==> StartsWithDigit(words[k])
    ensures FirstVersionWord(words) == k
  {
  }

  method SplitNormalBanner(banner: string) returns (product: string, version: string, extra: string)
    ensures exists body :: IsSplit(Strip(banner), body, extra) && IsBannerSplit(body, product, version)
  {
    var body, e := SplitTrailingParens(Strip(banner));
    ghost var found := IsSplit(Strip(banner), body, e);
    product, version := SplitBody(body);
    extra := e;
    assert found;
  }

  method SplitBody(body: string) returns (product: string, version: string)
    ensures IsBannerSplit(body, product, version)
  {
    if body == "" {
      return "", "";
    }
    var tokens := Words(body);
    for index := 0 to |tokens|
      invariant forall i :: 0 <= i < index ==> !StartsWithDigit(tokens[i])
    {
      if StartsWithDigit(tokens[index]) {
        FirstVersionWordIs(tokens, index);
        return Join(tokens[..index], ' '), Join(tokens[index..], ' ');
      }
    }
    FirstVersionWordIs(tokens, |tokens|);
    return body, "";
  }

  lemma CutWords(words: seq<string>, k: nat)
    requires AreWords(words) && k <= |words|
    ensures AreWords(words[..k]) && AreWords(words[k..]) && words == words[..k] + words[k..]
  {
  }

  /** The words of product and version, in order, are the words of the body: nothing is dropped or
      moved, no product word looks like a version, and the version starts at the first that does. */
  lemma BannerConservesWords(body: string, product: string, version: string)
    requires IsBannerSplit(body, product, version)
    ensures Words(product) + Words(version) == Words(body)
    ensures forall i :: 0 <= i < |Words(product)| ==> !StartsWithDigit(Words(product)[i])
    ensures version != "" ==> StartsWithDigit(version)
    ensures version == "" ==> product == body
  {
    var words := Words(body);
    var k := FirstVersionWord(words);
    if k == |words| {
      assert words + [] == words;
    } else {
      WordsAreWords(body);
      CutWords(words, k);
      JoinedWordsReadBack(words[..k]);
      JoinedWordsReadBack(words[k..]);
      JoinEnds(words[k..], ' ');
    }
  }
}
