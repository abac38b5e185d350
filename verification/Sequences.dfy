/** Lists of lists laid end to end, and the images of the elements that pass a test: what loops of
    `extend` and `append` calls build. */
module Sequences {

  function Flatten<T>(lists: seq<seq<T>>): seq<T> {
    if lists == [] then [] else Flatten(lists[..|lists| - 1]) + lists[|lists| - 1]
  }

  lemma OneMoreList<T>(lists: seq<seq<T>>, last: seq<T>)
    ensures Flatten(lists + [last]) == Flatten(lists) + last
  {
    assert (lists + [last])[..|lists|] == lists;
  }

  lemma {:induction false} FlattenMembers<T>(lists: seq<seq<T>>, x: T)
    ensures x in Flatten(lists) <==> exists i :: 0 <= i < |lists| && x in lists[i]
  {
    if lists != [] {
      FlattenMembers(lists[..|lists| - 1], x);
    }
  }

  function FilterMap<A, B>(s: seq<A>, keep: A -> bool, f: A -> B): seq<B> {
    if s == [] then [] else
      var last := s[|s| - 1];
      FilterMap(s[..|s| - 1], keep, f) + (if keep(last) then [f(last)] else [])
  }

  lemma {:induction false} FilterMapOfConcat<A, B>(s: seq<A>, t: seq<A>, keep: A -> bool, f: A -> B)
    ensures FilterMap(s + t, keep, f) == FilterMap(s, keep, f) + FilterMap(t, keep, f)
  {
    if t == [] {
      assert s + t == s;
    } else {
      FilterMapOfConcat(s, t[..|t| - 1], keep, f);
      assert (s + t)[..|s + t| - 1] == s + t[..|t| - 1];
    }
  }

  lemma {:induction false} FilterMapMembers<A, B>(s: seq<A>, keep: A -> bool, f: A -> B, y: B)
    ensures y in FilterMap(s, keep, f) <==> exists x :: x in s && keep(x) && y == f(x)
  {
    if s != [] {
      var init, last := s[..|s| - 1], s[|s| - 1];
      FilterMapMembers(init, keep, f, y);
      assert s == init + [last];
      assert last in s;
    }
  }
}
