/** What the components need from the language's `sorted`: a stable sort by a key order,
    and the ascending enumeration of a set. */
module Sorting {

  ghost predicate TotalPreorder<T(!new)>(le: (T, T) -> bool) {
    && (forall a, b :: le(a, b) || le(b, a))
    && (forall a, b, c :: le(a, b) && le(b, c) ==> le(a, c))
  }

  ghost predicate TotalOrder<T(!new)>(le: (T, T) -> bool) {
    && TotalPreorder(le)
    && (forall a, b :: le(a, b) && le(b, a) ==> a == b)
  }

  ghost predicate Sorted<T>(s: seq<T>, le: (T, T) -> bool) {
    forall i, j :: 0 <= i < j < |s| ==> le(s[i], s[j])
  }

  /** Put x behind everything that does not come after it. */
  function Insert<T>(x: T, s: seq<T>, le: (T, T) -> bool): seq<T> {
    if s == [] then [x]
    else if le(s[0], x) then [s[0]] + Insert(x, s[1..], le)
    else [x] + s
  }

  function Sort<T>(s: seq<T>, le: (T, T) -> bool): seq<T> {
    if s == [] then [] else Insert(s[|s| - 1], Sort(s[..|s| - 1], le), le)
  }

  lemma {:induction false} InsertKeepsElements<T>(x: T, s: seq<T>, le: (T, T) -> bool)
    ensures multiset(Insert(x, s, le)) == multiset(s) + multiset{x}
  {
    if s != [] {
      assert s == [s[0]] + s[1..];
      InsertKeepsElements(x, s[1..], le);
    }
  }

  lemma {:induction false} SortIsPermutation<T>(s: seq<T>, le: (T, T) -> bool)
    ensures multiset(Sort(s, le)) == multiset(s) && |Sort(s, le)| == |s|
  {
    if s != [] {
      assert s == s[..|s| - 1] + [s[|s| - 1]];
      SortIsPermutation(s[..|s| - 1], le);
      InsertKeepsElements(s[|s| - 1], Sort(s[..|s| - 1], le), le);
      assert |multiset(Sort(s, le))| == |multiset(s)|;
    }
  }

  lemma {:induction false} InsertKeepsSorted<T(!new)>(x: T, s: seq<T>, le: (T, T) -> bool)
    requires TotalPreorder(le) && Sorted(s, le)
    ensures Sorted(Insert(x, s, le), le)
  {
    if s != [] {
      InsertKeepsElements(x, s[1..], le);
      InsertKeepsSorted(x, s[1..], le);
      var r := Insert(x, s[1..], le);
      forall j | 0 <= j < |r| ensures r[j] == x || r[j] in s[1..] {
        assert r[j] in multiset(r);
      }
    }
  }

  lemma {:induction false} SortSorts<T(!new)>(s: seq<T>, le: (T, T) -> bool)
    requires TotalPreorder(le)
    ensures Sorted(Sort(s, le), le)
  {
    if s != [] {
      SortSorts(s[..|s| - 1], le);
      InsertKeepsSorted(s[|s| - 1], Sort(s[..|s| - 1], le), le);
    }
  }

  /** The elements that share y's key, in order. */
  function Peers<T>(s: seq<T>, y: T, le: (T, T) -> bool): seq<T> {
    if s == [] then [] else
      var x := s[|s| - 1];
      Peers(s[..|s| - 1], y, le) + (if le(x, y) && le(y, x) then [x] else [])
  }

  lemma {:induction false} PeersOfConcat<T>(s: seq<T>, t: seq<T>, y: T, le: (T, T) -> bool)
    ensures Peers(s + t, y, le) == Peers(s, y, le) + Peers(t, y, le)
  {
    if t == [] {
      assert s + t == s;
    } else {
      PeersOfConcat(s, t[..|t| - 1], y, le);
      assert (s + t)[..|s + t| - 1] == s + t[..|t| - 1];
    }
  }

  lemma {:induction false} NoPeersAbove<T(!new)>(s: seq<T>, x: T, y: T, le: (T, T) -> bool)
    requires TotalPreorder(le)
    requires le(x, y) && le(y, x)
    requires forall k :: 0 <= k < |s| ==> !le(s[k], x)
    ensures Peers(s, y, le) == []
  {
    if s != [] {
      NoPeersAbove(s[..|s| - 1], x, y, le);
    }
  }

  lemma {:induction false} InsertIsStable<T(!new)>(x: T, s: seq<T>, y: T, le: (T, T) -> bool)
    requires TotalPreorder(le) && Sorted(s, le)
    ensures Peers(Insert(x, s, le), y, le) == Peers(s + [x], y, le)
  {
    PeersOfConcat(s, [x], y, le);
    if s == [] {
    } else if le(s[0], x) {
      InsertIsStable(x, s[1..], y, le);
      PeersOfConcat([s[0]], Insert(x, s[1..], le), y, le);
      PeersOfConcat([s[0]], s[1..], y, le);
      PeersOfConcat(s[1..], [x], y, le);
      assert s == [s[0]] + s[1..];
    } else {
      PeersOfConcat([x], s, y, le);
      if le(x, y) && le(y, x) {
        NoPeersAbove(s, x, y, le);
      }
    }
  }

  /** Elements with equal keys keep the order they came in. */
  lemma {:induction false} SortIsStable<T(!new)>(s: seq<T>, y: T, le: (T, T) -> bool)
    requires TotalPreorder(le)
    ensures Peers(Sort(s, le), y, le) == Peers(s, y, le)
  {
    if s != [] {
      var rest := s[..|s| - 1];
      SortIsStable(rest, y, le);
      SortSorts(rest, le);
      InsertIsStable(s[|s| - 1], Sort(rest, le), y, le);
      PeersOfConcat(Sort(rest, le), [s[|s| - 1]], y, le);
      PeersOfConcat(rest, [s[|s| - 1]], y, le);
      assert s == rest + [s[|s| - 1]];
    }
  }

  /** Under a total order there is one way to sort a bag of elements. */
  lemma {:induction false} SortedIsUnique<T(!new)>(s: seq<T>, t: seq<T>, le: (T, T) -> bool)
    requires TotalOrder(le) && Sorted(s, le) && Sorted(t, le)
    requires multiset(s) == multiset(t)
    ensures s == t
  {
    assert |s| == |multiset(s)| && |t| == |multiset(t)|;
    if s != [] {
      assert s == [s[0]] + s[1..] && t == [t[0]] + t[1..];
      assert s[0] in multiset(t) && t[0] in multiset(s);
      assert s[0] == t[0];
      assert multiset(s[1..]) == multiset(s) - multiset{s[0]};
      assert multiset(t[1..]) == multiset(t) - multiset{t[0]};
      SortedIsUnique(s[1..], t[1..], le);
    }
  }

  lemma SortIgnoresInputOrder<T(!new)>(s: seq<T>, t: seq<T>, le: (T, T) -> bool)
    requires TotalOrder(le) && multiset(s) == multiset(t)
    ensures Sort(s, le) == Sort(t, le)
  {
    SortIsPermutation(s, le);
    SortIsPermutation(t, le);
    SortSorts(s, le);
    SortSorts(t, le);
    SortedIsUnique(Sort(s, le), Sort(t, le), le);
  }

  /** In two arrangements of one bag, the last element of the first can be cut out of the second. */
  lemma CutLast<T>(s: seq<T>, t: seq<T>) returns (k: nat)
    requires multiset(s) == multiset(t) && s != []
    ensures k < |t| && t[k] == s[|s| - 1]
    ensures t == t[..k] + [t[k]] + t[k + 1..]
    ensures multiset(s[..|s| - 1]) == multiset(t[..k] + t[k + 1..])
  {
    var n := |s| - 1;
    assert s == s[..n] + [s[n]];
    assert s[n] in multiset(t);
    k :| 0 <= k < |t| && t[k] == s[n];
    assert t == t[..k] + [t[k]] + t[k + 1..];
    assert multiset(s) == multiset(s[..n]) + multiset{s[n]};
    assert multiset(t) == multiset(t[..k]) + multiset{t[k]} + multiset(t[k + 1..]);
    assert multiset(s[..n]) == multiset(s) - multiset{s[n]};
    assert multiset(t[..k] + t[k + 1..]) == multiset(t[..k]) + multiset(t[k + 1..])
        == multiset(t) - multiset{t[k]};
  }

  // ----- sets -----

  lemma {:induction false} LeastExists<T(!new)>(s: set<T>, le: (T, T) -> bool) returns (m: T)
    requires TotalPreorder(le) && s != {}
    ensures m in s && forall x :: x in s ==> le(m, x)
  {
    var p :| p in s;
    if s == {p} {
      m := p;
    } else {
      var rest := s - {p};
      assert s == {p} + rest;
      var q := LeastExists(rest, le);
      m := if le(q, p) then q else p;
      forall x | x in s ensures le(m, x) {
        assert x == p || x in rest;
      }
    }
  }

  /** `sorted` of a set: its members in ascending order. */
  function Ascending<T(!new)>(s: set<T>, le: (T, T) -> bool): (r: seq<T>)
    requires TotalOrder(le)
    ensures |r| == |s| && Sorted(r, le)
    ensures forall x :: x in r <==> x in s
    ensures forall i, j :: 0 <= i < j < |r| ==> r[i] != r[j]
    decreases |s|
  {
    if s == {} then [] else
      assert exists m :: m in s && forall x :: x in s ==> le(m, x) by {
        var m := LeastExists(s, le);
      }
      var m :| m in s && forall x :: x in s ==> le(m, x);
      [m] + Ascending(s - {m}, le)
  }
}
