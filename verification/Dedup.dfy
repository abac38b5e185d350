/** Storing findings without writing the same observation twice within its run or scan.

    The lookup of stored keys reads an index on agent and title and a time window; the whole key
    is compared afterwards. A stored row is in the window when it was observed at or after the
    cutoff.
 */
module Dedup {
  import opened Wrappers

  /** What makes two findings the same observation. */
  datatype Key = Key(agent: string, asset: Option<string>, port: Option<int>, service: Option<string>,
                     findingType: string, title: string, runId: Option<nat>, scanId: Option<nat>,
                     messageId: Option<nat>)

  datatype Row = Row(agent: string, asset: Option<string>, port: Option<int>, service: Option<string>,
                     findingType: string, title: string, runId: Option<nat>, scanId: Option<nat>,
                     messageId: Option<nat>, detectedAt: int)

  function KeyOf(r: Row): Key {
    Key(r.agent, r.asset, r.port, r.service, r.findingType, r.title, r.runId, r.scanId, r.messageId)
  }

  predicate InWindow(r: Row, cutoff: int) { r.detectedAt >= cutoff }

  function Agents(findings: seq<Row>): set<string> { set f | f in findings :: f.agent }

  function Titles(findings: seq<Row>): set<string> { set f | f in findings :: f.title }

  /** The narrowed query: keys of in-window rows that share some agent and some title. */
  function ExistingKeys(stored: seq<Row>, findings: seq<Row>, cutoff: int): set<Key> {
    set r | r in stored && r.agent in Agents(findings) && r.title in Titles(findings)
            && InWindow(r, cutoff) :: KeyOf(r)
  }

  /** What the query stands for: the keys of all in-window rows. */
  function WindowKeys(stored: seq<Row>, cutoff: int): set<Key> {
    set r | r in stored && InWindow(r, cutoff) :: KeyOf(r)
  }

  /** For every finding of the batch the narrowed query answers exactly as a scan of the window
      would, missing assets, ports and services included. */
  lemma NarrowingIsExact(stored: seq<Row>, findings: seq<Row>, cutoff: int, f: Row)
    requires f in findings
    ensures KeyOf(f) in ExistingKeys(stored, findings, cutoff) <==> KeyOf(f) in WindowKeys(stored, cutoff)
  {
    if r :| r in stored && InWindow(r, cutoff) && KeyOf(r) == KeyOf(f) {
      assert r.agent == KeyOf(f).agent == f.agent && r.title == KeyOf(f).title == f.title;
    }
  }

  // ----- the batch loop -----

  function KeysOf(rows: seq<Row>): set<Key> { set r | r in rows :: KeyOf(r) }

  /** The findings whose key is neither stored nor earlier in the batch. */
  function Fresh(findings: seq<Row>, seen: set<Key>): seq<Row> {
    if findings == [] then [] else
      var front, last := Fresh(findings[..|findings| - 1], seen), findings[|findings| - 1];
      if KeyOf(last) in seen || KeyOf(last) in KeysOf(findings[..|findings| - 1]) then front else front + [last]
  }

  /** The titles of the other findings. */
  function Repeats(findings: seq<Row>, seen: set<Key>): seq<string> {
    if findings == [] then [] else
      var front, last := Repeats(findings[..|findings| - 1], seen), findings[|findings| - 1];
      if KeyOf(last) in seen || KeyOf(last) in KeysOf(findings[..|findings| - 1]) then front + [last.title] else front
  }

  method PersistFindings(stored: seq<Row>, findings: seq<Row>, cutoff: int)
    returns (inserted: seq<Row>, suppressed: seq<string>)
    ensures inserted == Fresh(findings, WindowKeys(stored, cutoff))
    ensures suppressed == Repeats(findings, WindowKeys(stored, cutoff))
    ensures |inserted| + |suppressed| == |findings|
  {
    if findings == [] { return [], []; }
    var seen := ExistingKeys(stored, findings, cutoff);
    ghost var window := WindowKeys(stored, cutoff);
    inserted, suppressed := [], [];
    for i := 0 to |findings|
      invariant inserted == Fresh(findings[..i], window)
      invariant suppressed == Repeats(findings[..i], window)
      invariant |inserted| + |suppressed| == i
      invariant seen == ExistingKeys(stored, findings, cutoff) + KeysOf(findings[..i])
    {
      var candidate := findings[i];
      var key := KeyOf(candidate);
      assert findings[..i + 1] == findings[..i] + [candidate];
      if key in seen {
        suppressed := suppressed + [candidate.title];
      } else {
        inserted := inserted + [candidate];
        seen := seen + {key};
      }
    }
    assert findings[..|findings|] == findings;
  }

  // ----- what is stored afterwards -----

  /** The k-th finding is the first of its key in the batch, and the key is new. */
  ghost predicate IsFirst(findings: seq<Row>, k: int, seen: set<Key>) {
    && 0 <= k < |findings| && KeyOf(findings[k]) !in seen
    && forall m :: 0 <= m < k ==> KeyOf(findings[m]) != KeyOf(findings[k])
  }

  /** The places of the first n findings that are first occurrences. */
  ghost function Firsts(findings: seq<Row>, n: nat, seen: set<Key>): seq<nat>
    requires n <= |findings|
  {
    if n == 0 then [] else
      Firsts(findings, n - 1, seen) + (if IsFirst(findings, n - 1, seen) then [n - 1] else [])
  }

  lemma {:induction false} FirstsAreAll(findings: seq<Row>, n: nat, seen: set<Key>)
    requires n <= |findings|
    ensures ListsFirsts(Firsts(findings, n, seen), findings, n, seen)
  {
    if n > 0 {
      var front := Firsts(findings, n - 1, seen);
      FirstsAreAll(findings, n - 1, seen);
      assert Firsts(findings, n, seen) == front + (if IsFirst(findings, n - 1, seen) then [n - 1] else []);
    }
  }

  /** The places below n of the first occurrences, ascending, and no others. */
  ghost predicate ListsFirsts(from: seq<nat>, findings: seq<Row>, n: nat, seen: set<Key>)
    requires n <= |findings|
  {
    && (forall i :: 0 <= i < |from| ==> from[i] < n && IsFirst(findings, from[i], seen))
    && (forall i, j :: 0 <= i < j < |from| ==> from[i] < from[j])
    && (forall k: nat :: k < n && IsFirst(findings, k, seen) ==> k in from)
  }

  function RowsAt(findings: seq<Row>, from: seq<nat>): seq<Row>
    requires forall i :: 0 <= i < |from| ==> from[i] < |findings|
  {
    seq(|from|, i requires 0 <= i < |from| => findings[from[i]])
  }

  lemma {:induction false} FreshPrefix(findings: seq<Row>, n: nat, seen: set<Key>)
    requires n <= |findings|
    requires forall i :: 0 <= i < |Firsts(findings, n, seen)| ==> Firsts(findings, n, seen)[i] < |findings|
    ensures Fresh(findings[..n], seen) == RowsAt(findings, Firsts(findings, n, seen))
  {
    if n > 0 {
      var m, last := n - 1, findings[n - 1];
      var front := Firsts(findings, m, seen);
      FirstsAreAll(findings, m, seen);
      FreshPrefix(findings, m, seen);
      assert findings[..n] == findings[..m] + [last];
      assert front + [] == front;
    }
  }

  /** The rows a batch inserts are the first occurrences of its new keys, all of them, in order. */
  lemma FreshAreFirstOccurrences(findings: seq<Row>, seen: set<Key>) returns (from: seq<nat>)
    ensures |Fresh(findings, seen)| == |from|
    ensures forall i :: 0 <= i < |from| ==>
      IsFirst(findings, from[i], seen) && Fresh(findings, seen)[i] == findings[from[i]]
    ensures forall i, j :: 0 <= i < j < |from| ==> from[i] < from[j]
    ensures forall k: nat :: IsFirst(findings, k, seen) ==> k in from
  {
    from := Firsts(findings, |findings|, seen);
    FirstsAreAll(findings, |findings|, seen);
    FreshPrefix(findings, |findings|, seen);
    assert findings[..|findings|] == findings;
  }

  function CountKey(rows: seq<Row>, key: Key): nat {
    if rows == [] then 0
    else CountKey(rows[..|rows| - 1], key) + (if KeyOf(rows[|rows| - 1]) == key then 1 else 0)
  }

  function Window(stored: seq<Row>, cutoff: int): seq<Row> {
    if stored == [] then [] else
      var last := stored[|stored| - 1];
      Window(stored[..|stored| - 1], cutoff) + (if InWindow(last, cutoff) then [last] else [])
  }

  lemma {:induction false} CountOfConcat(a: seq<Row>, b: seq<Row>, key: Key)
    ensures CountKey(a + b, key) == CountKey(a, key) + CountKey(b, key)
  {
    if b == [] {
      assert a + b == a;
    } else {
      CountOfConcat(a, b[..|b| - 1], key);
      assert (a + b)[..|a + b| - 1] == a + b[..|b| - 1];
    }
  }

  lemma {:induction false} CountIsMembership(rows: seq<Row>, key: Key)
    ensures CountKey(rows, key) > 0 <==> key in KeysOf(rows)
  {
    if rows != [] {
      var n := |rows| - 1;
      CountIsMembership(rows[..n], key);
      assert rows == rows[..n] + [rows[n]];
      assert rows[n] in rows;
    }
  }

  lemma {:induction false} WindowKeysAreThere(stored: seq<Row>, cutoff: int)
    ensures KeysOf(Window(stored, cutoff)) == WindowKeys(stored, cutoff)
  {
    if stored != [] {
      var n := |stored| - 1;
      WindowKeysAreThere(stored[..n], cutoff);
      assert stored == stored[..n] + [stored[n]];
      var front := Window(stored[..n], cutoff);
      assert KeysOf(front + [stored[n]]) == KeysOf(front) + {KeyOf(stored[n])};
      assert front + [] == front;
    }
  }

  lemma OneMoreRow(rows: seq<Row>, r: Row, key: Key)
    ensures CountKey(rows + [r], key) == CountKey(rows, key) + (if KeyOf(r) == key then 1 else 0)
  {
    assert (rows + [r])[..|rows|] == rows;
  }

  lemma {:induction false} FreshCount(findings: seq<Row>, seen: set<Key>, key: Key)
    ensures CountKey(Fresh(findings, seen), key) == if key in KeysOf(findings) && key !in seen then 1 else 0
  {
    if findings != [] {
      var init, last := findings[..|findings| - 1], findings[|findings| - 1];
      assert findings == init + [last];
      FreshCount(init, seen, key);
      OneMoreRow(Fresh(init, seen), last, key);
      assert Fresh(init, seen) + [] == Fresh(init, seen);
    }
  }

  /** After a batch, each of its keys stands exactly once among the window and the new rows, if
      the window held it at most once before; and keys outside the batch stand as before. */
  lemma EachKeyOnce(stored: seq<Row>, findings: seq<Row>, cutoff: int, key: Key)
    requires CountKey(Window(stored, cutoff), key) <= 1
    ensures var inserted := Fresh(findings, WindowKeys(stored, cutoff));
      CountKey(Window(stored, cutoff) + inserted, key)
        == if key in KeysOf(findings) then 1 else CountKey(Window(stored, cutoff), key)
  {
    var inserted := Fresh(findings, WindowKeys(stored, cutoff));
    CountOfConcat(Window(stored, cutoff), inserted, key);
    CountIsMembership(Window(stored, cutoff), key);
    WindowKeysAreThere(stored, cutoff);
    FreshCount(findings, WindowKeys(stored, cutoff), key);
  }

  lemma {:induction false} FreshIsEmpty(findings: seq<Row>, seen: set<Key>)
    ensures Fresh(findings, seen) == [] <==> KeysOf(findings) <= seen
  {
    if findings != [] {
      var n := |findings| - 1;
      FreshIsEmpty(findings[..n], seen);
      assert findings == findings[..n] + [findings[n]];
      assert KeysOf(findings) == KeysOf(findings[..n]) + {KeyOf(findings[n])};
    }
  }

  lemma RepeatIsEmptyWhileStored(stored: seq<Row>, findings: seq<Row>, cutoff: int, later: int)
    ensures var after := stored + Fresh(findings, WindowKeys(stored, cutoff));
      Fresh(findings, WindowKeys(after, later)) == [] <==>
        forall f :: f in findings ==> HasRow(after, KeyOf(f), later)
  {
    var after := stored + Fresh(findings, WindowKeys(stored, cutoff));
    FreshIsEmpty(findings, WindowKeys(after, later));
    forall f | f in findings ensures HasRow(after, KeyOf(f), later) <==> KeyOf(f) in WindowKeys(after, later) {
    }
    if forall f :: f in findings ==> HasRow(after, KeyOf(f), later) {
      forall key | key in KeysOf(findings) ensures key in WindowKeys(after, later) {
        var f :| f in findings && KeyOf(f) == key;
      }
    } else {
      var f :| f in findings && !HasRow(after, KeyOf(f), later);
      assert KeyOf(f) in KeysOf(findings);
    }
  }

  /** Some row has the key and was observed at or after the time. */
  ghost predicate HasRow(rows: seq<Row>, key: Key, later: int) {
    exists r :: r in rows && KeyOf(r) == key && InWindow(r, later)
  }

  lemma {:induction false} FirstOfKey(findings: seq<Row>, n: nat, key: Key) returns (k: nat)
    requires n <= |findings| && key in KeysOf(findings[..n])
    ensures k < n && IsFirst(findings, k, {}) && KeyOf(findings[k]) == key
  {
    if key in KeysOf(findings[..n - 1]) {
      k := FirstOfKey(findings, n - 1, key);
    } else {
      var f :| f in findings[..n] && KeyOf(f) == key;
      assert findings[..n] == findings[..n - 1] + [findings[n - 1]];
      assert f in findings[..n - 1] || f == findings[n - 1];
      k := n - 1;
      forall m | 0 <= m < k ensures KeyOf(findings[m]) != key {
        assert findings[m] in findings[..n - 1];
      }
    }
  }

  /** The row a batch inserts for a key is the first finding of that key, if the key is new. */
  lemma InsertedForKey(findings: seq<Row>, seen: set<Key>, k: nat, r: Row)
    requires k < |findings| && IsFirst(findings, k, {}) && KeyOf(r) == KeyOf(findings[k])
    ensures r in Fresh(findings, seen) <==> r == findings[k] && KeyOf(r) !in seen
  {
    var from := FreshAreFirstOccurrences(findings, seen);
    var inserted := Fresh(findings, seen);
    if r in inserted {
      var i :| 0 <= i < |inserted| && inserted[i] == r;
      assert IsFirst(findings, from[i], seen);
    }
    if r == findings[k] && KeyOf(r) !in seen {
      assert IsFirst(findings, k, seen) && k in from;
      var i :| 0 <= i < |from| && from[i] == k;
      assert inserted[i] == r;
    }
  }

  /** After the batch, the key of finding k, the first of its key, has a row observed at or after
      the time: a stored one, or the finding itself, when it was inserted. */
  ghost predicate StaysInWindow(stored: seq<Row>, findings: seq<Row>, k: nat, cutoff: int, later: int)
    requires k < |findings|
  {
    || HasRow(stored, KeyOf(findings[k]), later)
    || (KeyOf(findings[k]) !in WindowKeys(stored, cutoff) && InWindow(findings[k], later))
  }

  lemma RowAfterBatch(stored: seq<Row>, findings: seq<Row>, k: nat, cutoff: int, later: int)
    requires k < |findings| && IsFirst(findings, k, {})
    ensures HasRow(stored + Fresh(findings, WindowKeys(stored, cutoff)), KeyOf(findings[k]), later)
      <==> StaysInWindow(stored, findings, k, cutoff, later)
  {
    var inserted, key := Fresh(findings, WindowKeys(stored, cutoff)), KeyOf(findings[k]);
    var after := stored + inserted;
    assert forall r :: r in after <==> r in stored || r in inserted;
    forall r | KeyOf(r) == key ensures r in inserted <==> r == findings[k] && key !in WindowKeys(stored, cutoff) {
      InsertedForKey(findings, WindowKeys(stored, cutoff), k, r);
    }
  }

  /** Storing the same batch again, at whatever time, inserts nothing exactly when each of its keys
      has a stored row still in the window then, or is new to the window now with its first finding
      still in the window then. The window is judged by when the activity was observed, so a batch
      older than a day is stored again on every repeat. */
  lemma RepeatInsertsNothingExactlyWhileInWindow(stored: seq<Row>, findings: seq<Row>, cutoff: int, later: int)
    ensures var after := stored + Fresh(findings, WindowKeys(stored, cutoff));
      Fresh(findings, WindowKeys(after, later)) == [] <==>
        forall k: nat :: k < |findings| && IsFirst(findings, k, {}) ==>
          StaysInWindow(stored, findings, k, cutoff, later)
  {
    var after := stored + Fresh(findings, WindowKeys(stored, cutoff));
    RepeatIsEmptyWhileStored(stored, findings, cutoff, later);
    forall k: nat | k < |findings| && IsFirst(findings, k, {})
      ensures HasRow(after, KeyOf(findings[k]), later) <==> StaysInWindow(stored, findings, k, cutoff, later)
    {
      RowAfterBatch(stored, findings, k, cutoff, later);
    }
    forall f | f in findings
      ensures exists k: nat :: k < |findings| && IsFirst(findings, k, {}) && KeyOf(findings[k]) == KeyOf(f)
    {
      assert findings[..|findings|] == findings && KeyOf(f) in KeysOf(findings);
      var k := FirstOfKey(findings, |findings|, KeyOf(f));
    }
  }

  /** The case that matters: a batch observed within the window, repeated before the window moves
      past any of it, is suppressed whole. */
  lemma PromptRepeatIsSuppressed(stored: seq<Row>, findings: seq<Row>, cutoff: int)
    requires forall f :: f in findings ==> InWindow(f, cutoff)
    ensures var after := stored + Fresh(findings, WindowKeys(stored, cutoff));
      Fresh(findings, WindowKeys(after, cutoff)) == []
  {
    var seen := WindowKeys(stored, cutoff);
    var after := stored + Fresh(findings, seen);
    FreshIsEmpty(findings, WindowKeys(after, cutoff));
    forall key | key in KeysOf(findings) ensures key in WindowKeys(after, cutoff) {
      if key in seen {
        var r :| r in stored && InWindow(r, cutoff) && KeyOf(r) == key;
        assert r in after;
      } else {
        FreshCount(findings, seen, key);
        CountIsMembership(Fresh(findings, seen), key);
        var r :| r in Fresh(findings, seen) && KeyOf(r) == key;
        var from := FreshAreFirstOccurrences(findings, seen);
        var i :| 0 <= i < |from| && Fresh(findings, seen)[i] == r;
        assert r in findings && r in after;
      }
    }
  }
}
