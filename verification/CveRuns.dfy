/** Every interleaving of concurrent lookups over one shared `CveLookup`, with a clock that never
    runs backwards. A lookup is a small program that gives up control while it sleeps and while a
    request is in flight; the scheduler, the clock and the service are free.

    Three logs record what happened and steer nothing: slots granted, requests sent, answers kept.
 */
module CveRuns {
  import opened Wrappers
  import opened CveLookup

  /** The event loop either refuses to sleep for a non-number or counts such a sleep as over at
      once; which one depends on its version. */
  datatype Config = Config(interval: real, ttl: real, refusesNaN: bool)

  /** Where one lookup stands. */
  datatype Lookup =
    | Claiming(id: string, attempt: nat)
    | Sleeping(id: string, attempt: nat, slot: real)
    | InFlight(id: string, attempt: nat)
    | BackingOff(id: string, until: real)
    | Done(reply: Payload, cached: bool)
    | Crashed

  datatype Grant = Grant(pid: nat, claimedAt: real, slot: real)
  datatype Request = Request(pid: nat, sentAt: real, slot: real)
  datatype Kept = Kept(id: string, payload: Payload, at: real)

  datatype State = State(
    clock: real,
    nextSlotAt: real,
    cache: Cache,
    lookups: map<nat, Lookup>,
    grants: seq<Grant>,
    requests: seq<Request>,
    kept: seq<Kept>)

  datatype Event =
    | Tick(to: real)
    | Call(pid: nat, raw: string)
    | Claim(pid: nat)
    | Send(pid: nat)
    | Receive(pid: nat, response: Response, victim: string)
    | Wake(pid: nat)

  ghost predicate Init(s: State) {
    s.clock >= 0.0 && s == State(s.clock, 0.0, map[], map[], [], [], [])
  }

  // ----- the steps -----

  /** A new lookup validates its id and reads the cache before giving up control. */
  ghost predicate CallStep(c: Config, s: State, t: State, pid: nat, raw: string) {
    var id := Normalized(raw);
    && pid !in s.lookups
    && if !IsCveId(id) then
         t == s.(lookups := s.lookups[pid := Done(Payload(raw, Invalid, "", None), false)])
       else
         var hit := Hit(s.cache, id, s.clock);
         t == s.(cache := AfterRead(s.cache, id, s.clock),
                 lookups := s.lookups[pid := if hit.Some? then Done(hit.value, true) else Claiming(id, 0)])
  }

  ghost predicate ClaimStep(c: Config, s: State, t: State, pid: nat) {
    && pid in s.lookups && s.lookups[pid].Claiming?
    && var slot := SlotFor(s.clock, s.nextSlotAt, c.interval);
       t == s.(nextSlotAt := NextSlot(s.clock, s.nextSlotAt, c.interval),
               lookups := s.lookups[pid := Sleeping(s.lookups[pid].id, s.lookups[pid].attempt, slot)],
               grants := s.grants + [Grant(pid, s.clock, slot)])
  }

  ghost predicate SendStep(s: State, t: State, pid: nat) {
    && pid in s.lookups && s.lookups[pid].Sleeping? && s.clock >= s.lookups[pid].slot
    && t == s.(lookups := s.lookups[pid := InFlight(s.lookups[pid].id, s.lookups[pid].attempt)],
               requests := s.requests + [Request(pid, s.clock, s.lookups[pid].slot)])
  }

  function AfterRateLimit(c: Config, id: string, now: real, wait: Float): Lookup {
    if wait.Finite? then BackingOff(id, now + wait.r)
    else if c.refusesNaN then Crashed
    else BackingOff(id, now)
  }

  function AfterEnding(ending: Ending): Lookup {
    if ending.Replied? then Done(ending.payload, false) else Crashed
  }

  ghost predicate ReceiveStep(c: Config, s: State, t: State, pid: nat, response: Response, victim: string) {
    && pid in s.lookups && s.lookups[pid].InFlight?
    && var id := s.lookups[pid].id;
       if ShouldRetry(response, s.lookups[pid].attempt) then
         t == s.(lookups := s.lookups[pid := AfterRateLimit(c, id, s.clock, RetryAfterSeconds(response.retryAfter))])
       else
         var ending := Conclusion(id, response);
         var done := s.(lookups := s.lookups[pid := AfterEnding(ending)]);
         if !IsKept(ending) || c.ttl <= 0.0 then t == done
         else
           && (|s.cache| >= MAX_CACHE_ENTRIES ==> IsOldest(s.cache, victim))
           && t == done.(cache := AfterStore(s.cache, id, ending.payload, s.clock, c.ttl, victim),
                         kept := s.kept + [Kept(id, ending.payload, s.clock)])
  }

  ghost predicate WakeStep(s: State, t: State, pid: nat) {
    && pid in s.lookups && s.lookups[pid].BackingOff? && s.clock >= s.lookups[pid].until
    && t == s.(lookups := s.lookups[pid := Claiming(s.lookups[pid].id, 1)])
  }

  ghost predicate Next(c: Config, s: State, e: Event, t: State) {
    match e
    case Tick(to) => to >= s.clock && t == s.(clock := to)
    case Call(pid, raw) => CallStep(c, s, t, pid, raw)
    case Claim(pid) => ClaimStep(c, s, t, pid)
    case Send(pid) => SendStep(s, t, pid)
    case Receive(pid, response, victim) => ReceiveStep(c, s, t, pid, response, victim)
    case Wake(pid) => WakeStep(s, t, pid)
  }

  /** A finite run: each state reached from the one before by the event between them. */
  ghost predicate IsRun(c: Config, states: seq<State>, events: seq<Event>) {
    && |states| == |events| + 1 && Init(states[0])
    && forall i :: 0 <= i < |events| ==> Next(c, states[i], events[i], states[i + 1])
  }

  ghost predicate Reachable(c: Config, s: State) {
    exists states, events :: IsRun(c, states, events) && s == states[|events|]
  }

  // ----- rate limiting -----

  /** Grants are in claim order and an interval apart, none before its claim, and the next slot
      is a full interval after the last. */
  ghost predicate Spaced(interval: real, clock: real, next: real, grants: seq<Grant>) {
    && clock >= 0.0
    && (forall i :: 0 <= i < |grants| ==> 0.0 <= grants[i].claimedAt <= clock)
    && (forall i :: 0 <= i < |grants| ==> grants[i].claimedAt <= grants[i].slot)
    && (forall i, j :: 0 <= i < j < |grants| ==> grants[i].slot + interval <= grants[j].slot)
    && (forall i :: 0 <= i < |grants| ==>
          if interval > 0.0 then grants[i].slot + interval <= next else grants[i].slot <= clock)
  }

  /** The limiter wastes nothing: the first slot is the claim itself, and each later one is the
      first moment that is both not before its claim and an interval after the slot before it. */
  ghost predicate Tight(interval: real, grants: seq<Grant>) {
    && (grants != [] ==> grants[0].slot == grants[0].claimedAt)
    && (forall i :: 0 < i < |grants| ==>
          grants[i].slot == MaxReal(grants[i].claimedAt, grants[i - 1].slot + interval))
  }

  ghost predicate NextIsTight(interval: real, next: real, grants: seq<Grant>) {
    interval > 0.0 ==> next == if grants == [] then 0.0 else grants[|grants| - 1].slot + interval
  }

  ghost predicate Paced(c: Config, s: State) {
    && Spaced(c.interval, s.clock, s.nextSlotAt, s.grants)
    && Tight(c.interval, s.grants) && NextIsTight(c.interval, s.nextSlotAt, s.grants)
  }

  lemma GrantKeepsSpacing(interval: real, now: real, next: real, grants: seq<Grant>, pid: nat)
    requires interval >= 0.0 && Spaced(interval, now, next, grants)
    ensures var granted := grants + [Grant(pid, now, SlotFor(now, next, interval))];
      Spaced(interval, now, NextSlot(now, next, interval), granted)
  {
    var n := |grants|;
    var slot := SlotFor(now, next, interval);
    assert forall i :: 0 <= i < n ==> grants[i].slot + interval <= slot;
  }

  lemma GrantKeepsTight(interval: real, now: real, next: real, grants: seq<Grant>, pid: nat)
    requires interval >= 0.0 && Spaced(interval, now, next, grants)
    requires Tight(interval, grants) && NextIsTight(interval, next, grants)
    ensures var granted := grants + [Grant(pid, now, SlotFor(now, next, interval))];
      Tight(interval, granted) && NextIsTight(interval, NextSlot(now, next, interval), granted)
  {
  }

  lemma PacedStep(c: Config, s: State, e: Event, t: State)
    requires c.interval >= 0.0 && Paced(c, s) && Next(c, s, e, t)
    ensures Paced(c, t)
  {
    if e.Claim? {
      GrantKeepsSpacing(c.interval, s.clock, s.nextSlotAt, s.grants, e.pid);
      GrantKeepsTight(c.interval, s.clock, s.nextSlotAt, s.grants, e.pid);
    }
  }

  lemma {:induction false} PacedRun(c: Config, states: seq<State>, events: seq<Event>, n: nat)
    requires c.interval >= 0.0 && IsRun(c, states, events) && n <= |events|
    ensures Paced(c, states[n])
  {
    if n > 0 {
      PacedRun(c, states, events, n - 1);
      PacedStep(c, states[n - 1], events[n - 1], states[n]);
    }
  }

  lemma ReachablePaced(c: Config, s: State)
    requires c.interval >= 0.0 && Reachable(c, s)
    ensures Paced(c, s)
  {
    var states, events :| IsRun(c, states, events) && s == states[|events|];
    PacedRun(c, states, events, |events|);
  }

  /** In every reachable state, over all lookups and their retries: any two granted slots are at
      least the interval apart and no slot is before its claim. */
  lemma SlotsAreSpaced(c: Config, s: State, i: nat, j: nat)
    requires c.interval >= 0.0 && Reachable(c, s) && i < j < |s.grants|
    ensures s.grants[j].slot - s.grants[i].slot >= c.interval
    ensures s.grants[j].slot >= s.grants[j].claimedAt
  {
    ReachablePaced(c, s);
  }

  /** Simultaneous claims cost one interval each, no more: if claims i to j all came by the time
      slot i was granted for, slot j is exactly j - i intervals after slot i. */
  lemma BurstTakesOneIntervalEach(c: Config, s: State, i: nat, j: nat)
    requires c.interval >= 0.0 && Reachable(c, s) && i <= j < |s.grants|
    requires forall k :: i <= k <= j ==> s.grants[k].claimedAt <= s.grants[i].slot
    ensures s.grants[j].slot == s.grants[i].slot + (j - i) as real * c.interval
  {
    ReachablePaced(c, s);
    BurstOfGrants(c.interval, s.grants, i, j);
  }

  lemma {:induction false} BurstOfGrants(interval: real, grants: seq<Grant>, i: nat, j: nat)
    requires interval >= 0.0 && Tight(interval, grants) && i <= j < |grants|
    requires forall k :: i <= k <= j ==> grants[k].claimedAt <= grants[i].slot
    ensures grants[j].slot == grants[i].slot + (j - i) as real * interval
    decreases j - i
  {
    if i < j {
      BurstOfGrants(interval, grants, i, j - 1);
      assert grants[j].slot == MaxReal(grants[j].claimedAt, grants[j - 1].slot + interval);
    }
  }

  // ----- at most two requests -----

  function RequestsBy(requests: seq<Request>, pid: nat): nat {
    if requests == [] then 0
    else RequestsBy(requests[..|requests| - 1], pid) + (if requests[|requests| - 1].pid == pid then 1 else 0)
  }

  function Used(l: Lookup): nat {
    match l
    case Claiming(_, attempt) => attempt
    case Sleeping(_, attempt, _) => attempt
    case InFlight(_, attempt) => attempt + 1
    case BackingOff(_, _) => 1
    case Done(_, _) => 2
    case Crashed => 2
  }

  /** A lookup tries at most twice. */
  predicate WithinRetries(l: Lookup) {
    match l
    case Claiming(_, attempt) => attempt <= RATE_LIMIT_RETRIES
    case Sleeping(_, attempt, _) => attempt <= RATE_LIMIT_RETRIES
    case InFlight(_, attempt) => attempt <= RATE_LIMIT_RETRIES
    case _ => true
  }

  ghost predicate CountedFor(requests: seq<Request>, lookups: map<nat, Lookup>, pid: nat) {
    if pid in lookups then WithinRetries(lookups[pid]) && RequestsBy(requests, pid) <= Used(lookups[pid])
    else RequestsBy(requests, pid) == 0
  }

  ghost predicate SentInTime(requests: seq<Request>) {
    forall i :: 0 <= i < |requests| ==> requests[i].sentAt >= requests[i].slot
  }

  ghost predicate Counted(s: State) {
    (forall pid :: CountedFor(s.requests, s.lookups, pid)) && SentInTime(s.requests)
  }

  lemma OneMoreRequest(requests: seq<Request>, r: Request, pid: nat)
    ensures RequestsBy(requests + [r], pid) == RequestsBy(requests, pid) + (if r.pid == pid then 1 else 0)
  {
    assert (requests + [r])[..|requests|] == requests;
  }

  lemma CountedStep(c: Config, s: State, e: Event, t: State)
    requires Counted(s) && Next(c, s, e, t)
    ensures Counted(t)
  {
    forall pid ensures CountedFor(t.requests, t.lookups, pid) {
      assert CountedFor(s.requests, s.lookups, pid);
      CountedStepFor(c, s, e, t, pid);
    }
  }

  lemma CountedStepFor(c: Config, s: State, e: Event, t: State, pid: nat)
    requires CountedFor(s.requests, s.lookups, pid) && Next(c, s, e, t)
    ensures CountedFor(t.requests, t.lookups, pid)
  {
    if e.Send? {
      OneMoreRequest(s.requests, Request(e.pid, s.clock, s.lookups[e.pid].slot), pid);
    } else {
      assert t.requests == s.requests;
    }
  }

  lemma {:induction false} CountedRun(c: Config, states: seq<State>, events: seq<Event>, n: nat)
    requires IsRun(c, states, events) && n <= |events|
    ensures Counted(states[n])
  {
    if n > 0 {
      CountedRun(c, states, events, n - 1);
      CountedStep(c, states[n - 1], events[n - 1], states[n]);
    }
  }

  /** A lookup sends at most two requests, and none before the slot it was granted. */
  lemma AtMostTwoRequests(c: Config, s: State, pid: nat)
    requires Reachable(c, s)
    ensures RequestsBy(s.requests, pid) <= 2
    ensures forall i :: 0 <= i < |s.requests| ==> s.requests[i].sentAt >= s.requests[i].slot
  {
    var states, events :| IsRun(c, states, events) && s == states[|events|];
    CountedRun(c, states, events, |events|);
    assert CountedFor(s.requests, s.lookups, pid);
  }

  // ----- which lookups end without a reply -----

  predicate IsCrashed(s: State, pid: nat) { pid in s.lookups && s.lookups[pid].Crashed? }

  /** The event brings a response to the request the lookup has in flight. */
  predicate IsReceived(s: State, e: Event, pid: nat) {
    e.Receive? && e.pid == pid && pid in s.lookups && s.lookups[pid].InFlight?
  }

  /** The response is a rate limit to back off from, and its header spells a non-number. */
  predicate IsNaNReply(s: State, e: Event, pid: nat) {
    && IsReceived(s, e, pid) && ShouldRetry(e.response, s.lookups[pid].attempt)
    && e.response.retryAfter == Some(NaN)
  }

  /** The response is the final one, no error, and its body cannot be summarised. */
  ghost predicate IsRaisingReply(s: State, e: Event, pid: nat) {
    && IsReceived(s, e, pid) && !ShouldRetry(e.response, s.lookups[pid].attempt)
    && e.response.Http? && !IsError(e.response.code) && IsUnsummarisable(e.response.body)
  }

  ghost predicate EndsIt(c: Config, s: State, e: Event, pid: nat) {
    (c.refusesNaN && IsNaNReply(s, e, pid)) || IsRaisingReply(s, e, pid)
  }

  lemma CrashStep(c: Config, s: State, e: Event, t: State, pid: nat)
    requires Next(c, s, e, t)
    ensures IsCrashed(t, pid) <==> IsCrashed(s, pid) || EndsIt(c, s, e, pid)
  {
    if IsReceived(s, e, pid) {
      RaisesExactly(s.lookups[pid].id, e.response);
    }
  }

  /** Over every run, a lookup ends without a reply if and only if it got one of two responses: a
      rate limit whose header spells a non-number, on an event loop that refuses to wait for one, or
      a final response whose body cannot be summarised. Every other failure leaves it a reply or
      still under way. */
  lemma {:induction false} CrashedExactly(c: Config, states: seq<State>, events: seq<Event>, n: nat, pid: nat)
    requires IsRun(c, states, events) && n <= |events|
    ensures IsCrashed(states[n], pid) <==> EndedWithin(c, states, events, n, pid)
  {
    if n > 0 {
      CrashedExactly(c, states, events, n - 1, pid);
      CrashStep(c, states[n - 1], events[n - 1], states[n], pid);
    }
  }

  ghost predicate EndedWithin(c: Config, states: seq<State>, events: seq<Event>, n: nat, pid: nat) {
    exists k :: 0 <= k < n && k < |states| && k < |events| && EndsIt(c, states[k], events[k], pid)
  }

  /** Where the authority's record is null, or anything else that is not an object, the first reply
      to a well-formed id ends the lookup, on every event loop. */
  lemma NullAuthorityEndsTheLookup(c: Config, raw: string, text: string, scores: seq<Value>)
    returns (states: seq<State>, events: seq<Event>)
    requires IsCveId(Normalized(raw))
    ensures IsRun(c, states, events) && |events| == 4
    ensures events[3].Receive? && events[3].response == Http(200, Record(text, scores, NotAnObject), None)
    ensures IsCrashed(states[4], 0)
  {
    var id := Normalized(raw);
    var slot := SlotFor(0.0, 0.0, c.interval);
    var s0 := State(0.0, 0.0, map[], map[], [], [], []);
    var s1 := s0.(lookups := map[0 := Claiming(id, 0)]);
    var s2 := s1.(nextSlotAt := NextSlot(0.0, 0.0, c.interval), lookups := map[0 := Sleeping(id, 0, slot)],
                  grants := [Grant(0, 0.0, slot)]);
    var s3 := s2.(lookups := map[0 := InFlight(id, 0)], requests := [Request(0, 0.0, slot)]);
    var s4 := s3.(lookups := map[0 := Crashed]);
    states := [s0, s1, s2, s3, s4];
    events := [Call(0, raw), Claim(0), Send(0), Receive(0, Http(200, Record(text, scores, NotAnObject), None), "")];
    OneLookupSteps(c, raw, s0, s1, s2, s3, s4, events);
  }

  lemma OneLookupSteps(c: Config, raw: string, s0: State, s1: State, s2: State, s3: State, s4: State,
                       events: seq<Event>)
    requires IsCveId(Normalized(raw)) && |events| == 4
    requires s0 == State(0.0, 0.0, map[], map[], [], [], [])
    requires events[..3] == [Call(0, raw), Claim(0), Send(0)]
    requires events[3].Receive? && events[3].pid == 0 && !ShouldRetry(events[3].response, 0)
    requires Conclusion(Normalized(raw), events[3].response).Raised?
    requires s1 == s0.(lookups := map[0 := Claiming(Normalized(raw), 0)])
    requires var slot := SlotFor(0.0, 0.0, c.interval);
      s2 == s1.(nextSlotAt := NextSlot(0.0, 0.0, c.interval), lookups := map[0 := Sleeping(Normalized(raw), 0, slot)],
                grants := [Grant(0, 0.0, slot)])
    requires s3 == s2.(lookups := map[0 := InFlight(Normalized(raw), 0)],
                       requests := [Request(0, 0.0, SlotFor(0.0, 0.0, c.interval))])
    requires s4 == s3.(lookups := map[0 := Crashed])
    ensures IsRun(c, [s0, s1, s2, s3, s4], events)
  {
    assert events[0] == events[..3][0] && events[1] == events[..3][1] && events[2] == events[..3][2];
  }

  // ----- the cache is the last kept answer, or nothing -----

  /** Index of the last answer kept for the id; -1 when there was none. */
  function LastKept(kept: seq<Kept>, id: string): (i: int)
    ensures -1 <= i < |kept|
    ensures i >= 0 ==> kept[i].id == id
    ensures forall k :: i < k < |kept| ==> kept[k].id != id
  {
    if kept == [] then -1
    else if kept[|kept| - 1].id == id then |kept| - 1
    else LastKept(kept[..|kept| - 1], id)
  }

  ghost predicate HoldsFor(entry: CacheEntry, kept: seq<Kept>, id: string, ttl: real) {
    var i := LastKept(kept, id);
    i >= 0 && entry == CacheEntry(kept[i].payload, kept[i].at + ttl)
  }

  ghost predicate Holds(cache: Cache, kept: seq<Kept>, ttl: real) {
    forall id :: id in cache ==> HoldsFor(cache[id], kept, id, ttl)
  }

  ghost predicate MirrorsLog(cache: Cache, kept: seq<Kept>, ttl: real, clock: real) {
    && |cache| <= MAX_CACHE_ENTRIES
    && Holds(cache, kept, ttl)
    && (forall i :: 0 <= i < |kept| ==> IsDefinite(kept[i].payload) && kept[i].at <= clock)
  }

  ghost predicate Mirrors(c: Config, s: State) {
    MirrorsLog(s.cache, s.kept, c.ttl, s.clock)
  }

  lemma StoreKeepsHolding(cache: Cache, kept: seq<Kept>, x: Kept, ttl: real, victim: string)
    requires Holds(cache, kept, ttl) && ttl > 0.0
    ensures Holds(AfterStore(cache, x.id, x.payload, x.at, ttl, victim), kept + [x], ttl)
  {
    var after := AfterStore(cache, x.id, x.payload, x.at, ttl, victim);
    forall id | id in after ensures HoldsFor(after[id], kept + [x], id, ttl) {
      if id != x.id {
        assert HoldsFor(cache[id], kept, id, ttl);
      }
    }
  }

  lemma SubsetIsSmaller<T>(a: set<T>, b: set<T>)
    requires a <= b
    ensures |a| <= |b|
  {
    assert b == a + (b - a);
  }

  /** Only a reply that keeps an answer writes to the cache; a call can at most drop one entry. */
  lemma CacheWrites(c: Config, s: State, e: Event, t: State) returns (x: Kept)
    requires Next(c, s, e, t)
    ensures t.clock >= s.clock
    ensures t.kept == s.kept
      ==> || t.cache == s.cache
          || (e.Call? && t.clock == s.clock && t.cache == AfterRead(s.cache, Normalized(e.raw), s.clock))
    ensures t.kept != s.kept ==>
      && e.Receive? && c.ttl > 0.0 && t.clock == s.clock
      && (|s.cache| >= MAX_CACHE_ENTRIES ==> IsOldest(s.cache, e.victim))
      && t.kept == s.kept + [x] && IsDefinite(x.payload) && x.at == s.clock
      && t.cache == AfterStore(s.cache, x.id, x.payload, s.clock, c.ttl, e.victim)
  {
    x := Kept("", Payload("", Invalid, "", None), 0.0);
    if e.Receive? && t.kept != s.kept {
      var id := s.lookups[e.pid].id;
      x := Kept(id, Conclusion(id, e.response).payload, s.clock);
    }
  }

  lemma StoreMirrors(cache: Cache, kept: seq<Kept>, ttl: real, x: Kept, victim: string)
    requires MirrorsLog(cache, kept, ttl, x.at) && ttl > 0.0 && IsDefinite(x.payload)
    requires |cache| >= MAX_CACHE_ENTRIES ==> victim in cache
    ensures MirrorsLog(AfterStore(cache, x.id, x.payload, x.at, ttl, victim), kept + [x], ttl, x.at)
  {
    StoreKeepsHolding(cache, kept, x, ttl, victim);
  }

  lemma MirrorsStep(c: Config, s: State, e: Event, t: State)
    requires Mirrors(c, s) && Next(c, s, e, t)
    ensures Mirrors(c, t)
  {
    var x := CacheWrites(c, s, e, t);
    if t.kept != s.kept {
      StoreMirrors(s.cache, s.kept, c.ttl, x, e.victim);
    }
  }

  lemma {:induction false} MirrorsRun(c: Config, states: seq<State>, events: seq<Event>, n: nat)
    requires IsRun(c, states, events) && n <= |events|
    ensures Mirrors(c, states[n])
  {
    if n > 0 {
      MirrorsRun(c, states, events, n - 1);
      MirrorsStep(c, states[n - 1], events[n - 1], states[n]);
    }
  }

  /** In every reachable state the cache holds at most 512 entries and only definite answers, and
      a hit is the answer most recently kept for that id, not yet past its time to live. Evicting
      can turn a hit into a miss; it can never change what a hit says. */
  lemma HitIsTheLastKeptAnswer(c: Config, s: State, id: string, now: real)
    requires Reachable(c, s) && now >= s.clock
    ensures |s.cache| <= MAX_CACHE_ENTRIES
    ensures var hit := Hit(s.cache, id, now);
      hit.Some? ==>
        var i := LastKept(s.kept, id);
        i >= 0 && hit.value == s.kept[i].payload && IsDefinite(hit.value) && now <= s.kept[i].at + c.ttl
  {
    var states, events :| IsRun(c, states, events) && s == states[|events|];
    MirrorsRun(c, states, events, |events|);
  }

  // ----- how long an answer survives -----

  /** The other ids for which an answer was kept no earlier than the i-th answer. */
  ghost function Rivals(kept: seq<Kept>, i: nat): set<string>
    requires i < |kept|
  {
    set k | 0 <= k < |kept| && kept[k].id != kept[i].id && kept[k].at >= kept[i].at :: kept[k].id
  }

  /** Other ids an eviction takes: a full cache holds one id less besides the evicted one, and the
      answer that pushed it out may be for one of those. */
  const RIVALS_TO_EVICT: nat := MAX_CACHE_ENTRIES - 1

  /** An id whose last answer is still fresh is in the cache unless answers for 511 different other
      ids were kept at or after that time. */
  ghost predicate Survives(c: Config, s: State) {
    forall id :: id !in s.cache && LastKept(s.kept, id) >= 0
      && s.clock <= s.kept[LastKept(s.kept, id)].at + c.ttl
      ==> |Rivals(s.kept, LastKept(s.kept, id))| >= RIVALS_TO_EVICT
  }

  lemma RivalsGrow(kept: seq<Kept>, x: Kept, i: nat)
    requires i < |kept|
    ensures |Rivals(kept + [x], i)| >= |Rivals(kept, i)|
  {
    forall id | id in Rivals(kept, i) ensures id in Rivals(kept + [x], i) {
      var k :| 0 <= k < |kept| && kept[k].id != kept[i].id && kept[k].at >= kept[i].at && kept[k].id == id;
      assert (kept + [x])[k] == kept[k];
    }
    SubsetIsSmaller(Rivals(kept, i), Rivals(kept + [x], i));
  }

  lemma OlderIsRival(kept: seq<Kept>, cache: Cache, ttl: real, victim: string, id: string)
    requires Holds(cache, kept, ttl) && IsOldest(cache, victim) && id in cache && id != victim
    ensures LastKept(kept, victim) >= 0 && id in Rivals(kept, LastKept(kept, victim))
  {
    assert HoldsFor(cache[victim], kept, victim, ttl) && HoldsFor(cache[id], kept, id, ttl);
    assert kept[LastKept(kept, id)].id == id;
  }

  /** Whoever is evicted from a full cache has the other ids in it as rivals. */
  lemma EvictedHasRivals(kept: seq<Kept>, x: Kept, cache: Cache, ttl: real, victim: string)
    requires Holds(cache, kept, ttl) && |cache| >= MAX_CACHE_ENTRIES && IsOldest(cache, victim)
    ensures LastKept(kept, victim) >= 0
    ensures |Rivals(kept + [x], LastKept(kept, victim))| >= RIVALS_TO_EVICT
  {
    assert HoldsFor(cache[victim], kept, victim, ttl);
    var others := cache.Keys - {victim};
    assert |cache.Keys| == |cache| && cache.Keys == others + {victim};
    forall id | id in others ensures id in Rivals(kept, LastKept(kept, victim)) {
      OlderIsRival(kept, cache, ttl, victim, id);
    }
    SubsetIsSmaller(others, Rivals(kept, LastKept(kept, victim)));
    RivalsGrow(kept, x, LastKept(kept, victim));
  }

  /** Keeping an answer for an id a full cache already holds makes room all the same: an entry for
      another id is lost and the cache is one short. This is why 511 other ids are enough. */
  lemma StoringAgainEvicts(cache: Cache, id: string, payload: Payload, now: real, ttl: real, victim: string)
    requires id in cache && victim in cache && victim != id && ttl > 0.0
    ensures var after := AfterStore(cache, id, payload, now, ttl, victim);
      |cache| == MAX_CACHE_ENTRIES ==> victim !in after && |after| == MAX_CACHE_ENTRIES - 1
  {
    if |cache| != MAX_CACHE_ENTRIES { return; }
    var after := AfterStore(cache, id, payload, now, ttl, victim);
    assert after.Keys == cache.Keys - {victim};
    assert |after.Keys| == |after| && |cache.Keys| == |cache|;
  }

  lemma SurvivesStore(c: Config, s: State, t: State, x: Kept, victim: string)
    requires Mirrors(c, s) && Survives(c, s)
    requires |s.cache| >= MAX_CACHE_ENTRIES ==> IsOldest(s.cache, victim)
    requires c.ttl > 0.0 && x.at == s.clock == t.clock && t.kept == s.kept + [x]
    requires t.cache == AfterStore(s.cache, x.id, x.payload, s.clock, c.ttl, victim)
    ensures Survives(c, t)
  {
    forall id | id !in t.cache && LastKept(t.kept, id) >= 0
      && t.clock <= t.kept[LastKept(t.kept, id)].at + c.ttl
      ensures |Rivals(t.kept, LastKept(t.kept, id))| >= RIVALS_TO_EVICT
    {
      var i := LastKept(s.kept, id);
      if id in s.cache {
        EvictedHasRivals(s.kept, x, s.cache, c.ttl, victim);
      } else {
        RivalsGrow(s.kept, x, i);
      }
    }
  }

  lemma SurvivesStep(c: Config, s: State, e: Event, t: State)
    requires Mirrors(c, s) && Survives(c, s) && Next(c, s, e, t)
    ensures Survives(c, t)
  {
    var x := CacheWrites(c, s, e, t);
    if t.kept != s.kept {
      SurvivesStore(c, s, t, x, e.victim);
    }
  }

  lemma {:induction false} SurvivesRun(c: Config, states: seq<State>, events: seq<Event>, n: nat)
    requires IsRun(c, states, events) && n <= |events|
    ensures Survives(c, states[n])
  {
    if n > 0 {
      SurvivesRun(c, states, events, n - 1);
      MirrorsRun(c, states, events, n - 1);
      SurvivesStep(c, states[n - 1], events[n - 1], states[n]);
    }
  }

  /** No fresh answer is lost early: while the last answer for an id is within its time to live,
      a lookup hits unless answers for 511 different other ids have been kept since. */
  lemma FreshAnswersSurvive(c: Config, s: State, id: string)
    requires Reachable(c, s) && LastKept(s.kept, id) >= 0
    requires s.clock <= s.kept[LastKept(s.kept, id)].at + c.ttl
    requires |Rivals(s.kept, LastKept(s.kept, id))| < RIVALS_TO_EVICT
    ensures Hit(s.cache, id, s.clock) == Some(s.kept[LastKept(s.kept, id)].payload)
  {
    var states, events :| IsRun(c, states, events) && s == states[|events|];
    SurvivesRun(c, states, events, |events|);
    MirrorsRun(c, states, events, |events|);
  }
}
