/** CVE enrichment: a slot-based rate limiter and a bounded, expiring cache around one client.

    Each method is one section the source runs without giving up control, so the clock reading it
    takes is a parameter; how the sections interleave is the subject of `CveRuns`. Where two cache
    entries expire together, the source evicts the one its dictionary lists first; here it may be
    either, so what is proved holds for any choice.
 */
module CveLookup {
  import opened Wrappers
  import opened Text

  const MAX_CACHE_ENTRIES: nat := 512
  const RATE_LIMIT_RETRIES: nat := 1
  const RATE_LIMIT_DEFAULT_WAIT: real := 1.0
  const RATE_LIMIT_MAX_WAIT: real := 5.0
  const TOO_MANY_REQUESTS: int := 429

  datatype Status = Invalid | Unavailable | NotFound | Found
  datatype Payload = Payload(cveId: string, status: Status, summary: string, cvss: Option<real>)
  datatype CacheEntry = CacheEntry(payload: Payload, expiresAt: real)

  type Cache = map<string, CacheEntry>

  /** What a float parse can give: the header may spell infinity or a non-number. */
  datatype Float = Finite(r: real) | PlusInfinity | MinusInfinity | NaN

  /** A JSON value read as a score: numbers, booleans and numeric texts are numbers; a whole number
      beyond the range of a float is too big to convert; infinities and the rest are not numeric. */
  datatype Value = Number(r: real) | TooBig | NotNumeric

  /** The record of the numbering authority inside a body: an object, empty when it is absent, or
      some other value, null included. */
  datatype Authority = Object(description: string, scores: seq<Value>) | NotAnObject

  /** A reply's body: not JSON, nested past the decoder's recursion limit, not an object or empty,
      or a record with its own text ("" when it has none) and scores in the order they are read. */
  datatype Body =
    | NotJson
    | TooDeep
    | Empty
    | Record(text: string, scores: seq<Value>, authority: Authority)

  datatype Response =
    | Unreachable
    | Http(code: int, body: Body, retryAfter: Option<Float>)

  // ----- identifiers -----

  function UpperChar(c: char): char {
    if 'a' <= c <= 'z' then (c as int - 32) as char else c
  }

  function Normalized(raw: string): string {
    var s := Strip(raw);
    seq(|s|, k requires 0 <= k < |s| => UpperChar(s[k]))
  }

  predicate AllDigits(s: string) { forall k :: 0 <= k < |s| ==> IsDigit(s[k]) }

  predicate IsCveId(s: string) {
    && 13 <= |s| <= 16 && s[..4] == "CVE-" && AllDigits(s[4..8]) && s[8] == '-' && AllDigits(s[9..])
  }

  // ----- waiting -----

  /** How long to back off. A header that is not a number, or not positive, means the default;
      nothing waits longer than the maximum. Comparisons with a non-number are false. */
  function RetryAfterSeconds(header: Option<Float>): Float {
    match header
    case None => Finite(RATE_LIMIT_DEFAULT_WAIT)
    case Some(Finite(r)) =>
      if r <= 0.0 then Finite(RATE_LIMIT_DEFAULT_WAIT)
      else Finite(if r <= RATE_LIMIT_MAX_WAIT then r else RATE_LIMIT_MAX_WAIT)
    case Some(PlusInfinity) => Finite(RATE_LIMIT_MAX_WAIT)
    case Some(MinusInfinity) => Finite(RATE_LIMIT_DEFAULT_WAIT)
    case Some(NaN) => NaN
  }

  /** The back-off is a real wait of at most five seconds for every header but one: a header that
      parses as a non-number passes both comparisons and comes back as the wait. */
  lemma WaitIsBoundedExceptForNaN(header: Option<Float>)
    ensures RetryAfterSeconds(header).Finite? <==> header != Some(NaN)
    ensures RetryAfterSeconds(header).Finite? ==> 0.0 < RetryAfterSeconds(header).r <= RATE_LIMIT_MAX_WAIT
  {
  }

  function MaxReal(a: real, b: real): real { if a >= b then a else b }

  function SlotFor(now: real, nextSlotAt: real, interval: real): real {
    if interval <= 0.0 then now else MaxReal(now, nextSlotAt)
  }

  function NextSlot(now: real, nextSlotAt: real, interval: real): real {
    if interval <= 0.0 then nextSlotAt else SlotFor(now, nextSlotAt, interval) + interval
  }

  // ----- the cache -----

  predicate Expired(entry: CacheEntry, now: real) { entry.expiresAt < now }

  function Hit(cache: Cache, id: string, now: real): Option<Payload> {
    if id in cache && !Expired(cache[id], now) then Some(cache[id].payload) else None
  }

  function AfterRead(cache: Cache, id: string, now: real): Cache {
    if id in cache && Expired(cache[id], now) then cache - {id} else cache
  }

  ghost predicate IsOldest(cache: Cache, victim: string) {
    victim in cache && forall k :: k in cache ==> cache[victim].expiresAt <= cache[k].expiresAt
  }

  function Evicted(cache: Cache, victim: string): Cache {
    if |cache| >= MAX_CACHE_ENTRIES then cache - {victim} else cache
  }

  function AfterStore(cache: Cache, id: string, payload: Payload, now: real, ttl: real, victim: string):
    Cache
  {
    if ttl <= 0.0 then cache
    else Evicted(cache, victim)[id := CacheEntry(payload, now + ttl)]
  }

  // ----- answers -----

  predicate IsError(code: int) { 400 <= code <= 599 }

  predicate ShouldRetry(response: Response, attempt: nat) {
    response.Http? && response.code == TOO_MANY_REQUESTS && attempt < RATE_LIMIT_RETRIES
  }

  /** How a lookup ends: with a reply, or with an exception its caller sees. */
  datatype Ending = Replied(payload: Payload) | Raised

  datatype Reading = Overflow | NoScore | Score(r: real)

  predicate IsUsable(v: Value) { v.Number? && 0.0 < v.r <= 10.0 }

  /** To one decimal, ties to the even digit. */
  function RoundTenth(x: real): real {
    var n := (x * 10.0).Floor;
    var rest := x * 10.0 - n as real;
    (if rest < 0.5 || (rest == 0.5 && n % 2 == 0) then n else n + 1) as real / 10.0
  }

  /** The first usable score, unless a number too big to convert comes before it. */
  function FirstNumber(values: seq<Value>): (reading: Reading)
    ensures reading.Score? ==> 0.0 <= reading.r <= 10.0
  {
    if values == [] then NoScore
    else if values[0].TooBig? then Overflow
    else if IsUsable(values[0]) then Score(RoundTenth(values[0].r))
    else FirstNumber(values[1..])
  }

  function ValueOf(reading: Reading): Value {
    if reading.Score? then Number(reading.r) else NotNumeric
  }

  const MAX_SUMMARY: nat := 2000

  function SummaryOf(body: Body): string
    requires body.Record? && body.authority.Object?
  {
    var text := if body.text != "" then body.text else body.authority.description;
    if |text| <= MAX_SUMMARY then text else text[..MAX_SUMMARY]
  }

  /** A record's own scores come before the authority's, whose score is read first all the same. */
  function ReadingOf(body: Body): Reading
    requires body.Record? && body.authority.Object?
  {
    var inner := FirstNumber(body.authority.scores);
    if inner.Overflow? then Overflow else FirstNumber(body.scores + [ValueOf(inner)])
  }

  function Summarized(id: string, body: Body): Ending
    requires body.Record?
  {
    if body.authority.NotAnObject? || ReadingOf(body).Overflow? then Raised
    else
      var reading := ReadingOf(body);
      Replied(Payload(id, Found, SummaryOf(body), if reading.Score? then Some(reading.r) else None))
  }

  /** What a final response comes to. */
  function Conclusion(id: string, response: Response): Ending {
    if response.Unreachable? then Replied(Payload(id, Unavailable, "", None))
    else if response.code == 404 then Replied(Payload(id, NotFound, "", None))
    else if IsError(response.code) || response.body.NotJson? then Replied(Payload(id, Unavailable, "", None))
    else if response.body.TooDeep? then Raised
    else if response.body.Empty? then Replied(Payload(id, NotFound, "", None))
    else Summarized(id, response.body)
  }

  predicate IsDefinite(payload: Payload) { payload.status == Found || payload.status == NotFound }

  predicate IsKept(ending: Ending) { ending.Replied? && IsDefinite(ending.payload) }

  // ----- which bodies raise -----

  /** A number too big to convert is met before any usable score. */
  ghost predicate Overflows(values: seq<Value>) {
    exists i :: 0 <= i < |values| && values[i].TooBig? && forall j :: 0 <= j < i ==> !IsUsable(values[j])
  }

  lemma {:induction false} OverflowExactly(values: seq<Value>)
    ensures FirstNumber(values).Overflow? <==> Overflows(values)
  {
    if values == [] {
    } else if Stops(values[0]) {
      if values[0].TooBig? { assert Overflows(values); }
    } else {
      OverflowExactly(values[1..]);
      if i :| 0 <= i < |values[1..]| && values[1..][i].TooBig?
              && forall j :: 0 <= j < i ==> !IsUsable(values[1..][j]) {
        assert values[i + 1].TooBig?;
        forall j | 0 <= j < i + 1 ensures !IsUsable(values[j]) {
          assert j > 0 ==> !IsUsable(values[1..][j - 1]);
        }
      }
      if i :| 0 <= i < |values| && values[i].TooBig? && forall j :: 0 <= j < i ==> !IsUsable(values[j]) {
        assert values[1..][i - 1].TooBig?;
        forall j | 0 <= j < i - 1 ensures !IsUsable(values[1..][j]) {
          assert !IsUsable(values[j + 1]);
        }
      }
    }
  }

  predicate Stops(v: Value) { v.TooBig? || IsUsable(v) }

  lemma {:induction false} ScoreAfterScores(values: seq<Value>, last: Value)
    requires !last.TooBig?
    ensures FirstNumber(values + [last]).Overflow? <==> FirstNumber(values).Overflow?
  {
    if values != [] {
      assert (values + [last])[1..] == values[1..] + [last];
      ScoreAfterScores(values[1..], last);
    }
  }

  /** A body the summary cannot be made of: nested too deep, an authority that is not an object, or
      a score too big to convert where no usable one comes before it. */
  ghost predicate IsUnsummarisable(body: Body) {
    || body.TooDeep?
    || (body.Record? && (body.authority.NotAnObject? || Overflows(body.authority.scores) || Overflows(body.scores)))
  }

  /** A final response raises exactly when it is no error and carries such a body; every other one
      gives a reply. */
  lemma RaisesExactly(id: string, response: Response)
    ensures Conclusion(id, response).Raised?
      <==> response.Http? && !IsError(response.code) && IsUnsummarisable(response.body)
  {
    if response.Http? && response.body.Record? && response.body.authority.Object? {
      var body := response.body;
      OverflowExactly(body.authority.scores);
      OverflowExactly(body.scores);
      ScoreAfterScores(body.scores, ValueOf(FirstNumber(body.authority.scores)));
    }
  }

  // ----- the object -----

  lemma {:induction false} OldestExists(cache: Cache, keys: set<string>) returns (m: string)
    requires keys != {} && keys <= cache.Keys
    ensures m in keys && forall k :: k in keys ==> cache[m].expiresAt <= cache[k].expiresAt
    decreases |keys|
  {
    var k :| k in keys;
    var rest := keys - {k};
    if rest == {} {
      m := k;
      assert keys == {k};
    } else {
      var other := OldestExists(cache, rest);
      m := if cache[other].expiresAt <= cache[k].expiresAt then other else k;
      assert keys == rest + {k};
    }
  }

  /** The loop over the places a score may stand. */
  method ReadScore(values: seq<Value>) returns (reading: Reading)
    ensures reading == FirstNumber(values)
  {
    for i := 0 to |values|
      invariant FirstNumber(values) == FirstNumber(values[i..])
    {
      if values[i].TooBig? { return Overflow; }
      if IsUsable(values[i]) { return Score(RoundTenth(values[i].r)); }
      assert values[i..][1..] == values[i + 1..];
    }
    reading := NoScore;
  }

  method Summarize(id: string, body: Body) returns (ending: Ending)
    requires body.Record?
    ensures ending == Summarized(id, body)
  {
    if body.authority.NotAnObject? { return Raised; }
    var inner := ReadScore(body.authority.scores);
    if inner.Overflow? { return Raised; }
    var reading := ReadScore(body.scores + [ValueOf(inner)]);
    if reading.Overflow? { return Raised; }
    var cvss := if reading.Score? then Some(reading.r) else None;
    ending := Replied(Payload(id, Found, SummaryOf(body), cvss));
  }

  class CveLookup {
    const interval: real
    const ttl: real
    var nextSlotAt: real
    var cache: Cache

    constructor (requestInterval: real, ttl: real)
      ensures interval == MaxReal(requestInterval, 0.0) && this.ttl == ttl
      ensures nextSlotAt == 0.0 && cache == map[]
    {
      interval, this.ttl := MaxReal(requestInterval, 0.0), ttl;
      nextSlotAt, cache := 0.0, map[];
    }

    /** Claim the next outbound slot; the caller sleeps until it comes round. */
    method WaitForSlot(now: real) returns (startsAt: real)
      modifies this`nextSlotAt
      ensures startsAt == SlotFor(now, old(nextSlotAt), interval)
      ensures nextSlotAt == NextSlot(now, old(nextSlotAt), interval)
    {
      if interval <= 0.0 {
        return now;
      }
      startsAt := MaxReal(now, nextSlotAt);
      nextSlotAt := startsAt + interval;
    }

    method Cached(id: string, now: real) returns (hit: Option<Payload>)
      modifies this`cache
      ensures hit == Hit(old(cache), id, now)
      ensures cache == AfterRead(old(cache), id, now)
    {
      if id !in cache { return None; }
      if cache[id].expiresAt < now {
        cache := cache - {id};
        return None;
      }
      return Some(cache[id].payload);
    }

    /** Keep an answer, making room by evicting an entry closest to expiry. */
    method Store(id: string, payload: Payload, now: real) returns (ghost victim: string)
      modifies this`cache
      ensures ttl > 0.0 && |old(cache)| >= MAX_CACHE_ENTRIES ==> IsOldest(old(cache), victim)
      ensures cache == AfterStore(old(cache), id, payload, now, ttl, victim)
    {
      victim := "";
      if ttl <= 0.0 { return; }
      if |cache| >= MAX_CACHE_ENTRIES {
        assert cache.Keys != {} by { assert |cache.Keys| == |cache|; }
        ghost var m := OldestExists(cache, cache.Keys);
        var oldest :| oldest in cache && forall k :: k in cache ==> cache[oldest].expiresAt <= cache[k].expiresAt;
        victim := oldest;
        cache := cache - {oldest};
      }
      cache := cache[id := CacheEntry(payload, now + ttl)];
    }

    /** The part of a lookup after its last response: only a definite answer is kept. */
    method Conclude(id: string, response: Response, now: real) returns (ending: Ending, ghost victim: string)
      modifies this`cache
      ensures ending == Conclusion(id, response)
      ensures IsKept(ending) && ttl > 0.0 && |old(cache)| >= MAX_CACHE_ENTRIES ==> IsOldest(old(cache), victim)
      ensures cache == if IsKept(ending) then AfterStore(old(cache), id, ending.payload, now, ttl, victim)
                       else old(cache)
    {
      victim := "";
      ending := Replied(Payload(id, Unavailable, "", None));
      if response.Unreachable? { return; }
      if response.code == 404 {
        ending := Replied(Payload(id, NotFound, "", None));
        victim := Store(id, ending.payload, now);
        return;
      }
      if IsError(response.code) { return; }
      if response.body.NotJson? { return; }
      if response.body.TooDeep? { return Raised, ""; }
      if response.body.Empty? {
        ending := Replied(Payload(id, NotFound, "", None));
      } else {
        ending := Summarize(id, response.body);
        if ending.Raised? { return; }
      }
      victim := Store(id, ending.payload, now);
    }
  }
}
