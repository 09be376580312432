/** The per-principal token bucket of the API (api_security.py): a lazily refilled bucket per
    (principal, scope), kept in a map that forgets its least recently used keys.

    Tokens and clock readings are reals. `now` is the clock reading of a request; the source
    reads it before it takes the lock, so nothing here orders the readings of successive
    requests unless a lemma says so. */
module RateLimiter {
  import opened Prelude

  type Key = (string, string)  // (principal, scope)

  const API_SCOPES: set<string> := {"predictions.read", "operations.read", "metrics.read", "replay.execute"}

  datatype Bucket = Bucket(tokens: real, updatedAt: real)

  datatype Outcome = Accepted | Rejected(retryAfter: int)

  /** The bucket map, with its keys from least to most recently used. */
  datatype State = State(buckets: map<Key, Bucket>, order: seq<Key>)

  datatype Config = Config(limits: map<string, nat>, maximumPrincipals: nat) {
    ghost predicate Valid() {
      && maximumPrincipals >= 1
      && limits.Keys == API_SCOPES
      && forall s :: s in limits ==> limits[s] >= 1
    }

    function Limit(): nat {
      maximumPrincipals * |API_SCOPES|
    }
  }

  datatype Request = Request(key: Key, now: real)

  const EMPTY := State(map[], [])

  function Rate(capacity: nat): real {
    capacity as real / 60.0
  }

  // ----- one bucket -----

  /** The tokens a bucket holds once it is brought up to date. */
  function Refill(capacity: nat, b: Bucket, now: real): real {
    RealMin(capacity as real, b.tokens + RealMax(0.0, now - b.updatedAt) * Rate(capacity))
  }

  /** Python's `int` truncates; its argument is positive here, so truncation is the floor. */
  function RetryAfter(capacity: nat, tokens: real): int
    requires capacity >= 1
  {
    var whole := ((1.0 - tokens) / Rate(capacity)).Floor + 1;
    if whole >= 1 then whole else 1
  }

  /** What one attempt does to its own bucket. */
  function Touch(capacity: nat, bucket: Option<Bucket>, now: real): (Outcome, Bucket)
    requires capacity >= 1
  {
    var tokens := match bucket
      case None => capacity as real
      case Some(b) => Refill(capacity, b, now);
    if tokens < 1.0
    then (Rejected(RetryAfter(capacity, tokens)), Bucket(tokens, now))
    else (Accepted, Bucket(tokens - 1.0, now))
  }

  // ----- the bucket map -----

  function Lookup(s: State, key: Key): Option<Bucket> {
    if key in s.buckets then Some(s.buckets[key]) else None
  }

  function WithoutKey(order: seq<Key>, key: Key): (r: seq<Key>)
    ensures forall k :: k in r <==> k in order && k != key
    ensures |r| <= |order|
    ensures NoDuplicates(order) ==> NoDuplicates(r)
  {
    if order == [] then []
    else if order[0] == key then WithoutKey(order[1..], key)
    else
      var r := WithoutKey(order[1..], key);
      assert NoDuplicates(order) ==> NoDuplicates(order[1..]) && order[0] !in order[1..];
      [order[0]] + r
  }

  /** The source's pop followed by reinsertion: the key becomes the most recently used one. */
  function Put(s: State, key: Key, b: Bucket): State {
    State(s.buckets[key := b], WithoutKey(s.order, key) + [key])
  }

  function Evict(s: State, limit: nat): State
    decreases |s.order|
  {
    if |s.order| > limit then Evict(State(s.buckets - {s.order[0]}, s.order[1..]), limit) else s
  }

  function AcquireStep(c: Config, s: State, r: Request): (Outcome, State)
    requires c.Valid() && r.key.1 in c.limits
  {
    var (outcome, bucket) := Touch(c.limits[r.key.1], Lookup(s, r.key), r.now);
    var put := Put(s, r.key, bucket);
    (outcome, if outcome.Accepted? then Evict(put, c.Limit()) else put)
  }

  ghost predicate BucketOk(c: Config, key: Key, b: Bucket) {
    key.1 in c.limits && 0.0 <= b.tokens <= c.limits[key.1] as real
  }

  ghost predicate Valid(c: Config, s: State) {
    && NoDuplicates(s.order)
    && (forall k :: k in s.order <==> k in s.buckets)
    && |s.order| <= c.Limit()
    && forall k :: k in s.buckets ==> BucketOk(c, k, s.buckets[k])
  }

  lemma OrderIsTheMap(c: Config, s: State)
    requires Valid(c, s)
    ensures |s.order| == |s.buckets|
  {
    DistinctCardinality(s.order);
    assert (set k | k in s.order) == s.buckets.Keys;
  }

  lemma WithoutKeyShrinks(order: seq<Key>, key: Key)
    requires NoDuplicates(order) && key in order
    ensures |WithoutKey(order, key)| == |order| - 1
  {
    var r := WithoutKey(order, key);
    DistinctCardinality(order);
    DistinctCardinality(r);
    assert (set k | k in r) == (set k | k in order) - {key};
  }

  lemma TouchKeepsBucket(capacity: nat, bucket: Option<Bucket>, now: real)
    requires capacity >= 1
    requires bucket.Some? ==> 0.0 <= bucket.value.tokens <= capacity as real
    ensures 0.0 <= Touch(capacity, bucket, now).1.tokens <= capacity as real
    ensures bucket.None? ==> Touch(capacity, bucket, now).0.Accepted?
  {
    if bucket.Some? {
      var gain := RealMax(0.0, now - bucket.value.updatedAt);
      assert gain * Rate(capacity) >= 0.0;
    }
  }

  lemma PutEffect(s: State, key: Key, b: Bucket)
    requires NoDuplicates(s.order) && forall k :: k in s.order <==> k in s.buckets
    ensures NoDuplicates(Put(s, key, b).order)
    ensures forall k :: k in Put(s, key, b).order <==> k in Put(s, key, b).buckets
    ensures |Put(s, key, b).order| == if key in s.buckets then |s.order| else |s.order| + 1
  {
    var w := WithoutKey(s.order, key);
    assert key !in w;
    if key in s.order {
      WithoutKeyShrinks(s.order, key);
    } else {
      AbsentKeyRemovesNothing(s.order, key);
    }
  }

  lemma {:induction false} AbsentKeyRemovesNothing(order: seq<Key>, key: Key)
    requires key !in order
    ensures WithoutKey(order, key) == order
  {
    if order != [] {
      AbsentKeyRemovesNothing(order[1..], key);
      assert order == [order[0]] + order[1..];
    }
  }

  lemma DropOldest(s: State)
    requires NoDuplicates(s.order) && s.order != [] && forall k :: k in s.order <==> k in s.buckets
    ensures
      var t := State(s.buckets - {s.order[0]}, s.order[1..]);
      NoDuplicates(t.order) && forall k :: k in t.order <==> k in t.buckets
  {
    var t := State(s.buckets - {s.order[0]}, s.order[1..]);
    forall k ensures k in t.order <==> k in t.buckets {
      assert s.order == [s.order[0]] + t.order;
      assert k in s.order <==> k == s.order[0] || k in t.order;
      assert s.order[0] !in t.order;
    }
  }

  lemma EvictEffect(s: State, limit: nat)
    requires |s.order| <= limit + 1
    ensures Evict(s, limit) == if |s.order| > limit then State(s.buckets - {s.order[0]}, s.order[1..]) else s
  {}

  lemma StepIs(c: Config, s: State, r: Request)
    requires c.Valid() && Valid(c, s) && r.key.1 in c.limits
    ensures
      var (outcome, bucket) := Touch(c.limits[r.key.1], Lookup(s, r.key), r.now);
      var (o, t) := AcquireStep(c, s, r);
      var put := Put(s, r.key, bucket);
      && o == outcome
      && (if |put.order| > c.Limit() then
            |put.order| == c.Limit() + 1 && t == State(put.buckets - {put.order[0]}, put.order[1..])
          else t == put)
  {
    hide Touch, Refill, Evict, WithoutKey, Config.Limit, NoDuplicates;
    var (outcome, bucket) := Touch(c.limits[r.key.1], Lookup(s, r.key), r.now);
    var put := Put(s, r.key, bucket);
    PutEffect(s, r.key, bucket);
    if r.key !in s.buckets {
      TouchKeepsBucket(c.limits[r.key.1], None, r.now);
    }
    EvictEffect(put, c.Limit());
  }

  /** The state after one attempt: the touched bucket is in place as the most recently used one,
      at most the least recently used key is gone, and every other bucket is as before. */
  lemma AcquireEffect(c: Config, s: State, r: Request)
    requires c.Valid() && Valid(c, s) && r.key.1 in c.limits
    ensures Valid(c, AcquireStep(c, s, r).1)
    ensures
      var (outcome, bucket) := Touch(c.limits[r.key.1], Lookup(s, r.key), r.now);
      var (o, t) := AcquireStep(c, s, r);
      var put := Put(s, r.key, bucket);
      && o == outcome
      && r.key in t.buckets && t.buckets[r.key] == bucket
      && t.order != [] && t.order[|t.order| - 1] == r.key
      && (t == put || (|put.order| == c.Limit() + 1 && t == State(put.buckets - {put.order[0]}, put.order[1..])))
      && (forall k :: k in t.buckets && k != r.key ==> k in s.buckets && t.buckets[k] == s.buckets[k])
  {
    hide Touch, Refill, Evict, WithoutKey, Config.Limit, NoDuplicates, AcquireStep;
    var capacity := c.limits[r.key.1];
    var (outcome, bucket) := Touch(capacity, Lookup(s, r.key), r.now);
    assert r.key in s.buckets ==> BucketOk(c, r.key, s.buckets[r.key]);
    TouchKeepsBucket(capacity, Lookup(s, r.key), r.now);
    var put := Put(s, r.key, bucket);
    PutEffect(s, r.key, bucket);
    assert c.Limit() >= 1 by { LimitPositive(c); }
    StepIs(c, s, r);
    if |put.order| > c.Limit() {
      DropOldest(put);
      assert put.order[0] != r.key;
    }
    forall k | k in s.buckets ensures BucketOk(c, k, s.buckets[k]) {}
  }

  lemma LimitPositive(c: Config)
    requires c.Valid()
    ensures c.Limit() == c.maximumPrincipals * 4 >= 1
  {
    assert |API_SCOPES| == 4;
  }

  // ----- runs -----

  ghost predicate Known(c: Config, reqs: seq<Request>) {
    forall i :: 0 <= i < |reqs| ==> reqs[i].key.1 in c.limits
  }

  /** Clock readings that do not run backwards in the order in which the lock is taken. */
  ghost predicate NonDecreasing(reqs: seq<Request>) {
    forall i, j :: 0 <= i <= j < |reqs| ==> reqs[i].now <= reqs[j].now
  }

  function Run(c: Config, s: State, reqs: seq<Request>): State
    requires c.Valid() && Known(c, reqs)
    decreases |reqs|
  {
    if reqs == [] then s else Run(c, AcquireStep(c, s, reqs[0]).1, reqs[1..])
  }

  /** How many attempts on `key` the run accepts. */
  function AcceptedCount(c: Config, s: State, reqs: seq<Request>, key: Key): nat
    requires c.Valid() && Known(c, reqs)
    decreases |reqs|
  {
    if reqs == [] then 0
    else
      var (o, t) := AcquireStep(c, s, reqs[0]);
      (if o.Accepted? && reqs[0].key == key then 1 else 0) + AcceptedCount(c, t, reqs[1..], key)
  }

  /** How often the run forgets a bucket it held for `key`. */
  function Evictions(c: Config, s: State, reqs: seq<Request>, key: Key): nat
    requires c.Valid() && Known(c, reqs)
    decreases |reqs|
  {
    if reqs == [] then 0
    else
      var t := AcquireStep(c, s, reqs[0]).1;
      (if key in s.buckets && key !in t.buckets then 1 else 0) + Evictions(c, t, reqs[1..], key)
  }

  lemma {:induction false} RunKeepsValid(c: Config, s: State, reqs: seq<Request>)
    requires c.Valid() && Known(c, reqs) && Valid(c, s)
    ensures Valid(c, Run(c, s, reqs))
    ensures |Run(c, s, reqs).buckets| <= c.maximumPrincipals * 4
    decreases |reqs|
  {
    if reqs == [] {
      OrderIsTheMap(c, s);
      LimitPositive(c);
    } else {
      AcquireEffect(c, s, reqs[0]);
      RunKeepsValid(c, AcquireStep(c, s, reqs[0]).1, reqs[1..]);
    }
  }

  lemma EmptyIsValid(c: Config)
    requires c.Valid()
    ensures Valid(c, EMPTY)
  {
    LimitPositive(c);
  }

  /** From the empty map, every run keeps 0 <= tokens <= capacity and at most four buckets per allowed principal. */
  lemma ReachableIsBounded(c: Config, reqs: seq<Request>)
    requires c.Valid() && Known(c, reqs)
    ensures Valid(c, Run(c, EMPTY, reqs))
    ensures |Run(c, EMPTY, reqs).buckets| <= c.maximumPrincipals * 4
    ensures forall k :: k in Run(c, EMPTY, reqs).buckets ==>
      k.1 in c.limits && 0.0 <= Run(c, EMPTY, reqs).buckets[k].tokens <= c.limits[k.1] as real
  {
    EmptyIsValid(c);
    RunKeepsValid(c, EMPTY, reqs);
    var t := Run(c, EMPTY, reqs);
    forall k | k in t.buckets
      ensures k.1 in c.limits && 0.0 <= t.buckets[k].tokens <= c.limits[k.1] as real
    {
      assert BucketOk(c, k, t.buckets[k]);
    }
  }

  /** The tokens `key` could spend at `now`; a forgotten key counts as full. */
  ghost function Level(c: Config, s: State, key: Key, now: real): real
    requires key.1 in c.limits
  {
    if key in s.buckets then Refill(c.limits[key.1], s.buckets[key], now) else c.limits[key.1] as real
  }

  lemma Distribute(a: real, b: real, r: real)
    ensures (a + b) * r == a * r + b * r
  {}

  lemma Earns(capacity: nat, seconds: real)
    requires seconds >= 0.0
    ensures seconds * Rate(capacity) >= 0.0
  {}

  lemma RefillBounds(capacity: nat, b: Bucket, now: real)
    requires 0.0 <= b.tokens <= capacity as real
    ensures 0.0 <= Refill(capacity, b, now) <= capacity as real
    ensures b.updatedAt == now ==> Refill(capacity, b, now) == b.tokens
  {
    Earns(capacity, RealMax(0.0, now - b.updatedAt));
  }

  ghost function Earned(capacity: nat, seconds: real): real {
    seconds * Rate(capacity)
  }

  /** How far the clock moves forward from one reading to another. */
  ghost function Gain(first: real, next: real): real {
    RealMax(0.0, next - first)
  }

  /** How far the clock moves forward, summed over the successive readings of a run. */
  ghost function Forward(reqs: seq<Request>): real
    decreases |reqs|
  {
    if |reqs| <= 1 then 0.0 else Gain(reqs[0].now, reqs[1].now) + Forward(reqs[1..])
  }

  /** With ordered readings that is the time from the first to the last. */
  lemma {:induction false} OrderedForward(reqs: seq<Request>)
    requires reqs != [] && NonDecreasing(reqs)
    ensures Forward(reqs) == reqs[|reqs| - 1].now - reqs[0].now
    decreases |reqs|
  {
    if |reqs| > 1 {
      OrderedForward(reqs[1..]);
    }
  }

  ghost function Forgiven(capacity: nat, evictions: nat): real {
    evictions as real * capacity as real
  }

  lemma EarnedInTwo(capacity: nat, a: real, b: real)
    ensures Earned(capacity, a + b) == Earned(capacity, a) + Earned(capacity, b)
    ensures a >= 0.0 ==> Earned(capacity, a) >= 0.0
    ensures Earned(capacity, 0.0) == 0.0
  {
    Distribute(a, b, Rate(capacity));
    if a >= 0.0 {
      Earns(capacity, a);
    }
  }

  lemma ForgivenInTwo(capacity: nat, m: nat, n: nat)
    ensures Forgiven(capacity, m + n) == Forgiven(capacity, m) + Forgiven(capacity, n)
    ensures Forgiven(capacity, 0) == 0.0 && Forgiven(capacity, 1) == capacity as real
  {
    Distribute(m as real, n as real, capacity as real);
  }

  lemma RefillLater(capacity: nat, b: Bucket, now: real, next: real)
    ensures Refill(capacity, b, next) <= Refill(capacity, b, now) + Earned(capacity, Gain(now, next))
  {
    var (before, after, gain) := (RealMax(0.0, now - b.updatedAt), RealMax(0.0, next - b.updatedAt), Gain(now, next));
    assert after <= before + gain;
    Distribute(before, gain, Rate(capacity));
    Distribute(after, before + gain - after, Rate(capacity));
    Earns(capacity, gain);
    Earns(capacity, before + gain - after);
  }

  lemma TouchSpends(capacity: nat, bucket: Option<Bucket>, now: real)
    requires capacity >= 1
    requires bucket.Some? ==> 0.0 <= bucket.value.tokens <= capacity as real
    ensures
      var (o, after) := Touch(capacity, bucket, now);
      var available := if bucket.Some? then Refill(capacity, bucket.value, now) else capacity as real;
      && after == Bucket(available - (if o.Accepted? then 1.0 else 0.0), now)
      && 0.0 <= after.tokens <= capacity as real
  {
    if bucket.Some? {
      RefillBounds(capacity, bucket.value, now);
    }
  }

  lemma TouchedLevel(capacity: nat, bucket: Option<Bucket>, now: real, next: real)
    requires capacity >= 1
    requires bucket.Some? ==> 0.0 <= bucket.value.tokens <= capacity as real
    ensures
      var (o, after) := Touch(capacity, bucket, now);
      var available := if bucket.Some? then Refill(capacity, bucket.value, now) else capacity as real;
      0.0 <= Refill(capacity, after, next)
        <= available + Earned(capacity, Gain(now, next)) - (if o.Accepted? then 1.0 else 0.0)
  {
    hide Refill, Earned, Touch;
    TouchSpends(capacity, bucket, now);
    var after := Touch(capacity, bucket, now).1;
    RefillBounds(capacity, after, now);
    RefillBounds(capacity, after, next);
    RefillLater(capacity, after, now, next);
  }

  /** Over one request and the pause after it, the level rises by no more than the forward motion of
      the clock earns, plus a full bucket when the key is forgotten. */
  lemma LevelAfterOne(c: Config, s: State, r: Request, key: Key, next: real)
    requires c.Valid() && Valid(c, s) && r.key.1 in c.limits && key.1 in c.limits
    ensures
      var (o, t) := AcquireStep(c, s, r);
      var capacity := c.limits[key.1];
      && 0.0 <= Level(c, t, key, next)
      && Level(c, t, key, next) <= Level(c, s, key, r.now) + Earned(capacity, Gain(r.now, next))
           - (if o.Accepted? && r.key == key then 1.0 else 0.0)
           + (if key in s.buckets && key !in t.buckets then capacity as real else 0.0)
  {
    hide Refill, Touch, Rate, AcquireStep, Earned, Put, Config.Limit, NoDuplicates;
    AcquireEffect(c, s, r);
    var t := AcquireStep(c, s, r).1;
    var capacity := c.limits[key.1];
    EarnedInTwo(capacity, Gain(r.now, next), 0.0);
    if key in s.buckets {
      assert BucketOk(c, key, s.buckets[key]);
      RefillBounds(capacity, s.buckets[key], r.now);
    }
    if key == r.key {
      TouchedLevel(capacity, Lookup(s, key), r.now, next);
    } else if key in t.buckets {
      RefillBounds(capacity, s.buckets[key], next);
      RefillLater(capacity, s.buckets[key], r.now, next);
    }
  }

  lemma {:induction false} AcceptedAtMostLevel(c: Config, s: State, reqs: seq<Request>, key: Key)
    requires c.Valid() && Known(c, reqs) && Valid(c, s) && key.1 in c.limits
    requires reqs != []
    ensures
      AcceptedCount(c, s, reqs, key) as real
        <= Level(c, s, key, reqs[0].now)
           + Earned(c.limits[key.1], Forward(reqs))
           + Forgiven(c.limits[key.1], Evictions(c, s, reqs, key))
    decreases |reqs|
  {
    hide Refill, Touch, Rate, AcquireStep, Forgiven, Level, Earned, Put, Config.Limit, NoDuplicates;
    var r := reqs[0];
    var (o, t) := AcquireStep(c, s, r);
    var capacity := c.limits[key.1];
    var rest := reqs[1..];
    AcquireEffect(c, s, r);
    var accepted := if o.Accepted? && r.key == key then 1 else 0;
    var evicted := if key in s.buckets && key !in t.buckets then 1 else 0;
    assert AcceptedCount(c, s, reqs, key) == accepted + AcceptedCount(c, t, rest, key);
    assert Evictions(c, s, reqs, key) == evicted + Evictions(c, t, rest, key);
    ForgivenInTwo(capacity, evicted, Evictions(c, t, rest, key));
    if rest == [] {
      LevelAfterOne(c, s, r, key, r.now);
      EarnedInTwo(capacity, 0.0, 0.0);
    } else {
      LevelAfterOne(c, s, r, key, rest[0].now);
      AcceptedAtMostLevel(c, t, rest, key);
      EarnedInTwo(capacity, Gain(r.now, rest[0].now), Forward(rest));
    }
  }

  lemma SpanBound(c: Config, before: seq<Request>, span: seq<Request>, key: Key)
    requires c.Valid() && Known(c, before) && Known(c, span) && key.1 in c.limits && span != []
    ensures
      var s := Run(c, EMPTY, before);
      AcceptedCount(c, s, span, key) as real
        <= c.limits[key.1] as real + Earned(c.limits[key.1], Forward(span))
           + Forgiven(c.limits[key.1], Evictions(c, s, span, key))
  {
    hide Refill, Touch, Rate, AcquireStep, Forgiven, Earned, Forward, Run, AcceptedCount, Evictions, Put, Config.Limit;
    var s := Run(c, EMPTY, before);
    EmptyIsValid(c);
    RunKeepsValid(c, EMPTY, before);
    AcceptedAtMostLevel(c, s, span, key);
    if key in s.buckets {
      assert BucketOk(c, key, s.buckets[key]);
      RefillBounds(c.limits[key.1], s.buckets[key], span[0].now);
    }
  }

  /** What holds of every run, with the readings in any order: the requests of one key accepted
      within `span` number at most capacity + F * capacity / 60, where F is how far the clock moves
      forward within the span, plus one capacity for each time the key was forgotten within it. */
  lemma {:induction false} AcceptedByForwardMotion(c: Config, before: seq<Request>, span: seq<Request>, key: Key)
    requires c.Valid() && Known(c, before) && Known(c, span) && key.1 in c.limits && span != []
    ensures
      var s := Run(c, EMPTY, before);
      var capacity := c.limits[key.1] as real;
      && AcceptedCount(c, s, span, key) as real
           <= capacity + Forward(span) * capacity / 60.0 + Evictions(c, s, span, key) as real * capacity
      && (Evictions(c, s, span, key) == 0 ==>
            AcceptedCount(c, s, span, key) as real <= capacity + Forward(span) * capacity / 60.0)
  {
    hide *;
    SpanBound(c, before, span, key);
    SpanArithmetic(c.limits[key.1], Forward(span), Evictions(c, Run(c, EMPTY, before), span, key));
  }

  /** The rate guarantee. When the readings within `span` do not run backwards, and whatever came
      before, the requests of one key accepted within it number at most capacity + T * capacity / 60,
      where T is the time it covers, plus one capacity for each time the key was forgotten. */
  lemma {:induction false} AcceptedWithinAnySpan(c: Config, before: seq<Request>, span: seq<Request>, key: Key)
    requires c.Valid() && Known(c, before) && Known(c, span) && key.1 in c.limits
    requires span != [] && NonDecreasing(span)
    ensures
      var s := Run(c, EMPTY, before);
      var capacity := c.limits[key.1] as real;
      var seconds := span[|span| - 1].now - span[0].now;
      && AcceptedCount(c, s, span, key) as real
           <= capacity + seconds * capacity / 60.0 + Evictions(c, s, span, key) as real * capacity
      && (Evictions(c, s, span, key) == 0 ==>
            AcceptedCount(c, s, span, key) as real <= capacity + seconds * capacity / 60.0)
  {
    hide *;
    OrderedForward(span);
    AcceptedByForwardMotion(c, before, span, key);
  }

  lemma SpanArithmetic(capacity: nat, seconds: real, evictions: nat)
    ensures Earned(capacity, seconds) == seconds * capacity as real / 60.0
    ensures Forgiven(capacity, evictions) == evictions as real * capacity as real
    ensures evictions == 0 ==> Forgiven(capacity, evictions) == 0.0
  {}

  // ----- the bound is attained -----

  ghost predicate OnlyKey(reqs: seq<Request>, key: Key) {
    forall i :: 0 <= i < |reqs| ==> reqs[i].key == key
  }

  /** No refill between two successive attempts would run over the capacity. */
  ghost predicate CapNeverBinds(capacity: nat, bucket: Option<Bucket>, reqs: seq<Request>)
    requires capacity >= 1
    decreases |reqs|
  {
    |reqs| >= 2 ==>
      var after := Touch(capacity, bucket, reqs[0].now).1;
      && after.tokens + Earned(capacity, Gain(reqs[0].now, reqs[1].now)) <= capacity as real
      && CapNeverBinds(capacity, Some(after), reqs[1..])
  }

  lemma RefillIs(capacity: nat, b: Bucket, now: real)
    ensures Refill(capacity, b, now) == RealMin(capacity as real, b.tokens + Earned(capacity, Gain(b.updatedAt, now)))
  {}

  /** The books of one key: what a run of its attempts accepts, and what it leaves in the bucket, never
      exceed what was there and what the forward motion of the clock earns; and they are equal if and
      only if the cap never binds on the way. */
  lemma {:induction false} ExactAccount(c: Config, s: State, reqs: seq<Request>, key: Key)
    requires c.Valid() && Known(c, reqs) && Valid(c, s) && key.1 in c.limits
    requires reqs != [] && OnlyKey(reqs, key)
    ensures key in Run(c, s, reqs).buckets
    ensures
      var capacity := c.limits[key.1];
      var spentAndLeft := AcceptedCount(c, s, reqs, key) as real + Run(c, s, reqs).buckets[key].tokens;
      var earned := Level(c, s, key, reqs[0].now) + Earned(capacity, Forward(reqs));
      spentAndLeft <= earned && (spentAndLeft == earned <==> CapNeverBinds(capacity, Lookup(s, key), reqs))
    decreases |reqs|
  {
    hide Refill, Touch, Rate, AcquireStep, Earned, Gain, Put, Config.Limit, NoDuplicates;
    var (r, rest, capacity) := (reqs[0], reqs[1..], c.limits[key.1]);
    var (o, t) := AcquireStep(c, s, r);
    AcquireEffect(c, s, r);
    if key in s.buckets {
      assert BucketOk(c, key, s.buckets[key]);
    }
    TouchSpends(capacity, Lookup(s, key), r.now);
    if rest == [] {
      EarnedInTwo(capacity, 0.0, 0.0);
      assert Run(c, t, rest) == t;
      assert AcceptedCount(c, t, rest, key) == 0;
    } else {
      ExactAccount(c, t, rest, key);
      RefillIs(capacity, t.buckets[key], rest[0].now);
      EarnedInTwo(capacity, Gain(r.now, rest[0].now), Forward(rest));
    }
  }

  /** The forward-motion bound is attained, for readings in any order: whenever a fresh key's attempts
      never run into the cap and use up what they can, the number accepted is the bound, rounded down. */
  lemma {:induction false} ForwardBoundIsAttained(c: Config, before: seq<Request>, span: seq<Request>, key: Key)
    requires c.Valid() && Known(c, before) && Known(c, span) && key.1 in c.limits
    requires span != [] && OnlyKey(span, key) && key !in Run(c, EMPTY, before).buckets
    requires CapNeverBinds(c.limits[key.1], None, span)
    requires key in Run(c, Run(c, EMPTY, before), span).buckets && Run(c, Run(c, EMPTY, before), span).buckets[key].tokens < 1.0
    ensures
      var capacity := c.limits[key.1] as real;
      var bound := capacity + Forward(span) * capacity / 60.0;
      AcceptedCount(c, Run(c, EMPTY, before), span, key) == bound.Floor
  {
    hide *;
    var s := Run(c, EMPTY, before);
    EmptyIsValid(c);
    RunKeepsValid(c, EMPTY, before);
    ExactAccount(c, s, span, key);
    FreshLevel(c, s, key, span[0].now);
    SpanArithmetic(c.limits[key.1], Forward(span), 0);
    RunKeepsValid(c, s, span);
    TokensInRange(c, Run(c, s, span), key);
    WithinOne(AcceptedCount(c, s, span, key), Run(c, s, span).buckets[key].tokens);
  }

  lemma FreshLevel(c: Config, s: State, key: Key, now: real)
    requires key.1 in c.limits && key !in s.buckets
    ensures Level(c, s, key, now) == c.limits[key.1] as real && Lookup(s, key) == None
  {}

  lemma TokensInRange(c: Config, s: State, key: Key)
    requires Valid(c, s) && key in s.buckets
    ensures key.1 in c.limits && 0.0 <= s.buckets[key].tokens <= c.limits[key.1] as real
  {
    assert BucketOk(c, key, s.buckets[key]);
  }

  lemma WithinOne(n: nat, part: real)
    requires 0.0 <= part < 1.0
    ensures (n as real + part).Floor == n
  {}

  /** Steps short enough: with a capacity of two or more, a clock that never moves forward by more than
      one token's time between attempts keeps the cap from binding. */
  lemma {:induction false} ShortStepsNeverBind(capacity: nat, bucket: Option<Bucket>, reqs: seq<Request>)
    requires capacity >= 2
    requires bucket.Some? ==> 0.0 <= bucket.value.tokens <= capacity as real
    requires forall i :: 0 <= i < |reqs| - 1 ==> Earned(capacity, Gain(reqs[i].now, reqs[i + 1].now)) <= 1.0
    ensures CapNeverBinds(capacity, bucket, reqs)
    decreases |reqs|
  {
    hide Refill, Rate, Earned, Gain;
    if |reqs| >= 2 {
      TouchSpends(capacity, bucket, reqs[0].now);
      if bucket.Some? {
        RefillBounds(capacity, bucket.value, reqs[0].now);
      }
      var rest := reqs[1..];
      assert Earned(capacity, Gain(reqs[0].now, reqs[0 + 1].now)) <= 1.0;
      forall i | 0 <= i < |rest| - 1 ensures Earned(capacity, Gain(rest[i].now, rest[i + 1].now)) <= 1.0 {
        assert rest[i] == reqs[i + 1] && rest[i + 1] == reqs[i + 1 + 1];
      }
      ShortStepsNeverBind(capacity, Some(Touch(capacity, bucket, reqs[0].now).1), rest);
    }
  }

  const ONE_PER_MINUTE := Config(map s | s in API_SCOPES :: 1, 1)

  lemma OneAttempt(s: State, r: Request, o: Outcome, b: Bucket)
    requires r.key == ("p", "metrics.read")
    requires s == EMPTY || (r.key in s.buckets && s == State(map[r.key := s.buckets[r.key]], [r.key]))
    requires Touch(1, Lookup(s, r.key), r.now) == (o, b)
    ensures ONE_PER_MINUTE.Valid()
    ensures AcquireStep(ONE_PER_MINUTE, s, r) == (o, State(map[r.key := b], [r.key]))
  {
    hide Touch;
    LimitPositive(ONE_PER_MINUTE);
    assert WithoutKey([], r.key) == [];
    assert WithoutKey([r.key], r.key) == WithoutKey([], r.key);
    assert Put(s, r.key, b) == State(map[r.key := b], [r.key]);
  }

  lemma TouchBackAndForth()
    ensures Touch(1, None, 100.0) == (Accepted, Bucket(0.0, 100.0))
    ensures Touch(1, Some(Bucket(0.0, 100.0)), 40.0).0.Rejected?
    ensures Touch(1, Some(Bucket(0.0, 100.0)), 40.0).1 == Bucket(0.0, 40.0)
    ensures Touch(1, Some(Bucket(0.0, 40.0)), 100.0) == (Accepted, Bucket(0.0, 100.0))
  {
    assert Refill(1, Bucket(0.0, 40.0), 100.0) == 1.0;
  }

  /** Without ordered clock readings the guarantee is false: a reading that goes back by a minute
      overwrites `updated_at`, and the same minute is earned again. */
  lemma ReorderedReadingsBreakTheRate()
    ensures ONE_PER_MINUTE.Valid()
    ensures
      var key := ("p", "metrics.read");
      var late, early := Request(key, 100.0), Request(key, 40.0);
      var span := [late, early, late, early, late];
      && Known(ONE_PER_MINUTE, span)
      && Evictions(ONE_PER_MINUTE, EMPTY, span, key) == 0
      && AcceptedCount(ONE_PER_MINUTE, EMPTY, span, key) == 3
      && 3.0 > 1.0 + (100.0 - 40.0) * 1.0 / 60.0
  {
    var c := ONE_PER_MINUTE;
    var key := ("p", "metrics.read");
    var late, early := Request(key, 100.0), Request(key, 40.0);
    var empty, refused := Bucket(0.0, 100.0), Bucket(0.0, 40.0);
    var s1 := State(map[key := empty], [key]);
    var s2 := State(map[key := refused], [key]);
    TouchBackAndForth();
    var refusal := Touch(1, Some(empty), 40.0);
    hide Touch, Refill, AcquireStep, Config.Limit;
    OneAttempt(EMPTY, late, Accepted, empty);
    OneAttempt(s1, early, refusal.0, refused);
    OneAttempt(s2, late, Accepted, empty);
    CountOne(c, s2, late, [], key);
    CountOne(c, s1, early, [late], key);
    CountOne(c, s2, late, [early, late], key);
    CountOne(c, s1, early, [late, early, late], key);
    CountOne(c, EMPTY, late, [early, late, early, late], key);
    assert [late, early, late, early, late] == [late] + [early, late, early, late];
    assert [early, late, early, late] == [early] + [late, early, late];
    assert [late, early, late] == [late] + [early, late];
    assert [early, late] == [early] + [late] && [late] == [late] + [];
  }

  lemma CountOne(c: Config, s: State, r: Request, rest: seq<Request>, key: Key)
    requires c.Valid() && r.key.1 in c.limits && Known(c, [r] + rest) && Known(c, rest)
    ensures
      var (o, t) := AcquireStep(c, s, r);
      && AcceptedCount(c, s, [r] + rest, key)
           == (if o.Accepted? && r.key == key then 1 else 0) + AcceptedCount(c, t, rest, key)
      && Evictions(c, s, [r] + rest, key)
           == (if key in s.buckets && key !in t.buckets then 1 else 0) + Evictions(c, t, rest, key)
  {
    assert ([r] + rest)[1..] == rest;
  }

  // ----- what a caller can observe -----

  /** Forgetting a bucket that was idle for a minute cannot be observed. */
  lemma IdleBucketIsAsNew(capacity: nat, b: Bucket, now: real)
    requires capacity >= 1
    requires 0.0 <= b.tokens <= capacity as real
    ensures now - b.updatedAt >= 60.0 ==> Touch(capacity, Some(b), now) == Touch(capacity, None, now)
  {
    if now - b.updatedAt >= 60.0 {
      var idle := now - b.updatedAt;
      assert idle * Rate(capacity) == (idle / 60.0) * capacity as real;
      assert (idle / 60.0) * capacity as real >= 1.0 * capacity as real;
    }
  }

  function TouchAll(capacity: nat, b: Bucket, times: seq<real>): Bucket
    requires capacity >= 1
    decreases |times|
  {
    if times == [] then b else TouchAll(capacity, Touch(capacity, Some(b), times[0]).1, times[1..])
  }

  ghost predicate AllRejected(capacity: nat, b: Bucket, times: seq<real>)
    requires capacity >= 1
    decreases |times|
  {
    times == [] ||
    (Touch(capacity, Some(b), times[0]).0.Rejected? &&
     AllRejected(capacity, Touch(capacity, Some(b), times[0]).1, times[1..]))
  }

  /** Refilling through any number of refused attempts equals one lazy refill. */
  lemma {:induction false} RefusalsAreOneRefill(capacity: nat, b: Bucket, times: seq<real>, now: real)
    requires capacity >= 1
    requires forall i :: 0 <= i < |times| ==> b.updatedAt <= times[i] <= now
    requires forall i, j :: 0 <= i <= j < |times| ==> times[i] <= times[j]
    requires AllRejected(capacity, b, times)
    requires b.updatedAt <= now
    ensures Refill(capacity, TouchAll(capacity, b, times), now) == Refill(capacity, b, now)
    ensures Touch(capacity, Some(TouchAll(capacity, b, times)), now) == Touch(capacity, Some(b), now)
    decreases |times|
  {
    hide Refill;
    if times != [] {
      var once := Touch(capacity, Some(b), times[0]).1;
      RefusalsAreOneRefill(capacity, once, times[1..], now);
      RefusalIsARefill(capacity, b, times[0], now);
    }
  }

  lemma RefusalIsARefill(capacity: nat, b: Bucket, at: real, now: real)
    requires capacity >= 1
    requires b.updatedAt <= at <= now
    requires Touch(capacity, Some(b), at).0.Rejected?
    ensures Refill(capacity, Touch(capacity, Some(b), at).1, now) == Refill(capacity, b, now)
  {
    Distribute(at - b.updatedAt, now - at, Rate(capacity));
    Earns(capacity, now - at);
  }

  /** Attempts on other keys leave a bucket alone, unless they push it out. */
  lemma {:induction false} OthersLeaveTheBucket(c: Config, s: State, others: seq<Request>, key: Key)
    requires c.Valid() && Known(c, others) && Valid(c, s)
    requires forall i :: 0 <= i < |others| ==> others[i].key != key
    ensures
      var t := Run(c, s, others);
      key in t.buckets ==> key in s.buckets && t.buckets[key] == s.buckets[key]
    decreases |others|
  {
    if others != [] {
      AcquireEffect(c, s, others[0]);
      OthersLeaveTheBucket(c, AcquireStep(c, s, others[0]).1, others[1..], key);
    }
  }

  lemma DelayEarnsAToken(capacity: nat, tokens: real, wait: real)
    requires capacity >= 1 && tokens < 1.0
    requires wait >= RetryAfter(capacity, tokens) as real
    ensures tokens + wait * Rate(capacity) >= 1.0
  {
    var rate := Rate(capacity);
    var x := (1.0 - tokens) / rate;
    assert x < (x.Floor + 1) as real;
    assert wait >= x;
    assert wait * rate >= x * rate;
    assert x * rate == 1.0 - tokens;
  }

  lemma WaitingRefills(capacity: nat, b: Bucket, now: real)
    requires capacity >= 1 && b.tokens < 1.0
    requires now >= b.updatedAt + RetryAfter(capacity, b.tokens) as real
    ensures RetryAfter(capacity, b.tokens) >= 1
    ensures Refill(capacity, b, now) >= 1.0
  {
    DelayEarnsAToken(capacity, b.tokens, now - b.updatedAt);
  }

  /** A refused caller that waits the returned delay (the Retry-After value) and makes no other
      attempt on its key is accepted, whatever other callers do meanwhile. */
  lemma WaitingTheDelaySucceeds(c: Config, s: State, refused: Request, others: seq<Request>, later: Request)
    requires c.Valid() && Valid(c, s) && refused.key.1 in c.limits && Known(c, others)
    requires AcquireStep(c, s, refused).0.Rejected?
    requires forall i :: 0 <= i < |others| ==> others[i].key != refused.key
    requires later.key == refused.key
    requires later.now >= refused.now + AcquireStep(c, s, refused).0.retryAfter as real
    ensures AcquireStep(c, s, refused).0.retryAfter >= 1
    ensures AcquireStep(c, Run(c, AcquireStep(c, s, refused).1, others), later).0.Accepted?
  {
    hide Refill, Rate, AcquireStep, Run, RetryAfter, Put, Config.Limit, NoDuplicates;
    var capacity := c.limits[refused.key.1];
    var (o, t) := AcquireStep(c, s, refused);
    AcquireEffect(c, s, refused);
    OthersLeaveTheBucket(c, t, others, refused.key);
    var u := Run(c, t, others);
    RunKeepsValid(c, t, others);
    AcquireEffect(c, u, later);
    TouchKeepsBucket(capacity, None, refused.now);
    WaitingRefills(capacity, t.buckets[refused.key], later.now);
  }

  lemma ShortWaitEarnsTooLittle(capacity: nat, tokens: real, wait: real)
    requires capacity >= 1 && tokens < 1.0
    requires 0.0 <= wait && wait + 1.0 < RetryAfter(capacity, tokens) as real
    ensures tokens + wait * Rate(capacity) < 1.0
  {
    var rate := Rate(capacity);
    var x := (1.0 - tokens) / rate;
    assert RetryAfter(capacity, tokens) == x.Floor + 1;
    assert wait < x;
    assert wait * rate < x * rate;
    assert x * rate == 1.0 - tokens;
  }

  /** The delay is tight to the second: an attempt made more than a second early is refused again. */
  lemma DelayIsTight(capacity: nat, b: Bucket, early: real)
    requires capacity >= 1 && b.tokens < 1.0
    requires b.updatedAt <= early < b.updatedAt + RetryAfter(capacity, b.tokens) as real - 1.0
    ensures Touch(capacity, Some(b), early).0.Rejected?
  {
    ShortWaitEarnsTooLittle(capacity, b.tokens, early - b.updatedAt);
  }

  // ----- least recently used -----

  ghost function KeysOf(reqs: seq<Request>): set<Key> {
    set i | 0 <= i < |reqs| :: reqs[i].key
  }

  ghost function After(order: seq<Key>, key: Key): seq<Key> {
    if order == [] then [] else if order[0] == key then order[1..] else After(order[1..], key)
  }

  ghost predicate BehindAre(s: State, key: Key, touched: set<Key>) {
    key in s.order && forall k :: k in After(s.order, key) ==> k in touched
  }

  lemma {:induction false} AfterWithout(order: seq<Key>, other: Key, key: Key, k: Key)
    requires other != key && key in order
    requires k in After(WithoutKey(order, other) + [other], key)
    ensures k == other || k in After(order, key)
  {
    var w := WithoutKey(order, other);
    if order[0] == key {
      assert (w + [other])[1..] == WithoutKey(order[1..], other) + [other];
      assert k in WithoutKey(order[1..], other) + [other];
    } else {
      if order[0] != other {
        assert (w + [other])[1..] == WithoutKey(order[1..], other) + [other];
      }
      AfterWithout(order[1..], other, key, k);
    }
  }

  lemma PutBehind(s: State, other: Key, b: Bucket, key: Key, touched: set<Key>)
    requires other != key && BehindAre(s, key, touched)
    ensures BehindAre(Put(s, other, b), key, touched + {other})
  {
    var order := Put(s, other, b).order;
    assert key in WithoutKey(s.order, other);
    forall k | k in After(order, key) ensures k in touched + {other} {
      AfterWithout(s.order, other, key, k);
    }
  }

  lemma DropBehind(s: State, key: Key, touched: set<Key>)
    requires NoDuplicates(s.order) && BehindAre(s, key, touched)
    ensures
      var t := State(s.buckets - {s.order[0]}, s.order[1..]);
      if s.order[0] != key then key in t.order && BehindAre(t, key, touched) else |touched| >= |s.order| - 1
  {
    if s.order[0] == key {
      var newer := s.order[1..];
      DistinctCardinality(newer);
      SubsetCardinality((set k | k in newer), touched);
    }
  }

  lemma OneStepBehind(c: Config, s: State, r: Request, key: Key, touched: set<Key>)
    requires c.Valid() && Valid(c, s) && r.key.1 in c.limits && r.key != key
    requires key in s.buckets && BehindAre(s, key, touched)
    ensures
      var t := AcquireStep(c, s, r).1;
      if key in t.buckets then BehindAre(t, key, touched + {r.key}) else |touched + {r.key}| >= c.Limit()
  {
    hide Refill, Touch, AcquireStep, Config.Limit, NoDuplicates, BehindAre, WithoutKey;
    AcquireEffect(c, s, r);
    var t := AcquireStep(c, s, r).1;
    var bucket := Touch(c.limits[r.key.1], Lookup(s, r.key), r.now).1;
    var put := Put(s, r.key, bucket);
    PutEffect(s, r.key, bucket);
    PutBehind(s, r.key, bucket, key, touched);
    if t != put {
      DropBehind(put, key, touched + {r.key});
    }
  }

  lemma {:induction false} ForgottenAfterOthers(c: Config, s: State, reqs: seq<Request>, key: Key, touched: set<Key>)
    requires c.Valid() && Valid(c, s) && Known(c, reqs)
    requires key in s.buckets && BehindAre(s, key, touched)
    requires forall i :: 0 <= i < |reqs| ==> reqs[i].key != key
    requires key !in Run(c, s, reqs).buckets
    ensures |touched + KeysOf(reqs)| >= c.Limit()
    decreases |reqs|
  {
    hide Refill, Touch, Rate, AcquireStep, Put, Config.Limit, NoDuplicates, BehindAre, KeysOf;
    var t := AcquireStep(c, s, reqs[0]).1;
    var rest := reqs[1..];
    OneStepBehind(c, s, reqs[0], key, touched);
    AcquireEffect(c, s, reqs[0]);
    KeysOfCons(reqs);
    var seen := touched + {reqs[0].key};
    if key in t.buckets {
      ForgottenAfterOthers(c, t, rest, key, seen);
      assert seen + KeysOf(rest) == touched + KeysOf(reqs);
    } else {
      SubsetCardinality(seen, touched + KeysOf(reqs));
    }
  }

  lemma KeysOfCons(reqs: seq<Request>)
    requires reqs != []
    ensures KeysOf(reqs) == {reqs[0].key} + KeysOf(reqs[1..])
  {
    var rest := reqs[1..];
    assert forall i :: 0 <= i < |rest| ==> rest[i] == reqs[i + 1];
    forall k | k in KeysOf(reqs) ensures k in {reqs[0].key} + KeysOf(rest) {
      var i :| 0 <= i < |reqs| && reqs[i].key == k;
      assert i > 0 ==> rest[i - 1].key == k;
    }
  }

  /** A key is forgotten only after at least maximum_principals * 4 distinct other keys were used
      since its own last use. */
  lemma ForgottenOnlyAfterManyOthers(c: Config, s: State, last: Request, since: seq<Request>)
    requires c.Valid() && Valid(c, s) && last.key.1 in c.limits && Known(c, since)
    requires forall i :: 0 <= i < |since| ==> since[i].key != last.key
    requires last.key !in Run(c, AcquireStep(c, s, last).1, since).buckets
    ensures |KeysOf(since)| >= c.maximumPrincipals * 4
    ensures last.key !in KeysOf(since)
  {
    hide Refill, Touch, AcquireStep, Config.Limit, Put, Run;
    AcquireEffect(c, s, last);
    var t := AcquireStep(c, s, last).1;
    AfterLast(t.order);
    ForgottenAfterOthers(c, t, since, last.key, {});
    assert {} + KeysOf(since) == KeysOf(since);
    LimitPositive(c);
  }

  lemma {:induction false} AfterLast(order: seq<Key>)
    requires NoDuplicates(order) && order != []
    ensures After(order, order[|order| - 1]) == []
  {
    if |order| > 1 {
      assert order[0] != order[|order| - 1];
      AfterLast(order[1..]);
    }
  }

  // ----- the limiter object -----

  class PrincipalRateLimiter {
    const config: Config
    var buckets: map<Key, Bucket>
    var order: seq<Key>

    ghost function Contents(): State
      reads this
    {
      State(buckets, order)
    }

    ghost predicate Ok()
      reads this
    {
      config.Valid() && Valid(config, Contents())
    }

    constructor (config: Config)
      requires config.Valid()
      ensures this.config == config && Contents() == EMPTY && Ok()
    {
      this.config := config;
      buckets, order := map[], [];
    }

    /** `now` is the reading taken before the lock. */
    method Acquire(principal: string, scope: string, now: real) returns (outcome: Outcome)
      requires Ok() && scope in config.limits
      modifies this
      ensures Ok()
      ensures (outcome, Contents()) == AcquireStep(config, old(Contents()), Request((principal, scope), now))
    {
      hide Valid, Config.Limit, WithoutKey, NoDuplicates, RetryAfter, Rate;
      var capacity := config.limits[scope];
      var key := (principal, scope);
      ghost var before := Contents();
      var bucket;
      if key !in buckets {
        bucket := Bucket(capacity as real, now);
      } else {
        bucket := buckets[key];
        var elapsed := RealMax(0.0, now - bucket.updatedAt);
        bucket := Bucket(RealMin(capacity as real, bucket.tokens + elapsed * Rate(capacity)), now);
        assert bucket.tokens == Refill(capacity, before.buckets[key], now);
      }
      hide Refill;
      order := WithoutKey(order, key);
      if bucket.tokens < 1.0 {
        buckets, order := buckets[key := bucket], order + [key];
        outcome := Rejected(RetryAfter(capacity, bucket.tokens));
        assert Contents() == Put(before, key, bucket);
      } else {
        bucket := bucket.(tokens := bucket.tokens - 1.0);
        buckets, order := buckets[key := bucket], order + [key];
        ghost var put := Contents();
        assert put == Put(before, key, bucket);
        var limit := config.Limit();
        while |order| > limit
          invariant Evict(Contents(), limit) == Evict(put, limit)
          decreases |order|
        {
          buckets, order := buckets - {order[0]}, order[1..];
        }
        assert Contents() == Evict(put, limit);
        outcome := Accepted;
      }
      assert Touch(capacity, Lookup(before, key), now) == (outcome, bucket);
      assert (outcome, Contents()) == AcquireStep(config, before, Request(key, now));
      AcquireEffect(config, before, Request(key, now));
    }

    method TrackedBucketCount() returns (n: nat)
      requires Ok()
      ensures n == |Contents().order| <= config.maximumPrincipals * 4
    {
      OrderIsTheMap(config, Contents());
      LimitPositive(config);
      n := |buckets|;
    }
  }
}
