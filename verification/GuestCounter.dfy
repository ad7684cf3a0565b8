/**
 * The middleware's batched hit counter. Each process counts the guest requests of a minute per
 * request body in memory and adds them to the shared counter a batch at a time. Requests do not
 * overlap: the handler reads its counter again after waiting for the shared cache.
 */
module GuestCounter {
  import opened Wrappers

  type Counters = map<int, map<string, nat>>

  /** A request: whether it is logged in or asks for no cache, the minute it arrives in, its hashed body. */
  datatype Request = Request(skipsCache: bool, minute: int, body: string)

  /** The memory of the process, the shared counters, and the bodies stored for the warmer. */
  datatype State = State(hits: Counters, shared: Counters, bodies: set<string>)

  /** The count of a body in a minute; a missing one is zero. */
  function Count(c: Counters, minute: int, body: string): nat {
    if minute in c && body in c[minute] then c[minute][body] else 0
  }

  function Minute(c: Counters, minute: int): map<string, nat> {
    if minute in c then c[minute] else map[]
  }

  function Add(c: Counters, minute: int, body: string, n: nat): Counters {
    c[minute := Minute(c, minute)[body := Count(c, minute, body) + n]]
  }

  /** The configured size; a missing, unreadable or zero one is three. Any other number is taken as it is. */
  function BatchSize(configured: Option<real>): real {
    if configured.None? || configured.value == 0.0 then 3.0 else configured.value
  }

  /** With nothing configured, or zero, three hits make a batch; any other number is taken as it is. */
  lemma BatchSizeIs(configured: Option<real>)
    ensures configured.None? || configured == Some(0.0) ==>
              BatchSize(configured) == 3.0 && Batch(BatchSize(configured)) == 3
    ensures configured.Some? && configured.value != 0.0 ==> BatchSize(configured) == configured.value
  {
    if configured.None? || configured == Some(0.0) {
      assert Full(3, 3.0) && !Full(2, 3.0);
    }
  }

  predicate Full(count: nat, size: real) {
    count as real >= size
  }

  /** How many hits a batch really has: the size rounded up, and at least one. */
  function Batch(size: real): (batch: nat)
    ensures batch >= 1
    ensures forall n: nat | n >= 1 :: Full(n, size) <==> n >= batch
  {
    var up := -((-size).Floor);
    if up < 1 then 1 else up
  }

  /** The counter after a hit: it starts again at one after a full batch. */
  function NextCount(count: nat, size: real): nat {
    if Full(count, size) then 1 else count + 1
  }

  function Step(s: State, r: Request, size: real): State {
    if r.skipsCache then s
    else
      var count := NextCount(Count(s.hits, r.minute, r.body), size);
      var full := Full(count, size);
      var shared := if full then Add(s.shared, r.minute, r.body, count) else s.shared;
      State(
        s.hits[r.minute := Minute(s.hits, r.minute)[r.body := count]] - {r.minute - 1},
        if r.minute in s.hits then shared else Add(shared, r.minute, r.body, 0),
        if full then s.bodies + {r.body} else s.bodies)
  }

  function Run(requests: seq<Request>, size: real): State {
    if requests == [] then State(map[], map[], {})
    else Step(Run(requests[..|requests| - 1], size), requests[|requests| - 1], size)
  }

  class CacheService {
    var counters: Counters
    var bodies: set<string>

    constructor ()
      ensures counters == map[] && bodies == {}
    {
      counters := map[];
      bodies := {};
    }

    method ZIncrementRemote(minute: int, increment: nat, member: string)
      modifies this`counters
      ensures counters == Add(old(counters), minute, member, increment)
    {
      counters := Add(counters, minute, member, increment);
    }

    method StoreBody(body: string)
      modifies this`bodies
      ensures bodies == old(bodies) + {body}
    {
      bodies := bodies + {body};
    }
  }

  class GuestCachingMiddleware {
    var cacheHitsCounter: Counters
    const cacheService: CacheService

    constructor (cacheService: CacheService)
      ensures this.cacheService == cacheService && cacheHitsCounter == map[]
    {
      this.cacheService := cacheService;
      cacheHitsCounter := map[];
    }

    ghost function Contents(): State
      reads this, cacheService
    {
      State(cacheHitsCounter, cacheService.counters, cacheService.bodies)
    }

    method Use(r: Request, configured: Option<real>)
      modifies this, cacheService
      ensures Contents() == Step(old(Contents()), r, BatchSize(configured))
    {
      if r.skipsCache {
        return;
      }
      var batchSize := BatchSize(configured);
      var isFirstEntryForThisKey := r.minute !in cacheHitsCounter;
      var count := CountHit(r.minute, r.body, batchSize);
      ShareHits(r.minute, r.body, count, Full(count, batchSize), isFirstEntryForThisKey);
      DeleteMinute(r.minute - 1);
    }

    /** The first part: the counter of this minute and body goes up, or starts again after a full batch. */
    method CountHit(minute: int, body: string, batchSize: real) returns (count: nat)
      modifies this`cacheHitsCounter
      ensures count == NextCount(Count(old(cacheHitsCounter), minute, body), batchSize)
      ensures cacheHitsCounter ==
              old(cacheHitsCounter)[minute := Minute(old(cacheHitsCounter), minute)[body := count]]
    {
      var hits := if minute in cacheHitsCounter then cacheHitsCounter[minute] else map[];
      if body !in hits || hits[body] == 0 {
        hits := hits[body := 0];
      }
      if hits[body] as real < batchSize {
        hits := hits[body := hits[body] + 1];
      } else {
        hits := hits[body := 1];
      }
      count := hits[body];
      assert hits == Minute(old(cacheHitsCounter), minute)[body := count];
      cacheHitsCounter := cacheHitsCounter[minute := hits];
    }

    /** The second part: a full batch is shared, and the first request of a minute creates its shared counter. */
    method ShareHits(minute: int, body: string, count: nat, full: bool, isFirst: bool)
      modifies cacheService
      ensures var before := old(cacheService.counters);
        var shared := if full then Add(before, minute, body, count) else before;
        cacheService.counters == if isFirst then Add(shared, minute, body, 0) else shared
      ensures cacheService.bodies == if full then old(cacheService.bodies) + {body} else old(cacheService.bodies)
    {
      if full {
        cacheService.StoreBody(body);
        cacheService.ZIncrementRemote(minute, count, body);
      }
      if isFirst {
        cacheService.ZIncrementRemote(minute, 0, body);
      }
    }

    /** The last part: the counters of the minute before are dropped. */
    method DeleteMinute(minute: int)
      modifies this`cacheHitsCounter
      ensures cacheHitsCounter == old(cacheHitsCounter) - {minute}
    {
      if minute in cacheHitsCounter {
        cacheHitsCounter := cacheHitsCounter - {minute};
      }
    }
  }

  /** The first request of a minute creates the shared counter of its body, at zero if it does not fill a batch. */
  lemma FirstRequestCreatesCounter(s: State, r: Request, size: real)
    requires !r.skipsCache && r.minute !in s.hits && (r.minute !in s.shared || r.body !in s.shared[r.minute])
    ensures var shared := Step(s, r, size).shared;
      r.minute in shared && r.body in shared[r.minute] && shared[r.minute][r.body] == if size <= 1.0 then 1 else 0
  {
  }

  /** A request that is logged in or asks for no cache counts nothing. */
  lemma SkippedCountsNothing(s: State, r: Request, size: real)
    requires r.skipsCache
    ensures Step(s, r, size) == s
  {
  }

  /** The clock never goes back. */
  predicate InOrder(requests: seq<Request>) {
    forall i, j | 0 <= i < j < |requests| :: requests[i].minute <= requests[j].minute
  }

  /** The counted requests with a body in a minute. */
  function Hits(requests: seq<Request>, minute: int, body: string): nat {
    if requests == [] then 0
    else
      var n := |requests| - 1;
      Hits(requests[..n], minute, body) + if requests[n] == Request(false, minute, body) then 1 else 0
  }

  /** A request that is counted, in this minute. */
  predicate Counts(r: Request, minute: int) {
    !r.skipsCache && r.minute == minute
  }

  predicate Active(requests: seq<Request>, minute: int) {
    exists i | 0 <= i < |requests| :: Counts(requests[i], minute)
  }

  /** The hits since the last counted request of the next minute, which drops the counters of this one. */
  function Stretch(requests: seq<Request>, minute: int, body: string): nat {
    if requests == [] then 0
    else
      var before, r := Stretch(requests[..|requests| - 1], minute, body), requests[|requests| - 1];
      if r == Request(false, minute, body) then before + 1
      else if Counts(r, minute + 1) then 0
      else before
  }

  /** The hits that were dropped before they filled a batch. */
  function Lost(requests: seq<Request>, minute: int, body: string, batch: nat): nat
    requires batch >= 1
  {
    if requests == [] then 0
    else
      var prefix, r := requests[..|requests| - 1], requests[|requests| - 1];
      Lost(prefix, minute, body, batch) + if Counts(r, minute + 1) then Stretch(prefix, minute, body) % batch else 0
  }

  /** The in-memory counter after that many hits: it runs through 1, 2, ..., batch. */
  function Cycle(hits: nat, batch: nat): nat
    requires batch >= 1
  {
    if hits > 0 && hits % batch == 0 then batch else hits % batch
  }

  /**
   * One more hit: the counter advances in its cycle, and what is shared makes up for what the
   * place in the batch goes down.
   */
  lemma CycleStep(hits: nat, size: real)
    ensures var batch, count := Batch(size), NextCount(Cycle(hits, Batch(size)), size);
      && count == Cycle(hits + 1, batch)
      && (Full(count, size) ==> count == batch)
      && (hits + 1) % batch + (if Full(count, size) then count else 0) == hits % batch + 1
  {
    var batch := Batch(size);
    var q, rest := hits / batch, hits % batch;
    assert hits == batch * q + rest;
    if rest + 1 < batch {
      Divides(hits + 1, batch, q, rest + 1);
    } else {
      assert batch * (q + 1) == batch * q + batch;
      Divides(hits + 1, batch, q + 1, 0);
    }
  }

  lemma Divides(n: nat, d: nat, q: nat, rest: nat)
    requires rest < d && n == d * q + rest
    ensures n / d == q && n % d == rest
  {
    Increases(d, n / d, q);
    Increases(d, q, n / d);
  }

  lemma Increases(d: nat, p: nat, q: nat)
    ensures p < q ==> d * p + d <= d * q
  {
    if p < q {
      var k: nat := q - p - 1;
      assert d * k >= 0;
      assert d * (p + 1 + k) == d * p + d + d * k;
    }
  }

  lemma OneBatchMore(shared: nat, batch: nat)
    requires batch >= 1 && shared % batch == 0
    ensures (shared + batch) % batch == 0
  {
    var q := shared / batch;
    assert batch * (q + 1) == batch * q + batch;
    Divides(shared + batch, batch, q + 1, 0);
  }

  /** What one request does to the counters of a body in a minute. */
  lemma StepCounts(s: State, r: Request, size: real, minute: int, body: string)
    ensures var t, count := Step(s, r, size), NextCount(Count(s.hits, minute, body), size);
      if r == Request(false, minute, body) then
        && Count(t.hits, minute, body) == count
        && Count(t.shared, minute, body) == Count(s.shared, minute, body) + if Full(count, size) then count else 0
      else
        && Count(t.shared, minute, body) == Count(s.shared, minute, body)
        && Count(t.hits, minute, body) == if Counts(r, minute + 1) then 0 else Count(s.hits, minute, body)
  {
  }

  /** Memory holds the place in the batch of the stretch, whole batches are shared, and no hit is unaccounted for. */
  predicate Balanced(count: nat, shared: nat, lost: nat, stretch: nat, hits: nat, batch: nat)
    requires batch >= 1
  {
    count == Cycle(stretch, batch) && shared % batch == 0 && shared + lost + stretch % batch == hits
  }

  lemma HitKeepsBalance(count: nat, shared: nat, lost: nat, stretch: nat, hits: nat, size: real)
    requires Balanced(count, shared, lost, stretch, hits, Batch(size))
    ensures var next := NextCount(count, size);
      Balanced(next, shared + if Full(next, size) then next else 0, lost, stretch + 1, hits + 1, Batch(size))
  {
    CycleStep(stretch, size);
    OneBatchMore(shared, Batch(size));
  }

  lemma CutKeepsBalance(count: nat, shared: nat, lost: nat, stretch: nat, hits: nat, batch: nat)
    requires batch >= 1 && Balanced(count, shared, lost, stretch, hits, batch)
    ensures Balanced(0, shared, lost + stretch % batch, 0, hits, batch)
  {
  }

  /**
   * After any run, whatever the clock does, with any bodies mixed and any batch size: memory
   * holds the place in the batch of the current stretch, the shared counter holds whole
   * batches, and shared, lost and unsent hits together are all hits.
   */
  lemma {:induction false} CountersExactly(requests: seq<Request>, size: real, minute: int, body: string)
    ensures var s, batch := Run(requests, size), Batch(size);
      Balanced(Count(s.hits, minute, body), Count(s.shared, minute, body), Lost(requests, minute, body, batch),
               Stretch(requests, minute, body), Hits(requests, minute, body), batch)
  {
    if requests != [] {
      var n := |requests| - 1;
      var prefix, r, batch := requests[..n], requests[n], Batch(size);
      var s := Run(prefix, size);
      var count, shared := Count(s.hits, minute, body), Count(s.shared, minute, body);
      var lost, stretch := Lost(prefix, minute, body, batch), Stretch(prefix, minute, body);
      CountersExactly(prefix, size, minute, body);
      StepCounts(s, r, size, minute, body);
      if r == Request(false, minute, body) {
        HitKeepsBalance(count, shared, lost, stretch, Hits(prefix, minute, body), size);
      } else if Counts(r, minute + 1) {
        CutKeepsBalance(count, shared, lost, stretch, Hits(prefix, minute, body), batch);
      }
    }
  }

  lemma WholeBatches(shared: nat, rest: nat, batch: nat)
    requires batch >= 1 && shared % batch == 0
    ensures shared == batch * ((shared + rest) / batch) <==> rest < batch
  {
    var q, p := shared / batch, (shared + rest) / batch;
    assert shared == batch * q;
    if rest < batch {
      Divides(shared + rest, batch, q, rest);
    } else {
      assert shared + rest == batch * p + (shared + rest) % batch;
    }
  }

  /**
   * The shared counter holds all the batches that the hits make exactly when the hits lost and
   * those unsent make no batch together.
   */
  lemma SharedIsAllBatchesExactly(requests: seq<Request>, size: real, minute: int, body: string)
    ensures var batch, hits := Batch(size), Hits(requests, minute, body);
      Count(Run(requests, size).shared, minute, body) == batch * (hits / batch) <==>
      Lost(requests, minute, body, batch) + Stretch(requests, minute, body) % batch < batch
  {
    var batch := Batch(size);
    CountersExactly(requests, size, minute, body);
    WholeBatches(Count(Run(requests, size).shared, minute, body),
                 Lost(requests, minute, body, batch) + Stretch(requests, minute, body) % batch, batch);
  }

  /** The hits a counter in memory stands for that are not shared yet. */
  function Unsent(count: nat, batch: nat): nat {
    if count == batch then 0 else count
  }

  /**
   * With any clock, what is shared and what is still to be shared never exceed the hits, and
   * differ from them by those lost.
   */
  lemma NeverOvercounts(requests: seq<Request>, size: real, minute: int, body: string)
    ensures var s, batch := Run(requests, size), Batch(size);
      && Count(s.hits, minute, body) <= batch
      && Count(s.shared, minute, body) + Unsent(Count(s.hits, minute, body), batch) +
         Lost(requests, minute, body, batch) == Hits(requests, minute, body)
  {
    CountersExactly(requests, size, minute, body);
  }

  /** A clock that does not go back cuts a minute once at most. */
  lemma {:induction false} OneStretch(requests: seq<Request>, minute: int, body: string, batch: nat)
    requires InOrder(requests) && batch >= 1
    ensures var hits := Hits(requests, minute, body);
      if Active(requests, minute + 1)
      then Stretch(requests, minute, body) == 0 && Lost(requests, minute, body, batch) == hits % batch
      else Stretch(requests, minute, body) == hits && Lost(requests, minute, body, batch) == 0
  {
    if requests != [] {
      var n := |requests| - 1;
      var prefix, r := requests[..n], requests[n];
      MostInOrder(requests, minute);
      OneStretch(prefix, minute, body, batch);
    }
  }

  /** Once the next minute has begun, no request of this one comes any more. */
  lemma MostInOrder(requests: seq<Request>, minute: int)
    requires requests != [] && InOrder(requests)
    ensures var prefix, r := requests[..|requests| - 1], requests[|requests| - 1];
      && InOrder(prefix)
      && (Active(requests, minute + 1) <==> Active(prefix, minute + 1) || Counts(r, minute + 1))
      && (Active(prefix, minute + 1) ==> r.minute > minute)
  {
    var prefix, r := requests[..|requests| - 1], requests[|requests| - 1];
    assert requests == prefix + [r];
    ActiveAppend(prefix, r, minute + 1);
    if i :| 0 <= i < |prefix| && Counts(prefix[i], minute + 1) {
      assert requests[i] == prefix[i];
    }
  }

  lemma ActiveAppend(requests: seq<Request>, r: Request, minute: int)
    ensures Active(requests + [r], minute) <==> Active(requests, minute) || Counts(r, minute)
  {
    var all := requests + [r];
    assert all[|requests|] == r;
    if Active(requests, minute) {
      var i :| 0 <= i < |requests| && Counts(requests[i], minute);
      assert all[i] == requests[i];
    }
  }

  /**
   * With a clock that does not go back the shared counter holds all complete batches, and as
   * long as the next minute has not begun memory holds the place in the current one.
   */
  lemma CountersAfterRun(requests: seq<Request>, size: real, minute: int, body: string)
    requires InOrder(requests)
    ensures var batch, hits := Batch(size), Hits(requests, minute, body);
      && Count(Run(requests, size).shared, minute, body) == batch * (hits / batch)
      && (!Active(requests, minute + 1) ==> Count(Run(requests, size).hits, minute, body) == Cycle(hits, batch))
  {
    OneStretch(requests, minute, body, Batch(size));
    CountersExactly(requests, size, minute, body);
    SharedIsAllBatchesExactly(requests, size, minute, body);
  }

  /** A counted request of this minute with none of the next minute after it. */
  predicate Keeps(requests: seq<Request>, minute: int, i: nat) {
    && i < |requests| && Counts(requests[i], minute)
    && forall j | i < j < |requests| :: !Counts(requests[j], minute + 1)
  }

  /**
   * Whatever the clock does, the process holds the counters of exactly those minutes whose last
   * request came after the next minute's last.
   */
  lemma {:induction false} MinutesHeld(requests: seq<Request>, size: real, minute: int)
    ensures minute in Run(requests, size).hits <==> exists i: nat :: Keeps(requests, minute, i)
  {
    if requests != [] {
      var n := |requests| - 1;
      var prefix, r := requests[..n], requests[n];
      MinutesHeld(prefix, size, minute);
      StepMinutes(Run(prefix, size), r, size, minute);
      if Counts(r, minute) {
        assert Keeps(requests, minute, n);
      } else if i: nat :| Keeps(prefix, minute, i) {
        assert Keeps(requests, minute, i) <==> !Counts(r, minute + 1);
      }
      forall i: nat | Keeps(requests, minute, i)
        ensures !Counts(r, minute + 1) && (i == n || Keeps(prefix, minute, i))
      {
        assert i < n ==> !Counts(requests[n], minute + 1);
      }
    }
  }

  lemma StepMinutes(s: State, r: Request, size: real, minute: int)
    ensures minute in Step(s, r, size).hits <==> Counts(r, minute) || (!Counts(r, minute + 1) && minute in s.hits)
  {
  }

  /** A clock that steps back into a minute whose counters were dropped loses the hits counted before. */
  lemma StepBackLosesHits(minute: int, body: string)
    ensures var first, second := Request(false, minute, body), Request(false, minute + 1, body);
      var requests := [first, second, first];
      && Hits(requests, minute, body) == 2
      && Count(Run(requests, 2.0).shared, minute, body) == 0
  {
    var a, b := Request(false, minute, body), Request(false, minute + 1, body);
    assert [a, b, a][..2] == [a, b] && [a, b][..1] == [a] && [a][..0] == [];
    var one := Run([a], 2.0);
    assert one == Step(Run([], 2.0), a, 2.0);
    assert Hits([a], minute, body) == 1 && Hits([a, b], minute, body) == 1;
    var two := Run([a, b], 2.0);
    assert two == Step(one, b, 2.0) && minute !in two.hits;
  }

  /** A body is stored for the warmer exactly when some minute has shared hits of it. */
  lemma {:induction false} CountedBodiesAreStored(requests: seq<Request>, size: real, body: string)
    ensures body in Run(requests, size).bodies <==>
            exists minute :: Count(Run(requests, size).shared, minute, body) > 0
  {
    if requests != [] {
      var n := |requests| - 1;
      var s, r := Run(requests[..n], size), requests[n];
      var after := Step(s, r, size);
      CountedBodiesAreStored(requests[..n], size, body);
      forall m
        ensures Count(after.shared, m, body) >= Count(s.shared, m, body)
        ensures Count(after.shared, m, body) > Count(s.shared, m, body) ==> body in after.bodies
      {
        StepCounts(s, r, size, m, body);
      }
      if body in s.bodies {
        var m :| Count(s.shared, m, body) > 0;
        assert Count(after.shared, m, body) > 0;
      } else if body in after.bodies {
        StepCounts(s, r, size, r.minute, body);
        assert Count(after.shared, r.minute, body) > 0;
      }
    }
  }
}
