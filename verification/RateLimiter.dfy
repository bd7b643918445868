/**
 The per-client rate limiter (internal/api/middleware.go).

 Times are in nanoseconds.  A request reads the clock up to twice, first to compare with the last
 reset and then to set it, so it carries both readings.
 */
module RateLimiting {

  const MINUTE: int := 60_000_000_000

  datatype Bucket = Bucket(tokens: int, lastReset: int)

  type Buckets = map<string, Bucket>

  // ---------------------------------------------------------------------------------------------
  // One request, one cleanup
  // ---------------------------------------------------------------------------------------------

  predicate Resets(bs: Buckets, key: string, at: int) {
    key !in bs || at - bs[key].lastReset > MINUTE
  }

  predicate Allowed(bs: Buckets, key: string, at: int) {
    Resets(bs, key, at) || bs[key].tokens > 0
  }

  function AfterRequest(bs: Buckets, rate: int, key: string, at: int, setAt: int): Buckets {
    if Resets(bs, key, at) then bs[key := Bucket(rate - 1, setAt)]
    else if bs[key].tokens > 0 then bs[key := bs[key].(tokens := bs[key].tokens - 1)]
    else bs
  }

  function AfterCleanup(bs: Buckets, at: int): Buckets {
    map key | key in bs && at - bs[key].lastReset <= 2 * MINUTE :: bs[key]
  }

  class RateLimiter {
    const rate: int
    var buckets: Buckets

    constructor (rate: int)
      ensures this.rate == rate && buckets == map[]
    {
      this.rate := rate;
      buckets := map[];
    }

    method Allow(key: string, at: int, setAt: int) returns (ok: bool)
      modifies this
      ensures ok == Allowed(old(buckets), key, at)
      ensures buckets == AfterRequest(old(buckets), rate, key, at, setAt)
    {
      if key !in buckets {
        buckets := buckets[key := Bucket(rate - 1, setAt)];
        return true;
      }
      var b := buckets[key];
      if at - b.lastReset > MINUTE {
        buckets := buckets[key := Bucket(rate - 1, setAt)];
        return true;
      }
      if b.tokens > 0 {
        buckets := buckets[key := b.(tokens := b.tokens - 1)];
        return true;
      }
      return false;
    }

    /** One tick of `cleanupLoop`. */
    method Cleanup(at: int)
      modifies this
      ensures buckets == AfterCleanup(old(buckets), at)
    {
      var keys := buckets.Keys;
      while keys != {}
        invariant keys <= old(buckets).Keys
        invariant forall k :: k in buckets ==> k in old(buckets) && buckets[k] == old(buckets)[k]
        invariant forall k :: k in keys ==> k in buckets
        invariant forall k :: k in old(buckets) && k !in keys ==>
                    (k in buckets <==> at - old(buckets)[k].lastReset <= 2 * MINUTE)
        decreases |keys|
      {
        var k :| k in keys;
        if at - buckets[k].lastReset > 2 * MINUTE {
          buckets := buckets - {k};
        }
        keys := keys - {k};
      }
    }
  }

  // ---------------------------------------------------------------------------------------------
  // Traces
  // ---------------------------------------------------------------------------------------------

  datatype Event = Request(key: string, at: int, setAt: int) | Cleanup(at: int)

  function After(bs: Buckets, rate: int, e: Event): Buckets {
    match e
    case Request(key, at, setAt) => AfterRequest(bs, rate, key, at, setAt)
    case Cleanup(at) => AfterCleanup(bs, at)
  }

  function Finished(e: Event): int {
    if e.Request? then e.setAt else e.at
  }

  /** The clock never runs back, from a reading `now` on. */
  predicate InOrder(es: seq<Event>, now: int) {
    es == [] || (now <= es[0].at <= Finished(es[0]) && InOrder(es[1..], Finished(es[0])))
  }

  function Answers(bs: Buckets, rate: int, es: seq<Event>): seq<bool>
    decreases es
  {
    if es == [] then []
    else
      (if es[0].Request? then [Allowed(bs, es[0].key, es[0].at)] else [])
      + Answers(After(bs, rate, es[0]), rate, es[1..])
  }

  function WithoutCleanups(es: seq<Event>): seq<Event> {
    if es == [] then []
    else (if es[0].Request? then [es[0]] else []) + WithoutCleanups(es[1..])
  }

  // ---------------------------------------------------------------------------------------------
  // Cleaning up is invisible
  // ---------------------------------------------------------------------------------------------

  /** `cleaned` is `full` without some buckets that have been due for a reset for more than a minute. */
  ghost predicate OnlyStaleMissing(cleaned: Buckets, full: Buckets, now: int) {
    && (forall k :: k in cleaned ==> k in full && full[k] == cleaned[k])
    && (forall k :: k in full && k !in cleaned ==> now - full[k].lastReset > 2 * MINUTE)
  }

  /** On every trace, the limiter with its cleanup loop answers like one without. */
  lemma {:induction false} CleanupIsInvisible(cleaned: Buckets, full: Buckets, rate: int, es: seq<Event>, now: int)
    requires OnlyStaleMissing(cleaned, full, now) && InOrder(es, now)
    ensures Answers(cleaned, rate, es) == Answers(full, rate, WithoutCleanups(es))
    decreases es
  {
    if es != [] {
      var e := es[0];
      if e.Request? {
        assert Allowed(cleaned, e.key, e.at) == Allowed(full, e.key, e.at);
        CleanupIsInvisible(After(cleaned, rate, e), After(full, rate, e), rate, es[1..], Finished(e));
        assert WithoutCleanups(es)[1..] == WithoutCleanups(es[1..]);
      } else {
        CleanupIsInvisible(After(cleaned, rate, e), full, rate, es[1..], Finished(e));
        assert WithoutCleanups(es) == WithoutCleanups(es[1..]);
      }
    }
  }

  // ---------------------------------------------------------------------------------------------
  // The bound
  // ---------------------------------------------------------------------------------------------

  predicate InWindow(e: Event, key: string, start: int) {
    e.Request? && e.key == key && start <= e.at <= start + MINUTE
  }

  /** How many requests of the key in [start, start + 60 s] are allowed. */
  function AllowedIn(bs: Buckets, rate: int, es: seq<Event>, key: string, start: int): nat
    decreases es
  {
    if es == [] then 0
    else
      (if InWindow(es[0], key, start) && Allowed(bs, key, es[0].at) then 1 else 0)
      + AllowedIn(After(bs, rate, es[0]), rate, es[1..], key, start)
  }

  predicate TokensBelow(bs: Buckets, rate: int, key: string, now: int) {
    key in bs ==> bs[key].tokens <= rate - 1 && bs[key].lastReset <= now
  }

  function Left(bs: Buckets, key: string): nat {
    if key in bs && bs[key].tokens > 0 then bs[key].tokens else 0
  }

  lemma {:induction false} NothingAfterWindow(bs: Buckets, rate: int, es: seq<Event>, key: string, start: int, now: int)
    requires InOrder(es, now) && now > start + MINUTE
    ensures AllowedIn(bs, rate, es, key, start) == 0
    decreases es
  {
    if es != [] {
      NothingAfterWindow(After(bs, rate, es[0]), rate, es[1..], key, start, Finished(es[0]));
    }
  }

  /**
   The most that a window can allow, seen from a moment inside it: what is left of the running minute
   and, if that began before the window, a whole further minute; only the latter if it is over.
   */
  function Most(bs: Buckets, rate: nat, key: string, start: int, now: int): nat {
    if key in bs && bs[key].lastReset >= start then Left(bs, key)
    else if Resets(bs, key, now) then rate
    else Left(bs, key) + rate
  }

  lemma {:induction false} InsideWindow(bs: Buckets, rate: int, es: seq<Event>, key: string, start: int, now: int)
    requires rate >= 1 && InOrder(es, now) && now >= start && TokensBelow(bs, rate, key, now)
    ensures AllowedIn(bs, rate, es, key, start) <= Most(bs, rate, key, start, now)
    decreases es
  {
    if es != [] {
      var e := es[0];
      if e.at > start + MINUTE {
        NothingAfterWindow(After(bs, rate, e), rate, es[1..], key, start, Finished(e));
      } else {
        InsideWindow(After(bs, rate, e), rate, es[1..], key, start, Finished(e));
      }
    }
  }

  /** Any 60-second interval contains fewer than twice the rate of allowed requests of one client. */
  lemma {:induction false} FewerThanTwiceTheRate(bs: Buckets, rate: int, es: seq<Event>, key: string, start: int,
                                                 now: int)
    requires rate >= 1 && InOrder(es, now) && TokensBelow(bs, rate, key, now)
    ensures AllowedIn(bs, rate, es, key, start) <= 2 * rate - 1
    decreases es
  {
    if now >= start {
      InsideWindow(bs, rate, es, key, start, now);
    } else if es != [] {
      var e := es[0];
      if e.at >= start {
        InsideWindow(bs, rate, es, key, start, e.at);
      } else {
        FewerThanTwiceTheRate(After(bs, rate, e), rate, es[1..], key, start, Finished(e));
      }
    }
  }

  // ---------------------------------------------------------------------------------------------
  // The bound is reached, and when it is the rate
  // ---------------------------------------------------------------------------------------------

  function Burst(key: string, at: int, n: nat): seq<Event> {
    if n == 0 then [] else [Request(key, at, at)] + Burst(key, at, n - 1)
  }

  function AfterAll(bs: Buckets, rate: int, es: seq<Event>): Buckets
    decreases es
  {
    if es == [] then bs else AfterAll(After(bs, rate, es[0]), rate, es[1..])
  }

  lemma {:induction false} AllowedInSplit(bs: Buckets, rate: int, es: seq<Event>, fs: seq<Event>, key: string,
                                          start: int)
    ensures AllowedIn(bs, rate, es + fs, key, start)
            == AllowedIn(bs, rate, es, key, start) + AllowedIn(AfterAll(bs, rate, es), rate, fs, key, start)
    decreases es
  {
    if es == [] {
      assert es + fs == fs;
    } else {
      assert (es + fs)[1..] == es[1..] + fs;
      AllowedInSplit(After(bs, rate, es[0]), rate, es[1..], fs, key, start);
    }
  }

  lemma {:induction false} BurstInOrder(key: string, at: int, n: nat, fs: seq<Event>, now: int)
    requires now <= at && InOrder(fs, at)
    ensures InOrder(Burst(key, at, n) + fs, now)
    decreases n
  {
    var es := Burst(key, at, n) + fs;
    if n == 0 {
      assert es == fs;
    } else {
      BurstInOrder(key, at, n - 1, fs, at);
      assert es[1..] == Burst(key, at, n - 1) + fs;
    }
  }

  /** A bucket allows exactly as many requests as it has tokens, and then none before its minute is over. */
  lemma {:induction false} TokensAreSpent(bs: Buckets, rate: int, key: string, at: int, n: nat, start: int)
    requires key in bs && !Resets(bs, key, at) && n <= bs[key].tokens && start <= at <= start + MINUTE
    ensures AllowedIn(bs, rate, Burst(key, at, n), key, start) == n
    ensures var spent := AfterAll(bs, rate, Burst(key, at, n));
            && spent == bs[key := bs[key].(tokens := bs[key].tokens - n)]
            && (n == bs[key].tokens ==> !Allowed(spent, key, bs[key].lastReset + MINUTE))
    decreases n
  {
    if n == 0 {
      assert bs[key := bs[key]] == bs;
    } else {
      var e := Request(key, at, at);
      TokensAreSpent(After(bs, rate, e), rate, key, at, n - 1, start);
      assert Burst(key, at, n)[1..] == Burst(key, at, n - 1);
    }
  }

  /** A minute that begins allows the rate, the request that begins it included. */
  lemma FreshMinute(bs: Buckets, rate: int, key: string, at: int, start: int)
    requires rate >= 1 && Resets(bs, key, at) && start <= at <= start + MINUTE
    ensures AllowedIn(bs, rate, Burst(key, at, rate), key, start) == rate
  {
    TokensAreSpent(AfterRequest(bs, rate, key, at, at), rate, key, at, rate - 1, start);
    assert Burst(key, at, rate)[1..] == Burst(key, at, rate - 1);
  }

  /** Some requests from the start of the window on get all that a window can allow. */
  lemma MostIsReached(bs: Buckets, rate: int, key: string, start: int) returns (es: seq<Event>)
    requires rate >= 1 && TokensBelow(bs, rate, key, start)
    ensures InOrder(es, start) && AllowedIn(bs, rate, es, key, start) == Most(bs, rate, key, start, start)
  {
    if Resets(bs, key, start) {
      es := Burst(key, start, rate) + [];
      assert es == Burst(key, start, rate);
      FreshMinute(bs, rate, key, start, start);
      BurstInOrder(key, start, rate, [], start);
    } else {
      var left := Left(bs, key);
      var first := Burst(key, start, left);
      if left > 0 {
        TokensAreSpent(bs, rate, key, start, left, start);
      }
      var next := bs[key].lastReset + MINUTE + 1;
      var second := if bs[key].lastReset >= start then [] else Burst(key, next, rate) + [];
      if bs[key].lastReset < start {
        assert second == Burst(key, next, rate);
        FreshMinute(AfterAll(bs, rate, first), rate, key, next, start);
        BurstInOrder(key, next, rate, [], start);
      }
      es := first + second;
      AllowedInSplit(bs, rate, first, second, key, start);
      BurstInOrder(key, start, left, second, start);
    }
  }

  /** Whatever is requested from the start of a window on, the window allows no more than the rate. */
  ghost predicate WithinRate(bs: Buckets, rate: int, key: string, start: int) {
    forall es :: InOrder(es, start) ==> AllowedIn(bs, rate, es, key, start) <= rate
  }

  /** When the window starts, tokens are left of a minute that began earlier and is not over. */
  predicate TokensLeftOver(bs: Buckets, key: string, start: int) {
    key in bs && bs[key].tokens > 0 && start - MINUTE <= bs[key].lastReset < start
  }

  /** The rate is the bound of a window exactly when no tokens are left over from an earlier minute. */
  lemma WithinRateIff(bs: Buckets, rate: int, key: string, start: int)
    requires rate >= 1 && TokensBelow(bs, rate, key, start)
    ensures WithinRate(bs, rate, key, start) <==> !TokensLeftOver(bs, key, start)
  {
    if TokensLeftOver(bs, key, start) {
      var es := MostIsReached(bs, rate, key, start);
    } else {
      forall es | InOrder(es, start)
        ensures AllowedIn(bs, rate, es, key, start) <= rate
      {
        InsideWindow(bs, rate, es, key, start, start);
      }
    }
  }

  /** For every rate some run of a new limiter allows 2 * rate - 1 requests within 60 seconds. */
  lemma TwiceTheRateIsReached(rate: int, key: string) returns (es: seq<Event>)
    requires rate >= 1
    ensures InOrder(es, 0) && AllowedIn(map[], rate, es, key, MINUTE) == 2 * rate - 1
  {
    var first := Request(key, 0, 0);
    var bs := After(map[], rate, first);
    var rest := MostIsReached(bs, rate, key, MINUTE);
    es := [first] + rest;
    assert es[1..] == rest;
    assert InOrder(rest, 0);
  }

  // ---------------------------------------------------------------------------------------------
  // One client at a time
  // ---------------------------------------------------------------------------------------------

  /** The minute of a bucket is measured from the clock reading taken when it was reset. */
  lemma MinuteIsMeasuredFromReset(bs: Buckets, rate: int, key: string, at: int, setAt: int, later: int)
    requires Resets(bs, key, at)
    ensures var bs' := AfterRequest(bs, rate, key, at, setAt);
            && (Resets(bs', key, later) <==> later > setAt + MINUTE)
            && (later <= setAt + MINUTE ==> (Allowed(bs', key, later) <==> rate > 1))
  {}

  predicate AgreeOn(bs: Buckets, other: Buckets, key: string) {
    (key in bs <==> key in other) && (key in bs ==> bs[key] == other[key])
  }

  function OnlyOf(es: seq<Event>, key: string): seq<Event> {
    if es == [] then []
    else (if es[0].Request? && es[0].key != key then [] else [es[0]]) + OnlyOf(es[1..], key)
  }

  /** Whether a client is served depends on its own requests alone. */
  lemma {:induction false} ClientsAreIndependent(bs: Buckets, other: Buckets, rate: int, es: seq<Event>, key: string,
                                                 start: int)
    requires AgreeOn(bs, other, key)
    ensures AllowedIn(bs, rate, es, key, start) == AllowedIn(other, rate, OnlyOf(es, key), key, start)
    decreases es
  {
    if es != [] {
      var e := es[0];
      if e.Request? && e.key != key {
        ClientsAreIndependent(After(bs, rate, e), other, rate, es[1..], key, start);
        assert OnlyOf(es, key) == OnlyOf(es[1..], key);
      } else {
        ClientsAreIndependent(After(bs, rate, e), After(other, rate, e), rate, es[1..], key, start);
        assert OnlyOf(es, key)[1..] == OnlyOf(es[1..], key);
      }
    }
  }

  // ---------------------------------------------------------------------------------------------
  // Cleaning up forgets
  // ---------------------------------------------------------------------------------------------

  /** Some request of the client was finished in the last two minutes before `at`. */
  ghost predicate SeenLately(es: seq<Event>, key: string, at: int) {
    exists i :: 0 <= i < |es| && es[i].Request? && es[i].key == key && at - es[i].setAt <= 2 * MINUTE
  }

  /** Buckets come from requests: the last reset of a bucket is when one of its client's requests set it. */
  lemma {:induction false} BucketsComeFromRequests(rate: int, es: seq<Event>, key: string)
    requires key in AfterAll(map[], rate, es)
    ensures exists i :: 0 <= i < |es| && es[i].Request? && es[i].key == key
                        && es[i].setAt == AfterAll(map[], rate, es)[key].lastReset
    decreases |es|
  {
    if es != [] {
      var n := |es| - 1;
      assert es == es[..n] + [es[n]];
      AfterAllSnoc(map[], rate, es[..n], es[n]);
      var bs := AfterAll(map[], rate, es[..n]);
      if es[n].Request? && es[n].key == key && Resets(bs, key, es[n].at) {
        assert es[n].setAt == AfterAll(map[], rate, es)[key].lastReset;
      } else {
        BucketsComeFromRequests(rate, es[..n], key);
        var i :| 0 <= i < n && es[..n][i].Request? && es[..n][i].key == key && es[..n][i].setAt == bs[key].lastReset;
        assert es[i] == es[..n][i];
      }
    }
  }

  lemma {:induction false} AfterAllSnoc(bs: Buckets, rate: int, es: seq<Event>, e: Event)
    ensures AfterAll(bs, rate, es + [e]) == After(AfterAll(bs, rate, es), rate, e)
    decreases es
  {
    if es == [] {
      assert es + [e] == [e];
    } else {
      assert (es + [e])[1..] == es[1..] + [e];
      AfterAllSnoc(After(bs, rate, es[0]), rate, es[1..], e);
    }
  }

  /** After a cleanup only clients that were seen in the last two minutes take up memory. */
  lemma CleanupForgets(rate: int, es: seq<Event>, at: int, key: string)
    requires key in AfterAll(map[], rate, es + [Cleanup(at)])
    ensures SeenLately(es, key, at)
  {
    AfterAllSnoc(map[], rate, es, Cleanup(at));
    BucketsComeFromRequests(rate, es, key);
  }
}
