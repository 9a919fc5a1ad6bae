/**
 The time-bounded cache of internal/pokecache.go, as a state machine over
 explicit integer time.

 The Go cache guards a map with a read/write mutex and runs one background
 goroutine (the reaper) that, on every tick of a ticker whose period is the
 cache's interval, deletes each entry older than that interval, until a value
 arrives on the stop channel. Here the mutex, goroutine, ticker and channel are
 replaced by explicit transitions: every ticker firing is a `Tick(c, now)`
 step, and the clock reading `time.Now()` is the `now` parameter: an integer
 reading of one fixed clock, of which only differences matter (the interval is
 in the same unit; the scenarios below count milliseconds).
 */
module PokeCache {

  /** Raw response payload: the cache never interprets it. */
  type Bytes = seq<bv8>

  /** A stored payload together with the instant it was inserted. */
  datatype Entry = Entry(createdAt: int, val: Bytes)

  /** Lifecycle of the reaper goroutine. `Stopped` is terminal. */
  datatype Reaper = Running | Stopped

  /**
   The cache: the entry map, the interval captured by the reaper at
   construction (both its sweep period and its expiry threshold), and whether
   the reaper still runs.
   */
  datatype Cache = Cache(entries: map<string, Entry>, interval: int, reaper: Reaper)

  /** The `([]byte, bool)` pair returned by a lookup. */
  datatype Lookup = Lookup(val: Bytes, found: bool)

  /** A miss returns the nil slice (here: the empty sequence) and `false`. */
  const Miss := Lookup([], false)

  /** The reaper's deletion test: `interval < time.Since(createdAt)`. */
  predicate Expired(e: Entry, now: int, interval: int) {
    interval < now - e.createdAt
  }

  /**
   The expiry test is strict and monotone in time: an entry exactly one
   interval old survives, one a unit older does not, and once expired an entry
   stays expired at every later instant.
   */
  lemma ExpiryIsStrict(e: Entry, now: int, later: int, interval: int)
    requires now <= later
    ensures !Expired(e, e.createdAt + interval, interval)
    ensures Expired(e, e.createdAt + interval + 1, interval)
    ensures Expired(e, now, interval) ==> Expired(e, later, interval)
  {
  }

  /** Construction: an empty map and a reaper that is already running. */
  function NewCache(interval: int): (c: Cache)
    requires 0 < interval
    ensures c.reaper == Running && c.interval == interval
    ensures forall k :: Get(c, k) == Miss
  {
    Cache(map[], interval, Running)
  }

  /** Lookup. No expiry check happens on read and the cache is not changed. */
  function Get(c: Cache, key: string): (r: Lookup)
    ensures r.found <==> key in c.entries
    ensures r.found ==> r.val == c.entries[key].val
    ensures !r.found ==> r == Miss
  {
    if key in c.entries then Lookup(c.entries[key].val, true) else Miss
  }

  /** Insert or overwrite the entry for `key`, stamped with `now`. */
  function Add(c: Cache, now: int, key: string, val: Bytes): (r: Cache)
    ensures Get(r, key) == Lookup(val, true)
    ensures key in r.entries && r.entries[key].createdAt == now
    ensures r.entries.Keys == c.entries.Keys + {key}
    ensures forall k :: k in c.entries && k != key ==> r.entries[k] == c.entries[k]
    ensures r.interval == c.interval && r.reaper == c.reaper
  {
    c.(entries := c.entries[key := Entry(now, val)])
  }

  /**
   Send the stop signal. The channel is unbuffered and only the reaper
   receives on it, so the send only completes while the reaper runs: a second
   `Stop` would block forever, hence the precondition. No final sweep happens.
   */
  function Stop(c: Cache): (r: Cache)
    requires c.reaper == Running
    ensures r.reaper == Stopped
    ensures r.entries == c.entries && r.interval == c.interval
  {
    c.(reaper := Stopped)
  }

  /** Reference definition of one sweep: keep exactly the unexpired entries. */
  function Reap(entries: map<string, Entry>, now: int, interval: int): (kept: map<string, Entry>)
    ensures kept.Keys <= entries.Keys
    ensures forall k :: k in kept ==> kept[k] == entries[k]
    ensures forall k :: k in entries ==> (k in kept <==> !Expired(entries[k], now, interval))
  {
    map k | k in entries && !Expired(entries[k], now, interval) :: entries[k]
  }

  /**
   One sweep as the Go loop performs it: visit every key once and delete the
   entry when it is expired. Deleting the visited key while ranging over a Go
   map is allowed, so visiting a snapshot of the key set is the same thing.
   */
  method Sweep(entries: map<string, Entry>, now: int, interval: int) returns (kept: map<string, Entry>)
    ensures kept.Keys <= entries.Keys
    ensures forall k :: k in kept ==> kept[k] == entries[k]
    ensures forall k :: k in entries ==> (k in kept <==> !Expired(entries[k], now, interval))
    ensures kept == Reap(entries, now, interval)
  {
    kept := entries;
    var pending := entries.Keys;
    while pending != {}
      invariant pending <= entries.Keys
      invariant kept.Keys <= entries.Keys
      invariant forall k :: k in kept ==> kept[k] == entries[k]
      invariant forall k :: k in pending ==> k in kept
      invariant forall k :: k in entries && k !in pending ==> (k in kept <==> !Expired(entries[k], now, interval))
      decreases pending
    {
      var k :| k in pending;
      if Expired(entries[k], now, interval) {
        kept := kept - {k};
      }
      pending := pending - {k};
    }
  }

  /**
   One firing of the reaper's ticker at time `now`. While the reaper runs it
   sweeps; once it is stopped nothing happens any more.
   */
  function Tick(c: Cache, now: int): (r: Cache)
    ensures r.interval == c.interval && r.reaper == c.reaper
    ensures c.reaper == Stopped ==> r == c
    ensures r.entries.Keys <= c.entries.Keys
    ensures forall k :: k in r.entries ==> r.entries[k] == c.entries[k]
    ensures c.reaper == Running ==>
      forall k :: k in c.entries ==> (k in r.entries <==> !Expired(c.entries[k], now, c.interval))
    ensures c.reaper == Running ==>
      forall k :: k in r.entries ==> now - r.entries[k].createdAt <= r.interval
  {
    if c.reaper == Stopped then c else c.(entries := Reap(c.entries, now, c.interval))
  }

  /** A run of ticker firings at the given times, with no other activity. */
  function Ticks(c: Cache, times: seq<int>): Cache
    decreases |times|
  {
    if times == [] then c else Ticks(Tick(c, times[0]), times[1..])
  }

  /** Caller activity interleaved with ticker firings. */
  datatype Event = Added(now: int, key: string, val: Bytes) | Ticked(now: int)

  function Step(c: Cache, e: Event): Cache {
    match e
    case Added(now, key, val) => Add(c, now, key, val)
    case Ticked(now) => Tick(c, now)
  }

  function Replay(c: Cache, events: seq<Event>): Cache
    decreases |events|
  {
    if events == [] then c else Replay(Step(c, events[0]), events[1..])
  }

  // ---------------------------------------------------------------------------
  // Properties of single operations
  // ---------------------------------------------------------------------------

  /** An overwrite replaces the value and refreshes the timestamp; other keys read as before. */
  lemma AddOverwrites(c: Cache, now: int, key: string, val: Bytes, other: string)
    requires key in c.entries
    ensures Add(c, now, key, val).entries[key] == Entry(now, val)
    ensures |Add(c, now, key, val).entries| == |c.entries|
    ensures other != key ==> Get(Add(c, now, key, val), other) == Get(c, other)
  {
    assert Add(c, now, key, val).entries.Keys == c.entries.Keys;
  }

  /**
   There is no lazy expiry: an entry that is already older than the interval
   but has not been swept is still a hit.
   */
  lemma ExpiredButUnsweptIsHit(c: Cache, now: int, key: string)
    requires key in c.entries && Expired(c.entries[key], now, c.interval)
    ensures Get(c, key) == Lookup(c.entries[key].val, true)
  {
  }

  /** A key whose entry a running sweep deletes reads as a miss afterwards. */
  lemma ReapedIsMiss(c: Cache, now: int, key: string)
    requires c.reaper == Running
    requires key in c.entries && Expired(c.entries[key], now, c.interval)
    ensures Get(Tick(c, now), key) == Miss
  {
  }

  /** Sweeping twice at the same instant is sweeping once. */
  lemma TickIdempotent(c: Cache, now: int)
    ensures Tick(Tick(c, now), now) == Tick(c, now)
  {
    var once := Tick(c, now);
    var twice := Tick(once, now);
    assert twice.entries.Keys == once.entries.Keys;
  }

  // ---------------------------------------------------------------------------
  // Lifecycle
  // ---------------------------------------------------------------------------

  /** After `Stop`, any number of ticks leaves the cache exactly as it is. */
  lemma {:induction false} StoppedTicksAreIdentity(c: Cache, times: seq<int>)
    requires c.reaper == Stopped
    ensures Ticks(c, times) == c
    decreases |times|
  {
    if times != [] {
      StoppedTicksAreIdentity(Tick(c, times[0]), times[1..]);
    }
  }

  /**
   `Stopped` is terminal: no caller activity or ticker firing leads back to
   `Running`, and nothing present is ever deleted again.
   */
  lemma {:induction false} StoppedIsTerminal(c: Cache, events: seq<Event>)
    requires c.reaper == Stopped
    ensures Replay(c, events).reaper == Stopped
    ensures c.entries.Keys <= Replay(c, events).entries.Keys
    decreases |events|
  {
    if events != [] {
      StoppedIsTerminal(Step(c, events[0]), events[1..]);
    }
  }

  /** An entry added after `Stop` survives any number of ticks. */
  lemma AddedAfterStopSurvives(c: Cache, now: int, key: string, val: Bytes, times: seq<int>)
    requires c.reaper == Running
    ensures Get(Ticks(Add(Stop(c), now, key, val), times), key) == Lookup(val, true)
  {
    StoppedTicksAreIdentity(Add(Stop(c), now, key, val), times);
  }

  /** A key that is absent and never added again stays a miss, whatever ticks happen. */
  lemma {:induction false} NeverAddedIsMiss(c: Cache, events: seq<Event>, key: string)
    requires key !in c.entries
    requires forall i :: 0 <= i < |events| && events[i].Added? ==> events[i].key != key
    ensures Get(Replay(c, events), key) == Miss
    decreases |events|
  {
    if events != [] {
      NeverAddedIsMiss(Step(c, events[0]), events[1..], key);
    }
  }

  // ---------------------------------------------------------------------------
  // Eviction bound
  // ---------------------------------------------------------------------------

  /** Once gone, a key stays gone under ticks alone. */
  lemma {:induction false} GoneStaysGone(c: Cache, times: seq<int>, key: string)
    requires key !in c.entries
    ensures key !in Ticks(c, times).entries
    decreases |times|
  {
    if times != [] {
      GoneStaysGone(Tick(c, times[0]), times[1..], key);
    }
  }

  /**
   While the reaper runs and nobody writes, an entry is gone after the first
   tick whose time exceeds its creation time by more than the interval.
   */
  lemma {:induction false} EvictedByLateTick(c: Cache, times: seq<int>, key: string, late: nat)
    requires c.reaper == Running && key in c.entries
    requires late < |times| && Expired(c.entries[key], times[late], c.interval)
    ensures key !in Ticks(c, times).entries
    decreases |times|
  {
    var next := Tick(c, times[0]);
    if late == 0 {
      GoneStaysGone(next, times[1..], key);
    } else if key in next.entries {
      EvictedByLateTick(next, times[1..], key, late - 1);
    } else {
      GoneStaysGone(next, times[1..], key);
    }
  }

  /** Time of the `j`-th firing of a ticker started at `start` with period `interval`. */
  function FiringTime(start: int, interval: int, j: nat): int {
    start + j * interval
  }

  /**
   Index of the first firing that deletes an entry created at `t`: its time
   exceeds `t + interval`, the previous firing's does not, and it comes at
   most two intervals after `t`.
   */
  function FirstReapingFiring(start: int, interval: int, t: int): (j: nat)
    requires 0 < interval && start <= t
    ensures 1 <= j
    ensures t + interval < FiringTime(start, interval, j) <= t + 2 * interval
    ensures FiringTime(start, interval, j - 1) <= t + interval
  {
    var q := (t - start) / interval;
    var r := (t - start) % interval;
    assert t - start == q * interval + r && 0 <= r < interval;
    assert FiringTime(start, interval, q + 2) == start + q * interval + 2 * interval;
    assert FiringTime(start, interval, q + 1) == start + q * interval + interval;
    q + 2
  }

  /**
   With the ticker started at `start`, an entry added at `t >= start` while the
   reaper runs is gone at the first firing later than `t + interval`, which
   is at most two intervals after `t`.
   */
  lemma EvictedWithinTwoIntervals(c: Cache, start: int, key: string)
    requires c.reaper == Running && 0 < c.interval
    requires key in c.entries && start <= c.entries[key].createdAt
    ensures var j := FirstReapingFiring(start, c.interval, c.entries[key].createdAt);
      && key !in Tick(c, FiringTime(start, c.interval, j)).entries
      && FiringTime(start, c.interval, j) - c.entries[key].createdAt <= 2 * c.interval
  {
  }

  // ---------------------------------------------------------------------------
  // The scenarios exercised by internal/cache_test.go, in milliseconds
  // ---------------------------------------------------------------------------

  /** Add then Get returns the value, for a fresh cache. */
  lemma ScenarioAddGet(key: string, val: Bytes)
    ensures Get(Add(NewCache(5000), 0, key, val), key) == Lookup(val, true)
  {
  }

  /** Interval 5: an entry added at 0 survives the firing at 5 and is gone after the one at 10. */
  lemma ScenarioReapLoop(val: Bytes)
    ensures Get(Ticks(Add(NewCache(5), 0, "https://example.com", val), [5]), "https://example.com").found
    ensures Get(Ticks(Add(NewCache(5), 0, "https://example.com", val), [5, 10]), "https://example.com") == Miss
  {
    var c := Add(NewCache(5), 0, "https://example.com", val);
    assert Ticks(c, [5]) == Ticks(Tick(c, 5), []);
    assert Ticks(c, [5, 10]) == Ticks(Tick(Tick(c, 5), 10), []) by {
      assert [5, 10][1..] == [10];
    }
  }

  /**
   Interval 100: "test" is gone after the firings at 100 and 200; after `Stop`,
   "test2" survives the firings at 300 and 400.
   */
  lemma ScenarioCacheStop(data: Bytes, moreData: Bytes)
    ensures var c := Ticks(Add(NewCache(100), 0, "test", data), [100, 200]);
      && Get(c, "test") == Miss
      && Get(Ticks(Add(Stop(c), 200, "test2", moreData), [300, 400]), "test2").found
  {
    var c0 := Add(NewCache(100), 0, "test", data);
    assert Ticks(c0, [100, 200]) == Ticks(Tick(Tick(c0, 100), 200), []) by {
      assert [100, 200][1..] == [200];
    }
    var c := Ticks(c0, [100, 200]);
    AddedAfterStopSurvives(c, 200, "test2", moreData, [300, 400]);
  }
}
