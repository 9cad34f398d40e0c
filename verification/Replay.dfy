/** The replay cache (anti_replay.go) and what it and the timestamp check (handshake.go) achieve together. */
module Replay {
  import opened Crypto

  /** replayKey: 16 bytes of UUID and 12 of nonce, kept apart here. */
  datatype ReplayKey = ReplayKey(uuid: Bytes16, nonce: Bytes12)

  const GC_INTERVAL := 1024
  const NANOS := 1_000_000_000

  /** int64(window / time.Second): truncated towards zero. */
  function WholeSeconds(windowNanos: int): int {
    if windowNanos >= 0 then windowNanos / NANOS else -((-windowNanos) / NANOS)
  }

  /** ReplayWindow, in seconds and as the duration NewService passes. */
  const REPLAY_SECONDS := TIMESTAMP_WINDOW + 60
  const REPLAY_WINDOW := REPLAY_SECONDS * NANOS

  /** Whole seconds are kept exactly, fractions are dropped towards zero. */
  lemma SecondsExact(n: nat, fraction: nat)
    requires fraction < 1_000_000_000
    ensures WholeSeconds(n * 1_000_000_000 + fraction) == n
    ensures WholeSeconds(-(n * 1_000_000_000 + fraction)) + n == 0
    ensures WholeSeconds(REPLAY_WINDOW) == 180
  {
    assert (n * NANOS + fraction) / NANOS == n;
  }

  // ------------------------------------------------------------------
  // The cache as a value
  // ------------------------------------------------------------------

  datatype Cache = Cache(entries: map<ReplayKey, int>, sinceSweep: nat)

  const EMPTY := Cache(map[], 0)

  function Live(entries: map<ReplayKey, int>, now: int): map<ReplayKey, int> {
    map k | k in entries && entries[k] > now :: entries[k]
  }

  predicate Admits(c: Cache, now: int, k: ReplayKey) {
    !(k in c.entries && c.entries[k] > now)
  }

  /** Does admitting one more pair trigger the sweep? */
  predicate Sweeps(c: Cache) { c.sinceSweep + 1 >= GC_INTERVAL }

  /** MarkSeenOrReject with window `w` seconds: the cache after the call. */
  function Mark(c: Cache, w: int, now: int, k: ReplayKey): Cache {
    if !Admits(c, now, k) then c
    else
      var entries := c.entries[k := now + w];
      if Sweeps(c) then Cache(Live(entries, now), 0) else Cache(entries, c.sinceSweep + 1)
  }

  /** The mutable cache, proved to be the value above. Clock readings are arguments. */
  class ReplayCache {
    var entries: map<ReplayKey, int>
    const window: int
    var gcCounter: nat
    /** Every call so far, in the order the mutex admitted them. */
    ghost var calls: seq<Call>

    ghost predicate Valid()
      reads this
    {
      Abs() == CacheAfter(WholeSeconds(window), calls)
    }

    ghost function Abs(): Cache
      reads this
    {
      Cache(entries, gcCounter)
    }

    constructor (window: int)
      ensures Abs() == EMPTY && this.window == window && calls == [] && Valid()
    {
      this.window, entries, gcCounter, calls := window, map[], 0, [];
    }

    method MarkSeenOrReject(now: int, uuid: Bytes16, nonce: Bytes12) returns (admitted: bool)
      modifies this
      ensures admitted == Admits(old(Abs()), now, ReplayKey(uuid, nonce))
      ensures Abs() == Mark(old(Abs()), WholeSeconds(window), now, ReplayKey(uuid, nonce))
      ensures calls == old(calls) + [Call(now, ReplayKey(uuid, nonce))] && (old(Valid()) ==> Valid())
    {
      hide WholeSeconds;
      calls := calls + [Call(now, ReplayKey(uuid, nonce))];
      assert calls[..|calls| - 1] == old(calls);
      var expiry := now + WholeSeconds(window);
      var key := ReplayKey(uuid, nonce);
      if key in entries && entries[key] > now {
        return false;
      }
      entries := entries[key := expiry];
      gcCounter := gcCounter + 1;
      if gcCounter >= GC_INTERVAL {
        gcCounter := 0;
        GcLocked(now);
      }
      return true;
    }

    /** gcLocked: deletes while iterating. */
    method GcLocked(now: int)
      modifies this`entries
      ensures entries == Live(old(entries), now)
      ensures forall k | k in old(entries) :: k in entries <==> old(entries)[k] > now
    {
      var todo := entries.Keys;
      while todo != {}
        invariant todo <= entries.Keys
        invariant forall k | k in entries :: k in old(entries) && entries[k] == old(entries)[k]
        invariant forall k | k in entries && k !in todo :: entries[k] > now
        invariant forall k | k in old(entries) && old(entries)[k] > now :: k in entries
        decreases |todo|
      {
        var k :| k in todo;
        todo := todo - {k};
        if entries[k] <= now {
          entries := entries - {k};
        }
      }
    }
  }

  // ------------------------------------------------------------------
  // Runs
  // ------------------------------------------------------------------

  /** One call, in the order the mutex admits them. */
  datatype Call = Call(now: int, key: ReplayKey)

  function CacheAfter(w: int, calls: seq<Call>): Cache {
    if calls == [] then EMPTY
    else
      var n := |calls| - 1;
      Mark(CacheAfter(w, calls[..n]), w, calls[n].now, calls[n].key)
  }

  /** The calls that were admitted, in order. */
  function Admissions(w: int, calls: seq<Call>): seq<Call> {
    if calls == [] then []
    else
      var n := |calls| - 1;
      Admissions(w, calls[..n]) + if Admits(CacheAfter(w, calls[..n]), calls[n].now, calls[n].key) then [calls[n]] else []
  }

  /** Is an admission of the pair in `history` still inside the window? */
  predicate Remembered(w: int, history: seq<Call>, now: int, k: ReplayKey) {
    exists a | a in history :: a.key == k && a.now + w > now
  }

  /** Reference: an unbounded record that admits exactly what it does not remember. */
  function History(w: int, calls: seq<Call>): seq<Call> {
    if calls == [] then []
    else
      var n := |calls| - 1;
      var past := History(w, calls[..n]);
      past + if Remembered(w, past, calls[n].now, calls[n].key) then [] else [calls[n]]
  }

  ghost predicate NonDecreasing(calls: seq<Call>) {
    forall i, j | 0 <= i < j < |calls| :: calls[i].now <= calls[j].now
  }

  /** The entries hold only admissions, and at least every admission still inside its window at `now`. */
  ghost predicate Faithful(entries: map<ReplayKey, int>, w: int, admitted: seq<Call>, now: int) {
    && (forall k | k in entries :: Call(entries[k] - w, k) in admitted)
    && (forall a | a in admitted && a.now + w > now :: a.key in entries && entries[a.key] >= a.now + w)
  }

  /** Faithfulness decides: the cache admits exactly what the record does not remember. */
  lemma FaithfulDecides(c: Cache, w: int, admitted: seq<Call>, now: int, k: ReplayKey)
    requires Faithful(c.entries, w, admitted, now)
    ensures Admits(c, now, k) <==> !Remembered(w, admitted, now, k)
  {
    if !Admits(c, now, k) {
      assert Call(c.entries[k] - w, k) in admitted;
    }
  }

  lemma FaithfulEmpty(w: int, now: int)
    ensures Faithful(map[], w, [], now)
  {
  }

  lemma FaithfulLater(entries: map<ReplayKey, int>, w: int, admitted: seq<Call>, last: int, now: int)
    requires Faithful(entries, w, admitted, last) && last <= now
    ensures Faithful(entries, w, admitted, now)
  {
  }

  lemma FaithfulInsert(entries: map<ReplayKey, int>, w: int, admitted: seq<Call>, now: int, k: ReplayKey)
    requires Faithful(entries, w, admitted, now)
    requires forall a | a in admitted :: a.now <= now
    ensures Faithful(entries[k := now + w], w, admitted + [Call(now, k)], now)
  {
  }

  lemma FaithfulSweep(entries: map<ReplayKey, int>, w: int, admitted: seq<Call>, now: int)
    requires Faithful(entries, w, admitted, now)
    ensures Faithful(Live(entries, now), w, admitted, now)
  {
  }

  lemma FaithfulMark(c: Cache, w: int, admitted: seq<Call>, now: int, k: ReplayKey)
    requires Faithful(c.entries, w, admitted, now)
    requires forall a | a in admitted :: a.now <= now
    ensures Faithful(Mark(c, w, now, k).entries, w, admitted + if Admits(c, now, k) then [Call(now, k)] else [], now)
  {
    hide Faithful, Live;
    if Admits(c, now, k) {
      FaithfulInsert(c.entries, w, admitted, now, k);
      FaithfulSweep(c.entries[k := now + w], w, admitted + [Call(now, k)], now);
    } else {
      assert admitted + [] == admitted;
    }
  }

  lemma {:induction false} AdmissionsArePast(w: int, calls: seq<Call>, now: int)
    requires forall i | 0 <= i < |calls| :: calls[i].now <= now
    ensures forall a | a in Admissions(w, calls) :: a.now <= now
  {
    if calls != [] {
      AdmissionsArePast(w, calls[..|calls| - 1], now);
    }
  }

  lemma {:induction false} CacheIsFaithful(w: int, calls: seq<Call>, now: int)
    requires NonDecreasing(calls) && forall i | 0 <= i < |calls| :: calls[i].now <= now
    ensures Faithful(CacheAfter(w, calls).entries, w, Admissions(w, calls), now)
  {
    hide Faithful, Mark, Admits;
    if calls == [] {
      FaithfulEmpty(w, now);
    } else {
      var n := |calls| - 1;
      var t, key := calls[n].now, calls[n].key;
      CacheIsFaithful(w, calls[..n], t);
      AdmissionsArePast(w, calls[..n], t);
      FaithfulMark(CacheAfter(w, calls[..n]), w, Admissions(w, calls[..n]), t, key);
      FaithfulLater(CacheAfter(w, calls).entries, w, Admissions(w, calls), t, now);
    }
  }

  /** The swept cache refines the unbounded record: under non-decreasing readings it admits, call for call, exactly
      the pairs of which no earlier admission is still inside the window. */
  lemma {:induction false} CacheRefinesHistory(w: int, calls: seq<Call>)
    requires NonDecreasing(calls)
    ensures Admissions(w, calls) == History(w, calls)
  {
    if calls != [] {
      var n := |calls| - 1;
      var now := calls[n].now;
      CacheRefinesHistory(w, calls[..n]);
      CacheIsFaithful(w, calls[..n], now);
      FaithfulDecides(CacheAfter(w, calls[..n]), w, Admissions(w, calls[..n]), now, calls[n].key);
    }
  }

  /** Size right after the last sweep. */
  function SweptSize(w: int, calls: seq<Call>): nat {
    if calls == [] then 0
    else
      var n := |calls| - 1;
      var c := CacheAfter(w, calls[..n]);
      if Admits(c, calls[n].now, calls[n].key) && Sweeps(c) then |CacheAfter(w, calls).entries|
      else SweptSize(w, calls[..n])
  }

  /** Memory is bounded by what was live at the last sweep plus less than one interval of admissions. */
  lemma {:induction false} CacheSizeBounded(w: int, calls: seq<Call>)
    ensures var c := CacheAfter(w, calls);
            |c.entries| <= SweptSize(w, calls) + c.sinceSweep && c.sinceSweep <= 1023
  {
    if calls != [] {
      var n := |calls| - 1;
      CacheSizeBounded(w, calls[..n]);
      var c := CacheAfter(w, calls[..n]);
      var entries := c.entries[calls[n].key := calls[n].now + w];
      assert entries.Keys == c.entries.Keys + {calls[n].key};
    }
  }

  /** The entry of an admitted pair stands until its window is over, through later calls and sweeps. */
  lemma {:induction false} EntryStands(w: int, calls: seq<Call>, i: nat)
    requires w > 0 && i < |calls| && Admits(CacheAfter(w, calls[..i]), calls[i].now, calls[i].key)
    requires forall j | i < j < |calls| :: calls[j].now < calls[i].now + w
    ensures var c := CacheAfter(w, calls); calls[i].key in c.entries && c.entries[calls[i].key] == calls[i].now + w
  {
    var n := |calls| - 1;
    if i < n {
      assert calls[..n][..i] == calls[..i];
      EntryStands(w, calls[..n], i);
    }
  }

  /** The law of the standard cache, in seconds: a pair admitted at t is refused for every reading before t + 180 and
      admitted again from t + 180 on, whatever other calls and sweeps come in between. */
  lemma RemembersExactly(c: ReplayCache, i: nat, now: int)
    requires c.Valid() && c.window == 180_000_000_000 && i < |c.calls|
    requires Admits(CacheAfter(180, c.calls[..i]), c.calls[i].now, c.calls[i].key)
    requires forall j | i < j < |c.calls| :: c.calls[j].now < c.calls[i].now + 180
    ensures Admits(c.Abs(), now, c.calls[i].key) <==> now >= c.calls[i].now + 180
  {
    SecondsExact(180, 0);
    EntryStands(180, c.calls, i);
  }

  // ------------------------------------------------------------------
  // Readings in any order
  // ------------------------------------------------------------------

  ghost predicate ReadingsIn(calls: seq<Call>, lo: int, hi: int) {
    forall i | 0 <= i < |calls| :: lo <= calls[i].now <= hi
  }

  ghost predicate DistinctKeys(calls: seq<Call>) {
    forall i, j | 0 <= i < j < |calls| :: calls[i].key != calls[j].key
  }

  /** Within one window, an admitted pair stays in the cache through every sweep and is never admitted again. */
  lemma {:induction false} AdmittedIsKept(w: int, calls: seq<Call>, lo: int, hi: int)
    requires ReadingsIn(calls, lo, hi) && hi < lo + w
    ensures var c := CacheAfter(w, calls);
            forall a | a in Admissions(w, calls) :: a.key in c.entries && c.entries[a.key] > hi
    ensures DistinctKeys(Admissions(w, calls))
  {
    if calls != [] {
      AdmittedIsKept(w, calls[..|calls| - 1], lo, hi);
    }
  }

  /** Concurrent callers read the clock before taking the lock, so readings come in any order. Whatever the order and
      the sweeps, every pair is admitted at most once in all runs exactly when the readings spread over less than the
      window. */
  lemma AtMostOnceWithinWindow(w: int, lo: int, hi: int, k: ReplayKey)
    requires lo <= hi
    ensures (forall calls: seq<Call> | ReadingsIn(calls, lo, hi) :: DistinctKeys(Admissions(w, calls))) <==> hi - lo < w
  {
    if hi - lo < w {
      forall calls: seq<Call> | ReadingsIn(calls, lo, hi) ensures DistinctKeys(Admissions(w, calls)) {
        AdmittedIsKept(w, calls, lo, hi);
      }
    } else {
      AdmittedTwice(w, lo, hi, k);
    }
  }

  lemma AdmittedTwice(w: int, lo: int, hi: int, k: ReplayKey)
    requires lo + w <= hi
    ensures Admissions(w, [Call(lo, k), Call(hi, k)]) == [Call(lo, k), Call(hi, k)]
    ensures !DistinctKeys([Call(lo, k), Call(hi, k)])
  {
    assert [Call(lo, k), Call(hi, k)][0].key == [Call(lo, k), Call(hi, k)][1].key;
    var one, two := [Call(lo, k)], [Call(lo, k), Call(hi, k)];
    assert two[..1] == one && one[..0] == [];
    assert CacheAfter(w, []) == EMPTY && Admissions(w, one) == one;
    assert CacheAfter(w, one) == Cache(map[k := lo + w], 1);
    assert Admits(CacheAfter(w, one), hi, k);
  }

  // ------------------------------------------------------------------
  // With the timestamp check
  // ------------------------------------------------------------------

  function AbsDiff(a: int, b: int): nat {
    if a > b then a - b else b - a
  }

  /** One authenticated ClientHello reaching the two checks. The server reads the clock once for the timestamp
      (`checked`) and once more inside the cache (`marked`). */
  datatype Attempt = Attempt(timestamp: nat, key: ReplayKey, checked: int, marked: int)

  /** Two minutes either way. */
  predicate InWindow(a: Attempt): (r: bool)
    ensures r <==> a.checked - 120 <= a.timestamp <= a.checked + 120
  {
    AbsDiff(a.timestamp, a.checked) <= TIMESTAMP_WINDOW
  }

  predicate AcceptsAttempt(c: Cache, a: Attempt) { InWindow(a) && Admits(c, a.marked, a.key) }

  function AfterAttempt(c: Cache, a: Attempt): Cache {
    if InWindow(a) then Mark(c, REPLAY_SECONDS, a.marked, a.key) else c
  }

  function ServerAfter(attempts: seq<Attempt>): Cache {
    if attempts == [] then EMPTY
    else AfterAttempt(ServerAfter(attempts[..|attempts| - 1]), attempts[|attempts| - 1])
  }

  predicate Accepted(attempts: seq<Attempt>, i: nat)
    requires i < |attempts|
  {
    AcceptsAttempt(ServerAfter(attempts[..i]), attempts[i])
  }

  /** Readings never go back, and the two readings of one attempt are at most `delay` apart. */
  ghost predicate Clocked(attempts: seq<Attempt>, delay: nat) {
    && (forall i | 0 <= i < |attempts| :: attempts[i].checked <= attempts[i].marked <= attempts[i].checked + delay)
    && (forall i, j | 0 <= i < j < |attempts| :: attempts[i].marked <= attempts[j].checked)
  }

  /** After an acceptance the pair's entry lasts the whole window, through later attempts and sweeps. */
  lemma {:induction false} EntryLasts(attempts: seq<Attempt>, delay: nat, i: nat)
    requires Clocked(attempts, delay) && i < |attempts| && Accepted(attempts, i)
    requires attempts[|attempts| - 1].marked < attempts[i].marked + REPLAY_SECONDS
    ensures var c := ServerAfter(attempts);
            attempts[i].key in c.entries && c.entries[attempts[i].key] >= attempts[i].marked + REPLAY_SECONDS
  {
    var n := |attempts| - 1;
    if i < n {
      var before := attempts[..n];
      assert before[..i] == attempts[..i];
      EntryLasts(before, delay, i);
    }
  }

  /** How far ahead of the server's clock a timestamp may be: 60 seconds, less the delay between the two readings, but
      never less than -120, where the timestamp check itself stops. */
  function Margin(delay: nat): int { 60 - if delay < REPLAY_SECONDS then delay else REPLAY_SECONDS }

  /** A hello first accepted at t0 is never accepted again in any run, provided its timestamp was less than
      t0 + Margin(delay): before t0 + 180 the cache still knows it, afterwards the timestamp check refuses it. */
  lemma NoReplayInsideMargin(attempts: seq<Attempt>, delay: nat, i: nat, j: nat)
    requires Clocked(attempts, delay) && i < j < |attempts| && Accepted(attempts, i)
    requires attempts[j].timestamp == attempts[i].timestamp && attempts[j].key == attempts[i].key
    requires attempts[i].timestamp < attempts[i].marked + Margin(delay)
    ensures !Accepted(attempts, j)
  {
    if attempts[j].marked < attempts[i].marked + REPLAY_SECONDS {
      var before := attempts[..j];
      assert before[..i] == attempts[..i];
      EntryLasts(before, delay, i);
    }
  }

  /** The same hello again, its timestamp checked at t and its pair looked up e later. */
  function Again(a: Attempt, t: int, e: nat): Attempt { Attempt(a.timestamp, a.key, t, t + e) }

  /** The margin is exact, for every delay: a hello accepted at t0 can be accepted a second time, at some later moment,
      exactly when its timestamp was t0 + Margin(delay) or more. The timestamp check allows up to t0 + 120. */
  lemma ReplayMarginIsExact(attempts: seq<Attempt>, delay: nat)
    requires attempts != [] && Clocked(attempts, delay) && Accepted(attempts, |attempts| - 1)
    ensures var first := attempts[|attempts| - 1];
            (exists t: int, e: nat ::
               t >= first.marked && e <= delay && AcceptsAttempt(ServerAfter(attempts), Again(first, t, e)))
            <==> first.timestamp >= first.marked + Margin(delay)
  {
    var n := |attempts| - 1;
    var first := attempts[n];
    var t1 := first.marked + REPLAY_SECONDS;
    assert ServerAfter(attempts).entries[first.key] == t1;
    if first.timestamp >= first.marked + Margin(delay) {
      var t := first.timestamp + TIMESTAMP_WINDOW;
      assert AcceptsAttempt(ServerAfter(attempts), Again(first, t, delay));
    }
  }
}
