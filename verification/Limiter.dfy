/** The login limiter: a map of attempt records per key, pruned on every reservation and cut
    back when it grows too large.  Times are integers (nanoseconds); the caller passes the
    clock reading that the code takes under its lock. */
module Limiter {
  import opened Basics

  datatype Record = Record(count: int, lockedUntil: Option<int>, lastSeen: int)

  type Attempts = map<string, Record>

  datatype Config = Config(max: int, window: int) {
    predicate Valid() { max >= 1 && window > 0 }
  }

  const MAX_KEYS := 50_000
  const MINUTE := 60_000_000_000

  predicate Locked(rec: Record, now: int) {
    rec.lockedUntil.Some? && now < rec.lockedUntil.value
  }

  predicate Stale(c: Config, rec: Record, now: int) {
    !Locked(rec, now) && rec.lastSeen < now - c.window
  }

  // ----- Pruning -----

  function Live(c: Config, m: Attempts, now: int): Attempts {
    map k | k in m && !Stale(c, m[k], now) :: m[k]
  }

  /** One scan over the map in the given order, as the eviction loop does it: the empty key
      doubles as "nothing found yet". */
  function Scan(m: Attempts, now: int, order: seq<string>): (string, int)
    requires forall k :: k in order ==> k in m
  {
    if order == [] then ("", 0)
    else
      var (key, oldest) := Scan(m, now, order[..|order| - 1]);
      var k := order[|order| - 1];
      if !Locked(m[k], now) && (key == "" || m[k].lastSeen < oldest) then (k, m[k].lastSeen) else (key, oldest)
  }

  /** The order in which one loop over the map may visit its keys. */
  ghost predicate Visits(order: seq<string>, keys: set<string>) {
    && (forall k :: k in order <==> k in keys)
    && (forall i, j :: 0 <= i < j < |order| ==> order[i] != order[j])
  }

  /** `key` is an unlocked record, and none that is not locked was seen before it. */
  predicate LeastRecent(m: Attempts, now: int, key: string) {
    && key in m && !Locked(m[key], now)
    && forall k :: k in m && !Locked(m[k], now) ==> m[key].lastSeen <= m[k].lastSeen
  }

  predicate AllLocked(m: Attempts, now: int) {
    forall k :: k in m ==> Locked(m[k], now)
  }

  /** The empty key is unlocked and was seen strictly before every other unlocked key. */
  predicate EmptyKeyIsOldest(m: Attempts, now: int) {
    && "" in m && !Locked(m[""], now)
    && forall k :: k in m && k != "" && !Locked(m[k], now) ==> m[""].lastSeen < m[k].lastSeen
  }

  /** What a scan may pick to go; the empty string stands for nothing.  PicksIsExact shows that
      these are the results of the scans, over all orders. */
  predicate Picks(m: Attempts, now: int, key: string) {
    if AllLocked(m, now) then key == ""
    else if EmptyKeyIsOldest(m, now) then key in m && !Locked(m[key], now)
    else key != "" && LeastRecent(m, now, key)
  }

  /** The eviction loop: as long as the map is at capacity, a scan picks the next record to go,
      or ends the loop by picking none. */
  ghost predicate EvictsTo(m: Attempts, now: int, after: Attempts)
    decreases |m|
  {
    if |m| < MAX_KEYS then after == m
    else exists key ::
      && Picks(m, now, key)
      && if key == "" then after == m
         else |m - {key}| < |m| && EvictsTo(m - {key}, now, after)
  }

  /** What a prune may turn the map into; PruneMeans says what that amounts to. */
  ghost predicate Pruned(c: Config, before: Attempts, now: int, after: Attempts) {
    EvictsTo(Live(c, before, now), now, after)
  }

  /** Every record dropped is no newer than any unlocked record kept. */
  ghost predicate Newer(now: int, live: Attempts, after: Attempts)
    requires after.Keys <= live.Keys
  {
    forall d, k :: d in live && d !in after && k in after && !Locked(after[k], now) ==>
                     live[d].lastSeen <= after[k].lastSeen
  }

  // ----- Reserving -----

  datatype Outcome = Outcome(rec: Record, allowed: bool, retryAfter: int)

  /** One attempt against the record kept for its key, if any. */
  function Attempt(c: Config, rec: Option<Record>, now: int): Outcome {
    if rec.None? then Outcome(Record(1, None, now), true, 0)
    else if Locked(rec.value, now) then Outcome(rec.value, false, rec.value.lockedUntil.value - now)
    else
      var count := if rec.value.lockedUntil.Some? then 0 else rec.value.count;
      if count >= c.max then Outcome(Record(0, Some(now + c.window), now), false, c.window)
      else Outcome(Record(count + 1, None, now), true, 0)
  }

  ghost predicate ReserveStep(c: Config, before: Attempts, key: string, now: int,
                              after: Attempts, allowed: bool, retryAfter: int)
  {
    exists pruned ::
      && Pruned(c, before, now, pruned)
      && var o := Attempt(c, Get(pruned, key), now);
         after == pruned[key := o.rec] && allowed == o.allowed && retryAfter == o.retryAfter
  }

  class LoginLimiter {
    var attempts: Attempts
    const config: Config

    /** Unusable settings fall back to five attempts in fifteen minutes. */
    constructor (max: int, window: int)
      ensures attempts == map[] && config.Valid()
      ensures config.max == (if max <= 0 then 5 else max)
      ensures config.window == (if window <= 0 then 15 * 60_000_000_000 else window)
    {
      attempts := map[];
      config := Config(if max <= 0 then 5 else max, if window <= 0 then 15 * MINUTE else window);
    }

    /** Claims one attempt for the key; checking and counting are one step. */
    method Reserve(key: string, now: int) returns (allowed: bool, retryAfter: int)
      modifies this
      ensures ReserveStep(config, old(attempts), key, now, attempts, allowed, retryAfter)
      ensures if allowed then retryAfter == 0 else config.Valid() ==> retryAfter > 0
    {
      PruneLocked(now);
      ghost var pruned := attempts;
      if key !in attempts {
        attempts := attempts[key := Record(1, None, now)];
        return true, 0;
      }
      var rec := attempts[key];
      if Locked(rec, now) {
        assert attempts[key := rec] == attempts;
        return false, rec.lockedUntil.value - now;
      }
      if rec.lockedUntil.Some? {
        rec := rec.(lockedUntil := None, count := 0);
      }
      rec := rec.(lastSeen := now);
      if rec.count >= config.max {
        rec := rec.(lockedUntil := Some(now + config.window), count := 0);
        attempts := attempts[key := rec];
        return false, config.window;
      }
      rec := rec.(count := rec.count + 1);
      attempts := attempts[key := rec];
      return true, 0;
    }

    /** Releases the attempts counted for the key. */
    method Succeed(key: string)
      modifies this
      ensures attempts == old(attempts) - {key}
    {
      attempts := attempts - {key};
    }

    method PruneLocked(now: int)
      modifies this
      ensures Pruned(config, old(attempts), now, attempts)
    {
      DropStale(now);
      ghost var live := attempts;
      while |attempts| >= MAX_KEYS
        invariant forall after :: EvictsTo(attempts, now, after) ==> EvictsTo(live, now, after)
        decreases |attempts|
      {
        var oldestKey := FindOldest(now);
        if oldestKey == "" {
          assert EvictsTo(attempts, now, attempts);
          return;
        }
        assert (attempts - {oldestKey}).Keys == attempts.Keys - {oldestKey};
        attempts := attempts - {oldestKey};
      }
      assert EvictsTo(attempts, now, attempts);
    }

    /** The first loop: drops records that are neither locked nor seen within the window. */
    method DropStale(now: int)
      modifies this
      ensures attempts == Live(config, old(attempts), now)
    {
      var staleBefore := now - config.window;
      var todo := attempts.Keys;
      while todo != {}
        invariant todo <= old(attempts).Keys
        invariant attempts == map k | k in old(attempts) && (k in todo || !Stale(config, old(attempts)[k], now)) ::
                                old(attempts)[k]
        decreases |todo|
      {
        var key :| key in todo;
        var rec := attempts[key];
        todo := todo - {key};
        if Locked(rec, now) {
          continue;
        }
        if rec.lastSeen < staleBefore {
          attempts := attempts - {key};
        }
      }
    }

    /** The inner scan of the second loop; the empty string says there is nothing to drop. */
    method FindOldest(now: int) returns (oldestKey: string)
      ensures Picks(attempts, now, oldestKey)
    {
      oldestKey := "";
      var oldest := 0;
      var todo := attempts.Keys;
      ghost var order := [];
      while todo != {}
        invariant todo <= attempts.Keys
        invariant Visits(order, attempts.Keys - todo)
        invariant (oldestKey, oldest) == Scan(attempts, now, order)
        decreases |todo|
      {
        var key :| key in todo;
        var rec := attempts[key];
        todo := todo - {key};
        assert (order + [key])[..|order|] == order;
        order := order + [key];
        if Locked(rec, now) {
          continue;
        }
        if oldestKey == "" || rec.lastSeen < oldest {
          oldestKey, oldest := key, rec.lastSeen;
        }
      }
      assert attempts.Keys - todo == attempts.Keys;
      PicksIsExact(attempts, now, oldestKey);
    }
  }

  /** Without the empty key, a scan finds a least recent unlocked record among those visited. */
  lemma {:induction false} ScanFinds(m: Attempts, now: int, order: seq<string>)
    requires forall k :: k in order ==> k in m
    ensures var (key, oldest) := Scan(m, now, order);
            && (key != "" ==> key in order && !Locked(m[key], now) && oldest == m[key].lastSeen)
            && ("" !in order ==>
                  forall k :: k in order && !Locked(m[k], now) ==> key != "" && oldest <= m[k].lastSeen)
  {
    if order != [] {
      ScanFinds(m, now, order[..|order| - 1]);
      assert order == order[..|order| - 1] + [order[|order| - 1]];
    }
  }

  // ----- When eviction drops the right record -----

  lemma {:induction false} ScanKeepsOldest(m: Attempts, now: int, order: seq<string>, best: string)
    requires forall k :: k in order ==> k in m
    requires best != "" && LeastRecent(m, now, best)
    ensures var (key, oldest) := Scan(m, now, order);
            && (key != "" ==> oldest >= m[best].lastSeen)
            && (best in order ==> key != "" && oldest == m[best].lastSeen)
  {
    if order != [] {
      ScanFinds(m, now, order[..|order| - 1]);
      ScanKeepsOldest(m, now, order[..|order| - 1], best);
      assert order == order[..|order| - 1] + [order[|order| - 1]];
    }
  }

  lemma {:induction false} OrderExists(keys: set<string>)
    ensures exists order :: Visits(order, keys)
  {
    if keys == {} {
      assert Visits([], keys);
    } else {
      var k :| k in keys;
      OrderExists(keys - {k});
      var order :| Visits(order, keys - {k});
      assert Visits(order + [k], keys);
    }
  }

  lemma LeastRecentExists(m: Attempts, now: int)
    requires !AllLocked(m, now)
    ensures exists k :: LeastRecent(m, now, k)
  {
    var start :| start in m && !Locked(m[start], now);
    var best, todo := start, m.Keys;
    while todo != {}
      invariant todo <= m.Keys
      invariant best in m && !Locked(m[best], now)
      invariant forall k :: k in m && k !in todo && !Locked(m[k], now) ==> m[best].lastSeen <= m[k].lastSeen
      decreases |todo|
    {
      var k :| k in todo;
      todo := todo - {k};
      if !Locked(m[k], now) && m[k].lastSeen < m[best].lastSeen {
        best := k;
      }
    }
    assert LeastRecent(m, now, best);
  }

  lemma ScanIsPicked(m: Attempts, now: int, order: seq<string>)
    requires Visits(order, m.Keys)
    ensures Picks(m, now, Scan(m, now, order).0)
  {
    ScanFinds(m, now, order);
    if !AllLocked(m, now) && !EmptyKeyIsOldest(m, now) {
      LeastRecentExists(m, now);
      var best :| LeastRecent(m, now, best);
      if best == "" {
        best :| best in m && best != "" && !Locked(m[best], now) && m[best].lastSeen <= m[""].lastSeen;
      }
      ScanKeepsOldest(m, now, order, best);
    }
  }

  /** One more key at the end of the order. */
  lemma ScanOneMore(m: Attempts, now: int, order: seq<string>, k: string)
    requires k in m && forall x :: x in order ==> x in m
    ensures var (key, oldest) := Scan(m, now, order);
            Scan(m, now, order + [k])
            == if !Locked(m[k], now) && (key == "" || m[k].lastSeen < oldest) then (k, m[k].lastSeen) else (key, oldest)
  {
    assert (order + [k])[..|order|] == order;
  }

  /** When the empty key is the oldest, a scan that visits it last but one, or last, picks
      whichever unlocked record it visits last. */
  lemma LastIsPicked(m: Attempts, now: int, key: string) returns (order: seq<string>)
    requires EmptyKeyIsOldest(m, now) && key in m && !Locked(m[key], now)
    ensures Visits(order, m.Keys) && Scan(m, now, order).0 == key
  {
    OrderExists(m.Keys - {"", key});
    var others :| Visits(others, m.Keys - {"", key});
    ScanFinds(m, now, others);
    ScanOneMore(m, now, others, "");
    order := others + [""];
    if key != "" {
      ScanOneMore(m, now, order, key);
      order := order + [key];
    }
  }

  /** A least recent record that is visited first is picked. */
  lemma {:induction false} FirstIsPicked(m: Attempts, now: int, key: string, others: seq<string>)
    requires key != "" && LeastRecent(m, now, key)
    requires forall k :: k in others ==> k in m
    ensures Scan(m, now, [key] + others) == (key, m[key].lastSeen)
  {
    if others == [] {
      assert [key] + others == [] + [key];
      ScanOneMore(m, now, [], key);
    } else {
      var n := |others| - 1;
      assert others == others[..n] + [others[n]];
      assert [key] + others == ([key] + others[..n]) + [others[n]];
      FirstIsPicked(m, now, key, others[..n]);
      ScanOneMore(m, now, [key] + others[..n], others[n]);
    }
  }

  /** What a scan may pick, exactly: nothing if all records are locked; a least recently seen one
      if there is one that is not the empty key; but any unlocked record, or nothing, if the
      empty key is the oldest. */
  lemma PicksIsExact(m: Attempts, now: int, key: string)
    ensures Picks(m, now, key) <==> exists order :: Visits(order, m.Keys) && Scan(m, now, order).0 == key
  {
    if order :| Visits(order, m.Keys) && Scan(m, now, order).0 == key {
      ScanIsPicked(m, now, order);
    } else if Picks(m, now, key) {
      if AllLocked(m, now) {
        OrderExists(m.Keys);
        var any :| Visits(any, m.Keys);
        ScanFinds(m, now, any);
      } else if EmptyKeyIsOldest(m, now) {
        var last := LastIsPicked(m, now, key);
      } else {
        OrderExists(m.Keys - {key});
        var others :| Visits(others, m.Keys - {key});
        FirstIsPicked(m, now, key, others);
        assert Visits([key] + others, m.Keys);
      }
    }
  }

  // ----- What evictions keep -----

  /** One turn of the eviction loop: it ends, or one unlocked record goes. */
  lemma OneEviction(m: Attempts, now: int, after: Attempts) returns (key: string)
    requires EvictsTo(m, now, after) && |m| >= MAX_KEYS
    ensures Picks(m, now, key)
    ensures if key == "" then after == m else EvictsTo(m - {key}, now, after) && |m - {key}| == |m| - 1
  {
    key :|
      && Picks(m, now, key)
      && if key == "" then after == m
         else |m - {key}| < |m| && EvictsTo(m - {key}, now, after);
    assert (m - {key}).Keys == m.Keys - {key};
  }

  /** Eviction only removes, and never a locked record. */
  lemma {:induction false} EvictionKeeps(m: Attempts, now: int, after: Attempts, k: string)
    requires EvictsTo(m, now, after)
    ensures k in after ==> k in m && after[k] == m[k]
    ensures k in m && Locked(m[k], now) ==> k in after
    decreases |m|
  {
    if |m| >= MAX_KEYS {
      var key := OneEviction(m, now, after);
      if key != "" {
        EvictionKeeps(m - {key}, now, after, k);
      }
    }
  }

  lemma EvictionKeepsAll(m: Attempts, now: int, after: Attempts)
    requires EvictsTo(m, now, after)
    ensures after.Keys <= m.Keys && forall k :: k in after ==> after[k] == m[k]
    ensures forall k :: k in m && Locked(m[k], now) ==> k in after
  {
    forall k
      ensures k in after ==> k in m && after[k] == m[k]
      ensures k in m && Locked(m[k], now) ==> k in after
    {
      EvictionKeeps(m, now, after, k);
    }
  }

  /** It goes no further than it must, and stops early only when all records are locked or the
      empty key is the oldest of the unlocked ones. */
  lemma {:induction false} EvictionStops(m: Attempts, now: int, after: Attempts)
    requires EvictsTo(m, now, after)
    ensures |m| >= MAX_KEYS ==> |after| >= MAX_KEYS - 1
    ensures |after| >= MAX_KEYS ==> AllLocked(after, now) || EmptyKeyIsOldest(after, now)
    decreases |m|
  {
    if |m| >= MAX_KEYS {
      var key := OneEviction(m, now, after);
      if key != "" {
        EvictionStops(m - {key}, now, after);
      }
    }
  }

  lemma DropKeepsNewer(m: Attempts, now: int, key: string, after: Attempts)
    requires LeastRecent(m, now, key) && after.Keys <= (m - {key}).Keys
    requires forall k :: k in after ==> after[k] == m[k]
    requires Newer(now, m - {key}, after)
    ensures Newer(now, m, after)
  {
    forall d, k | d in m && d !in after && k in after && !Locked(after[k], now)
      ensures m[d].lastSeen <= after[k].lastSeen
    {
      if d != key {
        assert d in m - {key} && (m - {key})[d] == m[d];
      }
    }
  }

  // ----- When eviction goes as intended -----

  /** The records left when every other unlocked one seen no later than the empty key is gone. */
  function BehindEmpty(m: Attempts, now: int): Attempts
    requires "" in m
  {
    map k | k in m && (k == "" || Locked(m[k], now) || m[k].lastSeen > m[""].lastSeen) :: m[k]
  }

  /** The empty key is unlocked, and the map is at capacity even without the records that go
      before it. */
  predicate Spoiled(m: Attempts, now: int) {
    "" in m && !Locked(m[""], now) && |BehindEmpty(m, now)| >= MAX_KEYS
  }

  /** The least recently seen records went, and room was made if any record was unlocked. */
  ghost predicate AsIntended(m: Attempts, now: int, after: Attempts)
    requires after.Keys <= m.Keys
  {
    Newer(now, m, after) && (|after| >= MAX_KEYS ==> AllLocked(after, now))
  }

  lemma DropBeforeEmpty(m: Attempts, now: int, key: string)
    requires "" in m && !Locked(m[""], now) && key != "" && LeastRecent(m, now, key)
    ensures BehindEmpty(m - {key}, now) == BehindEmpty(m, now)
  {
  }

  lemma OldestSpoils(m: Attempts, now: int)
    requires |m| >= MAX_KEYS
    ensures EmptyKeyIsOldest(m, now) ==> Spoiled(m, now)
  {
    if EmptyKeyIsOldest(m, now) {
      assert BehindEmpty(m, now) == m;
    }
  }

  lemma {:induction false} UnspoiledIsIntended(m: Attempts, now: int, after: Attempts)
    requires EvictsTo(m, now, after) && !Spoiled(m, now)
    ensures after.Keys <= m.Keys && AsIntended(m, now, after)
    decreases |m|
  {
    EvictionKeepsAll(m, now, after);
    if |m| >= MAX_KEYS {
      OldestSpoils(m, now);
      var key := OneEviction(m, now, after);
      if key != "" {
        if "" in m && !Locked(m[""], now) {
          DropBeforeEmpty(m, now, key);
        }
        UnspoiledIsIntended(m - {key}, now, after);
        DropKeepsNewer(m, now, key, after);
      }
    }
  }

  lemma OneToGo(m: Attempts, now: int) returns (key: string)
    requires "" in m && !Locked(m[""], now) && !EmptyKeyIsOldest(m, now)
    ensures key != "" && LeastRecent(m, now, key)
  {
    LeastRecentExists(m, now);
    key :| LeastRecent(m, now, key);
    if key == "" {
      key :| key in m && key != "" && !Locked(m[key], now) && m[key].lastSeen <= m[""].lastSeen;
    }
  }

  /** A spoiled map can be left over capacity, with the empty key unlocked in it. */
  lemma {:induction false} SpoiledStaysFull(m: Attempts, now: int)
    requires Spoiled(m, now)
    ensures EvictsTo(m, now, BehindEmpty(m, now))
    decreases |m|
  {
    SubsetSize(BehindEmpty(m, now).Keys, m.Keys);
    assert |m| == |m.Keys| && |BehindEmpty(m, now)| == |BehindEmpty(m, now).Keys|;
    if EmptyKeyIsOldest(m, now) {
      assert BehindEmpty(m, now) == m && Picks(m, now, "");
    } else {
      var key := OneToGo(m, now);
      DropBeforeEmpty(m, now, key);
      assert (m - {key}).Keys == m.Keys - {key};
      SpoiledStaysFull(m - {key}, now);
      assert Picks(m, now, key);
    }
  }

  /** Exactly when eviction is sure to go as intended. */
  lemma IntendedIff(m: Attempts, now: int)
    ensures (forall after :: EvictsTo(m, now, after) ==> after.Keys <= m.Keys && AsIntended(m, now, after))
            <==> !Spoiled(m, now)
  {
    if Spoiled(m, now) {
      SpoiledStaysFull(m, now);
      assert "" in BehindEmpty(m, now);
    } else {
      forall after | EvictsTo(m, now, after) ensures after.Keys <= m.Keys && AsIntended(m, now, after) {
        UnspoiledIsIntended(m, now, after);
      }
    }
  }

  // ----- What a prune amounts to -----

  /** What a prune amounts to.  Stale records go; below capacity that is all.  At capacity
      further records go, never a locked one and never more than needed; too many are left only
      when all are locked or the empty key is the oldest unlocked one; and unless the empty key
      spoils it, all goes as intended. */
  lemma PruneMeans(c: Config, before: Attempts, now: int, after: Attempts)
    requires Pruned(c, before, now, after)
    ensures var live := Live(c, before, now);
            && after.Keys <= live.Keys
            && (forall k :: k in after ==> after[k] == before[k])
            && (forall k :: k in live && Locked(live[k], now) ==> k in after)
            && (|live| < 50_000 ==> after == live)
            && (|live| >= 50_000 ==> |after| >= 49_999)
            && (|after| >= 50_000 ==> AllLocked(after, now) || EmptyKeyIsOldest(after, now))
            && (!Spoiled(live, now) ==>
                  && (|after| >= 50_000 ==> forall k :: k in after ==> Locked(after[k], now))
                  && forall d, k :: d in live && d !in after && k in after && !Locked(after[k], now) ==>
                                      live[d].lastSeen <= after[k].lastSeen)
  {
    var live := Live(c, before, now);
    EvictionKeepsAll(live, now, after);
    EvictionStops(live, now, after);
    if !Spoiled(live, now) {
      UnspoiledIsIntended(live, now, after);
    }
  }
}
