/** Whole runs of the login limiter: any number of keys, any interleaving of their calls,
    clock readings that never go back. */
module LimiterRuns {
  import opened Basics
  import opened Limiter

  /** One call with its clock reading and its answer. */
  datatype Event =
    | Reserve(key: string, at: int, allowed: bool, retryAfter: int)
    | Succeed(key: string, at: int)

  ghost predicate Step(c: Config, before: Attempts, e: Event, after: Attempts) {
    match e
    case Reserve(key, at, allowed, retryAfter) => ReserveStep(c, before, key, at, after, allowed, retryAfter)
    case Succeed(key, at) => after == before - {key}
  }

  ghost predicate Chronological(events: seq<Event>) {
    forall i, j :: 0 <= i < j < |events| ==> events[i].at <= events[j].at
  }

  ghost predicate StepAt(c: Config, states: seq<Attempts>, events: seq<Event>, i: nat)
    requires i < |events| < |states|
  {
    Step(c, states[i], events[i], states[i + 1])
  }

  /** A run from the empty limiter; states[i] is the map before events[i]. */
  ghost predicate Run(c: Config, states: seq<Attempts>, events: seq<Event>) {
    && c.Valid()
    && |states| == |events| + 1
    && states[0] == map[]
    && (forall i :: 0 <= i < |events| ==> StepAt(c, states, events, i))
    && Chronological(events)
  }

  /** The map never reaches its capacity. */
  ghost predicate BelowCapacity(states: seq<Attempts>) {
    forall i :: 0 <= i < |states| ==> |states[i]| < MAX_KEYS
  }

  lemma RunPrefix(c: Config, states: seq<Attempts>, events: seq<Event>, n: nat)
    requires Run(c, states, events) && n <= |events|
    ensures Run(c, states[..n + 1], events[..n])
    ensures BelowCapacity(states) ==> BelowCapacity(states[..n + 1])
  {
    var s, e := states[..n + 1], events[..n];
    forall i | 0 <= i < n ensures StepAt(c, s, e, i) {
      assert StepAt(c, states, events, i);
    }
  }

  /** The time of the last event. */
  function LastAt(events: seq<Event>): int
    requires events != []
  {
    events[|events| - 1].at
  }

  // ----- One reservation, seen from one key -----

  /** A record is forgotten when it is stale. */
  function Fade(c: Config, rec: Option<Record>, now: int): Option<Record> {
    if rec.Some? && Stale(c, rec.value, now) then None else rec
  }

  /** What one reservation does to the record of a key: pruning keeps it or drops it, a locked
      record is kept and a stale one dropped, and then the attempt is made if it is the key's. */
  lemma RecordStep(c: Config, before: Attempts, e: Event, after: Attempts, key: string)
    returns (kept: Option<Record>)
    requires e.Reserve? && Step(c, before, e, after)
    ensures kept == None || kept == Get(before, key)
    ensures key in before && Locked(before[key], e.at) ==> kept == Get(before, key)
    ensures kept.Some? ==> !Stale(c, kept.value, e.at)
    ensures |before| < MAX_KEYS ==> kept == Fade(c, Get(before, key), e.at)
    ensures if e.key == key
            then var o := Attempt(c, kept, e.at);
                 Get(after, key) == Some(o.rec) && e.allowed == o.allowed && e.retryAfter == o.retryAfter
            else Get(after, key) == kept
  {
    var pruned := PrunedBy(c, before, e, after);
    var live := Live(c, before, e.at);
    SubsetSize(live.Keys, before.Keys);
    assert |live| == |live.Keys| && |before| == |before.Keys|;
    kept := Get(pruned, key);
  }

  /** The map between the prune and the attempt of one reservation. */
  lemma PrunedBy(c: Config, before: Attempts, e: Event, after: Attempts) returns (pruned: Attempts)
    requires e.Reserve? && Step(c, before, e, after)
    ensures var live := Live(c, before, e.at);
            && pruned.Keys <= live.Keys
            && (forall k :: k in pruned ==> pruned[k] == before[k])
            && (forall k :: k in live && Locked(live[k], e.at) ==> k in pruned)
            && (|live| < MAX_KEYS ==> pruned == live)
            && (|pruned| >= MAX_KEYS ==> AllLocked(pruned, e.at) || EmptyKeyIsOldest(pruned, e.at))
    ensures var o := Attempt(c, Get(pruned, e.key), e.at);
            after == pruned[e.key := o.rec] && e.allowed == o.allowed && e.retryAfter == o.retryAfter
  {
    pruned :|
      && Pruned(c, before, e.at, pruned)
      && var o := Attempt(c, Get(pruned, e.key), e.at);
         after == pruned[e.key := o.rec] && e.allowed == o.allowed && e.retryAfter == o.retryAfter;
    PruneMeans(c, before, e.at, pruned);
  }

  /** One reservation below capacity, told by the records.  The key is refused if it is locked, or if
      it has used up its attempts and was last seen no more than a window ago; then it is locked for
      a window.  Otherwise it is admitted, and counts from one if it was not there, was locked or was
      seen longer ago. */
  lemma ReserveReads(c: Config, before: Attempts, key: string, now: int, after: Attempts,
                     allowed: bool, retryAfter: int)
    requires c.Valid() && |before| < 50_000 && ReserveStep(c, before, key, now, after, allowed, retryAfter)
    ensures var locked := key in before && before[key].lockedUntil.Some? && now < before[key].lockedUntil.value;
            var counts := key in before && before[key].lockedUntil.None? && before[key].lastSeen >= now - c.window;
            && (allowed <==> !locked && !(counts && before[key].count >= c.max))
            && Get(after, key)
               == Some(if locked then before[key]
                       else if !allowed then Record(0, Some(now + c.window), now)
                       else Record(if counts then before[key].count + 1 else 1, None, now))
            && retryAfter == if allowed then 0 else if locked then before[key].lockedUntil.value - now else c.window
  {
    var kept := RecordStep(c, before, Reserve(key, now, allowed, retryAfter), after, key);
  }

  /** Of the other records, those locked or seen within the last window stay as they are. */
  lemma OthersAfterReserve(c: Config, before: Attempts, key: string, now: int, after: Attempts,
                           allowed: bool, retryAfter: int, k: string)
    requires |before| < 50_000 && ReserveStep(c, before, key, now, after, allowed, retryAfter) && k != key
    ensures k in after <==>
              && k in before
              && (|| (before[k].lockedUntil.Some? && now < before[k].lockedUntil.value)
                  || before[k].lastSeen >= now - c.window)
    ensures k in after ==> after[k] == before[k]
  {
    var kept := RecordStep(c, before, Reserve(key, now, allowed, retryAfter), after, k);
  }

  // ----- Every record is well formed -----

  predicate GoodRecord(c: Config, rec: Option<Record>) {
    rec.Some? ==>
      && 0 <= rec.value.count <= c.max
      && (rec.value.lockedUntil.Some? ==>
            rec.value.count == 0 && rec.value.lockedUntil.value == rec.value.lastSeen + c.window)
      && (rec.value.lockedUntil.None? ==> rec.value.count >= 1)
  }

  /** In every run, overflow included, and for every key: a locked record has a cleared count and
      is locked for the window after it was last seen; an unlocked one has counted between one
      attempt and the maximum. */
  lemma {:induction false} RecordsAreGood(c: Config, states: seq<Attempts>, events: seq<Event>, i: nat, key: string)
    requires Run(c, states, events) && i <= |events|
    ensures GoodRecord(c, Get(states[i], key))
    decreases i
  {
    if i > 0 {
      RecordsAreGood(c, states, events, i - 1, key);
      assert StepAt(c, states, events, i - 1);
      if events[i - 1].Reserve? {
        var kept := RecordStep(c, states[i - 1], events[i - 1], states[i], key);
      }
    }
  }

  // ----- Keys are independent -----

  function SoloAttempt(c: Config, rec: Option<Record>, now: int): Outcome {
    Attempt(c, Fade(c, rec, now), now)
  }

  /** The record of a limiter that serves this key only and sees none of the other calls. */
  function Solo(c: Config, events: seq<Event>, key: string): Option<Record> {
    if events == [] then None
    else
      var rec := Solo(c, events[..|events| - 1], key);
      var e := events[|events| - 1];
      if e.key != key then rec
      else if e.Succeed? then None
      else Some(SoloAttempt(c, rec, e.at).rec)
  }

  /** The shared map agrees with the single-key limiter, or has already dropped a record that
      the single-key limiter is bound to forget. */
  predicate Agrees(c: Config, shared: Option<Record>, solo: Option<Record>, now: int) {
    shared == solo || (shared.None? && Fade(c, solo, now).None?)
  }

  lemma FadeAgrees(c: Config, shared: Option<Record>, kept: Option<Record>, solo: Option<Record>, now: int, last: int)
    requires c.Valid() && last <= now && Agrees(c, shared, solo, last)
    requires kept == Fade(c, shared, now)
    ensures Attempt(c, kept, now) == SoloAttempt(c, solo, now)
    ensures Agrees(c, kept, solo, now)
  {
  }

  lemma StepAgrees(c: Config, before: Attempts, e: Event, after: Attempts, solo: Option<Record>,
                   key: string, last: int)
    requires c.Valid() && Step(c, before, e, after) && |before| < MAX_KEYS
    requires last <= e.at && Agrees(c, Get(before, key), solo, last)
    ensures Agrees(c, Get(after, key),
                   if e.key != key then solo else if e.Succeed? then None else Some(SoloAttempt(c, solo, e.at).rec),
                   e.at)
    ensures e.key == key && e.Reserve? ==>
              e.allowed == SoloAttempt(c, solo, e.at).allowed && e.retryAfter == SoloAttempt(c, solo, e.at).retryAfter
  {
    if e.Reserve? {
      var kept := RecordStep(c, before, e, after, key);
      FadeAgrees(c, Get(before, key), kept, solo, e.at, last);
    }
  }

  lemma {:induction false} RunAgrees(c: Config, states: seq<Attempts>, events: seq<Event>, key: string)
    requires Run(c, states, events) && BelowCapacity(states)
    ensures events != [] ==> Agrees(c, Get(states[|events|], key), Solo(c, events, key), LastAt(events))
    ensures events == [] ==> Get(states[|events|], key) == Solo(c, events, key)
    decreases |events|
  {
    if events != [] {
      var n := |events| - 1;
      RunPrefix(c, states, events, n);
      RunAgrees(c, states[..n + 1], events[..n], key);
      assert StepAt(c, states, events, n);
      StepAgrees(c, states[n], events[n], states[n + 1], Solo(c, events[..n], key), key,
                 if n == 0 then events[n].at else LastAt(events[..n]));
    }
  }

  /** Below capacity no key can tell that it shares the map: every answer is the one a limiter
      serving that key alone would have given. */
  lemma KeysAreIndependent(c: Config, states: seq<Attempts>, events: seq<Event>, i: nat)
    requires Run(c, states, events) && BelowCapacity(states)
    requires i < |events| && events[i].Reserve?
    ensures var o := SoloAttempt(c, Solo(c, events[..i], events[i].key), events[i].at);
            events[i].allowed == o.allowed && events[i].retryAfter == o.retryAfter
  {
    RunPrefix(c, states, events, i);
    RunAgrees(c, states[..i + 1], events[..i], events[i].key);
    assert StepAt(c, states, events, i);
    StepAgrees(c, states[i], events[i], states[i + 1], Solo(c, events[..i], events[i].key), events[i].key,
               if i == 0 then events[i].at else LastAt(events[..i]));
  }

  // ----- The sliding window -----

  function AllowedIn(events: seq<Event>, key: string, from: int, to: int): nat {
    if events == [] then 0
    else
      var e := events[|events| - 1];
      AllowedIn(events[..|events| - 1], key, from, to)
      + if e.Reserve? && e.key == key && e.allowed && from <= e.at < to then 1 else 0
  }

  function SucceededIn(events: seq<Event>, key: string, from: int, to: int): nat {
    if events == [] then 0
    else
      var e := events[|events| - 1];
      SucceededIn(events[..|events| - 1], key, from, to)
      + if e.Succeed? && e.key == key && from <= e.at < to then 1 else 0
  }

  /** Did this reservation's pruning drop the key's record although it was not stale?  It did
      when the record is not what it would be had it been there. */
  predicate Evicts(c: Config, before: Attempts, e: Event, after: Attempts, key: string) {
    && e.Reserve? && key in Live(c, before, e.at)
    && Get(after, key) != Some(if e.key == key then Attempt(c, Some(before[key]), e.at).rec else before[key])
  }

  /** How often the key's record was evicted in an interval. */
  function EvictedIn(c: Config, states: seq<Attempts>, events: seq<Event>, key: string, from: int, to: int): nat
    requires |states| == |events| + 1
  {
    if events == [] then 0
    else
      var n := |events| - 1;
      EvictedIn(c, states[..n + 1], events[..n], key, from, to)
      + if from <= events[n].at < to && Evicts(c, states[n], events[n], states[n + 1], key) then 1 else 0
  }

  /** How much of the budget the record remembers as spent since `from`. */
  function Remembered(c: Config, rec: Option<Record>, from: int): int {
    if rec.None? then 0
    else if rec.value.lockedUntil.Some? then
      if rec.value.lockedUntil.value >= from + c.window then c.max else 0
    else if rec.value.lastSeen >= from then rec.value.count
    else 0
  }

  lemma RememberedIsBounded(c: Config, rec: Option<Record>, from: int)
    requires c.Valid() && GoodRecord(c, rec)
    ensures 0 <= Remembered(c, rec, from) <= c.max
  {
  }

  /** Within the window nothing that counts is forgotten, unless the key succeeds or its record
      is evicted. */
  lemma WindowStep(c: Config, before: Attempts, e: Event, after: Attempts, key: string, from: int)
    requires c.Valid() && Step(c, before, e, after) && from <= e.at < from + c.window
    requires GoodRecord(c, Get(before, key))
    ensures var spent := if e.Reserve? && e.key == key && e.allowed then 1 else 0;
            || (e.Succeed? && e.key == key && spent == 0)
            || (Evicts(c, before, e, after, key) && spent <= Remembered(c, Get(after, key), from))
            || Remembered(c, Get(before, key), from) + spent <= Remembered(c, Get(after, key), from)
  {
    if e.Reserve? {
      var kept := RecordStep(c, before, e, after, key);
    }
  }

  lemma {:induction false} NothingBefore(events: seq<Event>, key: string, from: int, to: int)
    requires Chronological(events) && (events != [] ==> LastAt(events) < from)
    ensures AllowedIn(events, key, from, to) == 0
  {
    if |events| > 1 {
      var n := |events| - 1;
      assert LastAt(events[..n]) <= LastAt(events);
      NothingBefore(events[..n], key, from, to);
    }
  }

  lemma Distribute(m: int, n: int)
    ensures m * (n + 1) == m * n + m
  {
  }

  lemma WindowSum(max: int, allowed: int, spent: int, n: int, more: int, was: int, left: int)
    requires allowed <= max * n + was && spent <= 1
    requires 0 <= was <= max && 0 <= left <= max && 0 <= more <= 2 && max >= 0
    requires (more > 0 && spent <= left) || was + spent <= left
    ensures allowed + spent <= max * (n + more) + left
  {
    assert max * (n + more) == max * n + max * more;
    assert more >= 1 ==> max * more >= max;
  }

  /** One event of a run within the window: what it admits is remembered, or the key succeeds or
      is evicted. */
  lemma WindowStepAt(c: Config, states: seq<Attempts>, events: seq<Event>, key: string, from: int, n: nat)
    requires Run(c, states, events) && n < |events| && from <= events[n].at < from + c.window
    ensures var e := events[n];
            var spent := if e.Reserve? && e.key == key && e.allowed then 1 else 0;
            var more := (if e.Succeed? && e.key == key then 1 else 0)
                        + if Evicts(c, states[n], e, states[n + 1], key) then 1 else 0;
            var was, left := Remembered(c, Get(states[n], key), from), Remembered(c, Get(states[n + 1], key), from);
            && 0 <= was <= c.max && 0 <= left <= c.max
            && ((more > 0 && spent <= left) || was + spent <= left)
  {
    RecordsAreGood(c, states, events, n, key);
    RecordsAreGood(c, states, events, n + 1, key);
    RememberedIsBounded(c, Get(states[n], key), from);
    RememberedIsBounded(c, Get(states[n + 1], key), from);
    assert StepAt(c, states, events, n);
    WindowStep(c, states[n], events[n], states[n + 1], key, from);
  }

  lemma {:induction false} WindowInvariant(c: Config, states: seq<Attempts>, events: seq<Event>, key: string, from: int)
    requires Run(c, states, events)
    requires events != [] ==> LastAt(events) < from + c.window
    ensures AllowedIn(events, key, from, from + c.window)
            <= c.max * (SucceededIn(events, key, from, from + c.window)
                        + EvictedIn(c, states, events, key, from, from + c.window))
               + Remembered(c, Get(states[|events|], key), from)
    decreases |events|
  {
    if events == [] {
      RecordsAreGood(c, states, events, 0, key);
    } else {
      var n, to := |events| - 1, from + c.window;
      if events[n].at < from {
        NothingBefore(events, key, from, to);
        NonNegative(c, states, events, key, from);
      } else {
        RunPrefix(c, states, events, n);
        assert n > 0 ==> LastAt(events[..n]) <= events[n].at;
        WindowInvariant(c, states[..n + 1], events[..n], key, from);
        WindowStepAt(c, states, events, key, from, n);
        var e := events[n];
        WindowSum(c.max, AllowedIn(events[..n], key, from, to),
                  if e.Reserve? && e.key == key && e.allowed then 1 else 0,
                  SucceededIn(events[..n], key, from, to) + EvictedIn(c, states[..n + 1], events[..n], key, from, to),
                  (if e.Succeed? && e.key == key then 1 else 0)
                  + if Evicts(c, states[n], e, states[n + 1], key) then 1 else 0,
                  Remembered(c, Get(states[n], key), from), Remembered(c, Get(states[n + 1], key), from));
      }
    }
  }

  lemma NonNegative(c: Config, states: seq<Attempts>, events: seq<Event>, key: string, from: int)
    requires Run(c, states, events)
    ensures 0 <= c.max * (SucceededIn(events, key, from, from + c.window)
                          + EvictedIn(c, states, events, key, from, from + c.window))
                 + Remembered(c, Get(states[|events|], key), from)
  {
    RecordsAreGood(c, states, events, |events|, key);
    RememberedIsBounded(c, Get(states[|events|], key), from);
  }

  /** What one window may admit for a key: `max` attempts, and `max` more for each success of the
      key and for each eviction of its record within it. */
  function Allowance(c: Config, states: seq<Attempts>, events: seq<Event>, key: string, from: int): int
    requires |states| == |events| + 1
  {
    c.max * (SucceededIn(events, key, from, from + c.window)
             + EvictedIn(c, states, events, key, from, from + c.window) + 1)
  }

  /** The bound for every run, overflow included: a half-open interval of one window's length
      admits no more than its allowance. */
  lemma {:induction false} WindowBound(c: Config, states: seq<Attempts>, events: seq<Event>, key: string, from: int)
    requires Run(c, states, events)
    ensures AllowedIn(events, key, from, from + c.window) <= Allowance(c, states, events, key, from)
    decreases |events|
  {
    if events != [] && LastAt(events) >= from + c.window {
      var n := |events| - 1;
      RunPrefix(c, states, events, n);
      WindowBound(c, states[..n + 1], events[..n], key, from);
    } else {
      WindowInvariant(c, states, events, key, from);
      RecordsAreGood(c, states, events, |events|, key);
      RememberedIsBounded(c, Get(states[|events|], key), from);
      Distribute(c.max, SucceededIn(events, key, from, from + c.window)
                        + EvictedIn(c, states, events, key, from, from + c.window));
    }
  }

  lemma {:induction false} NoEvictions(c: Config, states: seq<Attempts>, events: seq<Event>, key: string,
                                       from: int, to: int)
    requires Run(c, states, events) && BelowCapacity(states)
    ensures EvictedIn(c, states, events, key, from, to) == 0
    decreases |events|
  {
    if events != [] {
      var n := |events| - 1;
      RunPrefix(c, states, events, n);
      NoEvictions(c, states[..n + 1], events[..n], key, from, to);
      assert StepAt(c, states, events, n);
      if events[n].Reserve? {
        var kept := RecordStep(c, states[n], events[n], states[n + 1], key);
      }
    }
  }

  /** Below capacity nothing is evicted: every half-open interval of one window's length admits at
      most `max` attempts per key, and `max` more for each success of that key within it. */
  lemma SlidingWindow(c: Config, states: seq<Attempts>, events: seq<Event>, key: string, from: int)
    requires Run(c, states, events) && BelowCapacity(states)
    ensures AllowedIn(events, key, from, from + c.window)
            <= c.max * (SucceededIn(events, key, from, from + c.window) + 1)
  {
    WindowBound(c, states, events, key, from);
    NoEvictions(c, states, events, key, from, from + c.window);
  }

  // ----- How many keys it takes -----

  /** The keys that reserve at or after an instant. */
  function KeysSince(events: seq<Event>, from: int): set<string> {
    if events == [] then {}
    else
      var e := events[|events| - 1];
      KeysSince(events[..|events| - 1], from) + if e.Reserve? && e.at >= from then {e.key} else {}
  }

  /** The keys that have reserved in the closed interval of one window's length that ends with
      event j. */
  function WindowKeys(c: Config, events: seq<Event>, j: nat): set<string>
    requires j < |events|
  {
    KeysSince(events[..j + 1], events[j].at - c.window)
  }

  /** At no event have more than n keys reserved within the last window. */
  predicate FewKeys(c: Config, events: seq<Event>, n: nat) {
    forall j :: 0 <= j < |events| ==> |WindowKeys(c, events, j)| <= n
  }

  lemma {:induction false} EarlierKeysToo(events: seq<Event>, from: int, earlier: int)
    requires earlier <= from
    ensures KeysSince(events, from) <= KeysSince(events, earlier)
  {
    if events != [] {
      EarlierKeysToo(events[..|events| - 1], from, earlier);
    }
  }

  /** A record was last seen at a reservation of its key. */
  lemma {:induction false} SeenIsReserved(c: Config, states: seq<Attempts>, events: seq<Event>, i: nat, key: string)
    requires Run(c, states, events) && i <= |events| && key in states[i]
    ensures key in KeysSince(events[..i], states[i][key].lastSeen)
    decreases i
  {
    if i > 0 {
      var n := i - 1;
      assert events[..i][..n] == events[..n];
      assert StepAt(c, states, events, n);
      if events[n].Reserve? {
        var kept := RecordStep(c, states[n], events[n], states[i], key);
      }
      if key in states[n] && states[n][key].lastSeen == states[i][key].lastSeen {
        SeenIsReserved(c, states, events, n, key);
      }
    }
  }

  /** After a reservation the map holds only records seen within the last window. */
  lemma SeenWithinWindow(c: Config, states: seq<Attempts>, events: seq<Event>, j: nat, key: string)
    requires Run(c, states, events) && j < |events| && events[j].Reserve? && key in states[j + 1]
    ensures states[j + 1][key].lastSeen >= events[j].at - c.window
  {
    RecordsAreGood(c, states, events, j, key);
    assert StepAt(c, states, events, j);
    var kept := RecordStep(c, states[j], events[j], states[j + 1], key);
  }

  lemma MapKeysAreWindowKeys(c: Config, states: seq<Attempts>, events: seq<Event>, j: nat)
    requires Run(c, states, events) && j < |events| && events[j].Reserve?
    ensures states[j + 1].Keys <= WindowKeys(c, events, j)
  {
    forall key | key in states[j + 1] ensures key in WindowKeys(c, events, j) {
      SeenWithinWindow(c, states, events, j, key);
      SeenIsReserved(c, states, events, j + 1, key);
      EarlierKeysToo(events[..j + 1], states[j + 1][key].lastSeen, events[j].at - c.window);
    }
  }

  lemma SucceedShrinks(before: Attempts, key: string)
    ensures |before - {key}| <= |before|
  {
    SubsetSize((before - {key}).Keys, before.Keys);
    assert |before| == |before.Keys| && |before - {key}| == |(before - {key}).Keys|;
  }

  lemma {:induction false} FewKeysStayBelow(c: Config, states: seq<Attempts>, events: seq<Event>, n: nat, i: nat)
    requires Run(c, states, events) && FewKeys(c, events, n) && n < MAX_KEYS && i <= |events|
    ensures |states[i]| < MAX_KEYS
    decreases i
  {
    if i > 0 {
      if events[i - 1].Reserve? {
        MapKeysAreWindowKeys(c, states, events, i - 1);
        SubsetSize(states[i].Keys, WindowKeys(c, events, i - 1));
        assert |states[i]| == |states[i].Keys|;
      } else {
        assert StepAt(c, states, events, i - 1);
        FewKeysStayBelow(c, states, events, n, i - 1);
        SucceedShrinks(states[i - 1], events[i - 1].key);
      }
    }
  }

  /** The keys that reserve in these calls. */
  function KeysOf(events: seq<Event>): set<string> {
    if events == [] then {}
    else
      var e := events[|events| - 1];
      KeysOf(events[..|events| - 1]) + if e.Reserve? then {e.key} else {}
  }

  lemma {:induction false} SomeOfAllKeys(events: seq<Event>, from: int, n: nat)
    requires n <= |events|
    ensures KeysSince(events[..n], from) <= KeysOf(events)
    decreases |events|
  {
    if events != [] {
      var last := |events| - 1;
      if n <= last {
        assert events[..last][..n] == events[..n];
        SomeOfAllKeys(events[..last], from, n);
      } else {
        assert events[..n] == events && events[..last][..last] == events[..last];
        SomeOfAllKeys(events[..last], from, last);
      }
    }
  }

  /** The map holds no key that has not reserved. */
  lemma KeysHaveReserved(c: Config, states: seq<Attempts>, events: seq<Event>, i: nat)
    requires Run(c, states, events) && i <= |events|
    ensures states[i].Keys <= KeysOf(events)
  {
    forall key | key in states[i] ensures key in KeysOf(events) {
      SeenIsReserved(c, states, events, i, key);
      SomeOfAllKeys(events, states[i][key].lastSeen, i);
    }
  }

  // ----- Evictions as intended -----

  /** Whatever the order of its scans, a prune of this map goes as intended. */
  ghost predicate PrunesAsIntended(c: Config, m: Attempts, now: int) {
    forall pruned :: Pruned(c, m, now, pruned) ==>
                       pruned.Keys <= Live(c, m, now).Keys && AsIntended(Live(c, m, now), now, pruned)
  }

  /** Every eviction of a run is sure to go as intended if and only if no reservation finds the map
      spoiled by the empty key; and it never does when the empty key does not reserve. */
  lemma EvictionsAreIntendedIff(c: Config, states: seq<Attempts>, events: seq<Event>)
    requires Run(c, states, events)
    ensures (forall i :: 0 <= i < |events| && events[i].Reserve? ==> PrunesAsIntended(c, states[i], events[i].at))
            <==> forall i :: 0 <= i < |events| && events[i].Reserve? ==>
                               !Spoiled(Live(c, states[i], events[i].at), events[i].at)
    ensures "" !in KeysOf(events) ==>
              forall i :: 0 <= i < |events| && events[i].Reserve? ==> PrunesAsIntended(c, states[i], events[i].at)
  {
    forall i: nat | i < |events| && events[i].Reserve?
      ensures PrunesAsIntended(c, states[i], events[i].at)
              <==> !Spoiled(Live(c, states[i], events[i].at), events[i].at)
      ensures "" !in KeysOf(events) ==> !Spoiled(Live(c, states[i], events[i].at), events[i].at)
    {
      IntendedIff(Live(c, states[i], events[i].at), events[i].at);
      KeysHaveReserved(c, states, events, i);
    }
  }

  // ----- Lockouts, with or without overflow -----

  lemma {:induction false} LockHolds(c: Config, states: seq<Attempts>, events: seq<Event>, key: string,
                                     until: int, i: nat, j: nat)
    requires Run(c, states, events) && i <= j <= |events|
    requires key in states[i] && states[i][key].lockedUntil == Some(until)
    requires forall m :: i <= m < j ==> events[m].at < until && events[m] != Succeed(key, events[m].at)
    ensures key in states[j] && states[j][key].lockedUntil == Some(until)
    decreases j - i
  {
    if i < j {
      assert StepAt(c, states, events, i);
      if events[i].Reserve? {
        var kept := RecordStep(c, states[i], events[i], states[i + 1], key);
      }
      LockHolds(c, states, events, key, until, i + 1, j);
    }
  }

  /** A refusal holds for all of the time it announces: in every run, overflow included, until
      that time is up or the key succeeds, the key is refused and told exactly what is left. */
  lemma LockoutHolds(c: Config, states: seq<Attempts>, events: seq<Event>, i: nat, j: nat)
    requires Run(c, states, events) && i < j < |events|
    requires events[i].Reserve? && !events[i].allowed
    requires events[j].Reserve? && events[j].key == events[i].key
    requires forall m :: i < m < j ==> events[m] != Succeed(events[i].key, events[m].at)
    requires events[j].at < events[i].at + events[i].retryAfter
    ensures !events[j].allowed
    ensures events[j].at + events[j].retryAfter == events[i].at + events[i].retryAfter
  {
    var key := events[i].key;
    var until := events[i].at + events[i].retryAfter;
    assert StepAt(c, states, events, i);
    var refused := RecordStep(c, states[i], events[i], states[i + 1], key);
    forall m | i + 1 <= m < j ensures events[m].at < until && events[m] != Succeed(key, events[m].at) {
      assert events[m].at <= events[j].at;
    }
    LockHolds(c, states, events, key, until, i + 1, j);
    assert StepAt(c, states, events, j);
    var kept := RecordStep(c, states[j], events[j], states[j + 1], key);
  }

  /** The whole seconds announced to the client: more than the time left, by no more than one. */
  function RetryAfterSeconds(retryAfter: int): (seconds: int)
    requires retryAfter >= 0
    ensures (seconds - 1) * 1_000_000_000 <= retryAfter < seconds * 1_000_000_000
  {
    retryAfter / 1_000_000_000 + 1
  }

  lemma {:induction false} LockExpires(c: Config, states: seq<Attempts>, events: seq<Event>, key: string,
                                       until: int, i: nat, j: nat)
    requires Run(c, states, events) && i <= j <= |events|
    requires key in states[i] ==> states[i][key].lockedUntil == Some(until)
    requires forall m :: i <= m < j && events[m].Reserve? ==> events[m].key != key
    ensures key in states[j] ==> states[j][key].lockedUntil == Some(until)
    decreases j - i
  {
    if i < j {
      assert StepAt(c, states, events, i);
      if events[i].Reserve? {
        var kept := RecordStep(c, states[i], events[i], states[i + 1], key);
      }
      LockExpires(c, states, events, key, until, i + 1, j);
    }
  }

  /** Waiting pays: a refused client that makes no attempt for the announced seconds has its
      next attempt admitted, in every run, overflow included. */
  lemma WaitingPays(c: Config, states: seq<Attempts>, events: seq<Event>, i: nat, j: nat)
    requires Run(c, states, events) && i < j < |events|
    requires events[i].Reserve? && !events[i].allowed
    requires events[j].Reserve? && events[j].key == events[i].key
    requires forall m :: i < m < j && events[m].Reserve? ==> events[m].key != events[i].key
    ensures events[i].retryAfter > 0
    ensures events[j].at >= events[i].at + RetryAfterSeconds(events[i].retryAfter) * 1_000_000_000
            ==> events[j].allowed
  {
    assert StepAt(c, states, events, i);
    var refused := RecordStep(c, states[i], events[i], states[i + 1], events[i].key);
    LockExpires(c, states, events, events[i].key, events[i].at + events[i].retryAfter, i + 1, j);
    assert StepAt(c, states, events, j);
    var kept := RecordStep(c, states[j], events[j], states[j + 1], events[j].key);
  }

  /** And the announcement is tight: a refused client that comes back more than a second before the
      announced time is up is refused again, unless it succeeded in between. */
  lemma EarlyRetryIsRefused(c: Config, states: seq<Attempts>, events: seq<Event>, i: nat, j: nat)
    requires Run(c, states, events) && i < j < |events|
    requires events[i].Reserve? && !events[i].allowed
    requires events[j].Reserve? && events[j].key == events[i].key
    requires forall m :: i < m < j ==> events[m] != Succeed(events[i].key, events[m].at)
    ensures events[i].retryAfter > 0
    ensures events[j].at < events[i].at + (RetryAfterSeconds(events[i].retryAfter) - 1) * 1_000_000_000
            ==> !events[j].allowed
  {
    assert StepAt(c, states, events, i);
    var refused := RecordStep(c, states[i], events[i], states[i + 1], events[i].key);
    if events[j].at < events[i].at + events[i].retryAfter {
      LockoutHolds(c, states, events, i, j);
    }
  }

  lemma BoundedAfter(pruned: Attempts, key: string, rec: Record, now: int)
    requires |pruned| >= MAX_KEYS ==> AllLocked(pruned, now) || EmptyKeyIsOldest(pruned, now)
    ensures var after := pruned[key := rec];
            || |after| <= MAX_KEYS
            || AllLocked(after - {key}, now)
            || (if key == "" then "" in pruned else EmptyKeyIsOldest(after - {key}, now))
  {
    assert pruned[key := rec].Keys == pruned.Keys + {key};
    assert |pruned[key := rec].Keys| <= |pruned.Keys| + 1;
  }

  /** Memory stays bounded: after any reservation the map is within capacity, unless every record
      but the one just used is locked, or the empty key has kept the scan from picking one. */
  lemma MapIsBounded(c: Config, states: seq<Attempts>, events: seq<Event>, i: nat)
    requires Run(c, states, events) && i < |events| && events[i].Reserve?
    ensures var others := states[i + 1] - {events[i].key};
            || |states[i + 1]| <= 50_000
            || AllLocked(others, events[i].at)
            || (if events[i].key == "" then "" in states[i] else EmptyKeyIsOldest(others, events[i].at))
  {
    assert StepAt(c, states, events, i);
    var e := events[i];
    var pruned := PrunedBy(c, states[i], e, states[i + 1]);
    BoundedAfter(pruned, e.key, Attempt(c, Get(pruned, e.key), e.at).rec, e.at);
  }

  // ----- The limits of the window bound -----

  lemma RunExtend(c: Config, states: seq<Attempts>, events: seq<Event>, e: Event, after: Attempts)
    requires Run(c, states, events) && Step(c, states[|events|], e, after)
    requires events != [] ==> LastAt(events) <= e.at
    ensures Run(c, states + [after], events + [e])
    ensures BelowCapacity(states) && |after| < MAX_KEYS ==> BelowCapacity(states + [after])
  {
    LastStepAt(c, states, events, e, after);
    forall i: nat | i < |events| ensures StepAt(c, states + [after], events + [e], i) {
      StepAtExtend(c, states, events, e, after, i);
    }
    ChronologicalExtend(events, e);
  }

  lemma LastStepAt(c: Config, states: seq<Attempts>, events: seq<Event>, e: Event, after: Attempts)
    requires |states| == |events| + 1 && Step(c, states[|events|], e, after)
    ensures StepAt(c, states + [after], events + [e], |events|)
  {
    var n := |events|;
    assert (events + [e])[n] == e && (states + [after])[n] == states[n] && (states + [after])[n + 1] == after;
  }

  lemma StepAtExtend(c: Config, states: seq<Attempts>, events: seq<Event>, e: Event, after: Attempts, i: nat)
    requires i < |events| < |states| && StepAt(c, states, events, i)
    ensures StepAt(c, states + [after], events + [e], i)
  {
    assert (events + [e])[i] == events[i];
  }

  lemma ChronologicalExtend(events: seq<Event>, e: Event)
    requires Chronological(events)
    requires events != [] ==> LastAt(events) <= e.at
    ensures Chronological(events + [e])
  {
    if events != [] {
      var n := |events| - 1;
      assert forall i :: 0 <= i < n ==> events[i].at <= events[n].at;
    }
  }

  lemma ReserveVia(c: Config, before: Attempts, key: string, now: int, pruned: Attempts)
    requires Pruned(c, before, now, pruned)
    ensures var o := Attempt(c, Get(pruned, key), now);
            ReserveStep(c, before, key, now, pruned[key := o.rec], o.allowed, o.retryAfter)
  {
  }

  lemma CountsExtend(events: seq<Event>, e: Event, key: string, from: int, to: int)
    ensures AllowedIn(events + [e], key, from, to)
            == AllowedIn(events, key, from, to)
               + if e.Reserve? && e.key == key && e.allowed && from <= e.at < to then 1 else 0
    ensures SucceededIn(events + [e], key, from, to)
            == SucceededIn(events, key, from, to) + if e.Succeed? && e.key == key && from <= e.at < to then 1 else 0
  {
    assert (events + [e])[..|events|] == events;
  }

  lemma KeysExtend(events: seq<Event>, e: Event)
    requires e.Reserve?
    ensures KeysOf(events + [e]) == KeysOf(events) + {e.key}
  {
    assert (events + [e])[..|events|] == events;
  }

  lemma {:induction false} FewerSuccesses(events: seq<Event>, key: string, from: int, to: int, begin: int, end: int)
    requires from <= begin && end <= to
    ensures SucceededIn(events, key, begin, end) <= SucceededIn(events, key, from, to)
  {
    if events != [] {
      FewerSuccesses(events[..|events| - 1], key, from, to, begin, end);
    }
  }

  /** The map that holds one record, or none. */
  function Alone(key: string, rec: Option<Record>): Attempts {
    if rec.None? then map[] else map[key := rec.value]
  }

  /** With one record in it the map is a single-key limiter. */
  lemma AloneStep(c: Config, key: string, rec: Option<Record>, now: int)
    ensures var o := SoloAttempt(c, rec, now);
            Step(c, Alone(key, rec), Reserve(key, now, o.allowed, o.retryAfter), Alone(key, Some(o.rec)))
  {
    var before, live := Alone(key, rec), Alone(key, Fade(c, rec, now));
    var o := SoloAttempt(c, rec, now);
    assert Live(c, before, now) == live;
    assert Get(live, key) == Fade(c, rec, now);
    assert live[key := o.rec] == Alone(key, Some(o.rec));
    ReserveVia(c, before, key, now, live);
  }

  /** A run that ends in this map no later than `last`, with so many attempts of the key admitted
      in an interval and no success. */
  ghost predicate Reaches(c: Config, states: seq<Attempts>, events: seq<Event>, m: Attempts, last: int,
                          key: string, from: int, to: int, count: nat) {
    && Run(c, states, events) && states[|events|] == m
    && (events != [] ==> LastAt(events) <= last)
    && AllowedIn(events, key, from, to) == count && SucceededIn(events, key, from, to) == 0
  }

  lemma ReachesLater(c: Config, states: seq<Attempts>, events: seq<Event>, m: Attempts, last: int, later: int,
                     key: string, from: int, to: int, count: nat)
    requires Reaches(c, states, events, m, last, key, from, to, count) && last <= later
    ensures Reaches(c, states, events, m, later, key, from, to, count)
  {
  }

  lemma ReachesMore(c: Config, states: seq<Attempts>, events: seq<Event>, m: Attempts, last: int,
                    key: string, from: int, to: int, count: nat, e: Event, after: Attempts)
    requires Reaches(c, states, events, m, last, key, from, to, count)
    requires Step(c, m, e, after) && e.Reserve? && last <= e.at
    ensures Reaches(c, states + [after], events + [e], after, e.at, key, from, to,
                    count + if e.key == key && e.allowed && from <= e.at < to then 1 else 0)
    ensures BelowCapacity(states) && |after| < MAX_KEYS ==> BelowCapacity(states + [after])
  {
    RunExtend(c, states, events, e, after);
    CountsExtend(events, e, key, from, to);
  }

  lemma GoOn(c: Config, states: seq<Attempts>, events: seq<Event>, m: Attempts, last: int,
             key: string, from: int, to: int, count: nat, e: Event, after: Attempts)
    returns (states': seq<Attempts>, events': seq<Event>)
    requires Reaches(c, states, events, m, last, key, from, to, count)
    requires Step(c, m, e, after) && e.Reserve? && last <= e.at
    ensures Reaches(c, states', events', after, e.at, key, from, to,
                    count + if e.key == key && e.allowed && from <= e.at < to then 1 else 0)
    ensures KeysOf(events') == KeysOf(events) + {e.key}
  {
    ReachesMore(c, states, events, m, last, key, from, to, count, e, after);
    KeysExtend(events, e);
    states', events' := states + [after], events + [e];
  }

  /** An attempt of another key changes no count. */
  lemma GoOnWithout(c: Config, states: seq<Attempts>, events: seq<Event>, m: Attempts, last: int,
                    key: string, from: int, to: int, count: nat, e: Event, after: Attempts)
    returns (states': seq<Attempts>, events': seq<Event>)
    requires Reaches(c, states, events, m, last, key, from, to, count)
    requires Step(c, m, e, after) && e.Reserve? && last <= e.at && e.key != key
    ensures Reaches(c, states', events', after, e.at, key, from, to, count)
    ensures KeysOf(events') == KeysOf(events) + {e.key}
  {
    states', events' := GoOn(c, states, events, m, last, key, from, to, count, e, after);
  }

  /** One more attempt of a key that is alone. */
  lemma AloneMore(c: Config, states: seq<Attempts>, events: seq<Event>, key: string, rec: Option<Record>,
                  last: int, from: int, to: int, count: nat, now: int)
    requires Reaches(c, states, events, Alone(key, rec), last, key, from, to, count) && BelowCapacity(states)
    requires last <= now
    ensures var o := SoloAttempt(c, rec, now);
            var after := Alone(key, Some(o.rec));
            && Reaches(c, states + [after], events + [Reserve(key, now, o.allowed, o.retryAfter)], after, now,
                       key, from, to, count + if o.allowed && from <= now < to then 1 else 0)
            && BelowCapacity(states + [after])
  {
    var o := SoloAttempt(c, rec, now);
    AloneStep(c, key, rec, now);
    ReachesMore(c, states, events, Alone(key, rec), last, key, from, to, count,
                Reserve(key, now, o.allowed, o.retryAfter), Alone(key, Some(o.rec)));
  }

  /** The call e, k times more. */
  function Repeat(calls: seq<Event>, e: Event, k: nat): seq<Event> {
    if k == 0 then calls else Repeat(calls, e, k - 1) + [e]
  }

  /** The record of a key that was locked out at time 0. */
  function LockedOut(c: Config): Option<Record> { Some(Record(0, Some(c.window), 0)) }

  /** The record after k attempts at one time, on nothing or on a lockout that is over. */
  function Fresh(c: Config, locked: bool, k: nat, now: int): Option<Record> {
    if k > 0 then Some(Record(k, None, now)) else if locked then LockedOut(c) else None
  }

  lemma FreshAttempt(c: Config, locked: bool, k: nat, now: int)
    requires c.Valid() && k < c.max && (locked ==> now >= c.window)
    ensures SoloAttempt(c, Fresh(c, locked, k, now), now) == Outcome(Record(k + 1, None, now), true, 0)
  {
  }

  lemma FreshMore(c: Config, states: seq<Attempts>, calls: seq<Event>, key: string, locked: bool,
                  to: int, count: nat, now: int, k: nat)
    returns (states': seq<Attempts>)
    requires c.Valid() && k < c.max && (locked ==> now >= c.window) && 0 <= now < to
    requires Reaches(c, states, calls, Alone(key, Fresh(c, locked, k, now)), now, key, 0, to, count)
    requires BelowCapacity(states)
    ensures Reaches(c, states', calls + [Reserve(key, now, true, 0)], Alone(key, Fresh(c, locked, k + 1, now)), now,
                    key, 0, to, count + 1)
    ensures BelowCapacity(states')
  {
    FreshAttempt(c, locked, k, now);
    AloneMore(c, states, calls, key, Fresh(c, locked, k, now), now, 0, to, count, now);
    states' := states + [Alone(key, Fresh(c, locked, k + 1, now))];
  }

  lemma {:induction false} RepeatKeys(calls: seq<Event>, e: Event, k: nat)
    requires e.Reserve?
    ensures KeysOf(Repeat(calls, e, k)) <= KeysOf(calls) + {e.key}
  {
    if k > 0 {
      RepeatKeys(calls, e, k - 1);
      KeysExtend(Repeat(calls, e, k - 1), e);
    }
  }

  /** The calls of a key that makes n attempts at time 0. */
  function SpendCalls(key: string, n: nat): seq<Event> { Repeat([], Reserve(key, 0, true, 0), n) }

  lemma {:induction false} SpendRun(c: Config, key: string, n: nat, to: int) returns (states: seq<Attempts>)
    requires c.Valid() && n <= c.max && to > 0
    ensures Reaches(c, states, SpendCalls(key, n), Alone(key, Fresh(c, false, n, 0)), 0, key, 0, to, n)
    ensures BelowCapacity(states)
  {
    if n == 0 {
      states := [map[]];
    } else {
      var before := SpendRun(c, key, n - 1, to);
      states := FreshMore(c, before, SpendCalls(key, n - 1), key, false, to, n - 1, 0, n - 1);
    }
  }

  /** The calls of a key that spends its attempts at time 0, is locked out, and makes k more at a
      later time. */
  function LockCalls(c: Config, key: string, now: int, k: nat): seq<Event>
    requires c.Valid()
  {
    Repeat(SpendCalls(key, c.max) + [Reserve(key, 0, false, c.window)], Reserve(key, now, true, 0), k)
  }

  lemma LockStart(c: Config, key: string, now: int, to: int) returns (states: seq<Attempts>)
    requires c.Valid() && 0 <= now < to
    ensures Reaches(c, states, LockCalls(c, key, now, 0), Alone(key, LockedOut(c)), now, key, 0, to, c.max)
    ensures BelowCapacity(states)
  {
    var spent := SpendRun(c, key, c.max, to);
    var rec := Fresh(c, false, c.max, 0);
    assert SoloAttempt(c, rec, 0) == Outcome(LockedOut(c).value, false, c.window);
    AloneMore(c, spent, SpendCalls(key, c.max), key, rec, 0, 0, to, c.max, 0);
    states := spent + [Alone(key, LockedOut(c))];
    ReachesLater(c, states, LockCalls(c, key, now, 0), Alone(key, LockedOut(c)), 0, now, key, 0, to, c.max);
  }

  lemma {:induction false} LockRun(c: Config, key: string, now: int, to: int, k: nat) returns (states: seq<Attempts>)
    requires c.Valid() && k <= c.max && c.window <= now < to
    ensures Reaches(c, states, LockCalls(c, key, now, k), Alone(key, Fresh(c, true, k, now)), now,
                    key, 0, to, c.max + k)
    ensures BelowCapacity(states)
    decreases k
  {
    if k == 0 {
      states := LockStart(c, key, now, to);
    } else {
      var before := LockRun(c, key, now, to, k - 1);
      states := FreshMore(c, before, LockCalls(c, key, now, k - 1), key, true, to, c.max + (k - 1), now, k - 1);
    }
  }

  /** The interval must be half-open: over a closed one, a lockout taken at its first instant
      is over at its last, and the whole budget is admitted twice. */
  lemma ClosedWindowIsTooLong(c: Config, key: string) returns (states: seq<Attempts>, events: seq<Event>)
    requires c.Valid()
    ensures Run(c, states, events) && BelowCapacity(states)
    ensures AllowedIn(events, key, 0, c.window + 1) == 2 * c.max && SucceededIn(events, key, 0, c.window + 1) == 0
  {
    events := LockCalls(c, key, c.window, c.max);
    states := LockRun(c, key, c.window, c.window + 1, c.max);
  }

  /** The key made its attempts at time 0, and n others one each at time `at`. */
  ghost predicate Crowded(m: Attempts, key: string, max: nat, n: nat, at: int) {
    && |m| == n + 1
    && key in m && m[key] == Record(max, None, 0)
    && (forall k :: k in m && k != key ==> m[k] == Record(1, None, at))
    && (forall k :: k in m && k != key ==> |key| < |k| <= |key| + n)
  }

  lemma LongKey(n: nat) returns (key: string)
    ensures |key| == n
  {
    key := seq(n, _ => 'k');
  }

  /** One more key makes an attempt. */
  lemma CrowdStep(c: Config, m: Attempts, key: string, n: nat, other: string, at: int)
    requires c.Valid() && 0 <= at < c.window && n + 1 < MAX_KEYS
    requires Crowded(m, key, c.max, n, at) && |other| == |key| + n + 1
    ensures Step(c, m, Reserve(other, at, true, 0), m[other := Record(1, None, at)])
    ensures Crowded(m[other := Record(1, None, at)], key, c.max, n + 1, at)
  {
    assert other !in m;
    assert Live(c, m, at) == m;
    ReserveVia(c, m, other, at, m);
  }

  /** The key spends its attempts, then n other keys make one each. */
  lemma {:induction false} CrowdRun(c: Config, key: string, n: nat, at: int)
    returns (states: seq<Attempts>, events: seq<Event>, m: Attempts)
    requires c.Valid() && 0 <= at < c.window && n < MAX_KEYS
    ensures Crowded(m, key, c.max, n, at) && KeysOf(events) <= m.Keys
    ensures Reaches(c, states, events, m, at, key, 0, c.window, c.max)
  {
    if n == 0 {
      states := SpendRun(c, key, c.max, c.window);
      events, m := SpendCalls(key, c.max), Alone(key, Fresh(c, false, c.max, 0));
      RepeatKeys([], Reserve(key, 0, true, 0), c.max);
      ReachesLater(c, states, events, m, 0, at, key, 0, c.window, c.max);
    } else {
      var ss, es, before := CrowdRun(c, key, n - 1, at);
      var other := LongKey(|key| + n);
      CrowdStep(c, before, key, n - 1, other, at);
      m := before[other := Record(1, None, at)];
      states, events := GoOnWithout(c, ss, es, before, at, key, 0, c.window, c.max, Reserve(other, at, true, 0), m);
    }
  }

  /** At capacity the eviction ends with the first record it picks. */
  lemma OneIsEvicted(m: Attempts, now: int, key: string)
    requires |m| == MAX_KEYS && key != "" && Picks(m, now, key)
    ensures EvictsTo(m, now, m - {key})
  {
    assert (m - {key}).Keys == m.Keys - {key};
    assert EvictsTo(m - {key}, now, m - {key});
  }

  /** The key is evicted and admitted again. */
  lemma KeyAgain(c: Config, m: Attempts, key: string, at: int)
    requires c.Valid() && 0 <= at < c.window && key != "" && Crowded(m, key, c.max, MAX_KEYS - 1, at)
    ensures Step(c, m, Reserve(key, at, true, 0), (m - {key})[key := Record(1, None, at)])
  {
    assert Live(c, m, at) == m;
    OneIsEvicted(m, at, key);
    ReserveVia(c, m, key, at, m - {key});
  }

  /** More than `max` attempts without a success take an eviction. */
  lemma EvictionNeeded(c: Config, states: seq<Attempts>, events: seq<Event>, key: string, from: int)
    requires Run(c, states, events)
    requires AllowedIn(events, key, from, from + c.window) > c.max
    requires SucceededIn(events, key, from, from + c.window) == 0
    ensures EvictedIn(c, states, events, key, from, from + c.window) > 0
  {
    WindowBound(c, states, events, key, from);
    assert c.max * (0 + 0 + 1) == c.max;
  }

  lemma AgainRun(c: Config, states: seq<Attempts>, events: seq<Event>, m: Attempts, key: string, at: int)
    returns (states': seq<Attempts>, events': seq<Event>)
    requires c.Valid() && 0 <= at < c.window && key != "" && Crowded(m, key, c.max, MAX_KEYS - 1, at)
    requires Reaches(c, states, events, m, at, key, 0, c.window, c.max)
    ensures Run(c, states', events') && KeysOf(events') == KeysOf(events) + {key}
    ensures AllowedIn(events', key, 0, c.window) == c.max + 1 && SucceededIn(events', key, 0, c.window) == 0
  {
    KeyAgain(c, m, key, at);
    states', events' := GoOn(c, states, events, m, at, key, 0, c.window, c.max,
                             Reserve(key, at, true, 0), (m - {key})[key := Record(1, None, at)]);
  }

  /** Evictions count: a crowd of MAX_KEYS - 1 other keys, at any later time within the window or
      even at the same time, makes the limiter forget a key that has spent all its attempts, and
      admit it again within the same window. */
  lemma OverflowForgets(c: Config, key: string, at: int) returns (states: seq<Attempts>, events: seq<Event>)
    requires c.Valid() && 0 <= at < c.window && key != ""
    ensures Run(c, states, events) && |KeysOf(events)| <= 50_000
    ensures AllowedIn(events, key, 0, c.window) == c.max + 1 && SucceededIn(events, key, 0, c.window) == 0
    ensures EvictedIn(c, states, events, key, 0, c.window) > 0
  {
    var ss, es, m := CrowdRun(c, key, MAX_KEYS - 1, at);
    states, events := AgainRun(c, ss, es, m, key, at);
    SubsetSize(KeysOf(events), m.Keys);
    EvictionNeeded(c, states, events, key, 0);
  }

  /** The window admits at most `max` attempts for the key, and `max` more for each success. */
  predicate OnlySuccessesAdd(c: Config, events: seq<Event>, key: string, from: int) {
    AllowedIn(events, key, from, from + c.window)
    <= c.max * (SucceededIn(events, key, from, from + c.window) + 1)
  }

  /** That holds in every run in which at most n keys reserve within any one window. */
  ghost predicate SafeForKeys(c: Config, n: nat) {
    forall states, events, key, from ::
      Run(c, states, events) && FewKeys(c, events, n) ==> OnlySuccessesAdd(c, events, key, from)
  }

  /** A caller can count on it for exactly the numbers of keys below the capacity. */
  lemma SafeForKeysIff(c: Config, n: nat)
    requires c.Valid()
    ensures SafeForKeys(c, n) <==> n < 50_000
  {
    if n < MAX_KEYS {
      forall states, events, key, from | Run(c, states, events) && FewKeys(c, events, n)
        ensures OnlySuccessesAdd(c, events, key, from)
      {
        forall i: nat | i < |states| ensures |states[i]| < MAX_KEYS {
          FewKeysStayBelow(c, states, events, n, i);
        }
        SlidingWindow(c, states, events, key, from);
      }
    } else {
      var states, events := OverflowForgets(c, "k", 0);
      forall j: nat | j < |events| ensures |WindowKeys(c, events, j)| <= n {
        SomeOfAllKeys(events, events[j].at - c.window, j + 1);
        SubsetSize(WindowKeys(c, events, j), KeysOf(events));
      }
      assert c.max * (0 + 1) == c.max;
      assert !OnlySuccessesAdd(c, events, "k", 0);
    }
  }

  /** The empty key shields itself: seen before all others and still unlocked, it stays in the
      full map, and the prune drops a record that was seen later. */
  lemma EmptyKeyShieldsItself(c: Config, at: int)
    returns (states: seq<Attempts>, events: seq<Event>, key: string)
    requires c.Valid() && 0 < at < c.window
    ensures Run(c, states, events) && events != []
    ensures var n := |events| - 1;
            && events[n] == Reserve(key, at, true, 0) && Evicts(c, states[n], events[n], states[n + 1], key)
            && Shielded(c, states[n], states[n + 1], key, at)
  {
    var ss, es, m := CrowdRun(c, "", MAX_KEYS - 1, at);
    key := OtherKey(m, "");
    NewerIsEvicted(c, m, key, at);
    EvictionShows(c, m, key, at);
    states, events := ShieldRun(c, ss, es, m, key, at);
  }

  /** The key's record was seen at this time, the empty key's at 0, and that one stays. */
  predicate Shielded(c: Config, before: Attempts, after: Attempts, key: string, at: int)
    requires c.Valid()
  {
    Get(before, key) == Some(Record(1, None, at)) && Get(after, "") == Get(before, "") == Some(Record(c.max, None, 0))
  }

  lemma ShieldRun(c: Config, ss: seq<Attempts>, es: seq<Event>, m: Attempts, key: string, at: int)
    returns (states: seq<Attempts>, events: seq<Event>)
    requires Run(c, ss, es) && ss[|es|] == m && (es != [] ==> LastAt(es) <= at)
    requires Get(m, key) == Some(Record(1, None, at)) && Get(m, "") == Some(Record(c.max, None, 0)) && key != ""
    requires Step(c, m, Reserve(key, at, true, 0), (m - {key})[key := Record(1, None, at)])
    ensures Run(c, states, events) && events != []
    ensures var n := |events| - 1;
            && events[n] == Reserve(key, at, true, 0)
            && states[n] == m && states[n + 1] == (m - {key})[key := Record(1, None, at)]
            && Shielded(c, states[n], states[n + 1], key, at)
  {
    var e, after := Reserve(key, at, true, 0), (m - {key})[key := Record(1, None, at)];
    RunExtend(c, ss, es, e, after);
    states, events := ss + [after], es + [e];
  }

  lemma OtherKey(m: Attempts, key: string) returns (other: string)
    requires |m| > 1
    ensures other in m && other != key
  {
    assert |m| == |m.Keys|;
    if forall k :: k in m ==> k == key {
      SubsetSize(m.Keys, {key});
    }
    other :| other in m && other != key;
  }

  lemma NewerIsEvicted(c: Config, m: Attempts, key: string, at: int)
    requires c.Valid() && 0 < at < c.window && Crowded(m, "", c.max, MAX_KEYS - 1, at) && key in m && key != ""
    ensures Step(c, m, Reserve(key, at, true, 0), (m - {key})[key := Record(1, None, at)])
  {
    assert Live(c, m, at) == m;
    OneIsEvicted(m, at, key);
    ReserveVia(c, m, key, at, m - {key});
  }

  lemma EvictionShows(c: Config, m: Attempts, key: string, at: int)
    requires c.Valid() && Get(m, key) == Some(Record(1, None, at))
    ensures Evicts(c, m, Reserve(key, at, true, 0), (m - {key})[key := Record(1, None, at)], key)
  {
    assert Attempt(c, Some(m[key]), at).rec != Record(1, None, at);
  }
}
