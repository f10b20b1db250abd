/** When a reminder is due and which reminder it is: days left, the configured threshold just
    crossed, and the key under which the reminder is remembered.  Instants are nanoseconds;
    0 is the zero time. */
module Reminder {

  const DAY := 86_400_000_000_000

  // ----- Days left -----

  /** The number of days until `end`, rounded up; 0 when there is no end. */
  function DaysLeft(end: int, now: int): int {
    if end == 0 then 0 else -((now - end) / DAY)
  }

  /** Division as the code's language does it, cutting toward zero. */
  function TruncDiv(a: int, b: int): int
    requires b > 0
  {
    if a >= 0 then a / b else -(-a / b)
  }

  function TruncMod(a: int, b: int): int
    requires b > 0
  {
    a - TruncDiv(a, b) * b
  }

  method DaysUntil(end: int, now: int) returns (days: int)
    ensures days == DaysLeft(end, now)
  {
    if end == 0 {
      return 0;
    }
    var d := end - now;
    days := TruncDiv(d, DAY);
    if d > 0 && TruncMod(d, DAY) != 0 {
      days := days + 1;
    }
    if d > 0 {
      CeilingIsUnique(d, days);
      CeilingIsUnique(d, DaysLeft(end, now));
    }
  }

  lemma CeilingIsUnique(d: int, days: int)
    ensures (days - 1) * DAY < d <= days * DAY <==> days == -(-d / DAY)
  {
  }

  /** Rounded up for either sign: the last day left is not over yet, and it is the last. */
  lemma DaysLeftIsCeiling(end: int, now: int)
    requires end != 0
    ensures (DaysLeft(end, now) - 1) * 86_400_000_000_000 < end - now <= DaysLeft(end, now) * 86_400_000_000_000
  {
  }

  lemma DaysLeftShrinks(end: int, now: int, later: int)
    requires now <= later
    ensures DaysLeft(end, later) <= DaysLeft(end, now)
  {
  }

  // ----- Thresholds -----

  /** The smallest value not below `daysLeft`, with 0 for none; the first loop. */
  function SmallestFrom(daysLeft: int, remindDays: seq<int>): int {
    if remindDays == [] then 0
    else
      var n := |remindDays| - 1;
      var best := SmallestFrom(daysLeft, remindDays[..n]);
      if remindDays[n] >= daysLeft && (best == 0 || remindDays[n] < best) then remindDays[n] else best
  }

  /** The smallest value, with 0 for none; the second loop. */
  function Smallest(remindDays: seq<int>): int {
    if remindDays == [] then 0
    else
      var n := |remindDays| - 1;
      var best := Smallest(remindDays[..n]);
      if best == 0 || remindDays[n] < best then remindDays[n] else best
  }

  function Crossed(daysLeft: int, remindDays: seq<int>): int {
    var best := SmallestFrom(daysLeft, remindDays);
    if best == 0 && daysLeft <= 0 then Smallest(remindDays) else best
  }

  method CrossedThreshold(daysLeft: int, remindDays: seq<int>) returns (best: int)
    ensures best == Crossed(daysLeft, remindDays)
  {
    best := 0;
    for i := 0 to |remindDays|
      invariant best == SmallestFrom(daysLeft, remindDays[..i])
    {
      assert remindDays[..i + 1][..i] == remindDays[..i];
      var d := remindDays[i];
      if d < daysLeft {
        continue;
      }
      if best == 0 || d < best {
        best := d;
      }
    }
    assert remindDays[..|remindDays|] == remindDays;
    if best == 0 && daysLeft <= 0 {
      for i := 0 to |remindDays|
        invariant best == Smallest(remindDays[..i])
      {
        assert remindDays[..i + 1][..i] == remindDays[..i];
        var d := remindDays[i];
        if best == 0 || d < best {
          best := d;
        }
      }
    }
  }

  /** What the configuration check enforces. */
  predicate Positive(remindDays: seq<int>) {
    forall i :: 0 <= i < |remindDays| ==> remindDays[i] > 0
  }

  lemma {:induction false} SmallestFromFinds(daysLeft: int, remindDays: seq<int>)
    requires Positive(remindDays)
    ensures var best := SmallestFrom(daysLeft, remindDays);
            && (best == 0 <==> forall d :: d in remindDays ==> d < daysLeft)
            && (best != 0 ==> best in remindDays && best >= daysLeft)
            && forall d :: d in remindDays && d >= daysLeft ==> best <= d
  {
    if remindDays != [] {
      var n := |remindDays| - 1;
      SmallestFromFinds(daysLeft, remindDays[..n]);
      assert remindDays == remindDays[..n] + [remindDays[n]];
      assert remindDays[n] in remindDays && remindDays[n] > 0;
      assert forall d :: d in remindDays <==> d in remindDays[..n] || d == remindDays[n];
    }
  }

  /** With positive reminder days the threshold is the least of them not below the days left,
      in whatever order they are configured, and 0 exactly when there is none. */
  lemma CrossedIsLeast(daysLeft: int, remindDays: seq<int>)
    requires Positive(remindDays)
    ensures var t := Crossed(daysLeft, remindDays);
            && (t == 0 <==> forall d :: d in remindDays ==> d < daysLeft)
            && (t != 0 ==> t in remindDays && t >= daysLeft)
            && forall d :: d in remindDays && d >= daysLeft ==> t <= d
  {
    SmallestFromFinds(daysLeft, remindDays);
    assert remindDays != [] ==> remindDays[0] in remindDays;
  }

  lemma {:induction false} SmallestFinds(remindDays: seq<int>)
    requires remindDays != [] && forall i :: 0 <= i < |remindDays| ==> remindDays[i] < 0
    ensures exists k :: 0 <= k < |remindDays| && remindDays[k] == Smallest(remindDays)
    ensures forall i :: 0 <= i < |remindDays| ==> Smallest(remindDays) <= remindDays[i]
  {
    var n := |remindDays| - 1;
    if n == 0 {
      assert remindDays[..0] == [];
    } else {
      SmallestFinds(remindDays[..n]);
      var k :| 0 <= k < n && remindDays[..n][k] == Smallest(remindDays[..n]);
      assert remindDays[k] == Smallest(remindDays[..n]);
    }
  }

  /** Overdue past every reminder day, which takes negative ones, the least of all is taken. */
  lemma CrossedWhenOverdue(daysLeft: int, remindDays: seq<int>)
    requires daysLeft <= 0 && remindDays != [] && forall i :: 0 <= i < |remindDays| ==> remindDays[i] < daysLeft
    ensures exists k :: 0 <= k < |remindDays| && remindDays[k] == Crossed(daysLeft, remindDays)
    ensures forall i :: 0 <= i < |remindDays| ==> Crossed(daysLeft, remindDays) <= remindDays[i]
  {
    NoneFrom(daysLeft, remindDays);
    SmallestFinds(remindDays);
  }

  lemma {:induction false} NoneFrom(daysLeft: int, remindDays: seq<int>)
    requires forall i :: 0 <= i < |remindDays| ==> remindDays[i] < daysLeft
    ensures SmallestFrom(daysLeft, remindDays) == 0
  {
    if remindDays != [] {
      var n := |remindDays| - 1;
      NoneFrom(daysLeft, remindDays[..n]);
    }
  }

  /** A threshold once passed never returns: with fewer days left the crossed threshold is the
      same or smaller. */
  lemma ThresholdsOnlyShrink(daysLeft: int, fewer: int, remindDays: seq<int>)
    requires Positive(remindDays) && fewer <= daysLeft
    requires Crossed(daysLeft, remindDays) != 0
    ensures 0 < Crossed(fewer, remindDays) <= Crossed(daysLeft, remindDays)
  {
    CrossedIsLeast(daysLeft, remindDays);
    CrossedIsLeast(fewer, remindDays);
  }

  // ----- Keys -----

  function Level(daysLeft: int): string {
    if daysLeft <= 3 then "critical"
    else if daysLeft <= 7 then "warning"
    else if daysLeft <= 14 then "attention"
    else "normal"
  }

  /** The levels cover all days without gap or overlap, overdue ones included. */
  lemma LevelIsByDays(daysLeft: int)
    ensures Level(daysLeft) == "critical" <==> daysLeft <= 3
    ensures Level(daysLeft) == "warning" <==> 4 <= daysLeft <= 7
    ensures Level(daysLeft) == "attention" <==> 8 <= daysLeft <= 14
    ensures Level(daysLeft) == "normal" <==> daysLeft >= 15
  {
    assert "critical"[0] == 'c' && "warning"[0] == 'w' && "attention"[0] == 'a' && "normal"[0] == 'n';
  }

  const GPU_ON_DEMAND := "gpu_od"

  function Decimal(n: nat): string {
    if n < 10 then ['0' + n as char] else Decimal(n / 10) + ['0' + (n % 10) as char]
  }

  /** The number a decimal text denotes. */
  function Value(s: string): int {
    if s == "" then 0 else Value(s[..|s| - 1]) * 10 + (s[|s| - 1] as int - '0' as int)
  }

  lemma {:induction false} DecimalDenotes(n: nat)
    ensures Value(Decimal(n)) == n
  {
    if n >= 10 {
      DecimalDenotes(n / 10);
      assert Decimal(n)[..|Decimal(n)| - 1] == Decimal(n / 10);
    } else {
      assert Decimal(n)[..0] == "";
    }
  }

  function NotifyKey(threshold: int, level: string): string {
    if threshold > 0 then "t" + Decimal(threshold) else level
  }

  /** Different thresholds have different keys, and no level reads like a threshold. */
  lemma NotifyKeysAreDistinct(s: int, t: int, daysLeft: int)
    requires s > 0 && t > 0
    ensures NotifyKey(s, "") == NotifyKey(t, "") <==> s == t
    ensures NotifyKey(s, "") != Level(daysLeft) && NotifyKey(s, "") != GPU_ON_DEMAND
    ensures GPU_ON_DEMAND == "gpu_od"
  {
    DecimalDenotes(s);
    DecimalDenotes(t);
    assert NotifyKey(s, "")[1..] == Decimal(s) && NotifyKey(t, "")[1..] == Decimal(t);
    assert NotifyKey(s, "")[0] == 't';
  }

  /** A threshold is written in decimal behind a t; without one the level is the key. */
  lemma NotifyKeyReads(threshold: int, level: string)
    ensures var key := NotifyKey(threshold, level);
            threshold > 0 ==> key[..1] == "t" && Value(key[1..]) == threshold
    ensures threshold <= 0 ==> NotifyKey(threshold, level) == level
    ensures NotifyKey(7, level) == "t7" && NotifyKey(30, level) == "t30"
  {
    if threshold > 0 {
      DecimalDenotes(threshold);
      assert NotifyKey(threshold, level)[1..] == Decimal(threshold);
    }
  }

  /** The key of the reminder for a resource that expires at `end`. */
  function KeyAt(end: int, now: int, remindDays: seq<int>): string {
    var days := DaysLeft(end, now);
    NotifyKey(Crossed(days, remindDays), Level(days))
  }

  // ----- The alert window -----

  function MaxRemindDays(remindDays: seq<int>): int {
    if remindDays == [] then 30
    else
      var n := |remindDays| - 1;
      var m := MaxRemindDays(remindDays[..n]);
      if remindDays[n] > m then remindDays[n] else m
  }

  lemma {:induction false} MaxRemindDaysIsLargest(remindDays: seq<int>)
    ensures var m := MaxRemindDays(remindDays);
            m >= 30 && (m == 30 || m in remindDays) && forall d :: d in remindDays ==> d <= m
  {
    if remindDays != [] {
      var n := |remindDays| - 1;
      MaxRemindDaysIsLargest(remindDays[..n]);
      assert remindDays == remindDays[..n] + [remindDays[n]];
    }
  }

  /** Expiring later than now but within the widest reminder, as the query has it. */
  predicate InWindow(end: int, now: int, remindDays: seq<int>) {
    end != 0 && now < end <= now + MaxRemindDays(remindDays) * DAY
  }

  /** The window in days left: not over yet, and no further away than 30 days or some reminder. */
  lemma InWindowIff(end: int, now: int, remindDays: seq<int>)
    ensures InWindow(end, now, remindDays)
            <==> && end != 0 && now < end
                 && (DaysLeft(end, now) <= 30 || exists d :: d in remindDays && DaysLeft(end, now) <= d)
  {
    MaxRemindDaysIsLargest(remindDays);
    if end != 0 {
      DaysLeftIsCeiling(end, now);
      DaysWithin(end - now, DaysLeft(end, now), MaxRemindDays(remindDays));
    }
  }

  lemma DaysWithin(d: int, days: int, limit: int)
    requires (days - 1) * DAY < d <= days * DAY
    ensures d <= limit * DAY <==> days <= limit
  {
  }

  predicate Configured(key: string, remindDays: seq<int>) {
    exists d :: d in remindDays && key == NotifyKey(d, "")
  }

  /** Exactly when every alert is one of the configured reminders: some reminder must be at 30
      days or more, because the query never looks less than 30 days ahead.  Otherwise a
      resource beyond the widest reminder is reported under its coarse level as well. */
  lemma KeysAreConfiguredIff(remindDays: seq<int>)
    requires Positive(remindDays)
    ensures (forall end, sqlNow, now :: sqlNow <= now && InWindow(end, sqlNow, remindDays) ==>
                                          Configured(KeyAt(end, now, remindDays), remindDays))
            <==> exists d :: d in remindDays && d >= 30
  {
    MaxRemindDaysIsLargest(remindDays);
    if d :| d in remindDays && d >= 30 {
      forall end, sqlNow, now | sqlNow <= now && InWindow(end, sqlNow, remindDays)
        ensures Configured(KeyAt(end, now, remindDays), remindDays)
      {
        WithinWidest(end, sqlNow, now, remindDays, MaxRemindDays(remindDays));
      }
    } else {
      var end, now := 30 * DAY + 1, 1;
      CrossedIsLeast(30, remindDays);
      assert DaysLeft(end, now) == 30;
      assert InWindow(end, now, remindDays);
      assert KeyAt(end, now, remindDays) == Level(30);
      forall d | d in remindDays ensures Level(30) != NotifyKey(d, "") {
        NotifyKeysAreDistinct(d, d, 30);
      }
      assert !Configured(KeyAt(end, now, remindDays), remindDays);
    }
  }

  lemma WithinWidest(end: int, sqlNow: int, now: int, remindDays: seq<int>, widest: int)
    requires Positive(remindDays) && sqlNow <= now && InWindow(end, sqlNow, remindDays)
    requires widest in remindDays && widest == MaxRemindDays(remindDays)
    ensures Configured(KeyAt(end, now, remindDays), remindDays)
    ensures 0 < Crossed(DaysLeft(end, now), remindDays) && Crossed(DaysLeft(end, now), remindDays) in remindDays
    ensures KeyAt(end, now, remindDays) == NotifyKey(Crossed(DaysLeft(end, now), remindDays), "")
  {
    DaysLeftIsCeiling(end, now);
    assert DaysLeft(end, now) <= widest;
    CrossedIsLeast(DaysLeft(end, now), remindDays);
  }
}
