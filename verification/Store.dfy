/** The database as the code uses it: tables are maps and sets, a transaction is one step that
    happens or does not.  A parameter `ok` or `commits` says whether the database carries the
    operation out; when it does not, nothing has changed. */
module Store {
  import opened Basics
  import opened Coverage
  import opened Reminder
  import SqlTime

  /** Columns an update leaves as they were first inserted. */
  datatype Fixed = Fixed(accountAlias: string, region: string, rtype: string, resourceId: string,
                         instanceType: string, platform: string, startTime: int)

  /** Columns an update replaces, besides status and expiry. */
  datatype Details = Details(quantity: int, usedCount: int, description: string,
                             hourlyRate: real, equivCores: real, capacityUnit: string)

  datatype Reservation = Reservation(id: string, accountId: string, fixed: Fixed,
                                     status: string, endTime: int, details: Details)

  type Reservations = map<string, Reservation>

  type GpuTable = map<string, GpuCoverage>

  /** A reminder already sent: resource, reminder key, expiry. */
  datatype LogRow = LogRow(id: string, key: string, end: int)

  /** What the text column keeps of an instant. */
  function Cut(t: int): int { t / SqlTime.SECOND * SqlTime.SECOND }

  /** That is the beginning of the second the instant falls in. */
  lemma CutIsSecond(t: int)
    ensures Cut(t) <= t < Cut(t) + 1_000_000_000 && Cut(t) % 1_000_000_000 == 0
  {
    assert t == t / 1_000_000_000 * 1_000_000_000 + t % 1_000_000_000;
  }

  /** Reading the column gives it back. */
  lemma {:induction false} CutIsRead(t: int)
    requires SqlTime.Storable(t / SqlTime.SECOND)
    ensures SqlTime.ParseTime(SqlTime.FormatTime(t)) == Some(Cut(t))
  {
    SqlTime.FormatParseRoundTrip(t);
  }

  // ----- Writing reservations -----

  function Stored(r: Reservation): Reservation {
    r.(endTime := Cut(r.endTime), fixed := r.fixed.(startTime := Cut(r.fixed.startTime)))
  }

  /** Insert, or update the changeable columns of the row with the same ID. */
  function Upserted(m: Reservations, r: Reservation): Reservations {
    if r.id in m
    then m[r.id := m[r.id].(status := r.status, endTime := Cut(r.endTime), details := r.details)]
    else m[r.id := Stored(r)]
  }

  /** What an upsert leaves, column by column. */
  lemma UpsertWrites(m: Reservations, r: Reservation)
    ensures Upserted(m, r).Keys == m.Keys + {r.id}
    ensures forall id :: id in m && id != r.id ==> Upserted(m, r)[id] == m[id]
    ensures var row := Upserted(m, r)[r.id];
            && row.status == r.status && row.details == r.details
            && row.endTime <= r.endTime < row.endTime + 1_000_000_000 && row.endTime % 1_000_000_000 == 0
            && (r.id in m ==> row.id == m[r.id].id && row.accountId == m[r.id].accountId && row.fixed == m[r.id].fixed)
            && (r.id !in m ==>
                  && row.id == r.id && row.accountId == r.accountId
                  && row.fixed == r.fixed.(startTime := row.fixed.startTime)
                  && row.fixed.startTime <= r.fixed.startTime < row.fixed.startTime + 1_000_000_000
                  && row.fixed.startTime % 1_000_000_000 == 0)
  {
    CutIsSecond(r.endTime);
    CutIsSecond(r.fixed.startTime);
  }

  function UpsertedAll(m: Reservations, items: seq<Reservation>): Reservations {
    if items == [] then m else Upserted(UpsertedAll(m, items[..|items| - 1]), items[|items| - 1])
  }

  function WithoutAccount(m: Reservations, account: string): Reservations {
    map id | id in m && m[id].accountId != account :: m[id]
  }

  function Replaced(m: Reservations, account: string, items: seq<Reservation>): Reservations {
    UpsertedAll(WithoutAccount(m, account), items)
  }

  function OnlyAccounts(m: Reservations, keep: seq<string>): Reservations {
    map id | id in m && m[id].accountId in keep :: m[id]
  }

  function GpuUpserted(m: GpuTable, g: GpuCoverage): GpuTable {
    if g.id in m
    then m[g.id := m[g.id].(coverage := g.coverage, coverageRef := g.coverageRef, spRate := g.spRate)]
    else m[g.id := g]
  }

  /** What an upsert leaves in a GPU row, column by column. */
  lemma GpuUpsertWrites(m: GpuTable, g: GpuCoverage)
    ensures GpuUpserted(m, g).Keys == m.Keys + {g.id}
    ensures forall id :: id in m && id != g.id ==> GpuUpserted(m, g)[id] == m[id]
    ensures var row := GpuUpserted(m, g)[g.id];
            && row.coverage == g.coverage && row.coverageRef == g.coverageRef && row.spRate == g.spRate
            && row == (if g.id in m then m[g.id] else g).(coverage := row.coverage, coverageRef := row.coverageRef,
                                                          spRate := row.spRate)
  {
  }

  function GpuUpsertedAll(m: GpuTable, items: seq<GpuCoverage>): GpuTable {
    if items == [] then m else GpuUpserted(GpuUpsertedAll(m, items[..|items| - 1]), items[|items| - 1])
  }

  function GpuReplaced(m: GpuTable, account: string, items: seq<GpuCoverage>): GpuTable {
    GpuUpsertedAll(map id | id in m && m[id].accountId != account :: m[id], items)
  }

  function GpuOnlyAccounts(m: GpuTable, keep: seq<string>): GpuTable {
    map id | id in m && m[id].accountId in keep :: m[id]
  }

  const PRUNE_MAX_ACCOUNTS := 900

  // ----- Alerts -----

  const INACTIVE: set<string> := {"cancelled", "expired", "failed", "deleted", "retired"}

  /** Does the alert query, running at this time, return the row? */
  predicate Expiring(r: Reservation, now: int, remindDays: seq<int>) {
    InWindow(r.endTime, now, remindDays) && r.status !in INACTIVE
  }

  /** Which rows the query is to reach: active ones whose expiry lies ahead, but no further than
      30 days or some reminder. */
  lemma ExpiringIff(r: Reservation, now: int, remindDays: seq<int>)
    ensures Expiring(r, now, remindDays)
            <==> && r.endTime != 0 && now < r.endTime
                 && (DaysLeft(r.endTime, now) <= 30 || exists d :: d in remindDays && DaysLeft(r.endTime, now) <= d)
                 && r.status != "cancelled" && r.status != "expired" && r.status != "failed"
                 && r.status != "deleted" && r.status != "retired"
  {
    InWindowIff(r.endTime, now, remindDays);
  }

  datatype Alert = Alert(r: Reservation, daysLeft: int, level: string, threshold: int)

  function AlertOf(r: Reservation, now: int, remindDays: seq<int>): Alert {
    var days := DaysLeft(r.endTime, now);
    Alert(r, days, Level(days), Crossed(days, remindDays))
  }

  /** What an alert says: the days left, rounded up, and the level and the reminder they stand for. */
  lemma AlertReads(r: Reservation, now: int, remindDays: seq<int>)
    ensures var a := AlertOf(r, now, remindDays);
            && a.r == r
            && (if r.endTime == 0 then a.daysLeft == 0
                else (a.daysLeft - 1) * 86_400_000_000_000 < r.endTime - now <= a.daysLeft * 86_400_000_000_000)
            && (a.level == "critical" <==> a.daysLeft <= 3) && (a.level == "warning" <==> 4 <= a.daysLeft <= 7)
            && (a.level == "attention" <==> 8 <= a.daysLeft <= 14) && (a.level == "normal" <==> a.daysLeft >= 15)
    ensures var a := AlertOf(r, now, remindDays);
            Positive(remindDays) ==>
              && (a.threshold == 0 <==> forall d :: d in remindDays ==> d < a.daysLeft)
              && (a.threshold != 0 ==> a.threshold in remindDays && a.threshold >= a.daysLeft)
              && forall d :: d in remindDays && d >= a.daysLeft ==> a.threshold <= d
  {
    var days := DaysLeft(r.endTime, now);
    LevelIsByDays(days);
    if r.endTime != 0 {
      DaysLeftIsCeiling(r.endTime, now);
    }
    if Positive(remindDays) {
      CrossedIsLeast(days, remindDays);
    }
  }

  method NewAlert(r: Reservation, now: int, remindDays: seq<int>) returns (a: Alert)
    ensures a == AlertOf(r, now, remindDays)
  {
    var days := DaysUntil(r.endTime, now);
    var threshold := CrossedThreshold(days, remindDays);
    a := Alert(r, days, Level(days), threshold);
  }

  function LogRowOf(a: Alert): LogRow { LogRow(a.r.id, NotifyKey(a.threshold, a.level), Cut(a.r.endTime)) }

  ghost predicate Keyed(m: Reservations) {
    forall id :: id in m ==> m[id].id == id
  }

  /** The rows the query returns, each once, soonest expiry first. */
  ghost predicate QueryResult(m: Reservations, now: int, remindDays: seq<int>, rows: seq<Reservation>) {
    && (forall r :: r in rows <==> r.id in m && m[r.id] == r && Expiring(r, now, remindDays))
    && (forall i, j :: 0 <= i < j < |rows| ==> rows[i].id != rows[j].id && rows[i].endTime <= rows[j].endTime)
  }

  /** A row is in the result exactly if its own columns say so, and the result is in order of
      expiry. */
  lemma QueryReaches(m: Reservations, now: int, remindDays: seq<int>, rows: seq<Reservation>, id: string)
    requires Keyed(m) && id in m && QueryResult(m, now, remindDays, rows)
    ensures m[id] in rows
            <==> && m[id].endTime != 0 && now < m[id].endTime
                 && (DaysLeft(m[id].endTime, now) <= 30
                     || exists d :: d in remindDays && DaysLeft(m[id].endTime, now) <= d)
                 && m[id].status != "cancelled" && m[id].status != "expired" && m[id].status != "failed"
                 && m[id].status != "deleted" && m[id].status != "retired"
    ensures forall i, j :: 0 <= i < j < |rows| ==> rows[i].endTime <= rows[j].endTime && rows[i].id != rows[j].id
  {
    ExpiringIff(m[id], now, remindDays);
  }

  /** Inserts a row behind all that expire no later. */
  function InsertByEnd(rows: seq<Reservation>, r: Reservation): seq<Reservation> {
    if rows == [] || rows[|rows| - 1].endTime <= r.endTime then rows + [r]
    else InsertByEnd(rows[..|rows| - 1], r) + [rows[|rows| - 1]]
  }

  lemma {:induction false} InsertByEndKeepsOrder(rows: seq<Reservation>, r: Reservation)
    requires forall i, j :: 0 <= i < j < |rows| ==> rows[i].id != rows[j].id && rows[i].endTime <= rows[j].endTime
    requires forall x :: x in rows ==> x.id != r.id
    ensures var s := InsertByEnd(rows, r);
            && (forall x :: x in s <==> x in rows || x == r)
            && forall i, j :: 0 <= i < j < |s| ==> s[i].id != s[j].id && s[i].endTime <= s[j].endTime
  {
    if rows != [] && rows[|rows| - 1].endTime > r.endTime {
      var n := |rows| - 1;
      assert rows == rows[..n] + [rows[n]];
      InsertByEndKeepsOrder(rows[..n], r);
      var s := InsertByEnd(rows[..n], r);
      forall i | 0 <= i < |s| ensures s[i].id != rows[n].id && s[i].endTime <= rows[n].endTime {
        assert s[i] in s;
        assert s[i] in rows[..n] || s[i] == r;
      }
    }
  }

  // ----- The notify log -----

  const RETENTION := 90 * DAY

  /** Rows whose expiry is further back than the retention go; rows without expiry stay. */
  function LogPruned(log: set<LogRow>, now: int): set<LogRow> {
    set row | row in log && !(row.end != 0 && row.end < Cut(now - RETENTION))
  }

  /** A stored row goes when its expiry is more than 90 days back, to the second. */
  lemma LogPrunedIff(log: set<LogRow>, now: int, row: LogRow)
    requires row.end % 1_000_000_000 == 0
    ensures row in LogPruned(log, now)
            <==> row in log && (row.end == 0 || row.end + 1_000_000_000 > now - 90 * 86_400_000_000_000)
  {
    CutIsSecond(now - RETENTION);
  }

  class Database {
    var reservations: Reservations
    var gpuCoverage: GpuTable
    var notifyLog: set<LogRow>

    constructor ()
      ensures reservations == map[] && gpuCoverage == map[] && notifyLog == {}
    {
      reservations, gpuCoverage, notifyLog := map[], map[], {};
    }

    method Upsert(r: Reservation, ok: bool)
      modifies this`reservations
      ensures reservations == if ok then Upserted(old(reservations), r) else old(reservations)
    {
      if ok {
        reservations := Upserted(reservations, r);
      }
    }

    /** Deletes the account's rows and inserts the items in one transaction. */
    method ReplaceAccount(account: string, items: seq<Reservation>, commits: bool) returns (done: bool)
      modifies this`reservations
      ensures done == commits
      ensures reservations == if done then Replaced(old(reservations), account, items) else old(reservations)
    {
      var tx := WithoutAccount(reservations, account);
      for i := 0 to |items|
        invariant tx == UpsertedAll(WithoutAccount(old(reservations), account), items[..i])
      {
        assert items[..i + 1][..i] == items[..i];
        tx := Upserted(tx, items[i]);
      }
      assert items[..|items|] == items;
      if commits {
        reservations := tx;
      }
      return commits;
    }

    method UpsertGpuCoverage(g: GpuCoverage, ok: bool)
      modifies this`gpuCoverage
      ensures gpuCoverage == if ok then GpuUpserted(old(gpuCoverage), g) else old(gpuCoverage)
    {
      if ok {
        gpuCoverage := GpuUpserted(gpuCoverage, g);
      }
    }

    method ReplaceGpuCoverage(account: string, items: seq<GpuCoverage>, commits: bool) returns (done: bool)
      modifies this`gpuCoverage
      ensures done == commits
      ensures gpuCoverage == if done then GpuReplaced(old(gpuCoverage), account, items) else old(gpuCoverage)
    {
      var tx := map id | id in gpuCoverage && gpuCoverage[id].accountId != account :: gpuCoverage[id];
      ghost var start := tx;
      for i := 0 to |items|
        invariant tx == GpuUpsertedAll(start, items[..i])
      {
        assert items[..i + 1][..i] == items[..i];
        tx := GpuUpserted(tx, items[i]);
      }
      assert items[..|items|] == items;
      if commits {
        gpuCoverage := tx;
      }
      return commits;
    }

    /** Deletes the rows of all accounts not kept: first the reservations, then, if that went
        well, the GPU coverage.  An empty list deletes nothing, a list beyond the cap is refused.
        In either case the number of rows deleted so far is returned. */
    method PruneAccounts(keep: seq<string>, reservationsOk: bool, gpuOk: bool) returns (done: bool, removed: nat)
      modifies this`reservations, this`gpuCoverage
      ensures done == (keep == [] || (|keep| <= 900 && reservationsOk && gpuOk))
      ensures reservations == if 0 < |keep| <= 900 && reservationsOk
                              then OnlyAccounts(old(reservations), keep) else old(reservations)
      ensures gpuCoverage == if 0 < |keep| <= 900 && reservationsOk && gpuOk
                             then GpuOnlyAccounts(old(gpuCoverage), keep) else old(gpuCoverage)
      ensures removed + |reservations| + |gpuCoverage| == |old(reservations)| + |old(gpuCoverage)|
    {
      done, removed := true, 0;
      if |keep| == 0 {
        return;
      }
      if |keep| > PRUNE_MAX_ACCOUNTS || !reservationsOk {
        return false, 0;
      }
      var kept := OnlyAccounts(reservations, keep);
      SubsetSize(kept.Keys, reservations.Keys);
      removed := |reservations.Keys| - |kept.Keys|;
      reservations := kept;
      if !gpuOk {
        return false, removed;
      }
      var gpuKept := GpuOnlyAccounts(gpuCoverage, keep);
      SubsetSize(gpuKept.Keys, gpuCoverage.Keys);
      removed := removed + (|gpuCoverage.Keys| - |gpuKept.Keys|);
      gpuCoverage := gpuKept;
    }

    /** The alert query. */
    method QueryExpiring(sqlNow: int, remindDays: seq<int>) returns (rows: seq<Reservation>)
      requires Keyed(reservations)
      ensures QueryResult(reservations, sqlNow, remindDays, rows)
    {
      var maxDays := MaxRemindDays(remindDays);
      rows := [];
      var todo := reservations.Keys;
      while todo != {}
        invariant todo <= reservations.Keys
        invariant QueryResult(map id | id in reservations && id !in todo :: reservations[id], sqlNow, remindDays, rows)
        decreases |todo|
      {
        var id :| id in todo;
        todo := todo - {id};
        var r := reservations[id];
        if r.endTime != 0 && r.endTime > sqlNow && r.endTime <= sqlNow + maxDays * DAY
           && r.status !in {"cancelled", "expired", "failed", "deleted", "retired"} {
          InsertByEndKeepsOrder(rows, r);
          rows := InsertByEnd(rows, r);
        }
      }
      assert (map id | id in reservations && id !in todo :: reservations[id]) == reservations;
    }

    /** The rows expiring soon, as alerts; the query and the alerts read the clock one after
        the other. */
    method GetAlerts(sqlNow: int, now: int, remindDays: seq<int>) returns (alerts: seq<Alert>)
      requires Keyed(reservations)
      ensures exists rows :: && QueryResult(reservations, sqlNow, remindDays, rows)
                             && |alerts| == |rows|
                             && forall i :: 0 <= i < |rows| ==> alerts[i] == AlertOf(rows[i], now, remindDays)
    {
      var rows := QueryExpiring(sqlNow, remindDays);
      alerts := [];
      for i := 0 to |rows|
        invariant |alerts| == i
        invariant forall j :: 0 <= j < i ==> alerts[j] == AlertOf(rows[j], now, remindDays)
      {
        var a := NewAlert(rows[i], now, remindDays);
        alerts := alerts + [a];
      }
    }

    /** Was this reminder sent for this expiry?  None when the log cannot be read. */
    method HasNotified(id: string, key: string, end: int, ok: bool) returns (r: Option<bool>)
      ensures r == if ok then Some(LogRow(id, key, Cut(end)) in notifyLog) else None
    {
      if !ok {
        return None;
      }
      return Some(LogRow(id, key, Cut(end)) in notifyLog);
    }

    /** Marks all alerts in one transaction. */
    method MarkNotifiedBatch(rows: seq<LogRow>, commits: bool)
      modifies this`notifyLog
      ensures notifyLog == if commits then old(notifyLog) + (set row | row in rows) else old(notifyLog)
    {
      var tx := notifyLog;
      for i := 0 to |rows|
        invariant tx == notifyLog + set row | row in rows[..i]
      {
        tx := tx + {rows[i]};
        assert rows[..i + 1] == rows[..i] + [rows[i]];
      }
      assert rows[..|rows|] == rows;
      if commits {
        notifyLog := tx;
      }
    }

    /** Deletes what is past its retention and returns how many rows that were. */
    method PruneNotifyLog(now: int, ok: bool) returns (removed: nat)
      modifies this`notifyLog
      ensures notifyLog == if ok then LogPruned(old(notifyLog), now) else old(notifyLog)
      ensures removed + |notifyLog| == |old(notifyLog)|
    {
      var cutoff := Cut(now - RETENTION);
      removed := 0;
      if ok {
        var kept := set row | row in notifyLog && (row.end == 0 || row.end >= cutoff);
        SubsetSize(kept, notifyLog);
        removed := |notifyLog| - |kept|;
        notifyLog := kept;
      }
    }
  }
}
