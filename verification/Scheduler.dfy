/** The reminder cycles: query, filter against the log, send to every notifier, and mark what
    at least one of them delivered. */
module Scheduler {
  import opened Coverage
  import opened Reminder
  import opened Store

  /** The reminders a check cycle finds due and not yet sent.  A row whose log entry could not
      be read is skipped. */
  function Pending(rows: Reservations, log: set<LogRow>, sqlNow: int, now: int, remindDays: seq<int>,
                   unreadable: set<string>): set<LogRow>
  {
    set id | id in rows && Expiring(rows[id], sqlNow, remindDays) && id !in unreadable
             && ReminderRow(rows[id], now, remindDays) !in log ::
             ReminderRow(rows[id], now, remindDays)
  }

  /** The log row of the reminder this row is due for. */
  function ReminderRow(r: Reservation, now: int, remindDays: seq<int>): LogRow {
    LogRow(r.id, KeyAt(r.endTime, now, remindDays), Cut(r.endTime))
  }

  /** The same for instances reported on demand; they have no expiry. */
  function GpuPending(gpu: GpuTable, log: set<LogRow>, unreadable: set<string>): set<LogRow> {
    set id | id in gpu && gpu[id].coverage == OnDemand && id !in unreadable
             && LogRow(id, GPU_ON_DEMAND, 0) !in log ::
             LogRow(id, GPU_ON_DEMAND, 0)
  }

  /** The reminder of a row, told by its columns: the least configured day not below the days left,
      or the level when there is none, for the second the row expires in. */
  lemma ReminderRowReads(r: Reservation, now: int, remindDays: seq<int>, d: int)
    requires Positive(remindDays) && r.endTime != 0
    ensures var row, days := ReminderRow(r, now, remindDays), DaysLeft(r.endTime, now);
            && row.id == r.id
            && row.end <= r.endTime < row.end + 1_000_000_000 && row.end % 1_000_000_000 == 0
            && (d in remindDays && days <= d && (forall e :: e in remindDays && days <= e ==> d <= e) ==>
                  row.key[..1] == "t" && Value(row.key[1..]) == d)
            && ((forall e :: e in remindDays ==> e < days) ==>
                  row.key == if days <= 3 then "critical" else if days <= 7 then "warning"
                             else if days <= 14 then "attention" else "normal")
  {
    var days := DaysLeft(r.endTime, now);
    CutIsSecond(r.endTime);
    CrossedIsLeast(days, remindDays);
    NotifyKeyReads(Crossed(days, remindDays), Level(days));
  }

  /** What a cycle finds due, told by the columns of the rows: the reminders of the rows that are
      active, not over, within 30 days or some reminder, readable in the log and not in it. */
  lemma PendingIff(rows: Reservations, log: set<LogRow>, sqlNow: int, now: int, remindDays: seq<int>,
                   unreadable: set<string>, x: LogRow)
    ensures x in Pending(rows, log, sqlNow, now, remindDays, unreadable)
            <==> x !in log
                 && exists id :: && id in rows && id !in unreadable && x == ReminderRow(rows[id], now, remindDays)
                                 && rows[id].endTime != 0 && sqlNow < rows[id].endTime
                                 && (DaysLeft(rows[id].endTime, sqlNow) <= 30
                                     || exists d :: d in remindDays && DaysLeft(rows[id].endTime, sqlNow) <= d)
                                 && rows[id].status != "cancelled" && rows[id].status != "expired"
                                 && rows[id].status != "failed" && rows[id].status != "deleted"
                                 && rows[id].status != "retired"
  {
    forall id | id in rows
      ensures Expiring(rows[id], sqlNow, remindDays)
              <==> && rows[id].endTime != 0 && sqlNow < rows[id].endTime
                   && (DaysLeft(rows[id].endTime, sqlNow) <= 30
                       || exists d :: d in remindDays && DaysLeft(rows[id].endTime, sqlNow) <= d)
                   && rows[id].status != "cancelled" && rows[id].status != "expired"
                   && rows[id].status != "failed" && rows[id].status != "deleted" && rows[id].status != "retired"
    {
      ExpiringIff(rows[id], sqlNow, remindDays);
    }
  }

  /** The same for the instances: those on demand whose row, without expiry, is not in the log. */
  lemma GpuPendingIff(gpu: GpuTable, log: set<LogRow>, unreadable: set<string>, x: LogRow)
    ensures x in GpuPending(gpu, log, unreadable)
            <==> && x.key == "gpu_od" && x.end == 0 && x !in log
                 && x.id in gpu && gpu[x.id].coverage == OnDemand && x.id !in unreadable
  {
    assert x == LogRow(x.id, x.key, x.end);
  }

  predicate OncePerResource(alerts: seq<Alert>) {
    forall i, j :: 0 <= i < j < |alerts| ==> alerts[i].r.id != alerts[j].r.id
  }

  predicate OncePerInstance(marks: seq<LogRow>) {
    forall i, j :: 0 <= i < j < |marks| ==> marks[i].id != marks[j].id
  }

  ghost predicate KeyedGpu(m: GpuTable) {
    forall id :: id in m ==> m[id].id == id
  }

  class Scheduler {
    const db: Database
    const remindDays: seq<int>

    constructor (db: Database, remindDays: seq<int>)
      ensures this.db == db && this.remindDays == remindDays
    {
      this.db, this.remindDays := db, remindDays;
    }

    /** One check cycle.  `sends` tells which notifier delivers the batch; `queryOk`,
        `unreadable` and `commits` say what the database refuses. */
    method CheckAndNotify(sqlNow: int, now: int, queryOk: bool, unreadable: set<string>,
                          sends: seq<bool>, commits: bool)
      returns (batch: seq<Alert>, delivered: bool)
      requires Keyed(db.reservations)
      modifies db`notifyLog
      ensures var due := Pending(db.reservations, old(db.notifyLog), sqlNow, now, remindDays, unreadable);
              && (set a | a in batch :: LogRowOf(a)) == (if |sends| > 0 && queryOk then due else {})
              && delivered == (batch != [] && true in sends)
              && db.notifyLog == old(db.notifyLog) + if delivered && commits then due else {}
      ensures OncePerResource(batch)
      ensures |sends| == 0 || !queryOk ==> batch == []
    {
      batch, delivered := [], false;
      if |sends| == 0 || !queryOk {
        return;
      }
      batch := DueBatch(sqlNow, now, unreadable);
      if |batch| == 0 {
        assert batch == [];
        return;
      }
      MarksCover(batch);
      delivered := Deliver(Marks(batch), sends, commits);
    }

    /** Queries the alerts and filters out those already sent. */
    method DueBatch(sqlNow: int, now: int, unreadable: set<string>) returns (batch: seq<Alert>)
      requires Keyed(db.reservations)
      ensures (set a | a in batch :: LogRowOf(a))
              == Pending(db.reservations, db.notifyLog, sqlNow, now, remindDays, unreadable)
      ensures OncePerResource(batch)
    {
      var alerts := db.GetAlerts(sqlNow, now, remindDays);
      ghost var rows :| && QueryResult(db.reservations, sqlNow, remindDays, rows)
                        && |alerts| == |rows|
                        && forall i :: 0 <= i < |rows| ==> alerts[i] == AlertOf(rows[i], now, remindDays);
      batch := Unsent(alerts, unreadable);
      BatchIsPending(rows, alerts, batch, sqlNow, now, unreadable);
    }

    function Marks(batch: seq<Alert>): seq<LogRow> {
      seq(|batch|, i requires 0 <= i < |batch| => LogRowOf(batch[i]))
    }

    lemma MarksCover(batch: seq<Alert>)
      ensures (set row | row in Marks(batch)) == (set a | a in batch :: LogRowOf(a))
    {
      forall a | a in batch ensures LogRowOf(a) in Marks(batch) {
        var i :| 0 <= i < |batch| && batch[i] == a;
        assert Marks(batch)[i] == LogRowOf(a);
      }
    }

    /** Sends to every notifier and marks the batch when at least one delivered it. */
    method Deliver(marks: seq<LogRow>, sends: seq<bool>, commits: bool) returns (anySent: bool)
      modifies db`notifyLog
      ensures anySent == (true in sends)
      ensures db.notifyLog == if anySent && commits then old(db.notifyLog) + (set row | row in marks)
                              else old(db.notifyLog)
    {
      anySent := false;
      for i := 0 to |sends|
        invariant anySent == (true in sends[..i])
      {
        assert sends[..i + 1] == sends[..i] + [sends[i]];
        if sends[i] {
          anySent := true;
        }
      }
      assert sends[..|sends|] == sends;
      if anySent {
        db.MarkNotifiedBatch(marks, commits);
      }
    }

    /** The filter loop: keeps what the log does not know yet. */
    method Unsent(alerts: seq<Alert>, unreadable: set<string>) returns (pending: seq<Alert>)
      requires OncePerResource(alerts)
      ensures OncePerResource(pending)
      ensures forall a :: a in pending <==> a in alerts && a.r.id !in unreadable && LogRowOf(a) !in db.notifyLog
    {
      pending := [];
      for i := 0 to |alerts|
        invariant OncePerResource(pending)
        invariant forall a :: a in pending <==>
                                a in alerts[..i] && a.r.id !in unreadable && LogRowOf(a) !in db.notifyLog
      {
        assert alerts[..i + 1] == alerts[..i] + [alerts[i]];
        var a := alerts[i];
        var notified := db.HasNotified(a.r.id, NotifyKey(a.threshold, a.level), a.r.endTime, a.r.id !in unreadable);
        if notified.None? {
          continue;
        }
        if !notified.value {
          pending := pending + [a];
        }
      }
      assert alerts[..|alerts|] == alerts;
    }

    lemma BatchIsPending(rows: seq<Reservation>, alerts: seq<Alert>, batch: seq<Alert>, sqlNow: int, now: int,
                         unreadable: set<string>)
      requires Keyed(db.reservations)
      requires QueryResult(db.reservations, sqlNow, remindDays, rows)
      requires |alerts| == |rows| && forall i :: 0 <= i < |rows| ==> alerts[i] == AlertOf(rows[i], now, remindDays)
      requires forall a :: a in batch <==> a in alerts && a.r.id !in unreadable && LogRowOf(a) !in db.notifyLog
      ensures (set a | a in batch :: LogRowOf(a))
              == Pending(db.reservations, db.notifyLog, sqlNow, now, remindDays, unreadable)
    {
      forall id | id in db.reservations && Expiring(db.reservations[id], sqlNow, remindDays)
        ensures AlertOf(db.reservations[id], now, remindDays) in alerts
      {
        assert db.reservations[id] in rows;
        var i :| 0 <= i < |rows| && rows[i] == db.reservations[id];
        assert alerts[i] == AlertOf(db.reservations[id], now, remindDays);
      }
      forall a | a in alerts
        ensures a.r in rows && a == AlertOf(a.r, now, remindDays)
      {
      }
    }

    /** One cycle over the GPU instances reported on demand. */
    method CheckGpuAndNotify(queryOk: bool, unreadable: set<string>, sends: seq<bool>, commits: bool)
      returns (batch: seq<LogRow>, delivered: bool)
      requires KeyedGpu(db.gpuCoverage)
      modifies db`notifyLog
      ensures var due := GpuPending(db.gpuCoverage, old(db.notifyLog), unreadable);
              && (set row | row in batch) == (if |sends| > 0 && queryOk then due else {})
              && delivered == (batch != [] && true in sends)
              && db.notifyLog == old(db.notifyLog) + if delivered && commits then due else {}
      ensures OncePerInstance(batch)
      ensures |sends| == 0 || !queryOk ==> batch == []
    {
      batch, delivered := [], false;
      if |sends| == 0 || !queryOk {
        return;
      }
      batch := UnsentGpu(unreadable);
      if |batch| == 0 {
        assert batch == [];
        return;
      }
      delivered := Deliver(batch, sends, commits);
    }

    /** The instances on demand the log does not know yet. */
    method UnsentGpu(unreadable: set<string>) returns (batch: seq<LogRow>)
      ensures (set row | row in batch) == GpuPending(db.gpuCoverage, db.notifyLog, unreadable)
      ensures OncePerInstance(batch)
    {
      batch := [];
      var todo := db.gpuCoverage.Keys;
      while todo != {}
        invariant todo <= db.gpuCoverage.Keys
        invariant forall row :: row in batch <==> row in GpuPending(db.gpuCoverage, db.notifyLog, unreadable + todo)
        invariant OncePerInstance(batch)
        decreases |todo|
      {
        var id :| id in todo;
        GpuPendingOneMore(db.gpuCoverage, db.notifyLog, unreadable, todo, id);
        todo := todo - {id};
        if db.gpuCoverage[id].coverage != OnDemand {
          continue;
        }
        var notified := db.HasNotified(id, GPU_ON_DEMAND, 0, id !in unreadable);
        if notified.None? {
          continue;
        }
        if !notified.value {
          OncePerInstanceMore(batch, LogRow(id, GPU_ON_DEMAND, 0));
          batch := batch + [LogRow(id, GPU_ON_DEMAND, 0)];
        }
      }
      assert unreadable + todo == unreadable;
    }
  }

  /** One more instance looked at. */
  lemma GpuPendingOneMore(gpu: GpuTable, log: set<LogRow>, unreadable: set<string>, todo: set<string>, id: string)
    requires id in todo && todo <= gpu.Keys
    ensures forall row :: row in GpuPending(gpu, log, unreadable + (todo - {id}))
                          <==> row in GpuPending(gpu, log, unreadable + todo)
                               || (row == LogRow(id, GPU_ON_DEMAND, 0) && gpu[id].coverage == OnDemand
                                   && id !in unreadable && row !in log)
    ensures forall row :: row in GpuPending(gpu, log, unreadable + todo) ==> row.id != id
  {
  }

  lemma OncePerInstanceMore(batch: seq<LogRow>, row: LogRow)
    requires OncePerInstance(batch) && forall r :: r in batch ==> r.id != row.id
    ensures OncePerInstance(batch + [row])
  {
  }
}
