/** Whole runs of the reminder protocol: table writes of any kind, check cycles whose reads,
    sends and marks may fail, log pruning, and restarts that may crash. */
module ReminderRuns {
  import opened Basics
  import opened Coverage
  import opened Reminder
  import opened Store
  import opened Scheduler
  import Migration

  datatype State = State(rows: Reservations, gpu: GpuTable, log: set<LogRow>)

  type CrashPoint = n: nat | n <= Migration.STATEMENTS

  datatype Step =
    | Write(at: int, rows: Reservations, gpu: GpuTable)                       // sync, import, pruning of accounts
    | Check(at: int, now: int, unreadable: set<string>, sends: seq<bool>, commits: bool)
    | CheckGpu(at: int, unreadable: set<string>, sends: seq<bool>, commits: bool)
    | PruneLog(at: int)
    | Restart(at: int, crashes: seq<CrashPoint>)

  /** The reminders a step finds due and not yet sent. */
  function Due(s: State, step: Step, remindDays: seq<int>): set<LogRow> {
    match step
    case Check(at, now, unreadable, _, _) => Pending(s.rows, s.log, at, now, remindDays, unreadable)
    case CheckGpu(_, unreadable, _, _) => GpuPending(s.gpu, s.log, unreadable)
    case _ => {}
  }

  predicate IsCheck(step: Step) { step.Check? || step.CheckGpu? }

  /** The reminders the step marks for good. */
  function Marked(s: State, step: Step, remindDays: seq<int>): set<LogRow> {
    if IsCheck(step) && true in step.sends && step.commits then Due(s, step, remindDays) else {}
  }

  /** Which notifiers deliver in the step. */
  function SendsOf(step: Step): seq<bool> {
    if IsCheck(step) then step.sends else []
  }

  /** The reminders notifier n delivers in the step. */
  function Delivered(s: State, step: Step, remindDays: seq<int>, n: nat): set<LogRow> {
    if n < |SendsOf(step)| && SendsOf(step)[n] then Due(s, step, remindDays) else {}
  }

  /** The log as a start finds it. */
  function LogTable(log: set<LogRow>): Migration.Tables { Migration.Tables(Some(Migration.Created(log)), None) }

  /** What the step leaves.  A cycle whose query fails, or that has no notifiers, sends nothing. */
  function Next(s: State, step: Step, remindDays: seq<int>): State {
    match step
    case Write(_, rows, gpu) => State(rows, gpu, s.log)
    case Check(_, _, _, _, _) => s.(log := s.log + Marked(s, step, remindDays))
    case CheckGpu(_, _, _, _) => s.(log := s.log + Marked(s, step, remindDays))
    case PruneLog(at) => s.(log := LogPruned(s.log, at))
    case Restart(_, crashes) =>
      s.(log := Migration.Rows(Migration.Starts(LogTable(s.log), crashes).log))
  }

  function After(start: State, steps: seq<Step>, remindDays: seq<int>): State {
    if steps == [] then start
    else Next(After(start, steps[..|steps| - 1], remindDays), steps[|steps| - 1], remindDays)
  }

  /** Steps happen one after the other, and a cycle reads the clock for the query before it
      reads it for the alerts. */
  predicate Timely(steps: seq<Step>) {
    && (forall i, j :: 0 <= i < j < |steps| ==> steps[i].at <= steps[j].at)
    && (forall i :: 0 <= i < |steps| && steps[i].Check? ==> steps[i].at <= steps[i].now)
  }

  lemma RestartKeepsLog(s: State, step: Step, remindDays: seq<int>)
    requires step.Restart?
    ensures Next(s, step, remindDays) == s
  {
    Migration.MigrationKeepsRows(LogTable(s.log), step.crashes);
    assert s.log + {} == s.log;
  }

  /** Step k marks the reminder. */
  ghost predicate MarkedAt(start: State, steps: seq<Step>, remindDays: seq<int>, k: nat, x: LogRow) {
    k < |steps| && x in Marked(After(start, steps[..k], remindDays), steps[k], remindDays)
  }

  // ----- At most once -----

  /** Only pruning removes rows, and only those whose expiry is further back than the retention. */
  lemma StepKeeps(s: State, step: Step, remindDays: seq<int>, x: LogRow, last: int)
    requires last <= step.at
    requires x in s.log || (x.end != 0 && x.end < last - RETENTION) || x in Marked(s, step, remindDays)
    ensures x in Next(s, step, remindDays).log || (x.end != 0 && x.end < step.at - RETENTION)
  {
    if step.Restart? {
      RestartKeepsLog(s, step, remindDays);
    }
  }

  lemma AfterOneMore(start: State, steps: seq<Step>, remindDays: seq<int>, j: nat)
    requires 0 < j <= |steps|
    ensures After(start, steps[..j], remindDays)
            == Next(After(start, steps[..j - 1], remindDays), steps[j - 1], remindDays)
  {
    assert steps[..j][..j - 1] == steps[..j - 1];
  }

  /** A marked reminder stays in the log until its expiry lies further back than the retention. */
  lemma {:induction false} MarksLast(start: State, steps: seq<Step>, remindDays: seq<int>, i: nat, j: nat, x: LogRow)
    requires Timely(steps) && i < j <= |steps|
    requires MarkedAt(start, steps, remindDays, i, x)
    ensures x in After(start, steps[..j], remindDays).log || (x.end != 0 && x.end < steps[j - 1].at - RETENTION)
    decreases j
  {
    var s := After(start, steps[..j - 1], remindDays);
    AfterOneMore(start, steps, remindDays, j);
    if i < j - 1 {
      MarksLast(start, steps, remindDays, i, j - 1, x);
      StepKeeps(s, steps[j - 1], remindDays, x, steps[j - 2].at);
    } else {
      StepKeeps(s, steps[j - 1], remindDays, x, steps[j - 1].at);
    }
  }

  /** At most once: when a reminder was marked, no later cycle finds it due again, whatever
      happens in between: syncs, imports, renewals, failed reads, sends and marks, pruning of
      the log, restarts. */
  lemma AtMostOnce(start: State, steps: seq<Step>, remindDays: seq<int>, i: nat, j: nat, x: LogRow)
    requires Timely(steps) && i < j < |steps|
    requires MarkedAt(start, steps, remindDays, i, x)
    ensures x !in Due(After(start, steps[..j], remindDays), steps[j], remindDays)
  {
    MarksLast(start, steps, remindDays, i, j, x);
  }

  // ----- Every notifier -----

  /** Step k finds the reminder due and notifier n delivers it. */
  ghost predicate DeliveredAt(start: State, steps: seq<Step>, remindDays: seq<int>, k: nat, n: nat, x: LogRow) {
    k < |steps| && x in Delivered(After(start, steps[..k], remindDays), steps[k], remindDays, n)
  }

  /** Notifier n delivers the reminder in one of the first `to` steps. */
  ghost predicate Gets(start: State, steps: seq<Step>, remindDays: seq<int>, to: nat, n: nat, x: LogRow) {
    exists k: nat :: k < to && DeliveredAt(start, steps, remindDays, k, n, x)
  }

  /** The price of marking what a single notifier delivered: whenever one delivers and another
      one fails, the one that failed does not get the reminder, whatever happens afterwards. */
  lemma FailedNotifierMissesOut(r: Reservation, now: int, remindDays: seq<int>, sends: seq<bool>, n: nat,
                                later: seq<Step>)
    requires Expiring(r, now, remindDays)
    requires true in sends && !(n < |sends| && sends[n])
    requires Timely([Check(now, now, {}, sends, true)] + later)
    ensures var start, steps := State(map[r.id := r], map[], {}), [Check(now, now, {}, sends, true)] + later;
            var x := ReminderRow(r, now, remindDays);
            && MarkedAt(start, steps, remindDays, 0, x)
            && !Gets(start, steps, remindDays, |steps|, n, x)
  {
    var start, steps := State(map[r.id := r], map[], {}), [Check(now, now, {}, sends, true)] + later;
    var x := ReminderRow(r, now, remindDays);
    assert steps[..0] == [];
    assert start.rows[r.id] == r && x in Due(start, steps[0], remindDays);
    forall k: nat | DeliveredAt(start, steps, remindDays, k, n, x) ensures false {
      if k > 0 {
        AtMostOnce(start, steps, remindDays, 0, k, x);
      }
    }
  }

  /** A notifier gets a reminder that is marked at step m if and only if it delivers at m, or at
      one of the earlier steps that found the reminder due and did not mark it. */
  lemma DeliveredByTheMark(start: State, steps: seq<Step>, remindDays: seq<int>, m: nat, n: nat, x: LogRow)
    requires Timely(steps) && MarkedAt(start, steps, remindDays, m, x)
    ensures Gets(start, steps, remindDays, |steps|, n, x)
            <==> exists k: nat :: k <= m && x in Due(After(start, steps[..k], remindDays), steps[k], remindDays)
                                  && n < |SendsOf(steps[k])| && SendsOf(steps[k])[n]
  {
    if k: nat :| DeliveredAt(start, steps, remindDays, k, n, x) {
      if k > m {
        AtMostOnce(start, steps, remindDays, m, k, x);
      }
      assert x in Due(After(start, steps[..k], remindDays), steps[k], remindDays);
    }
    if k: nat :| k <= m && x in Due(After(start, steps[..k], remindDays), steps[k], remindDays)
                 && n < |SendsOf(steps[k])| && SendsOf(steps[k])[n] {
      assert DeliveredAt(start, steps, remindDays, k, n, x);
    }
  }

  /** When every one of the notifiers gets every marked reminder: exactly when each of them that
      fails in the cycle that marks delivered in an earlier one that did not. */
  lemma EveryNotifierIff(start: State, steps: seq<Step>, remindDays: seq<int>, notifiers: nat)
    requires Timely(steps)
    ensures (forall m: nat, n: nat, x :: n < notifiers && MarkedAt(start, steps, remindDays, m, x) ==>
                                           Gets(start, steps, remindDays, |steps|, n, x))
            <==> (forall m: nat, n: nat, x ::
                    n < notifiers && MarkedAt(start, steps, remindDays, m, x)
                    && !DeliveredAt(start, steps, remindDays, m, n, x) ==>
                      Gets(start, steps, remindDays, m, n, x))
  {
    forall m: nat, n: nat, x | MarkedAt(start, steps, remindDays, m, x)
      ensures Gets(start, steps, remindDays, |steps|, n, x)
              <==> DeliveredAt(start, steps, remindDays, m, n, x) || Gets(start, steps, remindDays, m, n, x)
    {
      if k: nat :| k < |steps| && DeliveredAt(start, steps, remindDays, k, n, x) {
        if k > m {
          AtMostOnce(start, steps, remindDays, m, k, x);
        }
      }
    }
  }

  // ----- Never lost -----

  lemma {:induction false} LogComesFromMarks(start: State, steps: seq<Step>, remindDays: seq<int>, n: nat, x: LogRow)
    requires n <= |steps|
    requires x in After(start, steps[..n], remindDays).log && x !in start.log
    ensures exists k: nat :: k < n && MarkedAt(start, steps, remindDays, k, x)
  {
    if n > 0 {
      assert steps[..n][..n - 1] == steps[..n - 1];
      var s := After(start, steps[..n - 1], remindDays);
      if steps[n - 1].Restart? {
        RestartKeepsLog(s, steps[n - 1], remindDays);
      }
      if x in s.log {
        LogComesFromMarks(start, steps, remindDays, n - 1, x);
      } else {
        assert MarkedAt(start, steps, remindDays, n - 1, x);
      }
    }
  }

  lemma {:induction false} OldRowsLast(start: State, steps: seq<Step>, remindDays: seq<int>, j: nat, x: LogRow)
    requires Timely(steps) && j <= |steps| && x in start.log
    ensures || x in After(start, steps[..j], remindDays).log
            || (j > 0 && x.end != 0 && x.end < steps[j - 1].at - RETENTION)
    decreases j
  {
    if j > 0 {
      assert steps[..j][..j - 1] == steps[..j - 1];
      OldRowsLast(start, steps, remindDays, j - 1, x);
      StepKeeps(After(start, steps[..j - 1], remindDays), steps[j - 1], remindDays, x,
                if j > 1 then steps[j - 2].at else steps[j - 1].at);
    }
  }

  /** The log filters exactly: a cycle that reaches a resource in its alert window, and can read
      the log, finds the reminder of the day due if and only if it was not in the log to begin
      with and no step before has marked it.  Failed sends and failed marks are therefore
      repeated until one goes well, and nothing is repeated after that. */
  lemma DueUntilMarked(start: State, steps: seq<Step>, remindDays: seq<int>, j: nat, id: string)
    requires Timely(steps) && j < |steps| && steps[j].Check?
    requires var s := After(start, steps[..j], remindDays);
             Keyed(s.rows) && id in s.rows && id !in steps[j].unreadable
             && Expiring(s.rows[id], steps[j].at, remindDays)
    ensures var s := After(start, steps[..j], remindDays);
            var x := ReminderRow(s.rows[id], steps[j].now, remindDays);
            x in Due(s, steps[j], remindDays)
            <==> x !in start.log
                 && forall k: nat :: k < j ==> !MarkedAt(start, steps, remindDays, k, x)
  {
    var s := After(start, steps[..j], remindDays);
    var x := ReminderRow(s.rows[id], steps[j].now, remindDays);
    if x in s.log {
      if x !in start.log {
        LogComesFromMarks(start, steps, remindDays, j, x);
      }
    } else {
      assert x in Due(s, steps[j], remindDays);
      if x in start.log {
        OldRowsLast(start, steps, remindDays, j, x);
        assert false;
      }
      forall k: nat | k < j ensures !MarkedAt(start, steps, remindDays, k, x) {
        if MarkedAt(start, steps, remindDays, k, x) {
          AtMostOnce(start, steps, remindDays, k, j, x);
        }
      }
    }
  }

  // ----- Exactly the configured reminders -----

  /** The resource is active and expires at `end`. */
  predicate Expires(s: State, id: string, end: int) {
    && id in s.rows && s.rows[id].endTime == end
    && s.rows[id].status != "cancelled" && s.rows[id].status != "expired" && s.rows[id].status != "failed"
    && s.rows[id].status != "deleted" && s.rows[id].status != "retired"
  }

  /** The row of the log for the reminder of a cycle's day. */
  function RowAt(step: Step, id: string, end: int, remindDays: seq<int>): LogRow
    requires step.Check?
  {
    LogRow(id, KeyAt(end, step.now, remindDays), Cut(end))
  }

  /** A cycle that reaches the resource and goes well: when it queries, the resource has not expired
      and is within 30 days or some reminder; it can read the log, some notifier delivers, and the
      database commits. */
  predicate Succeeds(step: Step, id: string, end: int, remindDays: seq<int>) {
    && step.Check? && end != 0 && step.at < end
    && (DaysLeft(end, step.at) <= 30 || exists d :: d in remindDays && DaysLeft(end, step.at) <= d)
    && id !in step.unreadable && true in step.sends && step.commits
  }

  /** The same on a day for threshold d; 0 stands for a day beyond the widest reminder. */
  predicate GoodCycle(step: Step, id: string, end: int, remindDays: seq<int>, d: int) {
    Succeeds(step, id, end, remindDays) && Crossed(DaysLeft(end, step.now), remindDays) == d
  }

  /** When the day does not change between the two clock readings of a cycle, its day alone decides
      whether the query reaches the resource: any time before the expiry will do. */
  lemma GoodCycleOnItsDay(step: Step, id: string, end: int, remindDays: seq<int>, d: int)
    requires step.Check? && Positive(remindDays) && d > 0 && end != 0
    requires DaysLeft(end, step.at) == DaysLeft(end, step.now)
    ensures GoodCycle(step, id, end, remindDays, d)
            <==> && step.at < end && Crossed(DaysLeft(end, step.now), remindDays) == d
                 && id !in step.unreadable && true in step.sends && step.commits
  {
    CrossedIsLeast(DaysLeft(end, step.now), remindDays);
  }

  /** The reminder days a resource passes that has `days` left. */
  predicate Ahead(d: int, days: int, remindDays: seq<int>) {
    d in remindDays && (Crossed(days, remindDays) == 0 || d <= Crossed(days, remindDays))
  }

  function ReminderFor(id: string, end: int, d: int): LogRow {
    LogRow(id, NotifyKey(d, ""), Cut(end))
  }

  /** A resource that keeps its expiry while its last days run, watched from time t0 until the
      expiry. */
  ghost predicate Watched(start: State, steps: seq<Step>, remindDays: seq<int>, id: string, end: int, t0: int) {
    && Timely(steps) && Positive(remindDays) && Cut(end) != 0
    && (forall i :: 0 <= i < |steps| ==> t0 <= steps[i].at <= end)
    && (forall n :: 0 <= n <= |steps| ==> Keyed(After(start, steps[..n], remindDays).rows)
                                          && Expires(After(start, steps[..n], remindDays), id, end))
  }

  ghost predicate MarkedOnlyAt(start: State, steps: seq<Step>, remindDays: seq<int>, k: nat, x: LogRow) {
    && MarkedAt(start, steps, remindDays, k, x)
    && forall m: nat :: m != k ==> !MarkedAt(start, steps, remindDays, m, x)
  }

  ghost predicate MarkedOnce(start: State, steps: seq<Step>, remindDays: seq<int>, x: LogRow) {
    exists k: nat :: MarkedOnlyAt(start, steps, remindDays, k, x)
  }

  /** What is marked for the watched expiry is the reminder of the day of a cycle that goes well. */
  lemma MarkedIsSent(start: State, steps: seq<Step>, remindDays: seq<int>, id: string, end: int, t0: int,
                     k: nat, x: LogRow)
    requires Watched(start, steps, remindDays, id, end, t0) && MarkedAt(start, steps, remindDays, k, x)
    requires x.id == id && x.end == Cut(end)
    ensures Succeeds(steps[k], id, end, remindDays) && x == RowAt(steps[k], id, end, remindDays)
  {
    var s := After(start, steps[..k], remindDays);
    assert Expires(s, id, end) && Keyed(s.rows);
    InWindowIff(end, steps[k].at, remindDays);
    assert steps[k].Check?;
    assert x == ReminderRow(s.rows[id], steps[k].now, remindDays);
  }

  /** A cycle that goes well leaves the reminder of its day marked, by itself or by an earlier one. */
  lemma SentIsMarked(start: State, steps: seq<Step>, remindDays: seq<int>, id: string, end: int, t0: int, i: nat)
    requires Watched(start, steps, remindDays, id, end, t0) && i < |steps|
    requires Succeeds(steps[i], id, end, remindDays) && RowAt(steps[i], id, end, remindDays) !in start.log
    ensures exists k: nat :: k <= i && MarkedAt(start, steps, remindDays, k, RowAt(steps[i], id, end, remindDays))
  {
    var s := After(start, steps[..i], remindDays);
    assert Expires(s, id, end) && Keyed(s.rows);
    InWindowIff(end, steps[i].at, remindDays);
    var x := RowAt(steps[i], id, end, remindDays);
    if x in s.log {
      LogComesFromMarks(start, steps, remindDays, i, x);
    } else {
      assert ReminderRow(s.rows[id], steps[i].now, remindDays) == x;
      assert MarkedAt(start, steps, remindDays, i, x);
    }
  }

  lemma MarkedIsFinal(start: State, steps: seq<Step>, remindDays: seq<int>, id: string, end: int, t0: int,
                      k: nat, x: LogRow)
    requires Watched(start, steps, remindDays, id, end, t0) && MarkedAt(start, steps, remindDays, k, x)
    requires x.end == Cut(end)
    ensures x in After(start, steps, remindDays).log && MarkedOnce(start, steps, remindDays, x)
  {
    MarksLast(start, steps, remindDays, k, |steps|, x);
    assert steps[..|steps|] == steps;
    forall m: nat | m != k ensures !MarkedAt(start, steps, remindDays, m, x) {
      if MarkedAt(start, steps, remindDays, m, x) {
        if m > k {
          AtMostOnce(start, steps, remindDays, k, m, x);
        } else {
          AtMostOnce(start, steps, remindDays, m, k, x);
        }
      }
    }
    assert MarkedOnlyAt(start, steps, remindDays, k, x);
  }

  /** A row that is in the log from the start stays there and is never marked. */
  lemma OldRowIsNotMarked(start: State, steps: seq<Step>, remindDays: seq<int>, id: string, end: int, t0: int,
                          x: LogRow)
    requires Watched(start, steps, remindDays, id, end, t0) && x in start.log && x.end == Cut(end)
    ensures x in After(start, steps, remindDays).log
    ensures forall k: nat :: !MarkedAt(start, steps, remindDays, k, x)
  {
    assert steps[..|steps|] == steps;
    OldRowsLast(start, steps, remindDays, |steps|, x);
    forall k: nat | MarkedAt(start, steps, remindDays, k, x) ensures false {
      OldRowsLast(start, steps, remindDays, k, x);
    }
  }

  /** Some cycle on the row's day goes well. */
  ghost predicate IsSent(steps: seq<Step>, id: string, end: int, remindDays: seq<int>, x: LogRow) {
    exists i :: 0 <= i < |steps| && Succeeds(steps[i], id, end, remindDays) && x == RowAt(steps[i], id, end, remindDays)
  }

  /** The log keeps exact books, whatever the configuration: a row for the expiry that was not in
      it at first is in it in the end if and only if some cycle on its day went well, and then
      exactly one step marked it. */
  lemma LoggedIff(start: State, steps: seq<Step>, remindDays: seq<int>, id: string, end: int, t0: int, x: LogRow)
    requires Watched(start, steps, remindDays, id, end, t0) && x.id == id && x.end == Cut(end)
    ensures x in After(start, steps, remindDays).log <==> x in start.log || IsSent(steps, id, end, remindDays, x)
    ensures MarkedOnce(start, steps, remindDays, x) <==> x !in start.log && IsSent(steps, id, end, remindDays, x)
  {
    assert steps[..|steps|] == steps;
    if x in start.log {
      OldRowIsNotMarked(start, steps, remindDays, id, end, t0, x);
    } else {
      if x in After(start, steps, remindDays).log {
        LogComesFromMarks(start, steps, remindDays, |steps|, x);
        var k: nat :| k < |steps| && MarkedAt(start, steps, remindDays, k, x);
        MarkedIsSent(start, steps, remindDays, id, end, t0, k, x);
        MarkedIsFinal(start, steps, remindDays, id, end, t0, k, x);
      }
      if i: nat :| i < |steps| && Succeeds(steps[i], id, end, remindDays) && x == RowAt(steps[i], id, end, remindDays) {
        SentIsMarked(start, steps, remindDays, id, end, t0, i);
        var k: nat :| k <= i && MarkedAt(start, steps, remindDays, k, x);
        MarkedIsFinal(start, steps, remindDays, id, end, t0, k, x);
      }
      if k: nat :| MarkedOnlyAt(start, steps, remindDays, k, x) {
        MarkedIsFinal(start, steps, remindDays, id, end, t0, k, x);
      }
    }
  }

  /** A cycle's row is the reminder for d exactly when its day belongs to threshold d. */
  lemma RowIsReminderIff(step: Step, id: string, end: int, remindDays: seq<int>, d: int)
    requires step.Check? && Positive(remindDays) && d > 0
    ensures RowAt(step, id, end, remindDays) == ReminderFor(id, end, d)
            <==> Crossed(DaysLeft(end, step.now), remindDays) == d
  {
    var days := DaysLeft(end, step.now);
    CrossedIsLeast(days, remindDays);
    if Crossed(days, remindDays) > 0 {
      NotifyKeysAreDistinct(Crossed(days, remindDays), d, days);
      assert KeyAt(end, step.now, remindDays) == NotifyKey(Crossed(days, remindDays), "");
    } else {
      NotifyKeysAreDistinct(d, d, days);
    }
  }

  /** Some cycle on a day that belongs to threshold d goes well. */
  ghost predicate HasGoodCycle(steps: seq<Step>, id: string, end: int, remindDays: seq<int>, d: int) {
    exists i :: 0 <= i < |steps| && GoodCycle(steps[i], id, end, remindDays, d)
  }

  /** Each reminder by itself, for any positive reminder days: unless it was in the log at first,
      it is marked, in exactly one step, and ends up in the log, if and only if some cycle on a day
      that belongs to it goes well. */
  lemma ReminderIff(start: State, steps: seq<Step>, remindDays: seq<int>, id: string, end: int, t0: int, d: int)
    requires Watched(start, steps, remindDays, id, end, t0) && d > 0
    ensures MarkedOnce(start, steps, remindDays, ReminderFor(id, end, d))
            <==> ReminderFor(id, end, d) !in start.log && HasGoodCycle(steps, id, end, remindDays, d)
    ensures ReminderFor(id, end, d) in After(start, steps, remindDays).log
            <==> ReminderFor(id, end, d) in start.log || HasGoodCycle(steps, id, end, remindDays, d)
  {
    LoggedIff(start, steps, remindDays, id, end, t0, ReminderFor(id, end, d));
    forall i | 0 <= i < |steps| && Succeeds(steps[i], id, end, remindDays)
      ensures RowAt(steps[i], id, end, remindDays) == ReminderFor(id, end, d)
              <==> GoodCycle(steps[i], id, end, remindDays, d)
    {
      RowIsReminderIff(steps[i], id, end, remindDays, d);
    }
  }

  /** A single cycle is enough: an active resource is reminded of by the first cycle on a day that
      belongs to a reminder, whatever the day. */
  lemma OneCycleReminds(r: Reservation, now: int, remindDays: seq<int>, d: int)
    requires Positive(remindDays) && now < r.endTime && Cut(r.endTime) != 0
    requires r.status != "cancelled" && r.status != "expired" && r.status != "failed"
    requires r.status != "deleted" && r.status != "retired"
    requires d in remindDays && DaysLeft(r.endTime, now) <= d
    requires forall e :: e in remindDays && DaysLeft(r.endTime, now) <= e ==> d <= e
    ensures var start, steps := State(map[r.id := r], map[], {}), [Check(now, now, {}, [true], true)];
            && Watched(start, steps, remindDays, r.id, r.endTime, now)
            && MarkedOnce(start, steps, remindDays, ReminderFor(r.id, r.endTime, d))
  {
    var start, steps := State(map[r.id := r], map[], {}), [Check(now, now, {}, [true], true)];
    assert steps[..0] == [] && steps[..1] == steps;
    CrossedIsLeast(DaysLeft(r.endTime, now), remindDays);
    assert GoodCycle(steps[0], r.id, r.endTime, remindDays, d);
    ReminderIff(start, steps, remindDays, r.id, r.endTime, now, d);
  }

  lemma AheadOfStart(end: int, t0: int, now: int, remindDays: seq<int>)
    requires Positive(remindDays) && t0 <= now && Crossed(DaysLeft(end, now), remindDays) != 0
    ensures Crossed(DaysLeft(end, now), remindDays) > 0
    ensures Ahead(Crossed(DaysLeft(end, now), remindDays), DaysLeft(end, t0), remindDays)
  {
    DaysLeftShrinks(end, t0, now);
    CrossedIsLeast(DaysLeft(end, now), remindDays);
    if Crossed(DaysLeft(end, t0), remindDays) != 0 {
      ThresholdsOnlyShrink(DaysLeft(end, t0), DaysLeft(end, now), remindDays);
    }
  }

  /** The row of a day beyond the widest reminder. */
  predicate IsLevelRow(row: LogRow, id: string, end: int, days: int, remindDays: seq<int>) {
    Crossed(days, remindDays) == 0 && row == LogRow(id, Level(days), Cut(end))
  }

  /** Whatever comes to be logged for the expiry is a reminder still ahead at the start, or a level
      row of a day beyond the widest reminder. */
  lemma LoggedIsAheadOrLevel(start: State, steps: seq<Step>, remindDays: seq<int>, id: string, end: int, t0: int,
                             row: LogRow)
    requires Watched(start, steps, remindDays, id, end, t0)
    requires row in After(start, steps, remindDays).log && row !in start.log && row.id == id && row.end == Cut(end)
    ensures || (exists d :: Ahead(d, DaysLeft(end, t0), remindDays) && row == ReminderFor(id, end, d))
            || (exists m :: m <= DaysLeft(end, t0) && IsLevelRow(row, id, end, m, remindDays))
  {
    LoggedIff(start, steps, remindDays, id, end, t0, row);
    var i :| 0 <= i < |steps| && Succeeds(steps[i], id, end, remindDays) && row == RowAt(steps[i], id, end, remindDays);
    var days := DaysLeft(end, steps[i].now);
    DaysLeftShrinks(end, t0, steps[i].now);
    var d := Crossed(days, remindDays);
    if d == 0 {
      assert IsLevelRow(row, id, end, days, remindDays);
    } else {
      AheadOfStart(end, t0, steps[i].now, remindDays);
      assert Ahead(d, DaysLeft(end, t0), remindDays) && row == ReminderFor(id, end, d);
    }
  }

  /** A good cycle beyond the widest reminder leaves a row that is no reminder. */
  lemma LevelRowIsExtra(start: State, steps: seq<Step>, remindDays: seq<int>, id: string, end: int, t0: int, i: nat)
    returns (row: LogRow)
    requires Watched(start, steps, remindDays, id, end, t0) && i < |steps|
    requires GoodCycle(steps[i], id, end, remindDays, 0)
    ensures row in After(start, steps, remindDays).log && row.id == id && row.end == Cut(end)
    ensures forall d :: d > 0 ==> row != ReminderFor(id, end, d)
  {
    row := RowAt(steps[i], id, end, remindDays);
    LoggedIff(start, steps, remindDays, id, end, t0, row);
    forall d | d > 0 ensures row != ReminderFor(id, end, d) {
      RowIsReminderIff(steps[i], id, end, remindDays, d);
    }
  }

  /** The rows the log holds for the expiry in the end. */
  function RowsFor(s: State, id: string, end: int): set<LogRow> {
    set row | row in s.log && row.id == id && row.end == Cut(end)
  }

  /** The rows of the reminders still ahead. */
  function RemindersAhead(id: string, end: int, days: int, remindDays: seq<int>): set<LogRow> {
    set d | d in remindDays && Ahead(d, days, remindDays) :: ReminderFor(id, end, d)
  }

  lemma NotBeyondWidest(step: Step, id: string, end: int, remindDays: seq<int>)
    requires Positive(remindDays) && GoodCycle(step, id, end, remindDays, 0) && step.at <= step.now
    ensures forall d :: d in remindDays ==> d < 30
  {
    MaxRemindDaysIsLargest(remindDays);
    InWindowIff(end, step.at, remindDays);
    if d :| d in remindDays && d >= 30 {
      WithinWidest(end, step.at, step.now, remindDays, MaxRemindDays(remindDays));
    }
  }

  lemma NoExtraRows(start: State, steps: seq<Step>, remindDays: seq<int>, id: string, end: int, t0: int)
    requires Watched(start, steps, remindDays, id, end, t0) && RowsFor(start, id, end) == {}
    requires !HasGoodCycle(steps, id, end, remindDays, 0)
    ensures RowsFor(After(start, steps, remindDays), id, end)
            <= RemindersAhead(id, end, DaysLeft(end, t0), remindDays)
  {
    forall row | row in RowsFor(After(start, steps, remindDays), id, end)
      ensures exists d :: Ahead(d, DaysLeft(end, t0), remindDays) && row == ReminderFor(id, end, d)
    {
      assert row !in RowsFor(start, id, end);
      LoggedIff(start, steps, remindDays, id, end, t0, row);
      var i :| 0 <= i < |steps| && Succeeds(steps[i], id, end, remindDays)
               && row == RowAt(steps[i], id, end, remindDays);
      var d := Crossed(DaysLeft(end, steps[i].now), remindDays);
      assert d != 0;
      AheadOfStart(end, t0, steps[i].now, remindDays);
      assert row == ReminderFor(id, end, d);
    }
  }

  /** Every configured reminder, each exactly once, for any positive reminder days: if nothing was
      sent for the expiry before, and for each reminder day ahead some cycle on a day that belongs
      to it goes well, then each is marked in exactly one step.  There is nothing else in the log
      for the expiry if and only if no cycle went well on a day beyond the widest reminder, and
      there is no such day when some reminder is at 30 days or more. */
  lemma ExactlyTheConfiguredReminders(start: State, steps: seq<Step>, remindDays: seq<int>,
                                      id: string, end: int, t0: int)
    requires Watched(start, steps, remindDays, id, end, t0) && RowsFor(start, id, end) == {}
    requires forall d :: Ahead(d, DaysLeft(end, t0), remindDays) ==> HasGoodCycle(steps, id, end, remindDays, d)
    ensures forall d :: Ahead(d, DaysLeft(end, t0), remindDays) ==>
                          MarkedOnce(start, steps, remindDays, ReminderFor(id, end, d))
    ensures RemindersAhead(id, end, DaysLeft(end, t0), remindDays) <= RowsFor(After(start, steps, remindDays), id, end)
    ensures RowsFor(After(start, steps, remindDays), id, end) == RemindersAhead(id, end, DaysLeft(end, t0), remindDays)
            <==> !HasGoodCycle(steps, id, end, remindDays, 0)
    ensures (exists d :: d in remindDays && d >= 30) ==>
              RowsFor(After(start, steps, remindDays), id, end)
              == RemindersAhead(id, end, DaysLeft(end, t0), remindDays)
  {
    forall d | Ahead(d, DaysLeft(end, t0), remindDays)
      ensures ReminderFor(id, end, d) in After(start, steps, remindDays).log
      ensures MarkedOnce(start, steps, remindDays, ReminderFor(id, end, d))
    {
      assert ReminderFor(id, end, d) !in RowsFor(start, id, end);
      ReminderIff(start, steps, remindDays, id, end, t0, d);
    }
    if i: nat :| i < |steps| && GoodCycle(steps[i], id, end, remindDays, 0) {
      var row := LevelRowIsExtra(start, steps, remindDays, id, end, t0, i);
      assert row in RowsFor(After(start, steps, remindDays), id, end);
      NotBeyondWidest(steps[i], id, end, remindDays);
    } else {
      NoExtraRows(start, steps, remindDays, id, end, t0);
    }
  }

  // ----- On-demand alerts -----

  function GpuRow(id: string): LogRow { LogRow(id, "gpu_od", 0) }

  predicate IsOnDemand(s: State, id: string) { id in s.gpu && s.gpu[id].coverage == OnDemand }

  /** A cycle that can read the log for this instance. */
  predicate Inspects(step: Step, id: string) { step.CheckGpu? && id !in step.unreadable }

  /** A row without expiry is never pruned. */
  lemma {:induction false} GpuRowStays(start: State, steps: seq<Step>, remindDays: seq<int>, e: nat, j: nat, id: string)
    requires Timely(steps) && e <= j <= |steps|
    requires GpuRow(id) in After(start, steps[..e], remindDays).log
    ensures GpuRow(id) in After(start, steps[..j], remindDays).log
    decreases j
  {
    if e < j {
      assert steps[..j][..j - 1] == steps[..j - 1];
      GpuRowStays(start, steps, remindDays, e, j - 1, id);
      StepKeeps(After(start, steps[..j - 1], remindDays), steps[j - 1], remindDays, GpuRow(id), steps[j - 1].at);
    }
  }

  /** A cycle finds an instance on demand due if and only if its row was not in the log to begin
      with and no step before has marked it, coverage in between or not. */
  lemma GpuDueUntilMarked(start: State, steps: seq<Step>, remindDays: seq<int>, j: nat, id: string)
    requires Timely(steps) && j < |steps| && Inspects(steps[j], id)
    requires IsOnDemand(After(start, steps[..j], remindDays), id)
    ensures GpuRow(id) in Due(After(start, steps[..j], remindDays), steps[j], remindDays)
            <==> GpuRow(id) !in start.log
                 && forall k: nat :: k < j ==> !MarkedAt(start, steps, remindDays, k, GpuRow(id))
  {
    var x := GpuRow(id);
    var s := After(start, steps[..j], remindDays);
    assert x in Due(s, steps[j], remindDays) <==> x !in s.log;
    if x in s.log {
      if x !in start.log {
        LogComesFromMarks(start, steps, remindDays, j, x);
      }
    } else {
      if x in start.log {
        assert steps[..0] == [];
        GpuRowStays(start, steps, remindDays, 0, j, id);
      }
      forall k: nat | k < j && MarkedAt(start, steps, remindDays, k, x) ensures false {
        MarksLast(start, steps, remindDays, k, j, x);
      }
    }
  }

  /** Covered in between and on demand again: the second time nothing is reported. */
  lemma SecondEpisodeIsSilent(od: GpuCoverage, paid: GpuCoverage, remindDays: seq<int>)
    requires od.coverage == OnDemand != paid.coverage && od.id == paid.id
    ensures var id, cycle := od.id, CheckGpu(0, {}, [true], true);
            var start := State(map[], map[id := od], {});
            var steps := [cycle, Write(0, map[], map[id := paid]), Write(0, map[], map[id := od]), cycle];
            && Timely(steps)
            && MarkedAt(start, steps, remindDays, 0, GpuRow(id))
            && !IsOnDemand(After(start, steps[..2], remindDays), id)
            && IsOnDemand(After(start, steps[..3], remindDays), id)
            && Due(After(start, steps[..3], remindDays), steps[3], remindDays) == {}
  {
    var id, cycle := od.id, CheckGpu(0, {}, [true], true);
    var start := State(map[], map[id := od], {});
    var steps := [cycle, Write(0, map[], map[id := paid]), Write(0, map[], map[id := od]), cycle];
    assert steps[..3][..2] == steps[..2] && steps[..2][..1] == steps[..1] && steps[..1][..0] == steps[..0] == [];
    assert Due(start, cycle, remindDays) == {GpuRow(id)} by {
      assert id in start.gpu;
    }
    assert After(start, steps[..1], remindDays) == start.(log := {GpuRow(id)});
    assert After(start, steps[..2], remindDays) == State(map[], map[id := paid], {GpuRow(id)});
    assert After(start, steps[..3], remindDays) == State(map[], map[id := od], {GpuRow(id)});
  }

  /** The promise for an instance that has been on demand since step e: it is due until it is
      marked, counting the marks since then. */
  ghost predicate AlertsAfresh(start: State, steps: seq<Step>, remindDays: seq<int>, e: nat, j: nat, id: string)
    requires e <= j < |steps|
  {
    GpuRow(id) in Due(After(start, steps[..j], remindDays), steps[j], remindDays)
    <==> forall k: nat :: e <= k < j ==> !MarkedAt(start, steps, remindDays, k, GpuRow(id))
  }

  /** The promise holds for exactly the spells on demand that begin with no row in the log, that
      is, with no earlier alert: an instance is reported for its first spell only. */
  lemma AlertsAfreshIff(start: State, steps: seq<Step>, remindDays: seq<int>, e: nat, j: nat, id: string)
    requires Timely(steps) && e <= j < |steps| && Inspects(steps[j], id)
    requires forall i :: e <= i <= j ==> IsOnDemand(After(start, steps[..i], remindDays), id)
    ensures AlertsAfresh(start, steps, remindDays, e, j, id)
            <==> GpuRow(id) !in After(start, steps[..e], remindDays).log
    ensures GpuRow(id) in After(start, steps[..e], remindDays).log
            <==> GpuRow(id) in start.log || exists k: nat :: k < e && MarkedAt(start, steps, remindDays, k, GpuRow(id))
  {
    var x := GpuRow(id);
    GpuDueUntilMarked(start, steps, remindDays, j, id);
    if x in After(start, steps[..e], remindDays).log {
      GpuRowStays(start, steps, remindDays, e, j, id);
      forall k: nat | e <= k < j ensures !MarkedAt(start, steps, remindDays, k, x) {
        GpuRowStays(start, steps, remindDays, e, k, id);
      }
      if x !in start.log {
        LogComesFromMarks(start, steps, remindDays, e, x);
      }
    } else {
      if x in start.log {
        assert steps[..0] == [];
        GpuRowStays(start, steps, remindDays, 0, e, id);
      }
      forall k: nat | k < e && MarkedAt(start, steps, remindDays, k, x) ensures false {
        MarksLast(start, steps, remindDays, k, e, x);
      }
    }
  }

  // ----- The steps are what the scheduler does -----

  ghost function TablesOf(db: Database): State
    reads db
  {
    State(db.reservations, db.gpuCoverage, db.notifyLog)
  }

  /** A check cycle is the step of that name: it hands exactly the due reminders to the notifiers
      and leaves the tables as the step does. */
  method PerformCheck(sc: Scheduler, at: int, now: int, queryOk: bool, unreadable: set<string>,
                      sends: seq<bool>, commits: bool)
    returns (batch: seq<Alert>, ghost step: Step)
    requires Keyed(sc.db.reservations)
    modifies sc.db`notifyLog
    ensures step == Check(at, now, unreadable, if queryOk then sends else [], commits)
    ensures TablesOf(sc.db) == Next(old(TablesOf(sc.db)), step, sc.remindDays)
    ensures (set a | a in batch :: LogRowOf(a))
            == if step.sends != [] then Due(old(TablesOf(sc.db)), step, sc.remindDays) else {}
  {
    step := Check(at, now, unreadable, if queryOk then sends else [], commits);
    var delivered;
    batch, delivered := sc.CheckAndNotify(at, now, queryOk, unreadable, sends, commits);
  }

  /** The same for the cycle over the instances on demand. */
  method PerformCheckGpu(sc: Scheduler, at: int, queryOk: bool, unreadable: set<string>,
                         sends: seq<bool>, commits: bool)
    returns (batch: seq<LogRow>, ghost step: Step)
    requires KeyedGpu(sc.db.gpuCoverage)
    modifies sc.db`notifyLog
    ensures step == CheckGpu(at, unreadable, if queryOk then sends else [], commits)
    ensures TablesOf(sc.db) == Next(old(TablesOf(sc.db)), step, sc.remindDays)
    ensures (set row | row in batch)
            == if step.sends != [] then Due(old(TablesOf(sc.db)), step, sc.remindDays) else {}
  {
    step := CheckGpu(at, unreadable, if queryOk then sends else [], commits);
    var delivered;
    batch, delivered := sc.CheckGpuAndNotify(queryOk, unreadable, sends, commits);
    assert batch == [] ==> (set row | row in batch) == {};
  }

  /** Pruning the log at its retention is the step of that name. */
  method PerformPruneLog(db: Database, at: int)
    modifies db`notifyLog
    ensures TablesOf(db) == Next(old(TablesOf(db)), PruneLog(at), [])
  {
    var removed := db.PruneNotifyLog(at, true);
  }
}
