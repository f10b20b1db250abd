/** Account synchronisation: a clean fetch replaces the account's rows, a partial or empty one
    is merged, rows of accounts no longer configured go. */
module Sync {
  import opened Coverage
  import opened Store

  datatype Configured = Configured(alias: string, accountId: string, snsOnly: bool)

  /** What the provider returned for one account. */
  datatype Fetch = Fetch(items: seq<Reservation>, errors: nat, gpuItems: seq<GpuCoverage>, gpuErrors: nat)

  /** Which writes for one account the database carries out. */
  datatype Writes = Writes(replace: bool, upsert: nat -> bool, gpuReplace: bool, gpuUpsert: nat -> bool)

  /** One configured account, what its fetch returns and which of its writes succeed. */
  datatype Job = Job(account: Configured, fetch: Fetch, writes: Writes)

  // ----- Atomic operations on the reservations -----

  datatype Op =
    | UpsertOp(r: Reservation)
    | ReplaceOp(account: string, items: seq<Reservation>)
    | PruneOp(keep: seq<string>)

  function Apply(m: Reservations, op: Op): Reservations {
    match op
    case UpsertOp(r) => Upserted(m, r)
    case ReplaceOp(account, items) => Replaced(m, account, items)
    case PruneOp(keep) => OnlyAccounts(m, keep)
  }

  function ApplyAll(m: Reservations, ops: seq<Op>): Reservations {
    if ops == [] then m else Apply(ApplyAll(m, ops[..|ops| - 1]), ops[|ops| - 1])
  }

  lemma {:induction false} ApplyAllConcat(m: Reservations, a: seq<Op>, b: seq<Op>)
    ensures ApplyAll(m, a + b) == ApplyAll(ApplyAll(m, a), b)
    decreases |b|
  {
    if b == [] {
      assert a + b == a;
    } else {
      assert (a + b)[..|a + b| - 1] == a + b[..|b| - 1];
      ApplyAllConcat(m, a, b[..|b| - 1]);
    }
  }

  lemma ApplyOne(m: Reservations, ops: seq<Op>, op: Op)
    ensures ApplyAll(m, ops + [op]) == Apply(ApplyAll(m, ops), op)
  {
    assert (ops + [op])[..|ops|] == ops;
  }

  // ----- What a sync run does -----

  /** The accounts whose rows are kept when unlisted ones are pruned. */
  function KeepList(jobs: seq<Job>): seq<string> {
    if jobs == [] then []
    else
      var n := |jobs| - 1;
      var a := jobs[n].account;
      KeepList(jobs[..n]) + if a.snsOnly || a.accountId == "" then [] else [a.accountId]
  }

  predicate Clean(f: Fetch) { f.errors == 0 && |f.items| > 0 }

  function UpsertOps(items: seq<Reservation>, ok: nat -> bool): seq<Op> {
    if items == [] then []
    else
      var n := |items| - 1;
      UpsertOps(items[..n], ok) + if ok(n) then [UpsertOp(items[n])] else []
  }

  function JobOps(j: Job): seq<Op> {
    if j.account.snsOnly then []
    else if Clean(j.fetch) then (if j.writes.replace then [ReplaceOp(j.account.accountId, j.fetch.items)] else [])
    else UpsertOps(j.fetch.items, j.writes.upsert)
  }

  function JobsOps(jobs: seq<Job>): seq<Op> {
    if jobs == [] then [] else JobsOps(jobs[..|jobs| - 1]) + JobOps(jobs[|jobs| - 1])
  }

  /** Pruning needs a keep list that is neither empty nor beyond the cap. */
  predicate Prunes(jobs: seq<Job>, pruneOk: bool) {
    0 < |KeepList(jobs)| <= PRUNE_MAX_ACCOUNTS && pruneOk
  }

  function PruneOps(jobs: seq<Job>, pruneOk: bool): seq<Op> {
    if Prunes(jobs, pruneOk) then [PruneOp(KeepList(jobs))] else []
  }

  /** The operations of one run on the reservations, in order. */
  function SyncOps(jobs: seq<Job>, pruneOk: bool): seq<Op> {
    PruneOps(jobs, pruneOk) + JobsOps(jobs)
  }

  /** The number of items one account adds to the total. */
  function JobSynced(j: Job): nat {
    if j.account.snsOnly then 0
    else if Clean(j.fetch) then (if j.writes.replace then |j.fetch.items| else 0)
    else |UpsertOps(j.fetch.items, j.writes.upsert)|
  }

  function Synced(jobs: seq<Job>): nat {
    if jobs == [] then 0 else Synced(jobs[..|jobs| - 1]) + JobSynced(jobs[|jobs| - 1])
  }

  function GpuUpsertedSome(m: GpuTable, items: seq<GpuCoverage>, ok: nat -> bool): GpuTable {
    if items == [] then m
    else
      var n := |items| - 1;
      var t := GpuUpsertedSome(m, items[..n], ok);
      if ok(n) then GpuUpserted(t, items[n]) else t
  }

  function GpuJob(m: GpuTable, j: Job): GpuTable {
    if j.account.snsOnly || j.fetch.gpuItems == [] then m
    else if j.fetch.gpuErrors == 0 then
      (if j.writes.gpuReplace then GpuReplaced(m, j.account.accountId, j.fetch.gpuItems) else m)
    else GpuUpsertedSome(m, j.fetch.gpuItems, j.writes.gpuUpsert)
  }

  function GpuSynced(m: GpuTable, jobs: seq<Job>): GpuTable {
    if jobs == [] then m else GpuJob(GpuSynced(m, jobs[..|jobs| - 1]), jobs[|jobs| - 1])
  }

  lemma OneMoreJob(m: Reservations, gpu: GpuTable, jobs: seq<Job>, i: nat)
    requires i < |jobs|
    ensures Synced(jobs[..i + 1]) == Synced(jobs[..i]) + JobSynced(jobs[i])
    ensures ApplyAll(m, JobsOps(jobs[..i + 1])) == ApplyAll(ApplyAll(m, JobsOps(jobs[..i])), JobOps(jobs[i]))
    ensures GpuSynced(gpu, jobs[..i + 1]) == GpuJob(GpuSynced(gpu, jobs[..i]), jobs[i])
  {
    assert jobs[..i + 1][..i] == jobs[..i];
    ApplyAllConcat(m, JobsOps(jobs[..i]), JobOps(jobs[i]));
  }

  /** The GPU table once the rows of unlisted accounts are gone. */
  function GpuPruned(m: GpuTable, jobs: seq<Job>, pruneOk: bool, gpuPruneOk: bool): GpuTable {
    if Prunes(jobs, pruneOk) && gpuPruneOk then GpuOnlyAccounts(m, KeepList(jobs)) else m
  }

  class Syncer {
    const db: Database

    constructor (db: Database)
      ensures this.db == db
    {
      this.db := db;
    }

    /** One run over all configured accounts. */
    method SyncAll(jobs: seq<Job>, pruneOk: bool, gpuPruneOk: bool) returns (total: nat)
      modifies db`reservations, db`gpuCoverage
      ensures total == Synced(jobs)
      ensures db.reservations == ApplyAll(old(db.reservations), SyncOps(jobs, pruneOk))
      ensures db.gpuCoverage
              == GpuSynced(GpuPruned(old(db.gpuCoverage), jobs, pruneOk, gpuPruneOk), jobs)
    {
      PruneUnlisted(jobs, pruneOk, gpuPruneOk);
      total := SyncAccounts(jobs);
      ApplyAllConcat(old(db.reservations), PruneOps(jobs, pruneOk), JobsOps(jobs));
    }

    /** Drops the rows of accounts that are not configured any more. */
    method PruneUnlisted(jobs: seq<Job>, pruneOk: bool, gpuPruneOk: bool)
      modifies db`reservations, db`gpuCoverage
      ensures db.reservations == ApplyAll(old(db.reservations), PruneOps(jobs, pruneOk))
      ensures db.gpuCoverage == GpuPruned(old(db.gpuCoverage), jobs, pruneOk, gpuPruneOk)
    {
      var keep := [];
      for i := 0 to |jobs|
        invariant keep == KeepList(jobs[..i])
      {
        assert jobs[..i + 1][..i] == jobs[..i];
        var a := jobs[i].account;
        if a.snsOnly || a.accountId == "" {
          continue;
        }
        keep := keep + [a.accountId];
      }
      assert jobs[..|jobs|] == jobs;
      if |keep| > 0 {
        var done, removed := db.PruneAccounts(keep, pruneOk, gpuPruneOk);
      }
      ApplyOne(old(db.reservations), [], PruneOp(keep));
      assert [] + [PruneOp(keep)] == [PruneOp(keep)];
    }

    method SyncAccounts(jobs: seq<Job>) returns (total: nat)
      modifies db`reservations, db`gpuCoverage
      ensures total == Synced(jobs)
      ensures db.reservations == ApplyAll(old(db.reservations), JobsOps(jobs))
      ensures db.gpuCoverage == GpuSynced(old(db.gpuCoverage), jobs)
    {
      total := 0;
      for i := 0 to |jobs|
        invariant total == Synced(jobs[..i])
        invariant db.reservations == ApplyAll(old(db.reservations), JobsOps(jobs[..i]))
        invariant db.gpuCoverage == GpuSynced(old(db.gpuCoverage), jobs[..i])
      {
        OneMoreJob(old(db.reservations), old(db.gpuCoverage), jobs, i);
        if jobs[i].account.snsOnly {
          continue;
        }
        var n := SyncReservations(jobs[i]);
        total := total + n;
        SyncGpu(jobs[i]);
      }
      assert jobs[..|jobs|] == jobs;
    }

    /** Replace after a clean fetch, merge otherwise. */
    method SyncReservations(j: Job) returns (synced: nat)
      requires !j.account.snsOnly
      modifies db`reservations
      ensures db.reservations == ApplyAll(old(db.reservations), JobOps(j))
      ensures synced == JobSynced(j)
    {
      synced := 0;
      var f := j.fetch;
      if f.errors == 0 && |f.items| > 0 {
        var op := ReplaceOp(j.account.accountId, f.items);
        ApplyOne(db.reservations, [], op);
        assert [] + [op] == [op];
        var done := db.ReplaceAccount(j.account.accountId, f.items, j.writes.replace);
        if done {
          synced := |f.items|;
        }
      } else {
        synced := Merge(f.items, j.writes.upsert);
      }
    }

    /** Upserts the items one by one; a failed one is skipped. */
    method Merge(items: seq<Reservation>, ok: nat -> bool) returns (synced: nat)
      modifies db`reservations
      ensures db.reservations == ApplyAll(old(db.reservations), UpsertOps(items, ok))
      ensures synced == |UpsertOps(items, ok)|
    {
      synced := 0;
      for i := 0 to |items|
        invariant db.reservations == ApplyAll(old(db.reservations), UpsertOps(items[..i], ok))
        invariant synced == |UpsertOps(items[..i], ok)|
      {
        assert items[..i + 1][..i] == items[..i];
        ApplyOne(old(db.reservations), UpsertOps(items[..i], ok), UpsertOp(items[i]));
        assert ok(i) ==> UpsertOps(items[..i + 1], ok) == UpsertOps(items[..i], ok) + [UpsertOp(items[i])];
        assert !ok(i) ==> UpsertOps(items[..i + 1], ok) == UpsertOps(items[..i], ok);
        db.Upsert(items[i], ok(i));
        if !ok(i) {
          continue;
        }
        synced := synced + 1;
      }
      assert items[..|items|] == items;
    }

    method SyncGpu(j: Job)
      requires !j.account.snsOnly
      modifies db`gpuCoverage
      ensures db.gpuCoverage == GpuJob(old(db.gpuCoverage), j)
    {
      var items := j.fetch.gpuItems;
      if |items| > 0 {
        if j.fetch.gpuErrors == 0 {
          var done := db.ReplaceGpuCoverage(j.account.accountId, items, j.writes.gpuReplace);
        } else {
          for i := 0 to |items|
            invariant db.gpuCoverage == GpuUpsertedSome(old(db.gpuCoverage), items[..i], j.writes.gpuUpsert)
          {
            assert items[..i + 1][..i] == items[..i];
            db.UpsertGpuCoverage(items[i], j.writes.gpuUpsert(i));
          }
          assert items[..|items|] == items;
        }
      }
    }
  }
}
