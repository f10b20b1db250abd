/** What a sync leaves in the GPU coverage table, account by account. */
module SyncGpuFacts {
  import opened Basics
  import opened Coverage
  import opened Store
  import opened Sync
  import opened SyncFacts

  predicate OwnedGpuRow(g: GpuCoverage) { Owner(g.id) == g.accountId }

  predicate OwnedGpuTable(m: GpuTable) {
    forall id :: id in m ==> m[id].id == id && OwnedGpuRow(m[id])
  }

  /** Every item of the fetch belongs to the account. */
  predicate OwnedGpuBy(items: seq<GpuCoverage>, account: string) {
    forall i :: 0 <= i < |items| ==> items[i].accountId == account && OwnedGpuRow(items[i])
  }

  predicate OwnedGpuJobs(jobs: seq<Job>) {
    forall i :: 0 <= i < |jobs| ==> OwnedGpuBy(jobs[i].fetch.gpuItems, jobs[i].account.accountId)
  }

  function GpuRowsOf(m: GpuTable, account: string): GpuTable {
    map id | id in m && m[id].accountId == account :: m[id]
  }

  // ----- What a batch of upserts writes -----

  /** Some write of this ID succeeds. */
  predicate GpuWritten(items: seq<GpuCoverage>, ok: nat -> bool, id: string) {
    exists i: nat :: i < |items| && ok(i) && items[i].id == id
  }

  /** Rows that are not written stay as they are. */
  lemma {:induction false} GpuUnwrittenStay(m: GpuTable, items: seq<GpuCoverage>, ok: nat -> bool, id: string)
    requires !GpuWritten(items, ok, id)
    ensures Get(GpuUpsertedSome(m, items, ok), id) == Get(m, id)
  {
    if items != [] {
      var n := |items| - 1;
      forall i: nat | i < n && ok(i) ensures items[..n][i].id != id {
        assert items[i].id != id;
      }
      GpuUnwrittenStay(m, items[..n], ok, id);
    }
  }

  /** A row that is there stays, and keeps what an update does not change. */
  lemma {:induction false} GpuRowStays(m: GpuTable, items: seq<GpuCoverage>, ok: nat -> bool, id: string)
    requires id in m
    ensures var after := GpuUpsertedSome(m, items, ok);
            id in after && after[id] == m[id].(coverage := after[id].coverage, coverageRef := after[id].coverageRef,
                                               spRate := after[id].spRate)
  {
    if items != [] {
      GpuRowStays(m, items[..|items| - 1], ok, id);
    }
  }

  /** The last write of an ID sets how the instance is covered. */
  lemma {:induction false} GpuLastWrite(m: GpuTable, items: seq<GpuCoverage>, ok: nat -> bool, i: nat)
    requires i < |items| && ok(i)
    requires forall j: nat :: i < j < |items| && ok(j) ==> items[j].id != items[i].id
    ensures var after := GpuUpsertedSome(m, items, ok);
            && items[i].id in after
            && after[items[i].id].coverage == items[i].coverage
            && after[items[i].id].coverageRef == items[i].coverageRef
            && after[items[i].id].spRate == items[i].spRate
  {
    var n := |items| - 1;
    if i < n {
      GpuLastWrite(m, items[..n], ok, i);
    }
  }

  /** The first write of a new ID sets everything else. */
  lemma {:induction false} GpuFirstWrite(m: GpuTable, items: seq<GpuCoverage>, ok: nat -> bool, i: nat)
    requires i < |items| && ok(i) && items[i].id !in m
    requires forall j: nat :: j < i && ok(j) ==> items[j].id != items[i].id
    ensures var after := GpuUpsertedSome(m, items, ok);
            var id := items[i].id;
            && id in after
            && after[id] == items[i].(coverage := after[id].coverage, coverageRef := after[id].coverageRef,
                                      spRate := after[id].spRate)
  {
    var n := |items| - 1;
    if i < n {
      GpuFirstWrite(m, items[..n], ok, i);
    } else {
      GpuUnwrittenStay(m, items[..n], ok, items[n].id);
      assert Get(GpuUpsertedSome(m, items[..n], ok), items[n].id) == None;
    }
  }

  lemma {:induction false} GpuAllAreWritten(m: GpuTable, items: seq<GpuCoverage>, ok: nat -> bool)
    requires forall i: nat :: i < |items| ==> ok(i)
    ensures GpuUpsertedAll(m, items) == GpuUpsertedSome(m, items, ok)
  {
    if items != [] {
      GpuAllAreWritten(m, items[..|items| - 1], ok);
    }
  }

  // ----- Every job acts on one account -----

  lemma GpuUpsertIsLocal(m: GpuTable, g: GpuCoverage, account: string)
    requires OwnedGpuTable(m) && OwnedGpuRow(g)
    ensures OwnedGpuTable(GpuUpserted(m, g))
    ensures GpuRowsOf(GpuUpserted(m, g), account)
            == if g.accountId == account then GpuUpserted(GpuRowsOf(m, account), g) else GpuRowsOf(m, account)
  {
  }

  lemma {:induction false} GpuUpsertsAreLocal(m: GpuTable, items: seq<GpuCoverage>, ok: nat -> bool,
                                              b: string, account: string)
    requires OwnedGpuTable(m) && OwnedGpuBy(items, b)
    ensures OwnedGpuTable(GpuUpsertedSome(m, items, ok))
    ensures GpuRowsOf(GpuUpsertedSome(m, items, ok), account)
            == if b == account then GpuUpsertedSome(GpuRowsOf(m, account), items, ok) else GpuRowsOf(m, account)
  {
    if items != [] {
      var n := |items| - 1;
      GpuUpsertsAreLocal(m, items[..n], ok, b, account);
      GpuUpsertIsLocal(GpuUpsertedSome(m, items[..n], ok), items[n], account);
    }
  }

  /** The rows the account's own replacement leaves. */
  lemma GpuReplaceIsLocal(m: GpuTable, items: seq<GpuCoverage>, b: string, account: string)
    requires OwnedGpuTable(m) && OwnedGpuBy(items, b)
    ensures OwnedGpuTable(GpuReplaced(m, b, items))
    ensures GpuRowsOf(GpuReplaced(m, b, items), account)
            == if b == account then GpuUpsertedAll(map[], items) else GpuRowsOf(m, account)
  {
    var rest: GpuTable := map id | id in m && m[id].accountId != b :: m[id];
    var every: nat -> bool := _ => true;
    GpuAllAreWritten(rest, items, every);
    GpuAllAreWritten(map[], items, every);
    GpuUpsertsAreLocal(rest, items, every, b, account);
    assert GpuRowsOf(rest, account) == if b == account then map[] else GpuRowsOf(m, account);
  }

  lemma GpuJobIsLocal(m: GpuTable, j: Job, account: string)
    requires OwnedGpuTable(m) && OwnedGpuBy(j.fetch.gpuItems, j.account.accountId)
    ensures OwnedGpuTable(GpuJob(m, j))
    ensures GpuRowsOf(GpuJob(m, j), account)
            == if Syncs(j, account) then GpuJob(GpuRowsOf(m, account), j) else GpuRowsOf(m, account)
  {
    var items, a := j.fetch.gpuItems, j.account.accountId;
    if items != [] {
      if j.fetch.gpuErrors == 0 {
        GpuReplaceIsLocal(m, items, a, account);
        assert GpuRowsOf(GpuRowsOf(m, account), account) == GpuRowsOf(m, account);
        assert a == account ==>
            (map id | id in GpuRowsOf(m, account) && GpuRowsOf(m, account)[id].accountId != a ::
               GpuRowsOf(m, account)[id]) == map[];
      } else {
        GpuUpsertsAreLocal(m, items, j.writes.gpuUpsert, a, account);
      }
    }
  }

  lemma {:induction false} GpuOthersAreLocal(m: GpuTable, jobs: seq<Job>, account: string)
    requires OwnedGpuTable(m) && OwnedGpuJobs(jobs)
    ensures OwnedGpuTable(GpuSynced(m, jobs))
    ensures (forall k :: 0 <= k < |jobs| ==> !Syncs(jobs[k], account)) ==>
              GpuRowsOf(GpuSynced(m, jobs), account) == GpuRowsOf(m, account)
  {
    if jobs != [] {
      var n := |jobs| - 1;
      GpuOthersAreLocal(m, jobs[..n], account);
      GpuJobIsLocal(GpuSynced(m, jobs[..n]), jobs[n], account);
    }
  }

  /** A run treats each account as if it were alone in the table. */
  lemma {:induction false} GpuRunIsLocal(m: GpuTable, jobs: seq<Job>, k: nat)
    requires OwnedGpuTable(m) && OwnedGpuJobs(jobs) && DistinctAccounts(jobs)
    requires k < |jobs| && !jobs[k].account.snsOnly
    ensures var a := jobs[k].account.accountId;
            GpuRowsOf(GpuSynced(m, jobs), a) == GpuJob(GpuRowsOf(m, a), jobs[k])
  {
    var n, a := |jobs| - 1, jobs[k].account.accountId;
    GpuOthersAreLocal(m, jobs[..n], a);
    GpuJobIsLocal(GpuSynced(m, jobs[..n]), jobs[n], a);
    if k < n {
      GpuRunIsLocal(m, jobs[..n], k);
      NoOtherSyncs(jobs, k, n);
    } else {
      forall j | 0 <= j < n ensures !Syncs(jobs[..n][j], a) {
        NoOtherSyncs(jobs, k, j);
      }
    }
  }

  lemma GpuPruneIsLocal(m: GpuTable, jobs: seq<Job>, pruneOk: bool, gpuPruneOk: bool, account: string)
    requires OwnedGpuTable(m)
    ensures OwnedGpuTable(GpuPruned(m, jobs, pruneOk, gpuPruneOk))
    ensures GpuRowsOf(GpuPruned(m, jobs, pruneOk, gpuPruneOk), account)
            == if 0 < |Syncable(jobs)| <= 900 && pruneOk && gpuPruneOk && account !in KeepList(jobs)
               then map[] else GpuRowsOf(m, account)
  {
    KeepListCounts(jobs);
  }

  // ----- The outcome of one run -----

  /** The table after one run over all configured accounts. */
  function GpuAfterRun(m: GpuTable, jobs: seq<Job>, pruneOk: bool, gpuPruneOk: bool): GpuTable {
    GpuSynced(GpuPruned(m, jobs, pruneOk, gpuPruneOk), jobs)
  }

  /** The account's rows go through its own job, and no other. */
  lemma GpuOwnJob(m: GpuTable, jobs: seq<Job>, pruneOk: bool, gpuPruneOk: bool, k: nat)
    requires k < |jobs| && !jobs[k].account.snsOnly && jobs[k].account.accountId != ""
    requires DistinctAccounts(jobs) && OwnedGpuJobs(jobs) && OwnedGpuTable(m)
    ensures var a := jobs[k].account.accountId;
            GpuRowsOf(GpuAfterRun(m, jobs, pruneOk, gpuPruneOk), a) == GpuJob(GpuRowsOf(m, a), jobs[k])
  {
    GpuPruneIsLocal(m, jobs, pruneOk, gpuPruneOk, jobs[k].account.accountId);
    ListedIsKept(jobs, k);
    GpuRunIsLocal(GpuPruned(m, jobs, pruneOk, gpuPruneOk), jobs, k);
  }

  /** After a fetch without errors that is not empty the account has exactly the fetched instances,
      each covered as its last item says, and otherwise as its first item says. */
  lemma CleanGpuFetchReplaces(m: GpuTable, jobs: seq<Job>, pruneOk: bool, gpuPruneOk: bool, k: nat,
                              first: nat, last: nat)
    requires k < |jobs| && !jobs[k].account.snsOnly && jobs[k].account.accountId != ""
    requires DistinctAccounts(jobs) && OwnedGpuJobs(jobs) && OwnedGpuTable(m)
    requires jobs[k].fetch.gpuErrors == 0 && jobs[k].writes.gpuReplace
    requires var items := jobs[k].fetch.gpuItems;
             first <= last < |items| && items[first].id == items[last].id
             && (forall j :: 0 <= j < first ==> items[j].id != items[first].id)
             && (forall j :: last < j < |items| ==> items[j].id != items[last].id)
    ensures var items := jobs[k].fetch.gpuItems;
            var rows := GpuRowsOf(GpuAfterRun(m, jobs, pruneOk, gpuPruneOk), jobs[k].account.accountId);
            && (forall id :: id in rows <==> exists i :: 0 <= i < |items| && items[i].id == id)
            && rows[items[last].id] == items[first].(coverage := items[last].coverage,
                                                     coverageRef := items[last].coverageRef,
                                                     spRate := items[last].spRate)
  {
    var items, a := jobs[k].fetch.gpuItems, jobs[k].account.accountId;
    GpuOwnJob(m, jobs, pruneOk, gpuPruneOk, k);
    var every: nat -> bool := _ => true;
    GpuReplaceIsLocal(GpuRowsOf(m, a), items, a, a);
    OwnRowsOnly(GpuJob(GpuRowsOf(m, a), jobs[k]), m, jobs, pruneOk, gpuPruneOk, a);
    GpuAllAreWritten(map[], items, every);
    GpuLastWrite(map[], items, every, last);
    GpuFirstWrite(map[], items, every, first);
    forall id
      ensures id in GpuUpsertedAll(map[], items) <==> exists i :: 0 <= i < |items| && items[i].id == id
    {
      WrittenIntoEmpty(items, every, id);
    }
  }

  lemma OwnRowsOnly(rows: GpuTable, m: GpuTable, jobs: seq<Job>, pruneOk: bool, gpuPruneOk: bool, a: string)
    requires rows == GpuRowsOf(GpuAfterRun(m, jobs, pruneOk, gpuPruneOk), a)
    ensures GpuRowsOf(rows, a) == rows
  {
  }

  lemma {:induction false} WrittenIntoEmpty(items: seq<GpuCoverage>, ok: nat -> bool, id: string)
    ensures id in GpuUpsertedSome(map[], items, ok) <==> GpuWritten(items, ok, id)
  {
    if GpuWritten(items, ok, id) {
      var i: nat :| i < |items| && ok(i) && items[i].id == id;
      WrittenIsThere(map[], items, ok, i);
    } else {
      GpuUnwrittenStay(map[], items, ok, id);
      assert Get(GpuUpsertedSome(map[], items, ok), id) == None;
    }
  }

  lemma {:induction false} WrittenIsThere(m: GpuTable, items: seq<GpuCoverage>, ok: nat -> bool, i: nat)
    requires i < |items| && ok(i)
    ensures items[i].id in GpuUpsertedSome(m, items, ok)
  {
    if i < |items| - 1 {
      WrittenIsThere(m, items[..|items| - 1], ok, i);
    }
  }

  /** After a fetch with errors, or an empty one, no row of the account is lost; only how the
      instances whose writes succeed are covered changes, and with an empty one nothing. */
  lemma PartialGpuFetchPreserves(m: GpuTable, jobs: seq<Job>, pruneOk: bool, gpuPruneOk: bool, k: nat, id: string)
    requires k < |jobs| && !jobs[k].account.snsOnly && jobs[k].account.accountId != ""
    requires DistinctAccounts(jobs) && OwnedGpuJobs(jobs) && OwnedGpuTable(m)
    requires jobs[k].fetch.gpuErrors > 0 || jobs[k].fetch.gpuItems == []
    ensures var a, f := jobs[k].account.accountId, jobs[k].fetch;
            var was, rows := GpuRowsOf(m, a), GpuRowsOf(GpuAfterRun(m, jobs, pruneOk, gpuPruneOk), a);
            && (id in was ==>
                  id in rows && rows[id] == was[id].(coverage := rows[id].coverage, coverageRef := rows[id].coverageRef,
                                                     spRate := rows[id].spRate))
            && (!GpuWritten(f.gpuItems, jobs[k].writes.gpuUpsert, id) ==> Get(rows, id) == Get(was, id))
  {
    var a, items, ok := jobs[k].account.accountId, jobs[k].fetch.gpuItems, jobs[k].writes.gpuUpsert;
    GpuOwnJob(m, jobs, pruneOk, gpuPruneOk, k);
    if items != [] {
      if id in GpuRowsOf(m, a) {
        GpuRowStays(GpuRowsOf(m, a), items, ok, id);
      }
      if !GpuWritten(items, ok, id) {
        GpuUnwrittenStay(GpuRowsOf(m, a), items, ok, id);
      }
    }
  }

  /** And the instances whose writes succeed are covered as the last of their items says. */
  lemma PartialGpuFetchMerges(m: GpuTable, jobs: seq<Job>, pruneOk: bool, gpuPruneOk: bool, k: nat, i: nat)
    requires k < |jobs| && !jobs[k].account.snsOnly && jobs[k].account.accountId != ""
    requires DistinctAccounts(jobs) && OwnedGpuJobs(jobs) && OwnedGpuTable(m)
    requires jobs[k].fetch.gpuErrors > 0
    requires var items, ok := jobs[k].fetch.gpuItems, jobs[k].writes.gpuUpsert;
             i < |items| && ok(i) && forall j: nat :: i < j < |items| && ok(j) ==> items[j].id != items[i].id
    ensures var item := jobs[k].fetch.gpuItems[i];
            var rows := GpuRowsOf(GpuAfterRun(m, jobs, pruneOk, gpuPruneOk), jobs[k].account.accountId);
            && item.id in rows && rows[item.id].coverage == item.coverage
            && rows[item.id].coverageRef == item.coverageRef && rows[item.id].spRate == item.spRate
  {
    GpuOwnJob(m, jobs, pruneOk, gpuPruneOk, k);
    GpuLastWrite(GpuRowsOf(m, jobs[k].account.accountId), jobs[k].fetch.gpuItems, jobs[k].writes.gpuUpsert, i);
  }

  /** A replacement the database refuses leaves the account's rows as they were. */
  lemma FailedGpuReplaceChangesNothing(m: GpuTable, jobs: seq<Job>, pruneOk: bool, gpuPruneOk: bool, k: nat)
    requires k < |jobs| && !jobs[k].account.snsOnly && jobs[k].account.accountId != ""
    requires DistinctAccounts(jobs) && OwnedGpuJobs(jobs) && OwnedGpuTable(m)
    requires jobs[k].fetch.gpuErrors == 0 && !jobs[k].writes.gpuReplace
    ensures var a := jobs[k].account.accountId;
            GpuRowsOf(GpuAfterRun(m, jobs, pruneOk, gpuPruneOk), a) == GpuRowsOf(m, a)
  {
    GpuOwnJob(m, jobs, pruneOk, gpuPruneOk, k);
  }

  /** The rows of an account that is not configured go together, or stay. */
  lemma UnlistedGpuArePruned(m: GpuTable, jobs: seq<Job>, pruneOk: bool, gpuPruneOk: bool, account: string)
    requires OwnedGpuJobs(jobs) && OwnedGpuTable(m)
    requires forall k :: 0 <= k < |jobs| ==> !Syncs(jobs[k], account)
    ensures GpuRowsOf(GpuAfterRun(m, jobs, pruneOk, gpuPruneOk), account)
            == if 0 < |Syncable(jobs)| <= 900 && pruneOk && gpuPruneOk then map[] else GpuRowsOf(m, account)
  {
    GpuPruneIsLocal(m, jobs, pruneOk, gpuPruneOk, account);
    GpuOthersAreLocal(GpuPruned(m, jobs, pruneOk, gpuPruneOk), jobs, account);
    if account in KeepList(jobs) {
      KeptIsListed(jobs, account);
    }
  }
}
