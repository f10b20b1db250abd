/** What a sync leaves behind, account by account, and what readers can see while several runs
    and imports are interleaved. */
module SyncFacts {
  import opened Basics
  import opened Store
  import opened Sync

  // ----- Row IDs determine their account -----

  /** How the fetchers and the import build a row's ID. */
  function MakeId(account: string, region: string, resource: string): string {
    account + "_" + region + "_" + resource
  }

  /** The part of an ID before the first underscore. */
  function Owner(id: string): string {
    if id == "" || id[0] == '_' then "" else [id[0]] + Owner(id[1..])
  }

  lemma {:induction false} OwnerOfJoin(account: string, rest: string)
    ensures Owner(account + "_" + rest) == Owner(account)
  {
    var id := account + "_" + rest;
    if account != "" && account[0] != '_' {
      assert id[0] == account[0] && id[1..] == account[1..] + "_" + rest;
      OwnerOfJoin(account[1..], rest);
    }
  }

  /** The owner is the account up to its first underscore. */
  lemma {:induction false} OwnerIsPrefix(account: string)
    ensures Owner(account) == account <==> '_' !in account
    ensures '_' in account ==> exists rest :: account == Owner(account) + "_" + rest
    ensures '_' !in Owner(account)
  {
    if account != "" {
      assert account == [account[0]] + account[1..];
      if account[0] == '_' {
        assert account == Owner(account) + "_" + account[1..];
      } else {
        OwnerIsPrefix(account[1..]);
        if rest :| account[1..] == Owner(account[1..]) + "_" + rest {
          assert account == Owner(account) + "_" + rest;
        }
      }
    }
  }

  /** The account can be read off a row's ID exactly when it holds no underscore. */
  lemma IdsDetermineAccounts(account: string, region: string, resource: string)
    ensures Owner(MakeId(account, region, resource)) == Owner(account)
    ensures Owner(MakeId(account, region, resource)) == account <==> '_' !in account
  {
    OwnerOfJoin(account, region + "_" + resource);
    assert MakeId(account, region, resource) == account + "_" + (region + "_" + resource);
    OwnerIsPrefix(account);
  }

  predicate Owned(r: Reservation) { Owner(r.id) == r.accountId }

  predicate OwnedTable(m: Reservations) {
    forall id :: id in m ==> m[id].id == id && Owned(m[id])
  }

  /** Every item of the fetch belongs to the account. */
  predicate OwnedBy(items: seq<Reservation>, account: string) {
    forall i :: 0 <= i < |items| ==> items[i].accountId == account && Owned(items[i])
  }

  function RowsOf(m: Reservations, account: string): Reservations {
    map id | id in m && m[id].accountId == account :: m[id]
  }

  // ----- What a batch of upserts writes -----

  predicate Fetched(items: seq<Reservation>, id: string) {
    exists i :: 0 <= i < |items| && items[i].id == id
  }

  predicate IsFirst(items: seq<Reservation>, i: nat) {
    i < |items| && forall j :: 0 <= j < i ==> items[j].id != items[i].id
  }

  predicate IsLast(items: seq<Reservation>, i: nat) {
    i < |items| && forall j :: i < j < |items| ==> items[j].id != items[i].id
  }

  /** Rows that are not fetched stay as they are. */
  lemma {:induction false} UnfetchedStay(m: Reservations, items: seq<Reservation>, id: string)
    requires !Fetched(items, id)
    ensures Get(UpsertedAll(m, items), id) == Get(m, id)
  {
    if items != [] {
      var n := |items| - 1;
      forall i | 0 <= i < n ensures items[..n][i].id != id {
        assert items[i].id != id;
      }
      UnfetchedStay(m, items[..n], id);
    }
  }

  lemma LastBefore(items: seq<Reservation>, first: nat, n: nat) returns (prev: nat)
    requires first < n <= |items| && IsFirst(items, first)
    ensures first <= prev < n && items[prev].id == items[first].id
    ensures IsFirst(items[..n], first) && IsLast(items[..n], prev)
  {
    prev := n - 1;
    while items[prev].id != items[first].id
      invariant first <= prev < n
      invariant forall j :: prev < j < n ==> items[j].id != items[first].id
      decreases prev
    {
      prev := prev - 1;
    }
  }

  /** A fetched row takes its changeable columns from the last item with its ID; its fixed
      columns stay as they were, or come from the first item when the row is new. */
  lemma {:induction false} FetchedRow(m: Reservations, items: seq<Reservation>, first: nat, last: nat)
    requires IsFirst(items, first) && IsLast(items, last) && items[first].id == items[last].id
    ensures var id := items[last].id;
            var after := UpsertedAll(m, items);
            && id in after
            && after[id].status == items[last].status && after[id].details == items[last].details
            && after[id].endTime == Cut(items[last].endTime)
            && (if id in m then after[id].fixed == m[id].fixed && after[id].accountId == m[id].accountId
                                && after[id].id == m[id].id
                else after[id].fixed == Stored(items[first]).fixed && after[id].accountId == items[first].accountId
                     && after[id].id == id)
  {
    var n := |items| - 1;
    var id := items[last].id;
    if last < n {
      FetchedRow(m, items[..n], first, last);
    } else if first < n {
      var prev := LastBefore(items, first, n);
      FetchedRow(m, items[..n], first, prev);
    } else {
      UnfetchedStay(m, items[..n], id);
    }
  }

  lemma FirstAndLast(items: seq<Reservation>, id: string) returns (first: nat, last: nat)
    requires Fetched(items, id)
    ensures IsFirst(items, first) && IsLast(items, last) && items[first].id == id == items[last].id
  {
    first := 0;
    while items[first].id != id
      invariant first < |items|
      invariant forall j :: 0 <= j < first ==> items[j].id != id
      invariant exists i :: first <= i < |items| && items[i].id == id
      decreases |items| - first
    {
      first := first + 1;
    }
    last := |items| - 1;
    while items[last].id != id
      invariant first <= last < |items|
      invariant forall j :: last < j < |items| ==> items[j].id != id
      decreases last
    {
      last := last - 1;
    }
  }

  /** A clean replacement leaves exactly the fetched IDs. */
  lemma UpsertedIntoEmpty(items: seq<Reservation>, id: string)
    ensures id in UpsertedAll(map[], items) <==> Fetched(items, id)
  {
    if Fetched(items, id) {
      var first, last := FirstAndLast(items, id);
      FetchedRow(map[], items, first, last);
    } else {
      UnfetchedStay(map[], items, id);
      assert Get(UpsertedAll(map[], items), id) == None;
    }
  }

  // ----- Every operation acts on one account at a time -----

  /** The account an operation writes to; pruning concerns all. */
  predicate Concerns(op: Op, account: string) {
    match op
    case UpsertOp(r) => r.accountId == account
    case ReplaceOp(b, _) => b == account
    case PruneOp(_) => true
  }

  predicate OwnedOp(op: Op) {
    match op
    case UpsertOp(r) => Owned(r)
    case ReplaceOp(b, items) => OwnedBy(items, b)
    case PruneOp(_) => true
  }

  lemma UpsertIsLocal(m: Reservations, r: Reservation, account: string)
    requires OwnedTable(m) && Owned(r)
    ensures OwnedTable(Upserted(m, r))
    ensures RowsOf(Upserted(m, r), account)
            == if r.accountId == account then Upserted(RowsOf(m, account), r) else RowsOf(m, account)
  {
  }

  lemma {:induction false} UpsertsAreLocal(m: Reservations, items: seq<Reservation>, b: string, account: string)
    requires OwnedTable(m) && OwnedBy(items, b)
    ensures OwnedTable(UpsertedAll(m, items))
    ensures RowsOf(UpsertedAll(m, items), account)
            == if b == account then UpsertedAll(RowsOf(m, account), items) else RowsOf(m, account)
  {
    if items != [] {
      var n := |items| - 1;
      UpsertsAreLocal(m, items[..n], b, account);
      UpsertIsLocal(UpsertedAll(m, items[..n]), items[n], account);
    }
  }

  /** An operation changes the rows of the accounts it concerns as if they were alone in the
      table, and no others. */
  lemma OpIsLocal(m: Reservations, op: Op, account: string)
    requires OwnedTable(m) && OwnedOp(op)
    ensures OwnedTable(Apply(m, op))
    ensures RowsOf(Apply(m, op), account)
            == if Concerns(op, account) then Apply(RowsOf(m, account), op) else RowsOf(m, account)
  {
    match op
    case UpsertOp(r) => UpsertIsLocal(m, r, account);
    case ReplaceOp(b, items) =>
      UpsertsAreLocal(WithoutAccount(m, b), items, b, account);
      assert RowsOf(WithoutAccount(m, b), account) == if b == account then map[] else RowsOf(m, account);
      assert WithoutAccount(RowsOf(m, b), b) == map[];
    case PruneOp(keep) =>
      assert RowsOf(OnlyAccounts(m, keep), account) == OnlyAccounts(RowsOf(m, account), keep);
  }

  predicate OwnedOps(ops: seq<Op>) { forall i :: 0 <= i < |ops| ==> OwnedOp(ops[i]) }

  /** The operations of a sequence that concern one account. */
  function Concerning(ops: seq<Op>, account: string): seq<Op> {
    if ops == [] then []
    else
      var n := |ops| - 1;
      Concerning(ops[..n], account) + if Concerns(ops[n], account) then [ops[n]] else []
  }

  lemma {:induction false} OpsAreLocal(m: Reservations, ops: seq<Op>, account: string)
    requires OwnedTable(m) && OwnedOps(ops)
    ensures OwnedTable(ApplyAll(m, ops))
    ensures RowsOf(ApplyAll(m, ops), account) == ApplyAll(RowsOf(m, account), Concerning(ops, account))
  {
    if ops != [] {
      var n := |ops| - 1;
      OpsAreLocal(m, ops[..n], account);
      OpIsLocal(ApplyAll(m, ops[..n]), ops[n], account);
      if Concerns(ops[n], account) {
        ApplyOne(RowsOf(m, account), Concerning(ops[..n], account), ops[n]);
      } else {
        assert Concerning(ops, account) == Concerning(ops[..n], account);
      }
    }
  }

  // ----- The outcome of one run -----

  predicate DistinctAccounts(jobs: seq<Job>) {
    forall i, j :: 0 <= i < j < |jobs| && !jobs[i].account.snsOnly && !jobs[j].account.snsOnly ==>
                     jobs[i].account.accountId != jobs[j].account.accountId
  }

  predicate OwnedJob(j: Job) { OwnedBy(j.fetch.items, j.account.accountId) }

  predicate OwnedJobs(jobs: seq<Job>) {
    forall i :: 0 <= i < |jobs| ==> OwnedJob(jobs[i])
  }

  /** Is this the job that syncs the account? */
  predicate Syncs(j: Job, account: string) { !j.account.snsOnly && j.account.accountId == account }

  lemma {:induction false} ConcerningConcat(a: seq<Op>, b: seq<Op>, account: string)
    ensures Concerning(a + b, account) == Concerning(a, account) + Concerning(b, account)
    decreases |b|
  {
    if b == [] {
      assert a + b == a;
    } else {
      assert (a + b)[..|a + b| - 1] == a + b[..|b| - 1];
      ConcerningConcat(a, b[..|b| - 1], account);
    }
  }

  lemma {:induction false} UpsertOpsConcern(items: seq<Reservation>, ok: nat -> bool, b: string, account: string)
    requires OwnedBy(items, b)
    ensures OwnedOps(UpsertOps(items, ok))
    ensures Concerning(UpsertOps(items, ok), account) == if b == account then UpsertOps(items, ok) else []
  {
    if items != [] {
      var n := |items| - 1;
      UpsertOpsConcern(items[..n], ok, b, account);
      var ops := UpsertOps(items[..n], ok);
      if ok(n) {
        assert UpsertOps(items, ok)[..|ops|] == ops;
      } else {
        assert UpsertOps(items, ok) == ops;
      }
    }
  }

  lemma JobOpsConcern(j: Job, account: string)
    requires OwnedJob(j)
    ensures OwnedOps(JobOps(j))
    ensures Concerning(JobOps(j), account) == if Syncs(j, account) then JobOps(j) else []
  {
    if !j.account.snsOnly && !Clean(j.fetch) {
      UpsertOpsConcern(j.fetch.items, j.writes.upsert, j.account.accountId, account);
    } else if !j.account.snsOnly && j.writes.replace {
      var op := ReplaceOp(j.account.accountId, j.fetch.items);
      assert [op][..0] == [];
      assert Concerning([op], account) == if Concerns(op, account) then [op] else [];
    }
  }

  lemma {:induction false} JobsOpsOwned(jobs: seq<Job>)
    requires OwnedJobs(jobs)
    ensures OwnedOps(JobsOps(jobs))
  {
    if jobs != [] {
      JobsOpsOwned(jobs[..|jobs| - 1]);
      JobOpsConcern(jobs[|jobs| - 1], "");
    }
  }

  lemma LastJob(jobs: seq<Job>, account: string)
    requires jobs != [] && OwnedJobs(jobs)
    ensures var n := |jobs| - 1;
            Concerning(JobsOps(jobs), account)
            == Concerning(JobsOps(jobs[..n]), account) + if Syncs(jobs[n], account) then JobOps(jobs[n]) else []
  {
    var n := |jobs| - 1;
    JobOpsConcern(jobs[n], account);
    ConcerningConcat(JobsOps(jobs[..n]), JobOps(jobs[n]), account);
  }

  lemma {:induction false} NoOperations(jobs: seq<Job>, account: string)
    requires OwnedJobs(jobs)
    requires forall k :: 0 <= k < |jobs| ==> !Syncs(jobs[k], account)
    ensures Concerning(JobsOps(jobs), account) == []
  {
    if jobs != [] {
      NoOperations(jobs[..|jobs| - 1], account);
      LastJob(jobs, account);
    }
  }

  lemma NoOtherSyncs(jobs: seq<Job>, k: nat, j: nat)
    requires DistinctAccounts(jobs) && k < |jobs| && j < |jobs| && j != k && !jobs[k].account.snsOnly
    ensures !Syncs(jobs[j], jobs[k].account.accountId)
  {
  }

  /** In the run, an account is concerned only by its own operations. */
  lemma {:induction false} OwnOperations(jobs: seq<Job>, k: nat)
    requires DistinctAccounts(jobs) && OwnedJobs(jobs)
    requires k < |jobs| && !jobs[k].account.snsOnly
    ensures Concerning(JobsOps(jobs), jobs[k].account.accountId) == JobOps(jobs[k])
  {
    var n, account := |jobs| - 1, jobs[k].account.accountId;
    LastJob(jobs, account);
    if k < n {
      OwnOperations(jobs[..n], k);
      NoOtherSyncs(jobs, k, n);
    } else {
      forall j | 0 <= j < n ensures !Syncs(jobs[..n][j], account) {
        NoOtherSyncs(jobs, k, j);
      }
      NoOperations(jobs[..n], account);
    }
  }

  /** The rows an account has once unlisted accounts are pruned. */
  function Kept(m: Reservations, jobs: seq<Job>, pruneOk: bool, account: string): Reservations {
    if Prunes(jobs, pruneOk) && account !in KeepList(jobs) then map[] else RowsOf(m, account)
  }

  lemma PruneIsLocal(m: Reservations, jobs: seq<Job>, pruneOk: bool, account: string)
    requires OwnedTable(m)
    ensures OwnedTable(ApplyAll(m, PruneOps(jobs, pruneOk)))
    ensures RowsOf(ApplyAll(m, PruneOps(jobs, pruneOk)), account) == Kept(m, jobs, pruneOk, account)
  {
    if Prunes(jobs, pruneOk) {
      var op := PruneOp(KeepList(jobs));
      ApplyOne(m, [], op);
      assert [] + [op] == PruneOps(jobs, pruneOk);
      OpIsLocal(m, op, account);
    }
  }

  /** A run treats each account as if it were alone in the table: its rows, if it is listed, go
      through its own operations and no others. */
  lemma RunIsLocal(m: Reservations, jobs: seq<Job>, pruneOk: bool, account: string)
    requires OwnedJobs(jobs) && OwnedTable(m)
    ensures RowsOf(ApplyAll(m, SyncOps(jobs, pruneOk)), account)
            == ApplyAll(Kept(m, jobs, pruneOk, account), Concerning(JobsOps(jobs), account))
  {
    JobsOpsOwned(jobs);
    ApplyAllConcat(m, PruneOps(jobs, pruneOk), JobsOps(jobs));
    PruneIsLocal(m, jobs, pruneOk, account);
    OpsAreLocal(ApplyAll(m, PruneOps(jobs, pruneOk)), JobsOps(jobs), account);
  }

  /** The rows are exactly the fetched ones: fixed columns from the first item with an ID,
      changeable ones from the last. */
  ghost predicate ExactlyFetched(rows: Reservations, items: seq<Reservation>) {
    && (forall id :: id in rows <==> Fetched(items, id))
    && (forall first: nat, last: nat ::
          IsFirst(items, first) && IsLast(items, last) && items[first].id == items[last].id ==>
            items[last].id in rows
            && rows[items[last].id] == Stored(items[last]).(fixed := Stored(items[first]).fixed))
  }

  lemma {:induction false} FetchedIntoEmpty(items: seq<Reservation>, account: string)
    requires OwnedBy(items, account)
    ensures ExactlyFetched(UpsertedAll(map[], items), items)
  {
    forall id ensures id in UpsertedAll(map[], items) <==> Fetched(items, id) {
      UpsertedIntoEmpty(items, id);
    }
    forall first: nat, last: nat | IsFirst(items, first) && IsLast(items, last) && items[first].id == items[last].id
      ensures items[last].id in UpsertedAll(map[], items)
              && UpsertedAll(map[], items)[items[last].id] == Stored(items[last]).(fixed := Stored(items[first]).fixed)
    {
      FetchedRow(map[], items, first, last);
    }
  }

  /** After a fetch without errors that is not empty the account has exactly the fetched rows. */
  lemma {:induction false} CleanFetchReplaces(m: Reservations, jobs: seq<Job>, pruneOk: bool, k: nat)
    requires k < |jobs| && !jobs[k].account.snsOnly
    requires DistinctAccounts(jobs) && OwnedJobs(jobs) && OwnedTable(m)
    requires jobs[k].fetch.errors == 0 && jobs[k].fetch.items != [] && jobs[k].writes.replace
    ensures ExactlyFetched(RowsOf(ApplyAll(m, SyncOps(jobs, pruneOk)), jobs[k].account.accountId), jobs[k].fetch.items)
  {
    var a, items := jobs[k].account.accountId, jobs[k].fetch.items;
    RunIsLocal(m, jobs, pruneOk, a);
    OwnOperations(jobs, k);
    var start := Kept(m, jobs, pruneOk, a);
    ApplyOne(start, [], ReplaceOp(a, items));
    assert [] + [ReplaceOp(a, items)] == [ReplaceOp(a, items)];
    assert WithoutAccount(start, a) == map[];
    FetchedIntoEmpty(items, a);
  }

  lemma {:induction false} MergeKeeps(m: Reservations, items: seq<Reservation>, ok: nat -> bool, id: string)
    ensures var after := ApplyAll(m, UpsertOps(items, ok));
            && (id in m ==> id in after && after[id].fixed == m[id].fixed)
            && (!Fetched(items, id) ==> Get(after, id) == Get(m, id))
  {
    if items != [] {
      var n := |items| - 1;
      MergeKeeps(m, items[..n], ok, id);
      if !Fetched(items, id) {
        forall i | 0 <= i < n ensures items[..n][i].id != id {
          assert items[i].id != id;
        }
        assert items[n].id != id;
      }
      var ops := UpsertOps(items[..n], ok);
      if ok(n) {
        ApplyOne(m, ops, UpsertOp(items[n]));
        assert UpsertOps(items, ok) == ops + [UpsertOp(items[n])];
      } else {
        assert UpsertOps(items, ok) == ops;
      }
    }
  }

  /** After a fetch with errors, or an empty one, the account has all its rows still; only fetched
      ones changed. */
  lemma PartialFetchPreserves(m: Reservations, jobs: seq<Job>, pruneOk: bool, k: nat, id: string)
    requires k < |jobs| && !jobs[k].account.snsOnly
    requires DistinctAccounts(jobs) && OwnedJobs(jobs) && OwnedTable(m)
    requires jobs[k].fetch.errors > 0 || jobs[k].fetch.items == []
    requires jobs[k].account.accountId != ""
    ensures var a := jobs[k].account.accountId;
            var was, rows := RowsOf(m, a), RowsOf(ApplyAll(m, SyncOps(jobs, pruneOk)), a);
            && (id in was ==> id in rows && rows[id].fixed == was[id].fixed)
            && (!Fetched(jobs[k].fetch.items, id) ==> Get(rows, id) == Get(was, id))
  {
    var a := jobs[k].account.accountId;
    RunIsLocal(m, jobs, pruneOk, a);
    OwnOperations(jobs, k);
    ListedIsKept(jobs, k);
    MergeKeeps(RowsOf(m, a), jobs[k].fetch.items, jobs[k].writes.upsert, id);
  }

  /** What a merge adds: an item whose write succeeds, with no later one of its ID written, has its
      changeable columns in the table. */
  lemma {:induction false} MergeWrites(m: Reservations, items: seq<Reservation>, ok: nat -> bool, i: nat)
    requires i < |items| && ok(i)
    requires forall j: nat :: i < j < |items| && ok(j) ==> items[j].id != items[i].id
    ensures var after := ApplyAll(m, UpsertOps(items, ok));
            && items[i].id in after
            && after[items[i].id].status == items[i].status && after[items[i].id].details == items[i].details
            && after[items[i].id].endTime == Cut(items[i].endTime)
  {
    var n := |items| - 1;
    var ops := UpsertOps(items[..n], ok);
    if ok(n) {
      ApplyOne(m, ops, UpsertOp(items[n]));
      assert UpsertOps(items, ok) == ops + [UpsertOp(items[n])];
    } else {
      assert UpsertOps(items, ok) == ops;
    }
    if i < n {
      MergeWrites(m, items[..n], ok, i);
    }
  }

  /** After a fetch with errors the fetched rows are merged in, as far as the database writes them. */
  lemma PartialFetchMerges(m: Reservations, jobs: seq<Job>, pruneOk: bool, k: nat, i: nat)
    requires k < |jobs| && !jobs[k].account.snsOnly
    requires DistinctAccounts(jobs) && OwnedJobs(jobs) && OwnedTable(m)
    requires jobs[k].fetch.errors > 0 && jobs[k].account.accountId != ""
    requires i < |jobs[k].fetch.items| && jobs[k].writes.upsert(i)
    requires forall j: nat :: i < j < |jobs[k].fetch.items| && jobs[k].writes.upsert(j) ==>
                                jobs[k].fetch.items[j].id != jobs[k].fetch.items[i].id
    ensures var item := jobs[k].fetch.items[i];
            var rows := RowsOf(ApplyAll(m, SyncOps(jobs, pruneOk)), jobs[k].account.accountId);
            && item.id in rows && rows[item.id].status == item.status && rows[item.id].details == item.details
            && rows[item.id].endTime == Cut(item.endTime)
  {
    var a := jobs[k].account.accountId;
    RunIsLocal(m, jobs, pruneOk, a);
    OwnOperations(jobs, k);
    ListedIsKept(jobs, k);
    MergeWrites(RowsOf(m, a), jobs[k].fetch.items, jobs[k].writes.upsert, i);
  }

  /** The positions of the items whose writes succeed. */
  function Written(n: nat, ok: nat -> bool): set<nat> { set i: nat | i < n && ok(i) }

  lemma {:induction false} UpsertsAreWritten(items: seq<Reservation>, ok: nat -> bool)
    ensures |UpsertOps(items, ok)| == |Written(|items|, ok)|
  {
    if items == [] {
      assert Written(0, ok) == {};
    } else {
      var n := |items| - 1;
      UpsertsAreWritten(items[..n], ok);
      assert Written(n + 1, ok) == Written(n, ok) + if ok(n) then {n} else {};
    }
  }

  /** The total of a run counts, account by account, the items of a committed replacement, or the
      items merged. */
  lemma TotalCounts(jobs: seq<Job>)
    requires jobs != []
    ensures var j := jobs[|jobs| - 1];
            Synced(jobs) - Synced(jobs[..|jobs| - 1])
            == if j.account.snsOnly then 0
               else if j.fetch.errors == 0 && j.fetch.items != [] then
                 (if j.writes.replace then |j.fetch.items| else 0)
               else |Written(|j.fetch.items|, j.writes.upsert)|
    ensures Synced([]) == 0
  {
    UpsertsAreWritten(jobs[|jobs| - 1].fetch.items, jobs[|jobs| - 1].writes.upsert);
  }

  /** A replacement the database refuses leaves the account's rows as they were. */
  lemma FailedReplaceChangesNothing(m: Reservations, jobs: seq<Job>, pruneOk: bool, k: nat)
    requires k < |jobs| && !jobs[k].account.snsOnly
    requires DistinctAccounts(jobs) && OwnedJobs(jobs) && OwnedTable(m)
    requires jobs[k].fetch.errors == 0 && jobs[k].fetch.items != []
    requires !jobs[k].writes.replace && jobs[k].account.accountId != ""
    ensures var a := jobs[k].account.accountId;
            RowsOf(ApplyAll(m, SyncOps(jobs, pruneOk)), a) == RowsOf(m, a)
  {
    RunIsLocal(m, jobs, pruneOk, jobs[k].account.accountId);
    OwnOperations(jobs, k);
    ListedIsKept(jobs, k);
  }

  lemma {:induction false} ListedIsKept(jobs: seq<Job>, k: nat)
    requires k < |jobs| && !jobs[k].account.snsOnly && jobs[k].account.accountId != ""
    ensures jobs[k].account.accountId in KeepList(jobs)
  {
    var n := |jobs| - 1;
    if k < n {
      ListedIsKept(jobs[..n], k);
    }
  }

  /** The positions of the accounts that are synced and have an ID. */
  function Syncable(jobs: seq<Job>): set<nat> {
    set k: nat | k < |jobs| && !jobs[k].account.snsOnly && jobs[k].account.accountId != ""
  }

  lemma OneMoreSyncable(jobs: seq<Job>)
    requires jobs != []
    ensures var n := |jobs| - 1;
            Syncable(jobs) == if jobs[n].account.snsOnly || jobs[n].account.accountId == "" then Syncable(jobs[..n])
                              else Syncable(jobs[..n]) + {n}
    ensures |jobs| - 1 !in Syncable(jobs[..|jobs| - 1])
  {
  }

  /** One entry of the keep list for each of them. */
  lemma {:induction false} KeepListCounts(jobs: seq<Job>)
    ensures |KeepList(jobs)| == |Syncable(jobs)|
    ensures "" !in KeepList(jobs)
  {
    if jobs == [] {
      assert Syncable(jobs) == {};
    } else {
      var n := |jobs| - 1;
      KeepListCounts(jobs[..n]);
      OneMoreSyncable(jobs);
    }
  }

  /** The rows of an account that is not configured are all dropped, or, when no account is
      syncable or more than 900 are or the database refuses, all kept. */
  lemma UnlistedArePruned(m: Reservations, jobs: seq<Job>, pruneOk: bool, account: string)
    requires OwnedJobs(jobs) && OwnedTable(m)
    requires forall k :: 0 <= k < |jobs| ==> !Syncs(jobs[k], account)
    ensures RowsOf(ApplyAll(m, SyncOps(jobs, pruneOk)), account)
            == if 0 < |Syncable(jobs)| <= 900 && pruneOk then map[] else RowsOf(m, account)
  {
    RunIsLocal(m, jobs, pruneOk, account);
    NoOperations(jobs, account);
    KeepListCounts(jobs);
    if account in KeepList(jobs) {
      KeptIsListed(jobs, account);
    }
  }

  lemma {:induction false} KeptIsListed(jobs: seq<Job>, account: string)
    requires account in KeepList(jobs)
    ensures exists k :: 0 <= k < |jobs| && Syncs(jobs[k], account)
  {
    var n := |jobs| - 1;
    if account in KeepList(jobs[..n]) {
      KeptIsListed(jobs[..n], account);
      var k :| 0 <= k < n && Syncs(jobs[..n][k], account);
      assert Syncs(jobs[k], account);
    } else {
      assert Syncs(jobs[n], account);
    }
  }

  // ----- What readers see -----

  /** An import, or an operation of some sync run whose configuration lists these accounts. */
  ghost predicate Issued(listed: seq<string>, op: Op) {
    || (op.UpsertOp? && Owned(op.r))
    || exists jobs, pruneOk :: KeepList(jobs) == listed && OwnedJobs(jobs) && op in SyncOps(jobs, pruneOk)
  }

  /** What no issued operation does: write another account's rows, replace by nothing, or prune
      an account that is configured. */
  predicate Harmless(listed: seq<string>, op: Op) {
    match op
    case UpsertOp(r) => Owned(r)
    case ReplaceOp(b, items) => items != [] && OwnedBy(items, b)
    case PruneOp(keep) => keep == listed
  }

  lemma {:induction false} UpsertOpsAreHarmless(listed: seq<string>, items: seq<Reservation>, ok: nat -> bool,
                                                b: string, op: Op)
    requires OwnedBy(items, b) && op in UpsertOps(items, ok)
    ensures Harmless(listed, op)
  {
    var n := |items| - 1;
    if op in UpsertOps(items[..n], ok) {
      UpsertOpsAreHarmless(listed, items[..n], ok, b, op);
    }
  }

  lemma {:induction false} JobsOpsAreHarmless(listed: seq<string>, jobs: seq<Job>, op: Op)
    requires OwnedJobs(jobs) && op in JobsOps(jobs)
    ensures Harmless(listed, op)
  {
    var n := |jobs| - 1;
    if op in JobsOps(jobs[..n]) {
      JobsOpsAreHarmless(listed, jobs[..n], op);
    } else {
      assert OwnedJob(jobs[n]);
      if !Clean(jobs[n].fetch) {
        UpsertOpsAreHarmless(listed, jobs[n].fetch.items, jobs[n].writes.upsert, jobs[n].account.accountId, op);
      }
    }
  }

  lemma IssuedIsHarmless(listed: seq<string>, op: Op)
    requires Issued(listed, op)
    ensures Harmless(listed, op)
  {
    if !(op.UpsertOp? && Owned(op.r)) {
      var jobs, pruneOk :| KeepList(jobs) == listed && OwnedJobs(jobs) && op in SyncOps(jobs, pruneOk);
      if op in JobsOps(jobs) {
        JobsOpsAreHarmless(listed, jobs, op);
      }
    }
  }

  // ----- Which accounts an operation can endanger -----

  /** Rows are stored under their IDs, and every ID of the account's belongs to it. */
  predicate Secure(m: Reservations, account: string) {
    forall id :: id in m ==> m[id].id == id && (Owner(id) == account ==> m[id].accountId == account)
  }

  /** The operation takes no ID of the account's for another one, replaces by something, and
      prunes without dropping the account. */
  predicate Spares(op: Op, account: string) {
    match op
    case UpsertOp(r) => Owner(r.id) == account ==> r.accountId == account
    case ReplaceOp(b, items) => items != [] && OwnedBy(items, b)
    case PruneOp(keep) => account in keep
  }

  lemma {:induction false} UpsertsSpare(m: Reservations, items: seq<Reservation>, b: string, account: string)
    requires Secure(m, account) && OwnedBy(items, b)
    ensures Secure(UpsertedAll(m, items), account)
    ensures forall id :: id in RowsOf(m, account) ==> id in RowsOf(UpsertedAll(m, items), account)
  {
    if items != [] {
      UpsertsSpare(m, items[..|items| - 1], b, account);
    }
  }

  /** The first item of a replacement lands on an ID no other account can hold. */
  lemma ReplaceLeavesRows(m: Reservations, items: seq<Reservation>, account: string)
    requires Secure(m, account) && items != [] && OwnedBy(items, account)
    ensures Secure(Replaced(m, account, items), account) && RowsOf(Replaced(m, account, items), account) != map[]
  {
    var rest := WithoutAccount(m, account);
    UpsertsSpare(rest, items, account, account);
    var first, last := FirstAndLast(items, items[0].id);
    FetchedRow(rest, items, first, last);
    assert items[0].id in RowsOf(Replaced(m, account, items), account);
  }

  lemma SparedKeepsRows(m: Reservations, op: Op, account: string)
    requires Secure(m, account) && Spares(op, account) && RowsOf(m, account) != map[]
    ensures Secure(Apply(m, op), account) && RowsOf(Apply(m, op), account) != map[]
  {
    var id :| id in RowsOf(m, account);
    match op
    case UpsertOp(r) => assert id in RowsOf(Apply(m, op), account);
    case ReplaceOp(b, items) =>
      if b == account {
        ReplaceLeavesRows(m, items, account);
      } else {
        UpsertsSpare(WithoutAccount(m, b), items, b, account);
        assert id in RowsOf(Apply(m, op), account);
      }
    case PruneOp(keep) => assert id in RowsOf(Apply(m, op), account);
  }

  lemma {:induction false} SparedNeverEmpty(m: Reservations, ops: seq<Op>, account: string)
    requires Secure(m, account) && RowsOf(m, account) != map[]
    requires forall i :: 0 <= i < |ops| ==> Spares(ops[i], account)
    ensures Secure(ApplyAll(m, ops), account) && RowsOf(ApplyAll(m, ops), account) != map[]
  {
    if ops != [] {
      var n := |ops| - 1;
      SparedNeverEmpty(m, ops[..n], account);
      SparedKeepsRows(ApplyAll(m, ops[..n]), ops[n], account);
    }
  }

  /** Readers never see a configured account empty once it has rows: every state between the
      operations of any number of interleaved syncs and imports has rows for it. */
  lemma NeverSeenEmpty(m: Reservations, listed: seq<string>, ops: seq<Op>, account: string)
    requires OwnedTable(m) && account in listed
    requires forall i :: 0 <= i < |ops| ==> Issued(listed, ops[i])
    requires RowsOf(m, account) != map[]
    ensures RowsOf(ApplyAll(m, ops), account) != map[]
  {
    forall i | 0 <= i < |ops| ensures Spares(ops[i], account) {
      IssuedIsHarmless(listed, ops[i]);
    }
    SparedNeverEmpty(m, ops, account);
  }

  // ----- Imports under any account ID -----

  /** The import of a row under this account; the import does not look at the characters of an ID. */
  ghost predicate ImportOf(op: Op, account: string) {
    op.UpsertOp? && op.r.accountId == account
    && exists region, resource :: op.r.id == MakeId(account, region, resource)
  }

  /** Starting from rows that belong to their accounts, syncs that list account p and imports
      under account a leave p without any. */
  ghost predicate Empties(listed: seq<string>, m: Reservations, ops: seq<Op>, p: string, a: string) {
    && p in listed && OwnedTable(m) && RowsOf(m, p) != map[]
    && (forall i :: 0 <= i < |ops| ==> Issued(listed, ops[i]) || ImportOf(ops[i], a))
    && RowsOf(ApplyAll(m, ops), p) == map[]
  }

  lemma OthersAreSafe(listed: seq<string>, m: Reservations, ops: seq<Op>, p: string, a: string)
    requires '_' !in p && !(a != p && Owner(a) == p)
    ensures !Empties(listed, m, ops, p, a)
  {
    if Empties(listed, m, ops, p, a) {
      forall i | 0 <= i < |ops| ensures Spares(ops[i], p) {
        if Issued(listed, ops[i]) {
          IssuedIsHarmless(listed, ops[i]);
        } else {
          var region, resource :| ops[i].r.id == MakeId(a, region, resource);
          IdsDetermineAccounts(a, region, resource);
        }
      }
      SparedNeverEmpty(m, ops, p);
    }
  }

  /** The imported row has the ID of a row the provider reports for p, and the row p has now is
      not reported any more. */
  lemma ImportThenReplace(p: string, a: string, imported: Reservation, cloud: Reservation, before: Reservation)
    requires a != p && imported.accountId == a && cloud.accountId == before.accountId == p
    requires imported.id == cloud.id != before.id
    ensures RowsOf(ApplyAll(map[before.id := before], [UpsertOp(imported)] + [ReplaceOp(p, [cloud])]), p) == map[]
  {
    var m: Reservations := map[before.id := before];
    ApplyOne(m, [], UpsertOp(imported));
    assert [] + [UpsertOp(imported)] == [UpsertOp(imported)];
    ApplyOne(m, [UpsertOp(imported)], ReplaceOp(p, [cloud]));
    var rest := WithoutAccount(Upserted(m, imported), p);
    assert cloud.id in rest && rest[cloud.id].accountId == a;
    assert forall id :: id in rest ==> id == cloud.id;
    assert [cloud][..0] == [];
    assert UpsertedAll(rest, [cloud]) == Upserted(rest, cloud);
  }

  lemma ReplacementIsIssued(p: string, cloud: Reservation)
    requires p != "" && cloud.accountId == p && Owned(cloud)
    ensures Issued([p], ReplaceOp(p, [cloud]))
  {
    var job := Job(Configured("", p, false), Fetch([cloud], 0, [], 0), Writes(true, _ => true, true, _ => true));
    assert [job][..0] == [];
    assert KeepList([job]) == [p];
    assert JobsOps([job]) == [ReplaceOp(p, [cloud])];
    assert ReplaceOp(p, [cloud]) in SyncOps([job], true);
  }

  /** Some row with this ID under this account. */
  function Row(id: string, account: string): Reservation {
    Reservation(id, account, Fixed("", "", "", "", "", "", 0), "active", 0, Details(1, 0, "", 0.0, 0.0, ""))
  }

  lemma TableOfOne(row: Reservation)
    requires Owned(row)
    ensures OwnedTable(map[row.id := row]) && RowsOf(map[row.id := row], row.accountId) != map[]
  {
    assert row.id in RowsOf(map[row.id := row], row.accountId);
  }

  lemma SharedId(p: string, q: string)
    ensures MakeId(p + "_" + q, "r", "s") == MakeId(p, q, "r_s")
    ensures |MakeId(p, q, "r_s_")| == |MakeId(p, q, "r_s")| + 1
  {
  }

  lemma PrefixIsEmptied(p: string, a: string)
    requires p != "" && '_' !in p && a != p && Owner(a) == p
    ensures exists listed, m, ops :: Empties(listed, m, ops, p, a)
  {
    OwnerIsPrefix(a);
    var q :| a == p + "_" + q;
    SharedId(p, q);
    var imported := Row(MakeId(a, "r", "s"), a);
    var cloud, before := Row(MakeId(p, q, "r_s"), p), Row(MakeId(p, q, "r_s_"), p);
    IdsDetermineAccounts(p, q, "r_s");
    IdsDetermineAccounts(p, q, "r_s_");
    PairEmpties(p, a, imported, cloud, before);
  }

  lemma PairEmpties(p: string, a: string, imported: Reservation, cloud: Reservation, before: Reservation)
    requires p != "" && a != p && imported.accountId == a && cloud.accountId == before.accountId == p
    requires imported.id == cloud.id == MakeId(a, "r", "s") != before.id && Owned(cloud) && Owned(before)
    ensures exists listed, m, ops :: Empties(listed, m, ops, p, a)
  {
    ImportThenReplace(p, a, imported, cloud, before);
    ReplacementIsIssued(p, cloud);
    TableOfOne(before);
    var m, ops := map[before.id := before], [UpsertOp(imported)] + [ReplaceOp(p, [cloud])];
    assert ImportOf(ops[0], a);
    assert Empties([p], m, ops, p, a);
  }

  /** Exactly which imports are a danger: imports under account a can leave the configured account
      p without rows if and only if p is what precedes the first underscore of a. */
  lemma ImportCanEmptyIff(p: string, a: string)
    requires p != "" && '_' !in p
    ensures (exists listed, m, ops :: Empties(listed, m, ops, p, a)) <==> a != p && Owner(a) == p
  {
    if a != p && Owner(a) == p {
      PrefixIsEmptied(p, a);
    } else {
      forall listed, m, ops ensures !Empties(listed, m, ops, p, a) {
        OthersAreSafe(listed, m, ops, p, a);
      }
    }
  }

  /** So an import is harmless to every account if its own ID holds no underscore, or begins with
      one; any other account ID with an underscore endangers some account. */
  lemma UnderscoresEndanger(a: string)
    ensures (exists p :: p != "" && '_' !in p && exists listed, m, ops :: Empties(listed, m, ops, p, a))
            <==> '_' in a && a[0] != '_'
  {
    OwnerIsPrefix(a);
    if '_' in a && a[0] != '_' {
      ImportCanEmptyIff(Owner(a), a);
    }
    forall p | p != "" && '_' !in p && exists listed, m, ops :: Empties(listed, m, ops, p, a)
      ensures '_' in a && a[0] != '_'
    {
      ImportCanEmptyIff(p, a);
    }
  }
}
