/** The GPU coverage allocator: which of the running instances are paid for by a Capacity
    Block, a Reserved Instance or a Savings Plan, and which run on demand.

    Money is `real`.  The four stages are methods; each is proved against the function or
    relation that says what the stage does to the assignment map, and CoverageFacts.dfy
    proves what those add up to.
  */
module Coverage {
  import opened GreedyTurn
  import opened Basics

  datatype Instance = Instance(id: string, itype: string, family: string, region: string,
                               az: string, platform: string, crId: string)

  datatype SavingsPlan = SavingsPlan(id: string, spType: string, family: string, region: string,
                                     commitment: real, rates: map<string, real>)

  datatype ReservedInstance = ReservedInstance(id: string, itype: string, region: string, count: int)

  datatype Account = Account(alias: string, accountId: string)

  datatype CoverageType = OnDemand | SavingsPlanCover | CapacityBlock | ReservedCover

  datatype Assignment = Assignment(coverage: CoverageType, ref: string, spRate: real)

  datatype GpuCoverage = GpuCoverage(id: string, accountAlias: string, accountId: string,
                                     region: string, az: string, instanceId: string, itype: string,
                                     coverage: CoverageType, coverageRef: string, spRate: real)

  /** Instance ID to assignment; an ID outside the map is uncovered. */
  type Assigned = map<string, Assignment>

  const LINUX := "Linux/UNIX"
  const EC2_INSTANCE := "EC2Instance"
  const COMPUTE := "Compute"

  predicate DistinctIds(instances: seq<Instance>) {
    forall i, j :: 0 <= i < j < |instances| ==> instances[i].id != instances[j].id
  }

  // ----- Step 1: Capacity Blocks -----

  predicate InBlock(inst: Instance, cbIds: set<string>) {
    inst.crId != "" && inst.crId in cbIds
  }

  function BlockStage(instances: seq<Instance>, cbIds: set<string>): Assigned {
    if instances == [] then map[]
    else
      var n := |instances| - 1;
      var a := BlockStage(instances[..n], cbIds);
      if InBlock(instances[n], cbIds)
      then a[instances[n].id := Assignment(CapacityBlock, instances[n].crId, 0.0)]
      else a
  }

  method AssignBlocks(instances: seq<Instance>, cbIds: set<string>) returns (covered: Assigned)
    ensures covered == BlockStage(instances, cbIds)
  {
    covered := map[];
    for i := 0 to |instances|
      invariant covered == BlockStage(instances[..i], cbIds)
    {
      assert instances[..i + 1][..i] == instances[..i];
      var inst := instances[i];
      if inst.crId != "" && inst.crId in cbIds {
        covered := covered[inst.id := Assignment(CapacityBlock, inst.crId, 0.0)];
      }
    }
    assert instances[..|instances|] == instances;
  }

  // ----- Step 2: Reserved Instances -----

  datatype RiKey = RiKey(itype: string, region: string)

  /** The reservations of one key, pooled under the ID of the first of them. */
  datatype Pooled = Pooled(id: string, count: int)

  type Pool = map<RiKey, Pooled>

  function KeyOfRi(ri: ReservedInstance): RiKey { RiKey(ri.itype, ri.region) }

  function KeyOf(inst: Instance): RiKey { RiKey(inst.itype, inst.region) }

  function AddToPool(pool: Pool, ri: ReservedInstance): Pool {
    var k := KeyOfRi(ri);
    if k in pool then pool[k := Pooled(pool[k].id, pool[k].count + ri.count)]
    else pool[k := Pooled(ri.id, ri.count)]
  }

  function PoolOf(ris: seq<ReservedInstance>): Pool {
    if ris == [] then map[] else AddToPool(PoolOf(ris[..|ris| - 1]), ris[|ris| - 1])
  }

  method PoolReservations(ris: seq<ReservedInstance>) returns (pool: Pool)
    ensures pool == PoolOf(ris)
  {
    pool := map[];
    for i := 0 to |ris|
      invariant pool == PoolOf(ris[..i])
    {
      assert ris[..i + 1][..i] == ris[..i];
      var k := KeyOfRi(ris[i]);
      if k in pool {
        pool := pool[k := pool[k].(count := pool[k].count + ris[i].count)];
      } else {
        pool := pool[k := Pooled(ris[i].id, ris[i].count)];
      }
    }
    assert ris[..|ris|] == ris;
  }

  datatype RiState = RiState(covered: Assigned, pool: Pool)

  function Reserve(s: RiState, inst: Instance): RiState {
    var k := KeyOf(inst);
    if inst.id !in s.covered && k in s.pool && s.pool[k].count > 0
    then RiState(s.covered[inst.id := Assignment(ReservedCover, s.pool[k].id, 0.0)],
                 s.pool[k := Pooled(s.pool[k].id, s.pool[k].count - 1)])
    else s
  }

  function ReservedStage(instances: seq<Instance>, start: RiState): RiState {
    if instances == [] then start
    else Reserve(ReservedStage(instances[..|instances| - 1], start), instances[|instances| - 1])
  }

  method AssignReserved(instances: seq<Instance>, start: Assigned, startPool: Pool)
    returns (covered: Assigned)
    ensures covered == ReservedStage(instances, RiState(start, startPool)).covered
  {
    var pool := startPool;
    covered := start;
    for i := 0 to |instances|
      invariant RiState(covered, pool) == ReservedStage(instances[..i], RiState(start, startPool))
    {
      assert instances[..i + 1][..i] == instances[..i];
      var inst := instances[i];
      if inst.id in covered {
        continue;
      }
      var k := KeyOf(inst);
      if k in pool && pool[k].count > 0 {
        covered := covered[inst.id := Assignment(ReservedCover, pool[k].id, 0.0)];
        pool := pool[k := pool[k].(count := pool[k].count - 1)];
      }
    }
    assert instances[..|instances|] == instances;
  }

  // ----- Steps 3 and 4: Savings Plans -----

  /** May this plan pay for this instance?  An EC2 Instance plan is bound to one family in
      one region, a Compute plan to nothing but Linux; other plan types pay for nothing. */
  predicate Eligible(sp: SavingsPlan, inst: Instance) {
    inst.platform == LINUX
    && (|| (sp.spType == EC2_INSTANCE && inst.family == sp.family && inst.region == sp.region)
        || sp.spType == COMPUTE)
  }

  /** The plan's rate for an instance; a missing rate reads as zero. */
  function Rate(sp: SavingsPlan, inst: Instance): real {
    if inst.itype in sp.rates then sp.rates[inst.itype] else 0.0
  }

  predicate Indices(instances: seq<Instance>, order: seq<nat>) {
    forall i :: 0 <= i < |order| ==> order[i] < |instances|
  }

  /** The positions of the uncovered instances the plan may pay for, in list order. */
  function Candidates(instances: seq<Instance>, sp: SavingsPlan, covered: Assigned): (c: seq<nat>)
    ensures Indices(instances, c)
  {
    if instances == [] then []
    else
      var n := |instances| - 1;
      Candidates(instances[..n], sp, covered)
      + if instances[n].id !in covered && Eligible(sp, instances[n]) then [n] else []
  }

  function RatesOf(instances: seq<Instance>, sp: SavingsPlan, order: seq<nat>): (r: seq<real>)
    requires Indices(instances, order)
    ensures |r| == |order|
  {
    seq(|order|, i requires 0 <= i < |order| => Rate(sp, instances[order[i]]))
  }

  /** An order the turn may take: any arrangement of the candidates by descending rate. */
  predicate IsOrder(instances: seq<Instance>, sp: SavingsPlan, covered: Assigned, order: seq<nat>) {
    && multiset(order) == multiset(Candidates(instances, sp, covered))
    && Indices(instances, order)
    && Descending(RatesOf(instances, sp, order))
  }

  /** The assignment after the plan's turn over the candidates in the given order. */
  function TurnStage(instances: seq<Instance>, sp: SavingsPlan, order: seq<nat>, before: Assigned): Assigned
    requires Indices(instances, order)
  {
    if order == [] then before
    else
      var n := |order| - 1;
      var a := TurnStage(instances, sp, order[..n], before);
      var inst := instances[order[n]];
      if Taken(RatesOf(instances, sp, order), sp.commitment, n)
      then a[inst.id := Assignment(SavingsPlanCover, sp.id, Rate(sp, inst))]
      else a
  }

  /** Descending by key up to position n, leaving position j out of the comparison on its left. */
  predicate DescendingBut(c: seq<nat>, key: nat -> real, n: nat, j: int)
    requires n <= |c|
  {
    forall k, m :: 0 <= k < m < n && m != j ==> key(c[k]) >= key(c[m])
  }

  method Swap(c: array<nat>, j: nat)
    requires 0 < j < c.Length
    modifies c
    ensures c[..] == old(c[..])[j := old(c[j - 1])][j - 1 := old(c[j])]
    ensures multiset(c[..]) == multiset(old(c[..]))
  {
    c[j - 1], c[j] := c[j], c[j - 1];
  }

  /** Stands for the library sort, which is not stable: callers use no more of it than that
      the result is some descending arrangement of the same elements. */
  method SortDescending(c: array<nat>, key: nat -> real)
    modifies c
    ensures multiset(c[..]) == multiset(old(c[..]))
    ensures DescendingBut(c[..], key, c.Length, -1)
  {
    for i := 0 to c.Length
      invariant multiset(c[..]) == multiset(old(c[..]))
      invariant DescendingBut(c[..], key, i, -1)
    {
      var j := i;
      while j > 0 && key(c[j - 1]) < key(c[j])
        invariant 0 <= j <= i
        invariant multiset(c[..]) == multiset(old(c[..]))
        invariant DescendingBut(c[..], key, i + 1, j)
      {
        Swap(c, j);
        j := j - 1;
      }
    }
  }

  method CollectCandidates(instances: seq<Instance>, sp: SavingsPlan, covered: Assigned)
    returns (candidates: seq<nat>)
    ensures candidates == Candidates(instances, sp, covered)
  {
    candidates := [];
    for i := 0 to |instances|
      invariant candidates == Candidates(instances[..i], sp, covered)
    {
      assert instances[..i + 1][..i] == instances[..i];
      var inst := instances[i];
      if inst.id in covered {
        continue;
      }
      if sp.spType == EC2_INSTANCE {
        if inst.family == sp.family && inst.region == sp.region && inst.platform == LINUX {
          candidates := candidates + [i];
        }
      } else if sp.spType == COMPUTE {
        if inst.platform == LINUX {
          candidates := candidates + [i];
        }
      }
    }
    assert instances[..|instances|] == instances;
  }

  /** One more candidate at the end of the order. */
  lemma OneMore(instances: seq<Instance>, sp: SavingsPlan, before: Assigned, order: seq<nat>, x: nat)
    requires Indices(instances, order) && x < |instances|
    ensures var inst := instances[x];
            var left := Left(RatesOf(instances, sp, order), sp.commitment);
            var a := TurnStage(instances, sp, order, before);
            && TurnStage(instances, sp, order + [x], before)
               == (if Takes(left, Rate(sp, inst)) then a[inst.id := Assignment(SavingsPlanCover, sp.id, Rate(sp, inst))]
                   else a)
            && Left(RatesOf(instances, sp, order + [x]), sp.commitment) == Spend(left, Rate(sp, inst))
  {
    assert (order + [x])[..|order|] == order;
    assert RatesOf(instances, sp, order + [x])[..|order|] == RatesOf(instances, sp, order);
  }

  /** Offers the candidates in the given order. */
  method PlayOrder(instances: seq<Instance>, sp: SavingsPlan, order: seq<nat>, before: Assigned)
    returns (covered: Assigned)
    requires Indices(instances, order)
    ensures covered == TurnStage(instances, sp, order, before)
  {
    covered := before;
    var remaining := sp.commitment;
    for i := 0 to |order|
      invariant remaining == Left(RatesOf(instances, sp, order[..i]), sp.commitment)
      invariant covered == TurnStage(instances, sp, order[..i], before)
    {
      var inst := instances[order[i]];
      OneMore(instances, sp, before, order[..i], order[i]);
      assert order[..i + 1] == order[..i] + [order[i]];
      if inst.itype !in sp.rates || sp.rates[inst.itype] <= 0.0 {
        continue;
      }
      var rate := sp.rates[inst.itype];
      if remaining >= rate * 0.995 {
        covered := covered[inst.id := Assignment(SavingsPlanCover, sp.id, rate)];
        if remaining < rate {
          remaining := 0.0;
        } else {
          remaining := remaining - rate;
        }
      }
    }
    assert order[..|order|] == order;
  }

  /** Puts the candidates in some descending order of their rates. */
  method OrderByRate(instances: seq<Instance>, sp: SavingsPlan, candidates: seq<nat>) returns (order: seq<nat>)
    requires Indices(instances, candidates)
    ensures multiset(order) == multiset(candidates)
    ensures Indices(instances, order) && Descending(RatesOf(instances, sp, order))
  {
    var c := new nat[|candidates|](i requires 0 <= i < |candidates| => candidates[i]);
    assert c[..] == candidates;
    var key := (x: nat) => if x < |instances| then Rate(sp, instances[x]) else 0.0;
    SortDescending(c, key);
    order := c[..];
    forall i | 0 <= i < |order| ensures order[i] < |instances| {
      assert order[i] in multiset(candidates) && order[i] in candidates;
    }
    forall i, j | 0 <= i < j < |order|
      ensures RatesOf(instances, sp, order)[i] >= RatesOf(instances, sp, order)[j]
    {
      assert key(order[i]) >= key(order[j]);
    }
  }

  method PlayTurn(instances: seq<Instance>, sp: SavingsPlan, before: Assigned)
    returns (covered: Assigned)
    ensures exists order :: Played(instances, Turn(sp, before, order)) == Some(covered)
  {
    var candidates := CollectCandidates(instances, sp, before);
    var c := OrderByRate(instances, sp, candidates);
    covered := PlayOrder(instances, sp, c, before);
    assert Played(instances, Turn(sp, before, c)) == Some(covered);
  }

  /** One turn: the plan, the assignment it started from and the order it used. */
  datatype Turn = Turn(sp: SavingsPlan, before: Assigned, order: seq<nat>)

  /** The assignment after the turn, if its order is one the turn may take. */
  function Played(instances: seq<Instance>, t: Turn): Option<Assigned> {
    if IsOrder(instances, t.sp, t.before, t.order)
    then Some(TurnStage(instances, t.sp, t.order, t.before))
    else None
  }

  /** The assignment that turn i starts from; after the last turn, the one they end in. */
  function StateAt(turns: seq<Turn>, i: nat, end: Assigned): Assigned
    requires i <= |turns|
  {
    if i < |turns| then turns[i].before else end
  }

  /** The turns lead from one assignment to another, one turn after the other. */
  predicate Turns(instances: seq<Instance>, turns: seq<Turn>, start: Assigned, end: Assigned) {
    && StateAt(turns, 0, end) == start
    && forall i {:trigger Played(instances, turns[i])} ::
         0 <= i < |turns| ==> Played(instances, turns[i]) == Some(StateAt(turns, i + 1, end))
  }

  function PlansOf(turns: seq<Turn>): seq<SavingsPlan> {
    seq(|turns|, i requires 0 <= i < |turns| => turns[i].sp)
  }

  function OfType(sps: seq<SavingsPlan>, spType: string): seq<SavingsPlan> {
    if sps == [] then []
    else
      var n := |sps| - 1;
      OfType(sps[..n], spType) + if sps[n].spType == spType then [sps[n]] else []
  }

  lemma TurnsCompose(instances: seq<Instance>, t1: seq<Turn>, t2: seq<Turn>,
                     start: Assigned, middle: Assigned, end: Assigned)
    requires Turns(instances, t1, start, middle)
    requires Turns(instances, t2, middle, end)
    ensures Turns(instances, t1 + t2, start, end)
    ensures PlansOf(t1 + t2) == PlansOf(t1) + PlansOf(t2)
  {
    var t := t1 + t2;
    forall i | 0 <= i < |t| ensures Played(instances, t[i]) == Some(StateAt(t, i + 1, end)) {
      if i < |t1| {
        assert t[i] == t1[i] && Played(instances, t1[i]) == Some(StateAt(t1, i + 1, middle));
      } else {
        assert t[i] == t2[i - |t1|] && Played(instances, t2[i - |t1|]) == Some(StateAt(t2, i - |t1| + 1, end));
      }
    }
  }

  lemma OneTurn(instances: seq<Instance>, t: Turn, end: Assigned)
    requires Played(instances, t) == Some(end)
    ensures Turns(instances, [t], t.before, end) && PlansOf([t]) == [t.sp]
  {
  }

  /** These plans, taking their turns in this order, can lead from one assignment to the other. */
  ghost predicate CanPlay(instances: seq<Instance>, plans: seq<SavingsPlan>, start: Assigned, end: Assigned) {
    exists turns :: Turns(instances, turns, start, end) && PlansOf(turns) == plans
  }

  lemma CanPlayOneMore(instances: seq<Instance>, plans: seq<SavingsPlan>, start: Assigned, middle: Assigned,
                       t: Turn, end: Assigned)
    requires CanPlay(instances, plans, start, middle)
    requires t.before == middle && Played(instances, t) == Some(end)
    ensures CanPlay(instances, plans + [t.sp], start, end)
  {
    var turns :| Turns(instances, turns, start, middle) && PlansOf(turns) == plans;
    OneTurn(instances, t, end);
    TurnsCompose(instances, turns, [t], start, middle, end);
  }

  lemma CanPlayBoth(instances: seq<Instance>, p1: seq<SavingsPlan>, p2: seq<SavingsPlan>,
                    start: Assigned, middle: Assigned, end: Assigned)
    requires CanPlay(instances, p1, start, middle) && CanPlay(instances, p2, middle, end)
    ensures CanPlay(instances, p1 + p2, start, end)
  {
    var t1 :| Turns(instances, t1, start, middle) && PlansOf(t1) == p1;
    var t2 :| Turns(instances, t2, middle, end) && PlansOf(t2) == p2;
    TurnsCompose(instances, t1, t2, start, middle, end);
  }

  /** All turns of one plan type, in list order. */
  method PlayTurns(instances: seq<Instance>, sps: seq<SavingsPlan>, spType: string, start: Assigned)
    returns (covered: Assigned)
    ensures CanPlay(instances, OfType(sps, spType), start, covered)
  {
    covered := start;
    assert Turns(instances, [], start, start) && PlansOf([]) == [];
    for i := 0 to |sps|
      invariant CanPlay(instances, OfType(sps[..i], spType), start, covered)
    {
      assert sps[..i + 1][..i] == sps[..i];
      if sps[i].spType != spType {
        assert OfType(sps[..i + 1], spType) == OfType(sps[..i], spType);
        continue;
      }
      ghost var before := covered;
      covered := PlayTurn(instances, sps[i], covered);
      ghost var order :| Played(instances, Turn(sps[i], before, order)) == Some(covered);
      CanPlayOneMore(instances, OfType(sps[..i], spType), start, before, Turn(sps[i], before, order), covered);
    }
    assert sps[..|sps|] == sps;
  }

  // ----- Step 5: the report -----

  /** The position of the last c, or -1. */
  function LastIndex(s: string, c: char): (i: int)
    ensures -1 <= i < |s|
    ensures i >= 0 ==> s[i] == c
    ensures forall k :: i < k < |s| ==> s[k] != c
  {
    if s == "" then -1
    else if s[|s| - 1] == c then |s| - 1
    else LastIndex(s[..|s| - 1], c)
  }

  function InstanceFamily(itype: string): string {
    var dot := LastIndex(itype, '.');
    if dot > 0 then itype[..dot]
    else if "u-" <= itype then
      var name := itype[2..];
      var x := LastIndex(name, 'x');
      if x > 0 then name[..x] else name
    else itype
  }

  const GPU_FAMILIES: set<string> := {
    "p3", "p4d", "p4de", "p5", "p5e", "p5en", "p6-b200", "p6-b300", "p6e-gb200", "p6e-gb300",
    "g4dn", "g4ad", "g5", "g5g", "g6", "g6e", "g6f", "gr6", "gr6f", "g7e",
    "inf1", "inf2", "trn1", "trn1n", "trn2", "trn2u", "dl1", "dl2q"
  }

  predicate IsGpu(inst: Instance) { InstanceFamily(inst.itype) in GPU_FAMILIES }

  function Report(inst: Instance, covered: Assigned, acct: Account): GpuCoverage {
    var a := if inst.id in covered then covered[inst.id] else Assignment(OnDemand, "", 0.0);
    GpuCoverage(acct.accountId + "_" + inst.region + "_" + inst.id, acct.alias, acct.accountId,
                inst.region, inst.az, inst.id, inst.itype, a.coverage, a.ref, a.spRate)
  }

  function Reports(instances: seq<Instance>, covered: Assigned, acct: Account): seq<GpuCoverage> {
    if instances == [] then []
    else
      var n := |instances| - 1;
      Reports(instances[..n], covered, acct)
      + if IsGpu(instances[n]) then [Report(instances[n], covered, acct)] else []
  }

  method BuildReports(instances: seq<Instance>, covered: Assigned, acct: Account)
    returns (results: seq<GpuCoverage>)
    ensures results == Reports(instances, covered, acct)
  {
    results := [];
    for i := 0 to |instances|
      invariant results == Reports(instances[..i], covered, acct)
    {
      assert instances[..i + 1][..i] == instances[..i];
      var inst := instances[i];
      if !IsGpu(inst) {
        continue;
      }
      var g := GpuCoverage(acct.accountId + "_" + inst.region + "_" + inst.id, acct.alias, acct.accountId,
                           inst.region, inst.az, inst.id, inst.itype, OnDemand, "", 0.0);
      if inst.id in covered {
        var a := covered[inst.id];
        g := g.(coverage := a.coverage, coverageRef := a.ref, spRate := a.spRate);
      }
      results := results + [g];
    }
    assert instances[..|instances|] == instances;
  }

  // ----- The whole analysis -----

  /** The plans in the order of their turns: all EC2 Instance plans, then all Compute plans. */
  function PlansInTurn(sps: seq<SavingsPlan>): seq<SavingsPlan> {
    OfType(sps, EC2_INSTANCE) + OfType(sps, COMPUTE)
  }

  /** The assignment the Savings Plans start from. */
  function BeforePlans(instances: seq<Instance>, ris: seq<ReservedInstance>, cbIds: set<string>): Assigned {
    ReservedStage(instances, RiState(BlockStage(instances, cbIds), PoolOf(ris))).covered
  }

  /** `covered` is a possible outcome of the first four steps, reached by these turns. */
  predicate Outcome(instances: seq<Instance>, sps: seq<SavingsPlan>, ris: seq<ReservedInstance>,
                    cbIds: set<string>, turns: seq<Turn>, covered: Assigned)
  {
    && PlansOf(turns) == PlansInTurn(sps)
    && Turns(instances, turns, BeforePlans(instances, ris, cbIds), covered)
  }

  method AnalyzeCoverage(instances: seq<Instance>, sps: seq<SavingsPlan>, ris: seq<ReservedInstance>,
                         cbIds: set<string>, acct: Account)
    returns (results: seq<GpuCoverage>)
    ensures exists turns, covered :: && Outcome(instances, sps, ris, cbIds, turns, covered)
                                     && results == Reports(instances, covered, acct)
  {
    var covered := AssignBlocks(instances, cbIds);
    var pool := PoolReservations(ris);
    covered := AssignReserved(instances, covered, pool);
    ghost var start := covered;
    covered := PlayTurns(instances, sps, EC2_INSTANCE, covered);
    ghost var middle := covered;
    covered := PlayTurns(instances, sps, COMPUTE, covered);
    CanPlayBoth(instances, OfType(sps, EC2_INSTANCE), OfType(sps, COMPUTE), start, middle, covered);
    ghost var turns :| Turns(instances, turns, start, covered) && PlansOf(turns) == PlansInTurn(sps);
    results := BuildReports(instances, covered, acct);
    assert Outcome(instances, sps, ris, cbIds, turns, covered);
  }
}
