/** What the four stages of the coverage allocator add up to, for every input and every way
    the unstable sort may break its ties. */
module CoverageFacts {
  import opened GreedyTurn
  import opened Basics
  import opened Coverage

  function Max(a: int, b: int): int { if a < b then b else a }

  function Min(a: int, b: int): int { if a < b then a else b }

  // ----- Capacity Blocks -----

  lemma {:induction false} BlockStageKeys(instances: seq<Instance>, cbIds: set<string>, id: string)
    requires forall j :: 0 <= j < |instances| ==> instances[j].id != id
    ensures id !in BlockStage(instances, cbIds)
  {
    if instances != [] {
      BlockStageKeys(instances[..|instances| - 1], cbIds, id);
    }
  }

  /** Exactly the instances targeting an active block are covered by it. */
  lemma {:induction false} BlockStageExact(instances: seq<Instance>, cbIds: set<string>, i: nat)
    requires DistinctIds(instances) && i < |instances|
    ensures var inst := instances[i];
            var a := BlockStage(instances, cbIds);
            && (inst.id in a <==> InBlock(inst, cbIds))
            && (inst.id in a ==> a[inst.id] == Assignment(CapacityBlock, inst.crId, 0.0))
  {
    var n := |instances| - 1;
    if i < n {
      BlockStageExact(instances[..n], cbIds, i);
    } else {
      BlockStageKeys(instances[..n], cbIds, instances[n].id);
    }
  }

  // ----- Reserved Instances -----

  /** The number of instances all reservations of a key pay for. */
  function TotalCount(ris: seq<ReservedInstance>, k: RiKey): int {
    if ris == [] then 0
    else
      var n := |ris| - 1;
      TotalCount(ris[..n], k) + if KeyOfRi(ris[n]) == k then ris[n].count else 0
  }

  /** Pooling loses no count. */
  lemma {:induction false} PoolHoldsTotals(ris: seq<ReservedInstance>, k: RiKey)
    ensures TotalCount(ris, k) == if k in PoolOf(ris) then PoolOf(ris)[k].count else 0
  {
    if ris != [] {
      PoolHoldsTotals(ris[..|ris| - 1], k);
    }
  }

  /** The pool of a key is named after the first reservation of the key. */
  lemma {:induction false} PoolIsNamedAfterFirst(ris: seq<ReservedInstance>, i: nat)
    requires i < |ris| && forall j :: 0 <= j < i ==> KeyOfRi(ris[j]) != KeyOfRi(ris[i])
    ensures KeyOfRi(ris[i]) in PoolOf(ris) && PoolOf(ris)[KeyOfRi(ris[i])].id == ris[i].id
  {
    var n := |ris| - 1;
    if i < n {
      PoolIsNamedAfterFirst(ris[..n], i);
    } else {
      NoPoolWithoutReservation(ris[..n], KeyOfRi(ris[n]));
    }
  }

  lemma {:induction false} NoPoolWithoutReservation(ris: seq<ReservedInstance>, k: RiKey)
    requires forall j :: 0 <= j < |ris| ==> KeyOfRi(ris[j]) != k
    ensures k !in PoolOf(ris)
  {
    if ris != [] {
      NoPoolWithoutReservation(ris[..|ris| - 1], k);
    }
  }

  function Budget(pool: Pool, k: RiKey): nat {
    if k in pool then Max(pool[k].count, 0) else 0
  }

  /** How many of these instances have this key and no coverage yet. */
  function Waiting(instances: seq<Instance>, start: Assigned, k: RiKey): nat {
    if instances == [] then 0
    else
      var n := |instances| - 1;
      Waiting(instances[..n], start, k)
      + if KeyOf(instances[n]) == k && instances[n].id !in start then 1 else 0
  }

  /** Fewer instances of its key wait ahead of instance i than reservations are available. */
  predicate WinsReserved(instances: seq<Instance>, start: Assigned, budget: nat, i: nat)
    requires i < |instances|
  {
    instances[i].id !in start && Waiting(instances[..i], start, KeyOf(instances[i])) < budget
  }

  lemma {:induction false} ReservedStageKeys(instances: seq<Instance>, s: RiState, id: string)
    ensures id in s.covered ==> id in ReservedStage(instances, s).covered
                                && ReservedStage(instances, s).covered[id] == s.covered[id]
    ensures id !in s.covered && (forall j :: 0 <= j < |instances| ==> instances[j].id != id)
            ==> id !in ReservedStage(instances, s).covered
  {
    if instances != [] {
      ReservedStageKeys(instances[..|instances| - 1], s, id);
    }
  }

  /** Each key's pool pays for the instances waiting for it until it is empty. */
  lemma {:induction false} ReservedStagePool(instances: seq<Instance>, s: RiState, k: RiKey)
    requires DistinctIds(instances)
    ensures var p := ReservedStage(instances, s).pool;
            && (k in p <==> k in s.pool)
            && (k in p ==> && p[k].id == s.pool[k].id
                           && p[k].count == s.pool[k].count - Min(Budget(s.pool, k), Waiting(instances, s.covered, k)))
  {
    if instances != [] {
      var n := |instances| - 1;
      ReservedStagePool(instances[..n], s, k);
      ReservedStageKeys(instances[..n], s, instances[n].id);
    }
  }

  lemma {:induction false} ReservedStageExact(instances: seq<Instance>, s: RiState, i: nat)
    requires DistinctIds(instances) && i < |instances|
    requires instances[i].id !in s.covered
    ensures var inst := instances[i];
            var a := ReservedStage(instances, s).covered;
            var k := KeyOf(inst);
            && (inst.id in a <==> WinsReserved(instances, s.covered, Budget(s.pool, k), i))
            && (inst.id in a ==> k in s.pool && a[inst.id] == Assignment(ReservedCover, s.pool[k].id, 0.0))
  {
    var n := |instances| - 1;
    if i < n {
      ReservedStageExact(instances[..n], s, i);
      assert instances[..n][..i] == instances[..i];
    } else {
      ReservedStageKeys(instances[..n], s, instances[n].id);
      ReservedStagePool(instances[..n], s, KeyOf(instances[n]));
    }
  }

  // ----- One plan's turn -----

  lemma {:induction false} CandidatesExact(instances: seq<Instance>, sp: SavingsPlan, covered: Assigned, x: nat)
    ensures multiset(Candidates(instances, sp, covered))[x]
            == if x < |instances| && instances[x].id !in covered && Eligible(sp, instances[x]) then 1 else 0
  {
    if instances != [] {
      CandidatesExact(instances[..|instances| - 1], sp, covered, x);
    }
  }

  lemma OrderIsDistinct(instances: seq<Instance>, sp: SavingsPlan, covered: Assigned, order: seq<nat>, i: nat, j: nat)
    requires multiset(order) == multiset(Candidates(instances, sp, covered))
    requires i < j < |order|
    ensures order[i] != order[j]
  {
    CandidatesExact(instances, sp, covered, order[i]);
    assert order == order[..j] + [order[j]] + order[j + 1..];
    assert order[i] in order[..j];
  }

  /** An order visits each eligible uncovered instance exactly once, and no others. */
  lemma OrderExact(instances: seq<Instance>, sp: SavingsPlan, covered: Assigned, order: seq<nat>)
    requires IsOrder(instances, sp, covered, order)
    ensures forall i, j :: 0 <= i < j < |order| ==> order[i] != order[j]
    ensures forall x: nat :: x in order <==>
                             x < |instances| && instances[x].id !in covered && Eligible(sp, instances[x])
  {
    forall i, j | 0 <= i < j < |order| ensures order[i] != order[j] {
      OrderIsDistinct(instances, sp, covered, order, i, j);
    }
    forall x: nat
      ensures x in order <==> x < |instances| && instances[x].id !in covered && Eligible(sp, instances[x])
    {
      CandidatesExact(instances, sp, covered, x);
      assert x in order <==> x in multiset(order);
    }
  }

  lemma {:induction false} TurnStageKeys(instances: seq<Instance>, sp: SavingsPlan, order: seq<nat>,
                                         before: Assigned, id: string)
    requires Indices(instances, order)
    requires forall i :: 0 <= i < |order| ==> instances[order[i]].id != id
    ensures var after := TurnStage(instances, sp, order, before);
            && (id in after <==> id in before)
            && (id in after ==> after[id] == before[id])
  {
    if order != [] {
      TurnStageKeys(instances, sp, order[..|order| - 1], before, id);
    }
  }

  lemma RatesPrefix(instances: seq<Instance>, sp: SavingsPlan, order: seq<nat>, n: nat)
    requires Indices(instances, order) && n <= |order|
    ensures RatesOf(instances, sp, order[..n]) == RatesOf(instances, sp, order)[..n]
  {
  }

  lemma TakenPrefix(rates: seq<real>, commitment: real, n: nat, i: nat)
    requires i < n <= |rates|
    ensures Taken(rates[..n], commitment, i) == Taken(rates, commitment, i)
  {
    assert rates[..n][..i] == rates[..i];
  }

  lemma {:induction false} TurnStageExact(instances: seq<Instance>, sp: SavingsPlan, order: seq<nat>,
                                          before: Assigned, i: nat)
    requires Indices(instances, order) && i < |order|
    requires forall k :: 0 <= k < |order| && k != i ==> instances[order[k]].id != instances[order[i]].id
    requires instances[order[i]].id !in before
    ensures var inst := instances[order[i]];
            var after := TurnStage(instances, sp, order, before);
            && (inst.id in after <==> Taken(RatesOf(instances, sp, order), sp.commitment, i))
            && (inst.id in after ==> after[inst.id] == Assignment(SavingsPlanCover, sp.id, Rate(sp, inst)))
  {
    var n := |order| - 1;
    RatesPrefix(instances, sp, order, n);
    if i < n {
      TurnStageExact(instances, sp, order[..n], before, i);
      TakenPrefix(RatesOf(instances, sp, order), sp.commitment, n, i);
    } else {
      TurnStageKeys(instances, sp, order[..n], before, instances[order[n]].id);
    }
  }

  /** A turn changes no coverage that is already there. */
  lemma TurnKeeps(instances: seq<Instance>, t: Turn, id: string)
    requires Played(instances, t).Some? && id in t.before
    ensures id in Played(instances, t).value && Played(instances, t).value[id] == t.before[id]
  {
    OrderExact(instances, t.sp, t.before, t.order);
    forall i | 0 <= i < |t.order| ensures instances[t.order[i]].id != id {
      assert t.order[i] in t.order;
    }
    TurnStageKeys(instances, t.sp, t.order, t.before, id);
  }

  /** Coverage given before turn i is still there at the end. */
  lemma {:induction false} TurnsKeep(instances: seq<Instance>, turns: seq<Turn>, start: Assigned, end: Assigned,
                                     i: nat, id: string)
    requires Turns(instances, turns, start, end)
    requires i <= |turns| && id in StateAt(turns, i, end)
    ensures id in end && end[id] == StateAt(turns, i, end)[id]
    decreases |turns| - i
  {
    if i < |turns| {
      assert Played(instances, turns[i]) == Some(StateAt(turns, i + 1, end));
      TurnKeeps(instances, turns[i], id);
      TurnsKeep(instances, turns, start, end, i + 1, id);
    }
  }

  /** Coverage comes from the start or from the one turn that took the instance. */
  lemma {:induction false} CoverageSource(instances: seq<Instance>, turns: seq<Turn>, start: Assigned, end: Assigned,
                                          i: nat, x: nat)
    requires DistinctIds(instances) && Turns(instances, turns, start, end)
    requires i <= |turns| && x < |instances| && instances[x].id in StateAt(turns, i, end)
    ensures var inst := instances[x];
            var a := StateAt(turns, i, end)[inst.id];
            || (inst.id in start && a == start[inst.id])
            || exists t :: 0 <= t < i
                           && Eligible(turns[t].sp, inst) && Rate(turns[t].sp, inst) > 0.0
                           && a == Assignment(SavingsPlanCover, turns[t].sp.id, Rate(turns[t].sp, inst))
    decreases i
  {
    if i > 0 {
      var t := turns[i - 1];
      var id := instances[x].id;
      assert Played(instances, t) == Some(StateAt(turns, i, end));
      OrderExact(instances, t.sp, t.before, t.order);
      if id in t.before {
        TurnKeeps(instances, t, id);
        CoverageSource(instances, turns, start, end, i - 1, x);
      } else if p :| 0 <= p < |t.order| && t.order[p] == x {
        TurnStageExact(instances, t.sp, t.order, t.before, p);
      } else {
        TurnStageKeys(instances, t.sp, t.order, t.before, id);
      }
    }
  }

  // ----- Main results: every outcome -----

  /** What is left of a plan's commitment when its turn is over. */
  function LeftOver(instances: seq<Instance>, t: Turn): real
    requires Indices(instances, t.order)
  {
    Left(RatesOf(instances, t.sp, t.order), t.sp.commitment)
  }

  /** The order of precedence: an instance is paid for by its Capacity Block if it targets an
      active one; otherwise by a Reserved Instance if fewer uncovered instances of its type and
      region precede it than the reservations pay for; otherwise by a Savings Plan that may pay
      for it, at that plan's rate, or by nothing. */
  lemma Precedence(instances: seq<Instance>, sps: seq<SavingsPlan>, ris: seq<ReservedInstance>,
                   cbIds: set<string>, turns: seq<Turn>, covered: Assigned, i: nat)
    requires DistinctIds(instances) && i < |instances|
    requires Outcome(instances, sps, ris, cbIds, turns, covered)
    ensures var inst := instances[i];
            var blocks := BlockStage(instances, cbIds);
            var budget := Max(TotalCount(ris, KeyOf(inst)), 0);
            if InBlock(inst, cbIds) then
              inst.id in covered && covered[inst.id] == Assignment(CapacityBlock, inst.crId, 0.0)
            else if WinsReserved(instances, blocks, budget, i) then
              && inst.id in covered
              && KeyOf(inst) in PoolOf(ris)
              && covered[inst.id] == Assignment(ReservedCover, PoolOf(ris)[KeyOf(inst)].id, 0.0)
            else
              inst.id in covered ==>
                exists sp :: sp in PlansInTurn(sps) && Eligible(sp, inst) && Rate(sp, inst) > 0.0
                             && covered[inst.id] == Assignment(SavingsPlanCover, sp.id, Rate(sp, inst))
  {
    var inst := instances[i];
    var start := BeforePlans(instances, ris, cbIds);
    var s := RiState(BlockStage(instances, cbIds), PoolOf(ris));
    BlockStageExact(instances, cbIds, i);
    PoolHoldsTotals(ris, KeyOf(inst));
    ReservedStageKeys(instances, s, inst.id);
    if inst.id !in s.covered {
      ReservedStageExact(instances, s, i);
    }
    if inst.id in start {
      TurnsKeep(instances, turns, start, covered, 0, inst.id);
    } else if inst.id in covered {
      CoverageSource(instances, turns, start, covered, |turns|, i);
      var t :| && 0 <= t < |turns|
               && Eligible(turns[t].sp, inst) && Rate(turns[t].sp, inst) > 0.0
               && covered[inst.id] == Assignment(SavingsPlanCover, turns[t].sp.id, Rate(turns[t].sp, inst));
      assert PlansOf(turns)[t] == turns[t].sp;
    }
  }

  function CountReserved(instances: seq<Instance>, covered: Assigned, k: RiKey): nat {
    if instances == [] then 0
    else
      var n := |instances| - 1;
      CountReserved(instances[..n], covered, k)
      + if KeyOf(instances[n]) == k && instances[n].id in covered
           && covered[instances[n].id].coverage == ReservedCover then 1 else 0
  }

  lemma {:induction false} CountWinners(all: seq<Instance>, start: Assigned, budget: nat, covered: Assigned,
                                        k: RiKey, n: nat)
    requires n <= |all|
    requires forall i: nat :: i < |all| && KeyOf(all[i]) == k ==>
                                ((all[i].id in covered && covered[all[i].id].coverage == ReservedCover)
                                 <==> WinsReserved(all, start, budget, i))
    ensures CountReserved(all[..n], covered, k) == Min(budget, Waiting(all[..n], start, k))
  {
    if n > 0 {
      assert all[..n][..n - 1] == all[..n - 1];
      CountWinners(all, start, budget, covered, k, n - 1);
    }
  }

  /** Conservation of reservations: for every type and region the number of instances covered
      by Reserved Instances is the pooled count or the demand left by the Capacity Blocks,
      whichever is smaller. */
  lemma ReservedConservation(instances: seq<Instance>, sps: seq<SavingsPlan>, ris: seq<ReservedInstance>,
                             cbIds: set<string>, turns: seq<Turn>, covered: Assigned, k: RiKey)
    requires DistinctIds(instances)
    requires Outcome(instances, sps, ris, cbIds, turns, covered)
    ensures CountReserved(instances, covered, k)
            == Min(Max(TotalCount(ris, k), 0), Waiting(instances, BlockStage(instances, cbIds), k))
  {
    var blocks := BlockStage(instances, cbIds);
    var budget := Max(TotalCount(ris, k), 0);
    forall i: nat | i < |instances| && KeyOf(instances[i]) == k
      ensures (instances[i].id in covered && covered[instances[i].id].coverage == ReservedCover)
              <==> WinsReserved(instances, blocks, budget, i)
    {
      Precedence(instances, sps, ris, cbIds, turns, covered, i);
      BlockStageExact(instances, cbIds, i);
    }
    CountWinners(instances, blocks, budget, covered, k, |instances|);
    assert instances[..|instances|] == instances;
  }

  /** Maximality: an instance uncovered in the end could not have been paid for by any plan
      that may pay for it.  At the end of that plan's turn less than 99.5% of the instance's
      rate was left, and later turns never give anything back. */
  lemma Maximality(instances: seq<Instance>, turns: seq<Turn>, start: Assigned, end: Assigned, t: nat, x: nat)
    requires DistinctIds(instances) && Turns(instances, turns, start, end)
    requires t < |turns| && x < |instances|
    requires instances[x].id !in end
    requires Eligible(turns[t].sp, instances[x]) && Rate(turns[t].sp, instances[x]) > 0.0
    ensures Indices(instances, turns[t].order)
    ensures !Fits(LeftOver(instances, turns[t]), Rate(turns[t].sp, instances[x]))
  {
    var turn := turns[t];
    var id := instances[x].id;
    assert Played(instances, turn) == Some(StateAt(turns, t + 1, end));
    if id in turn.before {
      TurnsKeep(instances, turns, start, end, t, id);
    }
    if id in StateAt(turns, t + 1, end) {
      TurnsKeep(instances, turns, start, end, t + 1, id);
    }
    OrderExact(instances, turn.sp, turn.before, turn.order);
    var p :| 0 <= p < |turn.order| && turn.order[p] == x;
    TurnStageExact(instances, turn.sp, turn.order, turn.before, p);
    PassedOver(RatesOf(instances, turn.sp, turn.order), turn.sp.commitment, p);
  }

  /** An instance reported on demand is one nothing could pay for: it targets no active block,
      the reservations of its type and region are used up by instances before it, and every
      plan that has a rate for it and may pay for it has less than 99.5% of that rate left. */
  lemma OnDemandIsUnavoidable(instances: seq<Instance>, sps: seq<SavingsPlan>, ris: seq<ReservedInstance>,
                              cbIds: set<string>, turns: seq<Turn>, covered: Assigned, acct: Account, x: nat)
    requires DistinctIds(instances) && x < |instances|
    requires Outcome(instances, sps, ris, cbIds, turns, covered)
    requires Report(instances[x], covered, acct).coverage == OnDemand
    ensures !InBlock(instances[x], cbIds)
    ensures Waiting(instances[..x], BlockStage(instances, cbIds), KeyOf(instances[x]))
            >= Max(TotalCount(ris, KeyOf(instances[x])), 0)
    ensures |turns| == |PlansInTurn(sps)|
    ensures forall t :: 0 <= t < |turns| ==> turns[t].sp == PlansInTurn(sps)[t]
    ensures forall t :: 0 <= t < |turns| && Eligible(turns[t].sp, instances[x]) && Rate(turns[t].sp, instances[x]) > 0.0
                        ==> Indices(instances, turns[t].order)
                            && !Fits(LeftOver(instances, turns[t]), Rate(turns[t].sp, instances[x]))
  {
    Precedence(instances, sps, ris, cbIds, turns, covered, x);
    BlockStageExact(instances, cbIds, x);
    forall t | 0 <= t < |turns| ensures turns[t].sp == PlansInTurn(sps)[t] {
      assert PlansOf(turns)[t] == turns[t].sp;
    }
    forall t: nat | t < |turns| && Eligible(turns[t].sp, instances[x]) && Rate(turns[t].sp, instances[x]) > 0.0
      ensures Indices(instances, turns[t].order)
              && !Fits(LeftOver(instances, turns[t]), Rate(turns[t].sp, instances[x]))
    {
      Maximality(instances, turns, BeforePlans(instances, ris, cbIds), covered, t, x);
    }
  }

  // ----- Charges to a plan, read off the final assignment -----

  function Charge(covered: Assigned, id: string, plan: string): real {
    if id in covered && covered[id].coverage == SavingsPlanCover && covered[id].ref == plan
    then covered[id].spRate else 0.0
  }

  /** The rates charged to a plan, summed over all instances. */
  function ChargedTo(instances: seq<Instance>, covered: Assigned, plan: string): real {
    if instances == [] then 0.0
    else
      var n := |instances| - 1;
      ChargedTo(instances[..n], covered, plan) + Charge(covered, instances[n].id, plan)
  }

  lemma {:induction false} ChargedToUpdate(instances: seq<Instance>, covered: Assigned, plan: string,
                                           x: nat, a: Assignment)
    requires DistinctIds(instances) && x < |instances| && instances[x].id !in covered
    ensures var after := covered[instances[x].id := a];
            ChargedTo(instances, after, plan)
            == ChargedTo(instances, covered, plan) + Charge(after, instances[x].id, plan)
  {
    var n := |instances| - 1;
    if x < n {
      ChargedToUpdate(instances[..n], covered, plan, x, a);
    } else {
      ChargedToUntouched(instances[..n], covered, plan, instances[n].id, a);
    }
  }

  lemma {:induction false} ChargedToUntouched(instances: seq<Instance>, covered: Assigned, plan: string,
                                              id: string, a: Assignment)
    requires forall j :: 0 <= j < |instances| ==> instances[j].id != id
    ensures ChargedTo(instances, covered[id := a], plan) == ChargedTo(instances, covered, plan)
  {
    if instances != [] {
      ChargedToUntouched(instances[..|instances| - 1], covered, plan, id, a);
    }
  }

  lemma {:induction false} TurnCharges(instances: seq<Instance>, sp: SavingsPlan, order: seq<nat>,
                                       before: Assigned, plan: string)
    requires DistinctIds(instances) && Indices(instances, order)
    requires forall j, k :: 0 <= j < k < |order| ==> order[j] != order[k]
    requires forall i :: 0 <= i < |order| ==> instances[order[i]].id !in before
    ensures ChargedTo(instances, TurnStage(instances, sp, order, before), plan)
            == ChargedTo(instances, before, plan)
               + if plan == sp.id then Charged(RatesOf(instances, sp, order), sp.commitment) else 0.0
  {
    if order != [] {
      var n := |order| - 1;
      var x := order[n];
      var rates := RatesOf(instances, sp, order);
      assert RatesOf(instances, sp, order[..n]) == rates[..n];
      TurnCharges(instances, sp, order[..n], before, plan);
      var a := TurnStage(instances, sp, order[..n], before);
      TurnStageKeys(instances, sp, order[..n], before, instances[x].id);
      ChargedToUpdate(instances, a, plan, x, Assignment(SavingsPlanCover, sp.id, Rate(sp, instances[x])));
    }
  }

  /** A turn charges its own plan, and no other. */
  lemma {:induction false} PlayedCharges(instances: seq<Instance>, t: Turn, plan: string)
    requires DistinctIds(instances) && Played(instances, t).Some?
    ensures ChargedTo(instances, Played(instances, t).value, plan)
            == ChargedTo(instances, t.before, plan)
               + if plan == t.sp.id then Charged(RatesOf(instances, t.sp, t.order), t.sp.commitment) else 0.0
  {
    OrderExact(instances, t.sp, t.before, t.order);
    forall j | 0 <= j < |t.order| ensures instances[t.order[j]].id !in t.before {
      assert t.order[j] in t.order;
    }
    TurnCharges(instances, t.sp, t.order, t.before, plan);
  }

  predicate DistinctPlans(turns: seq<Turn>) {
    forall i, j :: 0 <= i < j < |turns| ==> turns[i].sp.id != turns[j].sp.id
  }

  /** The turns of other plans do not touch a plan's charges. */
  lemma {:induction false} OtherTurnsCharges(instances: seq<Instance>, turns: seq<Turn>, start: Assigned, end: Assigned,
                                             lo: nat, hi: nat, plan: string)
    requires DistinctIds(instances) && Turns(instances, turns, start, end)
    requires lo <= hi <= |turns|
    requires forall j :: lo <= j < hi ==> turns[j].sp.id != plan
    ensures ChargedTo(instances, StateAt(turns, lo, end), plan) == ChargedTo(instances, StateAt(turns, hi, end), plan)
    decreases hi - lo
  {
    if lo < hi {
      OtherTurnsCharges(instances, turns, start, end, lo, hi - 1, plan);
      assert Played(instances, turns[hi - 1]) == Some(StateAt(turns, hi, end));
      PlayedCharges(instances, turns[hi - 1], plan);
    }
  }

  /** In the end a plan's charges are what its one turn charged. */
  lemma ChargesOfTurn(instances: seq<Instance>, turns: seq<Turn>, start: Assigned, end: Assigned, t: nat)
    requires DistinctIds(instances) && Turns(instances, turns, start, end) && DistinctPlans(turns)
    requires t < |turns|
    requires ChargedTo(instances, start, turns[t].sp.id) == 0.0
    ensures Indices(instances, turns[t].order)
    ensures ChargedTo(instances, end, turns[t].sp.id)
            == Charged(RatesOf(instances, turns[t].sp, turns[t].order), turns[t].sp.commitment)
  {
    assert Played(instances, turns[t]) == Some(StateAt(turns, t + 1, end));
    OtherTurnsCharges(instances, turns, start, end, 0, t, turns[t].sp.id);
    PlayedCharges(instances, turns[t], turns[t].sp.id);
    OtherTurnsCharges(instances, turns, start, end, t + 1, |turns|, turns[t].sp.id);
  }

  /** Blocks and reservations charge nothing to any plan. */
  lemma {:induction false} NoChargesBeforePlans(instances: seq<Instance>, ris: seq<ReservedInstance>,
                                                cbIds: set<string>, plan: string, n: nat)
    requires DistinctIds(instances) && n <= |instances|
    ensures ChargedTo(instances[..n], BeforePlans(instances, ris, cbIds), plan) == 0.0
  {
    if n > 0 {
      NoChargesBeforePlans(instances, ris, cbIds, plan, n - 1);
      assert instances[..n][..n - 1] == instances[..n - 1];
      var s := RiState(BlockStage(instances, cbIds), PoolOf(ris));
      BlockStageExact(instances, cbIds, n - 1);
      ReservedStageKeys(instances, s, instances[n - 1].id);
      if instances[n - 1].id !in s.covered {
        ReservedStageExact(instances, s, n - 1);
      }
    }
  }

  /** Budget and quality of a plan, on the final assignment: 99.5% of what the plan is charged
      stays within its commitment, and no selection of the instances it could have paid for
      that fits the commitment costs more than 1.995 times what it is charged. */
  lemma PlanCharges(instances: seq<Instance>, sps: seq<SavingsPlan>, ris: seq<ReservedInstance>,
                    cbIds: set<string>, turns: seq<Turn>, covered: Assigned, t: nat)
    requires DistinctIds(instances) && DistinctPlans(turns)
    requires Outcome(instances, sps, ris, cbIds, turns, covered)
    requires t < |turns|
    ensures var sp := turns[t].sp;
            && Indices(instances, turns[t].order)
            && ChargedTo(instances, covered, sp.id) * 0.995 <= (if sp.commitment < 0.0 then 0.0 else sp.commitment)
            && (sp.commitment >= 0.0 ==>
                  sp.commitment <= LeftOver(instances, turns[t]) + ChargedTo(instances, covered, sp.id))
            && forall pick: seq<bool> ::
                 var rates := RatesOf(instances, sp, turns[t].order);
                 && |pick| == |rates|
                 && (forall k :: 0 <= k < |rates| && pick[k] ==> rates[k] > 0.0)
                 && Total(rates, pick) <= sp.commitment
                 ==> Total(rates, pick) <= ChargedTo(instances, covered, sp.id) * 1.995
  {
    var sp := turns[t].sp;
    NoChargesBeforePlans(instances, ris, cbIds, sp.id, |instances|);
    assert instances[..|instances|] == instances;
    ChargesOfTurn(instances, turns, BeforePlans(instances, ris, cbIds), covered, t);
    assert Played(instances, turns[t]) == Some(StateAt(turns, t + 1, covered));
    var rates := RatesOf(instances, sp, turns[t].order);
    if sp.commitment < 0.0 {
      NegativeCommitment(rates, sp.commitment);
    } else {
      BudgetBound(rates, sp.commitment);
    }
    forall pick: seq<bool> |
      && |pick| == |rates|
      && (forall k :: 0 <= k < |rates| && pick[k] ==> rates[k] > 0.0)
      && Total(rates, pick) <= sp.commitment
      ensures Total(rates, pick) <= Charged(rates, sp.commitment) * 1.995
    {
      HalfOptimal(rates, sp.commitment, pick);
    }
  }

  // ----- Ties -----

  function Without<T>(s: seq<T>, p: nat): (r: seq<T>)
    requires p < |s|
    ensures |r| == |s| - 1
    ensures multiset(s) == multiset(r) + multiset{s[p]}
  {
    assert s == s[..p] + [s[p]] + s[p + 1..];
    s[..p] + s[p + 1..]
  }

  lemma SameWithout(a: seq<nat>, b: seq<nat>) returns (p: nat)
    requires a != [] && multiset(a) == multiset(b)
    ensures p < |b| && b[p] == a[0] && multiset(Without(a, 0)) == multiset(Without(b, p))
  {
    assert a[0] in multiset(b);
    p :| p < |b| && b[p] == a[0];
    assert multiset(Without(a, 0)) == multiset(a) - multiset{a[0]} == multiset(Without(b, p));
  }

  lemma RatesWithout(instances: seq<Instance>, sp: SavingsPlan, order: seq<nat>, p: nat)
    requires Indices(instances, order) && p < |order|
    ensures Indices(instances, Without(order, p))
    ensures multiset(RatesOf(instances, sp, order))
            == multiset(RatesOf(instances, sp, Without(order, p))) + multiset{Rate(sp, instances[order[p]])}
  {
    assert Without(RatesOf(instances, sp, order), p) == RatesOf(instances, sp, Without(order, p));
  }

  lemma {:induction false} SamePositionsSameRates(instances: seq<Instance>, sp: SavingsPlan, a: seq<nat>, b: seq<nat>)
    requires Indices(instances, a) && Indices(instances, b)
    requires multiset(a) == multiset(b)
    ensures multiset(RatesOf(instances, sp, a)) == multiset(RatesOf(instances, sp, b))
    decreases |a|
  {
    if a == [] {
      assert |b| == |multiset(b)| == 0;
    } else {
      var p := SameWithout(a, b);
      RatesWithout(instances, sp, a, 0);
      RatesWithout(instances, sp, b, p);
      SamePositionsSameRates(instances, sp, Without(a, 0), Without(b, p));
    }
  }

  /** How the unstable sort breaks ties cannot be seen in the money: two turns of the same
      plan from the same assignment leave the same amount and charge the same rates. */
  lemma TiesDoNotMatter(instances: seq<Instance>, s: Turn, t: Turn)
    requires s.sp == t.sp && s.before == t.before
    requires Played(instances, s).Some? && Played(instances, t).Some?
    ensures LeftOver(instances, s) == LeftOver(instances, t)
    ensures ChargedRates(RatesOf(instances, s.sp, s.order), s.sp.commitment)
            == ChargedRates(RatesOf(instances, t.sp, t.order), t.sp.commitment)
  {
    SamePositionsSameRates(instances, s.sp, s.order, t.order);
    DescendingOrderIsUnique(RatesOf(instances, s.sp, s.order), RatesOf(instances, t.sp, t.order));
  }

  // ----- The report -----

  function GpuInstances(instances: seq<Instance>): seq<Instance> {
    if instances == [] then []
    else
      var n := |instances| - 1;
      GpuInstances(instances[..n]) + if IsGpu(instances[n]) then [instances[n]] else []
  }

  /** The report lists the GPU instances, all of them, once each and in input order, with their own
      columns, the account's, and what covers them. */
  lemma {:induction false} ReportIsComplete(instances: seq<Instance>, covered: Assigned, acct: Account)
    ensures |Reports(instances, covered, acct)| == |GpuInstances(instances)|
    ensures forall i :: 0 <= i < |GpuInstances(instances)| ==>
                          var inst, g := GpuInstances(instances)[i], Reports(instances, covered, acct)[i];
                          && g.id == acct.accountId + "_" + inst.region + "_" + inst.id
                          && g.accountAlias == acct.alias && g.accountId == acct.accountId
                          && g.region == inst.region && g.az == inst.az
                          && g.instanceId == inst.id && g.itype == inst.itype
                          && (inst.id in covered ==>
                                && g.coverage == covered[inst.id].coverage && g.coverageRef == covered[inst.id].ref
                                && g.spRate == covered[inst.id].spRate)
                          && (inst.id !in covered ==> g.coverage == OnDemand && g.coverageRef == "" && g.spRate == 0.0)
  {
    if instances != [] {
      ReportIsComplete(instances[..|instances| - 1], covered, acct);
    }
  }

  function CountOf(reports: seq<GpuCoverage>, c: CoverageType): nat {
    if reports == [] then 0
    else
      var n := |reports| - 1;
      CountOf(reports[..n], c) + if reports[n].coverage == c then 1 else 0
  }

  /** How many GPU instances the assignment gives this coverage; uncovered ones are on demand. */
  function CountCovered(instances: seq<Instance>, covered: Assigned, c: CoverageType): nat {
    if instances == [] then 0
    else
      var n := |instances| - 1;
      var inst := instances[n];
      CountCovered(instances[..n], covered, c)
      + if IsGpu(inst) && (if inst.id in covered then covered[inst.id].coverage == c else c == OnDemand) then 1 else 0
  }

  /** The four kinds of coverage in the report add up to the number of GPU instances, and each
      count is that of the assignment. */
  lemma {:induction false} ReportCountsAddUp(instances: seq<Instance>, covered: Assigned, acct: Account)
    ensures var r := Reports(instances, covered, acct);
            && CountOf(r, OnDemand) + CountOf(r, SavingsPlanCover) + CountOf(r, CapacityBlock)
               + CountOf(r, ReservedCover) == |GpuInstances(instances)|
            && CountOf(r, OnDemand) == CountCovered(instances, covered, OnDemand)
            && CountOf(r, SavingsPlanCover) == CountCovered(instances, covered, SavingsPlanCover)
            && CountOf(r, CapacityBlock) == CountCovered(instances, covered, CapacityBlock)
            && CountOf(r, ReservedCover) == CountCovered(instances, covered, ReservedCover)
  {
    if instances != [] {
      var n := |instances| - 1;
      ReportCountsAddUp(instances[..n], covered, acct);
      var r := Reports(instances[..n], covered, acct);
      if IsGpu(instances[n]) {
        assert Reports(instances, covered, acct)[..|r|] == r;
      } else {
        assert Reports(instances, covered, acct) == r;
      }
    }
  }

  /** The family of an ordinary instance type is what stands before its last dot. */
  lemma FamilyOfSizedType(family: string, size: string)
    requires family != "" && '.' !in size
    ensures InstanceFamily(family + "." + size) == family
  {
    var itype := family + "." + size;
    assert itype[|family|] == '.';
    assert LastIndex(itype, '.') == |family|;
  }

  /** An instance of an ordinary type is reported exactly if what stands before the last dot is a
      family with GPUs; a p5 is one, an m5 is not. */
  lemma GpuByFamily(inst: Instance, family: string, size: string)
    requires family != "" && '.' !in size && inst.itype == family + "." + size
    ensures inst in GpuInstances([inst]) <==> family in GPU_FAMILIES
    ensures "p5" in GPU_FAMILIES && "m5" !in GPU_FAMILIES
  {
    FamilyOfSizedType(family, size);
    assert [inst][..0] == [];
    assert |"m5"| == 2 && "m5"[0] == 'm';
  }

  /** An UltraServer type, u-<family>x<count>, belongs to the family between. */
  lemma FamilyOfUltraServer(family: string, count: string)
    requires family != "" && '.' !in family && '.' !in count && 'x' !in count
    ensures InstanceFamily("u-" + family + "x" + count) == family
  {
    var itype := "u-" + family + "x" + count;
    var name := family + "x" + count;
    assert itype == "u-" + name;
    assert LastIndex(itype, '.') == -1;
    assert name[|family|] == 'x';
    assert LastIndex(name, 'x') == |family|;
    assert itype[2..] == name;
  }
}
