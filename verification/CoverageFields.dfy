/** What the coverage analysis does, told by the columns of its inputs alone. */
module CoverageFields {
  import opened GreedyTurn
  import opened Basics
  import opened Coverage
  import opened CoverageFacts

  // ----- Reservations per type and region -----

  /** The number of instances that reservations pay for, for one type in one region. */
  function Bought(ris: seq<ReservedInstance>, itype: string, region: string): int {
    if ris == [] then 0
    else
      var n := |ris| - 1;
      Bought(ris[..n], itype, region) + if ris[n].itype == itype && ris[n].region == region then ris[n].count else 0
  }

  /** How many of these instances of the type and region target no active block. */
  function Demand(instances: seq<Instance>, cbIds: set<string>, itype: string, region: string): nat {
    if instances == [] then 0
    else
      var n := |instances| - 1;
      var inst := instances[n];
      Demand(instances[..n], cbIds, itype, region)
      + if inst.itype == itype && inst.region == region && (inst.crId == "" || inst.crId !in cbIds) then 1 else 0
  }

  /** How many of these instances of the type and region are covered by a reservation. */
  function PaidByReservation(instances: seq<Instance>, covered: Assigned, itype: string, region: string): nat {
    if instances == [] then 0
    else
      var n := |instances| - 1;
      var inst := instances[n];
      PaidByReservation(instances[..n], covered, itype, region)
      + if inst.itype == itype && inst.region == region && inst.id in covered
           && covered[inst.id].coverage == ReservedCover then 1 else 0
  }

  lemma {:induction false} BoughtIsTotal(ris: seq<ReservedInstance>, itype: string, region: string)
    ensures Bought(ris, itype, region) == TotalCount(ris, RiKey(itype, region))
  {
    if ris != [] {
      BoughtIsTotal(ris[..|ris| - 1], itype, region);
    }
  }

  lemma {:induction false} DemandIsWaiting(all: seq<Instance>, cbIds: set<string>, itype: string, region: string,
                                           n: nat)
    requires DistinctIds(all) && n <= |all|
    ensures Demand(all[..n], cbIds, itype, region) == Waiting(all[..n], BlockStage(all, cbIds), RiKey(itype, region))
  {
    if n > 0 {
      DemandIsWaiting(all, cbIds, itype, region, n - 1);
      assert all[..n][..n - 1] == all[..n - 1];
      BlockStageExact(all, cbIds, n - 1);
    }
  }

  lemma {:induction false} PaidIsCounted(instances: seq<Instance>, covered: Assigned, itype: string, region: string)
    ensures PaidByReservation(instances, covered, itype, region)
            == CountReserved(instances, covered, RiKey(itype, region))
  {
    if instances != [] {
      PaidIsCounted(instances[..|instances| - 1], covered, itype, region);
    }
  }

  /** For every type and region the reservations cover as many instances as were bought, or all
      that the blocks leave when those are fewer. */
  lemma ReservationsByTypeAndRegion(instances: seq<Instance>, sps: seq<SavingsPlan>, ris: seq<ReservedInstance>,
                                    cbIds: set<string>, turns: seq<Turn>, covered: Assigned,
                                    itype: string, region: string)
    requires DistinctIds(instances)
    requires Outcome(instances, sps, ris, cbIds, turns, covered)
    ensures var bought, wanted := Bought(ris, itype, region), Demand(instances, cbIds, itype, region);
            PaidByReservation(instances, covered, itype, region)
            == if bought <= 0 then 0 else if bought <= wanted then bought else wanted
  {
    ReservedConservation(instances, sps, ris, cbIds, turns, covered, RiKey(itype, region));
    BoughtIsTotal(ris, itype, region);
    DemandIsWaiting(instances, cbIds, itype, region, |instances|);
    assert instances[..|instances|] == instances;
    PaidIsCounted(instances, covered, itype, region);
  }

  // ----- The order of the plans -----

  lemma {:induction false} OfTypeExact(sps: seq<SavingsPlan>, spType: string, sp: SavingsPlan)
    ensures sp in OfType(sps, spType) <==> sp in sps && sp.spType == spType
  {
    if sps != [] {
      var n := |sps| - 1;
      OfTypeExact(sps[..n], spType, sp);
      assert sps == sps[..n] + [sps[n]];
    }
  }

  /** Two plans at positions of the list, the first before the second. */
  predicate ListedBefore(sps: seq<SavingsPlan>, a: SavingsPlan, b: SavingsPlan) {
    exists i, j :: 0 <= i < j < |sps| && sps[i] == a && sps[j] == b
  }

  lemma {:induction false} OfTypeKeepsOrder(sps: seq<SavingsPlan>, spType: string, i: nat, j: nat)
    requires i < j < |OfType(sps, spType)|
    ensures ListedBefore(sps, OfType(sps, spType)[i], OfType(sps, spType)[j])
  {
    var n := |sps| - 1;
    var p := OfType(sps[..n], spType);
    if j < |p| {
      OfTypeKeepsOrder(sps[..n], spType, i, j);
      var a, b :| 0 <= a < b < n && sps[..n][a] == p[i] && sps[..n][b] == p[j];
      assert sps[a] == p[i] && sps[b] == p[j];
    } else {
      OfTypeExact(sps[..n], spType, p[i]);
      var a :| 0 <= a < n && sps[..n][a] == p[i];
      assert sps[a] == p[i] && sps[n] == OfType(sps, spType)[j];
    }
  }

  /** The turns belong to the EC2 Instance plans in list order, then to the Compute plans in list
      order, and to no others. */
  lemma TurnsInOrder(instances: seq<Instance>, sps: seq<SavingsPlan>, ris: seq<ReservedInstance>,
                     cbIds: set<string>, turns: seq<Turn>, covered: Assigned)
    requires Outcome(instances, sps, ris, cbIds, turns, covered)
    ensures forall sp :: (exists t :: 0 <= t < |turns| && turns[t].sp == sp)
                         <==> sp in sps && (sp.spType == "EC2Instance" || sp.spType == "Compute")
    ensures forall s, t :: 0 <= s < t < |turns| ==>
                             var a, b := turns[s].sp, turns[t].sp;
                             || (a.spType == "EC2Instance" && b.spType == "Compute")
                             || (a.spType == b.spType && ListedBefore(sps, a, b))
  {
    var first, second := OfType(sps, EC2_INSTANCE), OfType(sps, COMPUTE);
    forall t: nat | t < |turns| ensures turns[t].sp == (first + second)[t] {
      assert PlansOf(turns)[t] == turns[t].sp;
    }
    forall sp
      ensures (exists t :: 0 <= t < |turns| && turns[t].sp == sp)
              <==> sp in sps && (sp.spType == "EC2Instance" || sp.spType == "Compute")
    {
      OfTypeExact(sps, EC2_INSTANCE, sp);
      OfTypeExact(sps, COMPUTE, sp);
      assert sp in first + second <==> sp in first || sp in second;
      assert |turns| == |first + second|;
      if sp in first + second {
        var t :| 0 <= t < |turns| && (first + second)[t] == sp;
        assert turns[t].sp == sp;
      }
    }
    forall s: nat, t: nat | s < t < |turns|
      ensures || (turns[s].sp.spType == "EC2Instance" && turns[t].sp.spType == "Compute")
              || (turns[s].sp.spType == turns[t].sp.spType && ListedBefore(sps, turns[s].sp, turns[t].sp))
    {
      TwoTurns(sps, s, t);
    }
  }

  lemma TwoTurns(sps: seq<SavingsPlan>, s: nat, t: nat)
    requires s < t < |PlansInTurn(sps)|
    ensures var a, b := PlansInTurn(sps)[s], PlansInTurn(sps)[t];
            || (a.spType == EC2_INSTANCE && b.spType == COMPUTE)
            || (a.spType == b.spType && ListedBefore(sps, a, b))
  {
    var first, second := OfType(sps, EC2_INSTANCE), OfType(sps, COMPUTE);
    var a, b := PlansInTurn(sps)[s], PlansInTurn(sps)[t];
    OfTypeExact(sps, EC2_INSTANCE, a);
    OfTypeExact(sps, COMPUTE, a);
    OfTypeExact(sps, EC2_INSTANCE, b);
    OfTypeExact(sps, COMPUTE, b);
    if t < |first| {
      OfTypeKeepsOrder(sps, EC2_INSTANCE, s, t);
    } else if s >= |first| {
      OfTypeKeepsOrder(sps, COMPUTE, s - |first|, t - |first|);
    }
  }

  // ----- What covers an instance -----

  /** The plan has a rate for the instance and may pay for it. */
  predicate MayPay(sp: SavingsPlan, inst: Instance) {
    && inst.platform == "Linux/UNIX"
    && (|| (sp.spType == "EC2Instance" && sp.family == inst.family && sp.region == inst.region)
        || sp.spType == "Compute")
    && inst.itype in sp.rates && sp.rates[inst.itype] > 0.0
  }

  lemma MayPayIsEligible(sp: SavingsPlan, inst: Instance)
    ensures MayPay(sp, inst) <==> Eligible(sp, inst) && Rate(sp, inst) > 0.0
    ensures MayPay(sp, inst) ==> Rate(sp, inst) == sp.rates[inst.itype]
  {
  }

  /** The first reservation of the type in the region. */
  predicate FirstOf(ris: seq<ReservedInstance>, itype: string, region: string, j: nat) {
    && j < |ris| && ris[j].itype == itype && ris[j].region == region
    && forall k :: 0 <= k < j ==> ris[k].itype != itype || ris[k].region != region
  }

  lemma {:induction false} FirstExists(ris: seq<ReservedInstance>, itype: string, region: string) returns (j: nat)
    requires Bought(ris, itype, region) != 0
    ensures FirstOf(ris, itype, region, j)
  {
    var n := |ris| - 1;
    if Bought(ris[..n], itype, region) != 0 {
      j := FirstExists(ris[..n], itype, region);
    } else {
      j := 0;
      while ris[j].itype != itype || ris[j].region != region
        invariant j <= n
        invariant forall k :: 0 <= k < j ==> ris[k].itype != itype || ris[k].region != region
        decreases n - j
      {
        j := j + 1;
      }
    }
  }

  /** What covers an instance: the block it targets, if that is active; or the reservations of its
      type and region, if they pay for more than the instances of that kind ahead of it that the
      blocks leave; or some plan that may pay for it, at that plan's rate; or nothing. */
  lemma CoveredBy(instances: seq<Instance>, sps: seq<SavingsPlan>, ris: seq<ReservedInstance>,
                  cbIds: set<string>, turns: seq<Turn>, covered: Assigned, i: nat)
    requires DistinctIds(instances) && i < |instances|
    requires Outcome(instances, sps, ris, cbIds, turns, covered)
    ensures var inst := instances[i];
            if inst.crId != "" && inst.crId in cbIds then
              inst.id in covered && covered[inst.id] == Assignment(CapacityBlock, inst.crId, 0.0)
            else if Demand(instances[..i], cbIds, inst.itype, inst.region) < Bought(ris, inst.itype, inst.region) then
              inst.id in covered
              && exists j: nat :: FirstOf(ris, inst.itype, inst.region, j)
                             && covered[inst.id] == Assignment(ReservedCover, ris[j].id, 0.0)
            else
              inst.id in covered ==>
                exists sp :: sp in sps && MayPay(sp, inst)
                             && covered[inst.id] == Assignment(SavingsPlanCover, sp.id, sp.rates[inst.itype])
  {
    var inst := instances[i];
    Precedence(instances, sps, ris, cbIds, turns, covered, i);
    BlockStageExact(instances, cbIds, i);
    BoughtIsTotal(ris, inst.itype, inst.region);
    DemandIsWaiting(instances, cbIds, inst.itype, inst.region, i);
    if InBlock(inst, cbIds) {
    } else if Demand(instances[..i], cbIds, inst.itype, inst.region) < Bought(ris, inst.itype, inst.region) {
      var j := FirstExists(ris, inst.itype, inst.region);
      PoolIsNamedAfterFirst(ris, j);
    } else if inst.id in covered {
      var sp :| sp in PlansInTurn(sps) && Eligible(sp, inst) && Rate(sp, inst) > 0.0
                && covered[inst.id] == Assignment(SavingsPlanCover, sp.id, Rate(sp, inst));
      OfTypeExact(sps, EC2_INSTANCE, sp);
      OfTypeExact(sps, COMPUTE, sp);
      MayPayIsEligible(sp, inst);
    }
  }

  // ----- What the plans are left with -----

  predicate DistinctPlanIds(sps: seq<SavingsPlan>) {
    forall i, j :: 0 <= i < j < |sps| ==> sps[i].id != sps[j].id
  }

  lemma TurnsHaveDistinctPlans(instances: seq<Instance>, sps: seq<SavingsPlan>, ris: seq<ReservedInstance>,
                               cbIds: set<string>, turns: seq<Turn>, covered: Assigned)
    requires DistinctPlanIds(sps) && Outcome(instances, sps, ris, cbIds, turns, covered)
    ensures DistinctPlans(turns)
  {
    TurnsInOrder(instances, sps, ris, cbIds, turns, covered);
    forall s, t | 0 <= s < t < |turns| ensures turns[s].sp.id != turns[t].sp.id {
      var a, b := turns[s].sp, turns[t].sp;
      assert a in sps && b in sps;
      var i :| 0 <= i < |sps| && sps[i] == a;
      var j :| 0 <= j < |sps| && sps[j] == b;
      assert a.spType != b.spType ==> i != j;
    }
  }

  /** A plan of either type takes one turn. */
  lemma TurnOf(instances: seq<Instance>, sps: seq<SavingsPlan>, ris: seq<ReservedInstance>,
               cbIds: set<string>, turns: seq<Turn>, covered: Assigned, sp: SavingsPlan) returns (t: nat)
    requires Outcome(instances, sps, ris, cbIds, turns, covered)
    requires sp in sps && (sp.spType == "EC2Instance" || sp.spType == "Compute")
    ensures t < |turns| && turns[t].sp == sp
  {
    TurnsInOrder(instances, sps, ris, cbIds, turns, covered);
    t :| 0 <= t < |turns| && turns[t].sp == sp;
  }

  /** What a plan has to spare in the end is no more than its turn left. */
  lemma PlanBooks(instances: seq<Instance>, ris: seq<ReservedInstance>, cbIds: set<string>, turns: seq<Turn>,
                  covered: Assigned, t: nat)
    requires DistinctIds(instances) && DistinctPlans(turns) && t < |turns|
    requires Turns(instances, turns, BeforePlans(instances, ris, cbIds), covered)
    ensures var sp, charged := turns[t].sp, ChargedTo(instances, covered, turns[t].sp.id);
            && charged * 0.995 <= (if sp.commitment < 0.0 then 0.0 else sp.commitment)
            && Indices(instances, turns[t].order) && sp.commitment - charged <= LeftOver(instances, turns[t])
  {
    var sp := turns[t].sp;
    NoChargesBeforePlans(instances, ris, cbIds, sp.id, |instances|);
    assert instances[..|instances|] == instances;
    ChargesOfTurn(instances, turns, BeforePlans(instances, ris, cbIds), covered, t);
    var rates := RatesOf(instances, sp, turns[t].order);
    if sp.commitment < 0.0 {
      NegativeCommitment(rates, sp.commitment);
    } else {
      BudgetBound(rates, sp.commitment);
    }
  }

  /** Money, told by the final assignment: a plan is charged no more than its commitment allows
      with the tolerance, and an instance is left uncovered only if every plan that may pay for it
      has less than 99.5% of its rate to spare. */
  lemma UncoveredOnlyIfTooDear(instances: seq<Instance>, sps: seq<SavingsPlan>, ris: seq<ReservedInstance>,
                               cbIds: set<string>, turns: seq<Turn>, covered: Assigned, sp: SavingsPlan)
    requires DistinctIds(instances) && DistinctPlanIds(sps)
    requires Outcome(instances, sps, ris, cbIds, turns, covered)
    requires sp in sps && (sp.spType == "EC2Instance" || sp.spType == "Compute")
    ensures ChargedTo(instances, covered, sp.id) * 0.995 <= if sp.commitment < 0.0 then 0.0 else sp.commitment
    ensures forall i :: 0 <= i < |instances| && instances[i].id !in covered && MayPay(sp, instances[i]) ==>
                          sp.commitment - ChargedTo(instances, covered, sp.id) < 0.995 * sp.rates[instances[i].itype]
  {
    TurnsHaveDistinctPlans(instances, sps, ris, cbIds, turns, covered);
    var t := TurnOf(instances, sps, ris, cbIds, turns, covered, sp);
    PlanBooks(instances, ris, cbIds, turns, covered, t);
    forall i | 0 <= i < |instances| && instances[i].id !in covered && MayPay(sp, instances[i])
      ensures sp.commitment - ChargedTo(instances, covered, sp.id) < 0.995 * sp.rates[instances[i].itype]
    {
      MayPayIsEligible(sp, instances[i]);
      Maximality(instances, turns, BeforePlans(instances, ris, cbIds), covered, t, i);
    }
  }
}
