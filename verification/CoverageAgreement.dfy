/** When the ties of the unstable sort cannot show: any two outcomes of one analysis agree on the
    numbers if no plan names two instance types at one rate it can afford. */
module CoverageAgreement {
  import opened GreedyTurn
  import opened Basics
  import opened Coverage
  import opened CoverageFacts

  // ----- Groups of instances no plan can tell apart -----

  /** All instances of a type, the Linux ones among them, and those of one family and region. */
  datatype Group =
    | All(itype: string)
    | Linux(itype: string)
    | LinuxAt(itype: string, family: string, region: string)

  predicate InGroup(inst: Instance, g: Group) {
    && inst.itype == g.itype
    && (!g.All? ==> inst.platform == LINUX)
    && (g.LinuxAt? ==> inst.family == g.family && inst.region == g.region)
  }

  /** The uncovered instances of a group. */
  function Open(instances: seq<Instance>, covered: Assigned, g: Group): nat {
    if instances == [] then 0
    else
      var n := |instances| - 1;
      Open(instances[..n], covered, g) + if instances[n].id !in covered && InGroup(instances[n], g) then 1 else 0
  }

  predicate IsPlan(sp: SavingsPlan) { sp.spType == EC2_INSTANCE || sp.spType == COMPUTE }

  /** The instances of a type that the plan may pay for. */
  function GroupOf(sp: SavingsPlan, itype: string): Group {
    if sp.spType == COMPUTE then Linux(itype) else LinuxAt(itype, sp.family, sp.region)
  }

  lemma GroupIsEligible(sp: SavingsPlan, inst: Instance, itype: string)
    requires IsPlan(sp)
    ensures InGroup(inst, GroupOf(sp, itype)) <==> Eligible(sp, inst) && inst.itype == itype
  {
  }

  // ----- The rates a turn is offered -----

  /** The candidates of these types. */
  function CandidatesIn(instances: seq<Instance>, covered: Assigned, sp: SavingsPlan, types: set<string>): nat {
    if instances == [] then 0
    else
      var n := |instances| - 1;
      var inst := instances[n];
      CandidatesIn(instances[..n], covered, sp, types)
      + if inst.id !in covered && Eligible(sp, inst) && inst.itype in types then 1 else 0
  }

  lemma {:induction false} OneTypeMore(instances: seq<Instance>, covered: Assigned, sp: SavingsPlan,
                                       types: set<string>, t: string)
    requires IsPlan(sp) && t in types
    ensures CandidatesIn(instances, covered, sp, types)
            == CandidatesIn(instances, covered, sp, types - {t}) + Open(instances, covered, GroupOf(sp, t))
  {
    if instances != [] {
      var n := |instances| - 1;
      OneTypeMore(instances[..n], covered, sp, types, t);
      GroupIsEligible(sp, instances[n], t);
    }
  }

  lemma {:induction false} NoTypes(instances: seq<Instance>, covered: Assigned, sp: SavingsPlan)
    ensures CandidatesIn(instances, covered, sp, {}) == 0
  {
    if instances != [] {
      NoTypes(instances[..|instances| - 1], covered, sp);
    }
  }

  /** The two assignments leave equally many instances of each type to the plan. */
  ghost predicate SameOffers(instances: seq<Instance>, sp: SavingsPlan, a: Assigned, b: Assigned) {
    forall t :: Open(instances, a, GroupOf(sp, t)) == Open(instances, b, GroupOf(sp, t))
  }

  lemma {:induction false} SameCandidates(instances: seq<Instance>, sp: SavingsPlan, a: Assigned, b: Assigned,
                                          types: set<string>)
    requires IsPlan(sp) && SameOffers(instances, sp, a, b)
    ensures CandidatesIn(instances, a, sp, types) == CandidatesIn(instances, b, sp, types)
  {
    if types == {} {
      NoTypes(instances, a, sp);
      NoTypes(instances, b, sp);
    } else {
      var t :| t in types;
      OneTypeMore(instances, a, sp, types, t);
      OneTypeMore(instances, b, sp, types, t);
      SameCandidates(instances, sp, a, b, types - {t});
    }
  }

  /** The types of the fleet that have this rate. */
  function TypesAt(instances: seq<Instance>, sp: SavingsPlan, rate: real): set<string> {
    set inst | inst in instances && Rate(sp, inst) == rate :: inst.itype
  }

  lemma {:induction false} RateCounts(all: seq<Instance>, covered: Assigned, sp: SavingsPlan, rate: real, n: nat)
    requires n <= |all|
    ensures Indices(all, Candidates(all[..n], sp, covered))
    ensures multiset(RatesOf(all, sp, Candidates(all[..n], sp, covered)))[rate]
            == CandidatesIn(all[..n], covered, sp, TypesAt(all, sp, rate))
  {
    if n > 0 {
      assert all[..n][..n - 1] == all[..n - 1];
      RateCounts(all, covered, sp, rate, n - 1);
      var before, c := Candidates(all[..n - 1], sp, covered), Candidates(all[..n], sp, covered);
      var inst := all[n - 1];
      assert inst in all;
      assert inst.itype in TypesAt(all, sp, rate) <==> Rate(sp, inst) == rate by {
        if inst.itype in TypesAt(all, sp, rate) {
          var other :| other in all && Rate(sp, other) == rate && other.itype == inst.itype;
        }
      }
      if inst.id !in covered && Eligible(sp, inst) {
        assert RatesOf(all, sp, c) == RatesOf(all, sp, before) + [Rate(sp, inst)];
      } else {
        assert c == before;
      }
    }
  }

  /** Turns that are offered equally many instances of each type are offered the same rates. */
  lemma SameRates(instances: seq<Instance>, s: Turn, t: Turn)
    requires s.sp == t.sp && IsPlan(s.sp) && SameOffers(instances, s.sp, s.before, t.before)
    requires Played(instances, s).Some? && Played(instances, t).Some?
    ensures RatesOf(instances, s.sp, s.order) == RatesOf(instances, t.sp, t.order)
  {
    var sp := s.sp;
    var c, d := Candidates(instances, sp, s.before), Candidates(instances, sp, t.before);
    assert instances[..|instances|] == instances;
    forall rate ensures multiset(RatesOf(instances, sp, c))[rate] == multiset(RatesOf(instances, sp, d))[rate] {
      RateCounts(instances, s.before, sp, rate, |instances|);
      RateCounts(instances, t.before, sp, rate, |instances|);
      SameCandidates(instances, sp, s.before, t.before, TypesAt(instances, sp, rate));
    }
    assert multiset(RatesOf(instances, sp, c)) == multiset(RatesOf(instances, sp, d));
    SamePositionsSameRates(instances, sp, s.order, c);
    SamePositionsSameRates(instances, sp, t.order, d);
    DescendingOrderIsUnique(RatesOf(instances, sp, s.order), RatesOf(instances, sp, t.order));
  }

  // ----- What a turn takes of each type -----

  /** No rate the plan can afford names two types of instances it may pay for. */
  predicate Unambiguous(instances: seq<Instance>, sp: SavingsPlan) {
    forall x, y :: && x in instances && y in instances && Eligible(sp, x) && Eligible(sp, y)
                   && Rate(sp, x) == Rate(sp, y) && Takes(sp.commitment, Rate(sp, x)) ==>
                     x.itype == y.itype
  }

  /** How many instances of a type the turn takes. */
  function TakenOf(instances: seq<Instance>, sp: SavingsPlan, order: seq<nat>, itype: string): nat
    requires Indices(instances, order)
  {
    if order == [] then 0
    else
      var n := |order| - 1;
      TakenOf(instances, sp, order[..n], itype)
      + if Taken(RatesOf(instances, sp, order), sp.commitment, n) && instances[order[n]].itype == itype then 1 else 0
  }

  lemma TakenIsAffordable(rates: seq<real>, commitment: real, i: nat)
    requires i < |rates| && Taken(rates, commitment, i)
    ensures Takes(commitment, rates[i])
  {
    LeftShrinks(rates[..i], commitment, 0);
    assert rates[..i][..0] == [];
  }

  lemma {:induction false} SameTaken(instances: seq<Instance>, sp: SavingsPlan, s: seq<nat>, t: seq<nat>, itype: string)
    requires Indices(instances, s) && Indices(instances, t) && Unambiguous(instances, sp)
    requires RatesOf(instances, sp, s) == RatesOf(instances, sp, t)
    requires forall i :: 0 <= i < |s| ==> Eligible(sp, instances[s[i]])
    requires forall i :: 0 <= i < |t| ==> Eligible(sp, instances[t[i]])
    ensures TakenOf(instances, sp, s, itype) == TakenOf(instances, sp, t, itype)
    decreases |s|
  {
    assert |s| == |t|;
    if s != [] {
      var n := |s| - 1;
      RatesPrefix(instances, sp, s, n);
      RatesPrefix(instances, sp, t, n);
      SameTaken(instances, sp, s[..n], t[..n], itype);
      var rates := RatesOf(instances, sp, s);
      if Taken(rates, sp.commitment, n) {
        TakenIsAffordable(rates, sp.commitment, n);
        assert Rate(sp, instances[s[n]]) == rates[n] == Rate(sp, instances[t[n]]);
        assert instances[s[n]] in instances && instances[t[n]] in instances;
      }
    }
  }

  lemma {:induction false} OpenUpdate(instances: seq<Instance>, covered: Assigned, g: Group, x: nat, a: Assignment)
    requires DistinctIds(instances) && x < |instances| && instances[x].id !in covered
    ensures Open(instances, covered[instances[x].id := a], g)
            == Open(instances, covered, g) - if InGroup(instances[x], g) then 1 else 0
  {
    var n := |instances| - 1;
    if x < n {
      OpenUpdate(instances[..n], covered, g, x, a);
    } else {
      OpenUntouched(instances[..n], covered, g, instances[n].id, a);
    }
  }

  lemma {:induction false} OpenUntouched(instances: seq<Instance>, covered: Assigned, g: Group,
                                         id: string, a: Assignment)
    requires forall j :: 0 <= j < |instances| ==> instances[j].id != id
    ensures Open(instances, covered[id := a], g) == Open(instances, covered, g)
  {
    if instances != [] {
      OpenUntouched(instances[..|instances| - 1], covered, g, id, a);
    }
  }

  /** Groups whose instances the plan treats alike: all of the type that it may pay for, or none. */
  predicate Tracks(sp: SavingsPlan, g: Group) { g.LinuxAt? ==> sp.spType == EC2_INSTANCE }

  /** May the plan pay for instances of this group? */
  predicate Serves(sp: SavingsPlan, g: Group) {
    g.LinuxAt? ==> g.family == sp.family && g.region == sp.region
  }

  lemma {:induction false} TurnOpens(instances: seq<Instance>, sp: SavingsPlan, order: seq<nat>,
                                     before: Assigned, g: Group)
    requires DistinctIds(instances) && Indices(instances, order) && IsPlan(sp) && Tracks(sp, g)
    requires forall j, k :: 0 <= j < k < |order| ==> order[j] != order[k]
    requires forall i :: 0 <= i < |order| ==> instances[order[i]].id !in before && Eligible(sp, instances[order[i]])
    ensures Open(instances, TurnStage(instances, sp, order, before), g)
            == Open(instances, before, g) - if Serves(sp, g) then TakenOf(instances, sp, order, g.itype) else 0
  {
    if order != [] {
      var n := |order| - 1;
      var x := order[n];
      RatesPrefix(instances, sp, order, n);
      TurnOpens(instances, sp, order[..n], before, g);
      TurnStageKeys(instances, sp, order[..n], before, instances[x].id);
      OpenUpdate(instances, TurnStage(instances, sp, order[..n], before), g, x,
                 Assignment(SavingsPlanCover, sp.id, Rate(sp, instances[x])));
    }
  }

  // ----- From turn to turn -----

  lemma OrderIsEligible(instances: seq<Instance>, t: Turn)
    requires Played(instances, t).Some?
    ensures forall j, k :: 0 <= j < k < |t.order| ==> t.order[j] != t.order[k]
    ensures forall i :: 0 <= i < |t.order| ==>
                          instances[t.order[i]].id !in t.before && Eligible(t.sp, instances[t.order[i]])
  {
    OrderExact(instances, t.sp, t.before, t.order);
    forall i | 0 <= i < |t.order|
      ensures instances[t.order[i]].id !in t.before && Eligible(t.sp, instances[t.order[i]])
    {
      assert t.order[i] in t.order;
    }
  }

  /** One turn of each outcome: what was equal before is equal after, and so is the money. */
  lemma TurnAgrees(instances: seq<Instance>, s: Turn, t: Turn)
    requires DistinctIds(instances) && s.sp == t.sp && IsPlan(s.sp) && Unambiguous(instances, s.sp)
    requires Played(instances, s).Some? && Played(instances, t).Some?
    requires forall g :: Tracks(s.sp, g) ==> Open(instances, s.before, g) == Open(instances, t.before, g)
    ensures RatesOf(instances, s.sp, s.order) == RatesOf(instances, t.sp, t.order)
    ensures forall g :: Tracks(s.sp, g) ==> Open(instances, Played(instances, s).value, g)
                                            == Open(instances, Played(instances, t).value, g)
  {
    assert SameOffers(instances, s.sp, s.before, t.before);
    SameRates(instances, s, t);
    OrderIsEligible(instances, s);
    OrderIsEligible(instances, t);
    forall g | Tracks(s.sp, g)
      ensures Open(instances, Played(instances, s).value, g) == Open(instances, Played(instances, t).value, g)
    {
      TurnOpens(instances, s.sp, s.order, s.before, g);
      TurnOpens(instances, t.sp, t.order, t.before, g);
      SameTaken(instances, s.sp, s.order, t.order, g.itype);
    }
  }

  /** Compute plans take their turns after all EC2 Instance plans. */
  predicate InTurn(turns: seq<Turn>) {
    && (forall i :: 0 <= i < |turns| ==> IsPlan(turns[i].sp))
    && (forall i, j :: 0 <= i < j < |turns| && turns[j].sp.spType == EC2_INSTANCE ==>
                         turns[i].sp.spType == EC2_INSTANCE)
  }

  lemma {:induction false} OfTypeIs(sps: seq<SavingsPlan>, spType: string)
    ensures forall i :: 0 <= i < |OfType(sps, spType)| ==> OfType(sps, spType)[i].spType == spType
  {
    if sps != [] {
      OfTypeIs(sps[..|sps| - 1], spType);
    }
  }

  lemma PlansAreInTurn(sps: seq<SavingsPlan>, turns: seq<Turn>)
    requires PlansOf(turns) == PlansInTurn(sps)
    ensures InTurn(turns)
  {
    OfTypeIs(sps, EC2_INSTANCE);
    OfTypeIs(sps, COMPUTE);
    forall i | 0 <= i < |turns| ensures turns[i].sp == PlansInTurn(sps)[i] {
      assert PlansOf(turns)[i] == turns[i].sp;
    }
  }

  /** The groups that all of the first n plans track. */
  predicate TrackedUntil(turns: seq<Turn>, n: nat, g: Group)
    requires n <= |turns|
  {
    forall i :: 0 <= i < n ==> Tracks(turns[i].sp, g)
  }

  ghost predicate SamePlans(instances: seq<Instance>, s: seq<Turn>, t: seq<Turn>) {
    && |s| == |t| && InTurn(s)
    && forall i :: 0 <= i < |s| ==> s[i].sp == t[i].sp && Unambiguous(instances, s[i].sp)
  }

  lemma {:induction false} TurnsAgree(instances: seq<Instance>, s: seq<Turn>, t: seq<Turn>, start: Assigned,
                                      sEnd: Assigned, tEnd: Assigned, n: nat, g: Group)
    requires DistinctIds(instances) && SamePlans(instances, s, t)
    requires Turns(instances, s, start, sEnd) && Turns(instances, t, start, tEnd)
    requires n <= |s| && TrackedUntil(s, n, g)
    ensures Open(instances, StateAt(s, n, sEnd), g) == Open(instances, StateAt(t, n, tEnd), g)
    decreases n
  {
    if n > 0 {
      var i := n - 1;
      assert Played(instances, s[i]) == Some(StateAt(s, n, sEnd));
      assert Played(instances, t[i]) == Some(StateAt(t, n, tEnd));
      forall h | Tracks(s[i].sp, h) ensures Open(instances, s[i].before, h) == Open(instances, t[i].before, h) {
        TurnsAgree(instances, s, t, start, sEnd, tEnd, i, h);
      }
      TurnAgrees(instances, s[i], t[i]);
    }
  }

  /** Every plan is offered the same rates in both outcomes. */
  lemma TurnRatesAgree(instances: seq<Instance>, s: seq<Turn>, t: seq<Turn>, start: Assigned,
                       sEnd: Assigned, tEnd: Assigned, i: nat)
    requires DistinctIds(instances) && SamePlans(instances, s, t)
    requires Turns(instances, s, start, sEnd) && Turns(instances, t, start, tEnd)
    requires i < |s|
    ensures Indices(instances, s[i].order) && Indices(instances, t[i].order)
    ensures RatesOf(instances, s[i].sp, s[i].order) == RatesOf(instances, t[i].sp, t[i].order)
  {
    assert Played(instances, s[i]) == Some(StateAt(s, i + 1, sEnd));
    assert Played(instances, t[i]) == Some(StateAt(t, i + 1, tEnd));
    forall h | Tracks(s[i].sp, h) ensures Open(instances, s[i].before, h) == Open(instances, t[i].before, h) {
      TurnsAgree(instances, s, t, start, sEnd, tEnd, i, h);
    }
    TurnAgrees(instances, s[i], t[i]);
  }

  lemma {:induction false} ChargesAgree(instances: seq<Instance>, s: seq<Turn>, t: seq<Turn>, start: Assigned,
                                        sEnd: Assigned, tEnd: Assigned, n: nat, plan: string)
    requires DistinctIds(instances) && SamePlans(instances, s, t)
    requires Turns(instances, s, start, sEnd) && Turns(instances, t, start, tEnd)
    requires n <= |s|
    ensures ChargedTo(instances, StateAt(s, n, sEnd), plan) == ChargedTo(instances, StateAt(t, n, tEnd), plan)
    decreases n
  {
    if n > 0 {
      var i := n - 1;
      ChargesAgree(instances, s, t, start, sEnd, tEnd, i, plan);
      TurnRatesAgree(instances, s, t, start, sEnd, tEnd, i);
      assert Played(instances, s[i]) == Some(StateAt(s, n, sEnd));
      assert Played(instances, t[i]) == Some(StateAt(t, n, tEnd));
      PlayedCharges(instances, s[i], plan);
      PlayedCharges(instances, t[i], plan);
    }
  }

  // ----- Counts per type and kind of coverage -----

  /** The coverage an instance ends with; uncovered is on demand. */
  function KindOf(covered: Assigned, id: string): CoverageType {
    if id in covered then covered[id].coverage else OnDemand
  }

  /** The instances of a type with this kind of coverage. */
  function CountOfType(instances: seq<Instance>, covered: Assigned, kind: CoverageType, itype: string): nat {
    if instances == [] then 0
    else
      var n := |instances| - 1;
      CountOfType(instances[..n], covered, kind, itype)
      + if instances[n].itype == itype && KindOf(covered, instances[n].id) == kind then 1 else 0
  }

  /** Both assignments end with the same numbers of every kind for every type. */
  ghost predicate SameCounts(instances: seq<Instance>, a: Assigned, b: Assigned) {
    forall kind, itype :: CountOfType(instances, a, kind, itype) == CountOfType(instances, b, kind, itype)
  }

  /** Savings Plans give their own kind of coverage, to instances that had none. */
  ghost predicate Extends(instances: seq<Instance>, start: Assigned, end: Assigned) {
    forall inst :: inst in instances ==>
      if inst.id in start then inst.id in end && end[inst.id] == start[inst.id] && start[inst.id].coverage != OnDemand
                               && start[inst.id].coverage != SavingsPlanCover
      else inst.id in end ==> end[inst.id].coverage == SavingsPlanCover
  }

  lemma OutcomeExtends(instances: seq<Instance>, sps: seq<SavingsPlan>, ris: seq<ReservedInstance>,
                       cbIds: set<string>, turns: seq<Turn>, covered: Assigned)
    requires DistinctIds(instances) && Outcome(instances, sps, ris, cbIds, turns, covered)
    ensures Extends(instances, BeforePlans(instances, ris, cbIds), covered)
  {
    var start := BeforePlans(instances, ris, cbIds);
    var s := RiState(BlockStage(instances, cbIds), PoolOf(ris));
    forall i: nat | i < |instances|
      ensures var inst := instances[i];
              if inst.id in start then inst.id in covered && covered[inst.id] == start[inst.id]
                                       && start[inst.id].coverage != OnDemand
                                       && start[inst.id].coverage != SavingsPlanCover
              else inst.id in covered ==> covered[inst.id].coverage == SavingsPlanCover
    {
      var id := instances[i].id;
      if id in start {
        TurnsKeep(instances, turns, start, covered, 0, id);
        BlockStageExact(instances, cbIds, i);
        ReservedStageKeys(instances, s, id);
        if id !in s.covered {
          ReservedStageExact(instances, s, i);
        }
      } else if id in covered {
        CoverageSource(instances, turns, start, covered, |turns|, i);
      }
    }
  }

  lemma KindsFollow(instances: seq<Instance>, start: Assigned, a: Assigned, b: Assigned,
                                       kind: CoverageType, itype: string)
    requires Extends(instances, start, a) && Extends(instances, start, b)
    requires Open(instances, a, All(itype)) == Open(instances, b, All(itype))
    ensures CountOfType(instances, a, kind, itype) == CountOfType(instances, b, kind, itype)
  {
    KindsAdd(instances, start, a, itype);
    KindsAdd(instances, start, b, itype);
  }

  function SizeOf(instances: seq<Instance>, itype: string): nat {
    if instances == [] then 0
    else SizeOf(instances[..|instances| - 1], itype) + if instances[|instances| - 1].itype == itype then 1 else 0
  }

  lemma {:induction false} KindsAdd(instances: seq<Instance>, start: Assigned, a: Assigned, itype: string)
    requires Extends(instances, start, a)
    ensures CountOfType(instances, a, OnDemand, itype) == Open(instances, a, All(itype))
    ensures CountOfType(instances, a, CapacityBlock, itype) == CountOfType(instances, start, CapacityBlock, itype)
    ensures CountOfType(instances, a, ReservedCover, itype) == CountOfType(instances, start, ReservedCover, itype)
    ensures CountOfType(instances, a, SavingsPlanCover, itype)
            == SizeOf(instances, itype) - Open(instances, a, All(itype))
               - CountOfType(instances, start, CapacityBlock, itype)
               - CountOfType(instances, start, ReservedCover, itype)
  {
    if instances != [] {
      var n := |instances| - 1;
      assert instances[n] in instances;
      KindsAdd(instances[..n], start, a, itype);
    }
  }

  // ----- The whole analysis -----

  /** Ties cannot show: if no plan names two types it may pay for at one rate it can afford, any
      two outcomes of the analysis give every type the same number of instances of every kind of
      coverage, leave each plan the same amount, and charge every plan ID the same. */
  lemma OutcomesAgree(instances: seq<Instance>, sps: seq<SavingsPlan>, ris: seq<ReservedInstance>, cbIds: set<string>,
                      s: seq<Turn>, a: Assigned, t: seq<Turn>, b: Assigned)
    requires DistinctIds(instances)
    requires Outcome(instances, sps, ris, cbIds, s, a) && Outcome(instances, sps, ris, cbIds, t, b)
    requires forall sp :: sp in PlansInTurn(sps) ==> Unambiguous(instances, sp)
    ensures SameCounts(instances, a, b)
    ensures |s| == |t| == |PlansInTurn(sps)|
    ensures forall i :: 0 <= i < |s| ==>
                          Indices(instances, s[i].order) && Indices(instances, t[i].order)
                          && LeftOver(instances, s[i]) == LeftOver(instances, t[i])
    ensures forall plan :: ChargedTo(instances, a, plan) == ChargedTo(instances, b, plan)
  {
    var start := BeforePlans(instances, ris, cbIds);
    PlansAreInTurn(sps, s);
    forall i | 0 <= i < |s| ensures s[i].sp == t[i].sp == PlansInTurn(sps)[i] {
      assert PlansOf(s)[i] == s[i].sp && PlansOf(t)[i] == t[i].sp;
    }
    OutcomeExtends(instances, sps, ris, cbIds, s, a);
    OutcomeExtends(instances, sps, ris, cbIds, t, b);
    forall kind, itype ensures CountOfType(instances, a, kind, itype) == CountOfType(instances, b, kind, itype) {
      TurnsAgree(instances, s, t, start, a, b, |s|, All(itype));
      KindsFollow(instances, start, a, b, kind, itype);
    }
    forall i: nat | i < |s|
      ensures Indices(instances, s[i].order) && Indices(instances, t[i].order)
              && LeftOver(instances, s[i]) == LeftOver(instances, t[i])
    {
      TurnRatesAgree(instances, s, t, start, a, b, i);
    }
    forall plan ensures ChargedTo(instances, a, plan) == ChargedTo(instances, b, plan) {
      ChargesAgree(instances, s, t, start, a, b, |s|, plan);
    }
  }

  // ----- The report -----

  /** The instances of these types with this kind of coverage. */
  function CountOfTypes(instances: seq<Instance>, covered: Assigned, kind: CoverageType, types: set<string>): nat {
    if instances == [] then 0
    else
      var n := |instances| - 1;
      CountOfTypes(instances[..n], covered, kind, types)
      + if instances[n].itype in types && KindOf(covered, instances[n].id) == kind then 1 else 0
  }

  lemma {:induction false} OneTypeLess(instances: seq<Instance>, covered: Assigned, kind: CoverageType,
                                       types: set<string>, t: string)
    requires t in types
    ensures CountOfTypes(instances, covered, kind, types)
            == CountOfTypes(instances, covered, kind, types - {t}) + CountOfType(instances, covered, kind, t)
  {
    if instances != [] {
      OneTypeLess(instances[..|instances| - 1], covered, kind, types, t);
    }
  }

  lemma {:induction false} SameTotals(instances: seq<Instance>, a: Assigned, b: Assigned, kind: CoverageType,
                                      types: set<string>)
    requires SameCounts(instances, a, b)
    ensures CountOfTypes(instances, a, kind, types) == CountOfTypes(instances, b, kind, types)
  {
    if types == {} {
      NoneOfTypes(instances, a, kind);
      NoneOfTypes(instances, b, kind);
    } else {
      var t :| t in types;
      OneTypeLess(instances, a, kind, types, t);
      OneTypeLess(instances, b, kind, types, t);
      SameTotals(instances, a, b, kind, types - {t});
    }
  }

  lemma {:induction false} NoneOfTypes(instances: seq<Instance>, covered: Assigned, kind: CoverageType)
    ensures CountOfTypes(instances, covered, kind, {}) == 0
  {
    if instances != [] {
      NoneOfTypes(instances[..|instances| - 1], covered, kind);
    }
  }

  lemma {:induction false} GpuTotals(all: seq<Instance>, covered: Assigned, kind: CoverageType,
                                     types: set<string>, n: nat)
    requires n <= |all| && types == set inst | inst in all && IsGpu(inst) :: inst.itype
    ensures CountCovered(all[..n], covered, kind) == CountOfTypes(all[..n], covered, kind, types)
  {
    if n > 0 {
      assert all[..n][..n - 1] == all[..n - 1];
      GpuTotals(all, covered, kind, types, n - 1);
      assert all[n - 1] in all;
    }
  }

  /** Outcomes with the same counts are reported with the same counts. */
  lemma ReportsAgree(instances: seq<Instance>, a: Assigned, b: Assigned, acct: Account, kind: CoverageType)
    requires SameCounts(instances, a, b)
    ensures CountOf(Reports(instances, a, acct), kind) == CountOf(Reports(instances, b, acct), kind)
  {
    var types := set inst | inst in instances && IsGpu(inst) :: inst.itype;
    assert instances[..|instances|] == instances;
    ReportCountsAddUp(instances, a, acct);
    ReportCountsAddUp(instances, b, acct);
    GpuTotals(instances, a, kind, types, |instances|);
    GpuTotals(instances, b, kind, types, |instances|);
    SameTotals(instances, a, b, kind, types);
  }
}
