/** When ties do show: a plan that names two types at one rate it can afford has a fleet on which
    two outcomes of the analysis differ, whatever the other plans are. */
module CoverageWitness {
  import opened GreedyTurn
  import opened Coverage
  import opened CoverageFacts
  import opened CoverageAgreement

  // ----- No end of candidates at one rate -----

  function Copies(rate: real, n: nat): (r: seq<real>)
    ensures |r| == n && forall i :: 0 <= i < n ==> r[i] == rate
  {
    seq(n, _ => rate)
  }

  /** An upper bound for the number of candidates a commitment takes at a rate. */
  function Hours(rate: real, commitment: real): nat {
    if Takes(commitment, rate) && commitment / rate >= 0.0 then (commitment / rate).Floor + 1 else 0
  }

  lemma OneLess(a: real, b: real)
    requires b > 0.0
    ensures (a - b) / b == a / b - 1.0
  {
    var d := (a - b) / b - (a / b - 1.0);
    assert d * b == 0.0;
    assert d > 0.0 ==> d * b > 0.0;
    assert d < 0.0 ==> d * b < 0.0;
  }

  lemma HoursShrink(rate: real, commitment: real)
    requires Takes(commitment, rate)
    ensures Hours(rate, Spend(commitment, rate)) < Hours(rate, commitment)
  {
    assert commitment / rate > 0.0;
    if commitment >= rate {
      OneLess(commitment, rate);
    }
  }

  /** How many candidates at this rate are taken when there is no end of them. */
  function Cap(rate: real, commitment: real): nat
    decreases Hours(rate, commitment)
  {
    if Takes(commitment, rate) then
      HoursShrink(rate, commitment);
      1 + Cap(rate, Spend(commitment, rate))
    else 0
  }

  /** What is left of the commitment then. */
  function Rest(rate: real, commitment: real): real
    decreases Hours(rate, commitment)
  {
    if Takes(commitment, rate) then
      HoursShrink(rate, commitment);
      Rest(rate, Spend(commitment, rate))
    else commitment
  }

  lemma {:induction false} CopiesTaken(rate: real, commitment: real, n: nat)
    ensures Cap(rate, Left(Copies(rate, n), commitment)) == Max(Cap(rate, commitment) - n, 0)
    ensures Rest(rate, Left(Copies(rate, n), commitment)) == Rest(rate, commitment)
  {
    if n == 0 {
      assert Copies(rate, 0) == [];
    } else {
      assert Copies(rate, n)[..n - 1] == Copies(rate, n - 1);
      CopiesTaken(rate, commitment, n - 1);
    }
  }

  lemma {:induction false} NothingFitsRest(rate: real, commitment: real)
    ensures Cap(rate, Rest(rate, commitment)) == 0
    decreases Hours(rate, commitment)
  {
    if Takes(commitment, rate) {
      HoursShrink(rate, commitment);
      NothingFitsRest(rate, Spend(commitment, rate));
    }
  }

  lemma {:induction false} LeftConcat(x: seq<real>, y: seq<real>, commitment: real)
    ensures Left(x + y, commitment) == Left(y, Left(x, commitment))
    decreases |y|
  {
    if y == [] {
      assert x + y == x;
    } else {
      assert (x + y)[..|x + y| - 1] == x + y[..|y| - 1];
      LeftConcat(x, y[..|y| - 1], commitment);
    }
  }

  /** Which candidates are taken of m at one rate followed by n at another. */
  lemma BlocksTaken(p: real, m: nat, q: real, n: nat, commitment: real, i: nat)
    requires i < m + n && Cap(p, commitment) <= m
    ensures Taken(Copies(p, m) + Copies(q, n), commitment, i)
            <==> if i < m then i < Cap(p, commitment) else i - m < Cap(q, Rest(p, commitment))
  {
    var rates := Copies(p, m) + Copies(q, n);
    if i < m {
      assert rates[..i] == Copies(p, i);
      CopiesTaken(p, commitment, i);
    } else {
      assert rates[..i] == Copies(p, m) + Copies(q, i - m);
      LeftConcat(Copies(p, m), Copies(q, i - m), commitment);
      CopiesTaken(p, commitment, m);
      CopiesTaken(q, Rest(p, commitment), i - m);
    }
  }

  // ----- A fleet of two types -----

  /** An instance type and its family. */
  datatype Kind = Kind(itype: string, family: string)

  /** Linux instances of two types in one region. */
  predicate TwoKinds(instances: seq<Instance>, x: Kind, y: Kind, region: string) {
    && DistinctIds(instances) && x.itype != y.itype
    && forall i :: 0 <= i < |instances| ==>
         && (instances[i].itype == x.itype || instances[i].itype == y.itype)
         && instances[i].family == (if instances[i].itype == x.itype then x.family else y.family)
         && instances[i].platform == LINUX && instances[i].region == region
  }

  predicate PaysFor(sp: SavingsPlan, k: Kind, region: string) {
    sp.spType == COMPUTE || (sp.spType == EC2_INSTANCE && k.family == sp.family && region == sp.region)
  }

  /** The plan's rate for instances it may pay for, zero for others. */
  function PaidRate(sp: SavingsPlan, k: Kind, region: string): real {
    if PaysFor(sp, k, region) && k.itype in sp.rates then sp.rates[k.itype] else 0.0
  }

  /** The positions of the uncovered instances of a type that the plan may pay for. */
  function Pick(instances: seq<Instance>, sp: SavingsPlan, covered: Assigned, itype: string): (c: seq<nat>)
    ensures Indices(instances, c)
  {
    if instances == [] then []
    else
      var n := |instances| - 1;
      var inst := instances[n];
      Pick(instances[..n], sp, covered, itype)
      + if inst.id !in covered && Eligible(sp, inst) && inst.itype == itype then [n] else []
  }

  lemma {:induction false} PickIs(all: seq<Instance>, sp: SavingsPlan, covered: Assigned, t: string, pays: bool, n: nat)
    requires n <= |all|
    requires forall i :: 0 <= i < |all| && all[i].itype == t ==> (Eligible(sp, all[i]) <==> pays)
    ensures var p := Pick(all[..n], sp, covered, t);
            && |p| == (if pays then Open(all[..n], covered, All(t)) else 0)
            && forall i :: 0 <= i < |p| ==> p[i] < n && all[p[i]].itype == t
  {
    if n > 0 {
      assert all[..n][..n - 1] == all[..n - 1];
      PickIs(all, sp, covered, t, pays, n - 1);
    }
  }

  lemma {:induction false} PicksAreAll(all: seq<Instance>, sp: SavingsPlan, covered: Assigned,
                                       x: string, y: string, n: nat)
    requires n <= |all| && x != y && forall i :: 0 <= i < |all| ==> all[i].itype == x || all[i].itype == y
    ensures multiset(Pick(all[..n], sp, covered, x)) + multiset(Pick(all[..n], sp, covered, y))
            == multiset(Candidates(all[..n], sp, covered))
  {
    if n > 0 {
      assert all[..n][..n - 1] == all[..n - 1];
      PicksAreAll(all, sp, covered, x, y, n - 1);
    }
  }

  // ----- One turn over such a fleet -----

  /** How many of the type visited first the plan takes when there are enough. */
  function FirstUse(sp: SavingsPlan, x: Kind, region: string): nat {
    Cap(PaidRate(sp, x, region), sp.commitment)
  }

  /** How many of the other type it takes after that. */
  function SecondUse(sp: SavingsPlan, x: Kind, y: Kind, region: string): nat {
    Cap(PaidRate(sp, y, region), Rest(PaidRate(sp, x, region), sp.commitment))
  }

  lemma {:induction false} BlocksCount(instances: seq<Instance>, sp: SavingsPlan, order: seq<nat>,
                                       t: string, from: nat, count: nat, n: nat)
    requires Indices(instances, order) && n <= |order| && from <= from + count <= |order|
    requires forall i: nat :: i < |order| ==>
               (Taken(RatesOf(instances, sp, order), sp.commitment, i) && instances[order[i]].itype == t
                <==> from <= i < from + count)
    ensures TakenOf(instances, sp, order[..n], t) == Min(Max(n - from, 0), count)
  {
    if n > 0 {
      BlocksCount(instances, sp, order, t, from, count, n - 1);
      assert order[..n][..n - 1] == order[..n - 1];
      RatesPrefix(instances, sp, order, n);
      TakenPrefix(RatesOf(instances, sp, order), sp.commitment, n, n - 1);
    }
  }

  lemma KindsArePicked(instances: seq<Instance>, sp: SavingsPlan, covered: Assigned, x: Kind, y: Kind, region: string)
    returns (px: seq<nat>, py: seq<nat>)
    requires TwoKinds(instances, x, y, region) && IsPlan(sp)
    ensures Indices(instances, px) && Indices(instances, py)
    ensures multiset(px + py) == multiset(Candidates(instances, sp, covered))
    ensures |px| == if PaysFor(sp, x, region) then Open(instances, covered, All(x.itype)) else 0
    ensures |py| == if PaysFor(sp, y, region) then Open(instances, covered, All(y.itype)) else 0
    ensures forall i :: 0 <= i < |px| ==> instances[px[i]].itype == x.itype
    ensures forall i :: 0 <= i < |py| ==> instances[py[i]].itype == y.itype
  {
    var n := |instances|;
    assert instances[..n] == instances;
    px, py := Pick(instances, sp, covered, x.itype), Pick(instances, sp, covered, y.itype);
    PickIs(instances, sp, covered, x.itype, PaysFor(sp, x, region), n);
    PickIs(instances, sp, covered, y.itype, PaysFor(sp, y, region), n);
    PicksAreAll(instances, sp, covered, x.itype, y.itype, n);
  }

  lemma BlockRates(instances: seq<Instance>, sp: SavingsPlan, x: Kind, y: Kind, region: string,
                   px: seq<nat>, py: seq<nat>)
    requires Indices(instances, px) && Indices(instances, py)
    requires forall i :: 0 <= i < |px| ==> instances[px[i]].itype == x.itype
    requires forall i :: 0 <= i < |py| ==> instances[py[i]].itype == y.itype
    requires (px != [] ==> PaysFor(sp, x, region)) && (py != [] ==> PaysFor(sp, y, region))
    ensures Indices(instances, px + py)
    ensures RatesOf(instances, sp, px + py)
            == Copies(PaidRate(sp, x, region), |px|) + Copies(PaidRate(sp, y, region), |py|)
  {
  }

  /** What is taken when all of one type come before the other, and there are enough of both. */
  lemma BlocksUsed(instances: seq<Instance>, sp: SavingsPlan, x: Kind, y: Kind, region: string,
                   order: seq<nat>, m: nat, n: nat)
    requires Indices(instances, order) && |order| == m + n && x.itype != y.itype
    requires forall i :: 0 <= i < |order| ==> instances[order[i]].itype == if i < m then x.itype else y.itype
    requires RatesOf(instances, sp, order) == Copies(PaidRate(sp, x, region), m) + Copies(PaidRate(sp, y, region), n)
    requires FirstUse(sp, x, region) <= m && SecondUse(sp, x, y, region) <= n
    ensures TakenOf(instances, sp, order, x.itype) == FirstUse(sp, x, region)
    ensures TakenOf(instances, sp, order, y.itype) == SecondUse(sp, x, y, region)
  {
    forall i: nat | i < |order|
      ensures Taken(RatesOf(instances, sp, order), sp.commitment, i)
              <==> if i < m then i < FirstUse(sp, x, region) else i - m < SecondUse(sp, x, y, region)
    {
      BlocksTaken(PaidRate(sp, x, region), m, PaidRate(sp, y, region), n, sp.commitment, i);
    }
    BlocksCount(instances, sp, order, x.itype, 0, FirstUse(sp, x, region), |order|);
    BlocksCount(instances, sp, order, y.itype, m, SecondUse(sp, x, y, region), |order|);
    assert order[..|order|] == order;
  }

  lemma BlocksDescend(p: real, m: nat, q: real, n: nat)
    requires p >= q
    ensures Descending(Copies(p, m) + Copies(q, n))
  {
  }

  lemma UnpaidUses(sp: SavingsPlan, x: Kind, y: Kind, region: string)
    ensures !PaysFor(sp, x, region) ==> FirstUse(sp, x, region) == 0
    ensures !PaysFor(sp, y, region) ==> SecondUse(sp, x, y, region) == 0
  {
  }

  lemma BlocksAreAnOrder(instances: seq<Instance>, sp: SavingsPlan, before: Assigned, x: Kind, y: Kind, region: string,
                         px: seq<nat>, py: seq<nat>)
    requires Indices(instances, px) && Indices(instances, py)
    requires multiset(px + py) == multiset(Candidates(instances, sp, before))
    requires forall i :: 0 <= i < |px| ==> instances[px[i]].itype == x.itype
    requires forall i :: 0 <= i < |py| ==> instances[py[i]].itype == y.itype
    requires (px != [] ==> PaysFor(sp, x, region)) && (py != [] ==> PaysFor(sp, y, region))
    requires PaidRate(sp, x, region) >= PaidRate(sp, y, region)
    ensures IsOrder(instances, sp, before, px + py)
  {
    BlockRates(instances, sp, x, y, region, px, py);
    BlocksDescend(PaidRate(sp, x, region), |px|, PaidRate(sp, y, region), |py|);
  }

  /** A turn that visits all of one type before the other takes its use of each. */
  lemma LeadTurn(instances: seq<Instance>, sp: SavingsPlan, before: Assigned, x: Kind, y: Kind, region: string)
    returns (t: Turn)
    requires TwoKinds(instances, x, y, region) && IsPlan(sp)
    requires PaidRate(sp, x, region) >= PaidRate(sp, y, region)
    requires Open(instances, before, All(x.itype)) >= FirstUse(sp, x, region)
    requires Open(instances, before, All(y.itype)) >= SecondUse(sp, x, y, region)
    ensures t.sp == sp && t.before == before && Played(instances, t).Some?
    ensures TakenOf(instances, sp, t.order, x.itype) == FirstUse(sp, x, region)
    ensures TakenOf(instances, sp, t.order, y.itype) == SecondUse(sp, x, y, region)
  {
    var px, py := KindsArePicked(instances, sp, before, x, y, region);
    t := Turn(sp, before, px + py);
    BlocksAreAnOrder(instances, sp, before, x, y, region, px, py);
    BlockRates(instances, sp, x, y, region, px, py);
    UnpaidUses(sp, x, y, region);
    BlocksUsed(instances, sp, x, y, region, px + py, |px|, |py|);
  }

  lemma TurnUses(instances: seq<Instance>, t: Turn, itype: string)
    requires DistinctIds(instances) && IsPlan(t.sp) && Played(instances, t).Some?
    ensures Open(instances, Played(instances, t).value, All(itype))
            == Open(instances, t.before, All(itype)) - TakenOf(instances, t.sp, t.order, itype)
  {
    OrderIsEligible(instances, t);
    TurnOpens(instances, t.sp, t.order, t.before, All(itype));
  }

  // ----- All turns over such a fleet -----

  /** What a plan takes of type b, and of type a, when a is visited first or last. */
  function UseOfB(sp: SavingsPlan, a: Kind, b: Kind, region: string, aLeads: bool): nat {
    if aLeads then SecondUse(sp, a, b, region) else FirstUse(sp, b, region)
  }

  function UseOfA(sp: SavingsPlan, a: Kind, b: Kind, region: string, aLeads: bool): nat {
    UseOfB(sp, b, a, region, !aLeads)
  }

  /** Plan j visits the dearer type first; on a tie type a, except that plan m visits b first
      when asked to. */
  predicate ALeads(plans: seq<SavingsPlan>, a: Kind, b: Kind, region: string, m: nat, swap: bool, j: nat)
    requires j < |plans|
  {
    !(swap && j == m) && PaidRate(plans[j], a, region) >= PaidRate(plans[j], b, region)
  }

  /** What the first n plans take of type b, and of type a. */
  function BUsed(plans: seq<SavingsPlan>, a: Kind, b: Kind, region: string, m: nat, swap: bool, n: nat): nat
    requires n <= |plans|
  {
    if n == 0 then 0
    else BUsed(plans, a, b, region, m, swap, n - 1)
         + UseOfB(plans[n - 1], a, b, region, ALeads(plans, a, b, region, m, swap, n - 1))
  }

  function AUsed(plans: seq<SavingsPlan>, a: Kind, b: Kind, region: string, m: nat, swap: bool, n: nat): nat
    requires n <= |plans|
  {
    if n == 0 then 0
    else AUsed(plans, a, b, region, m, swap, n - 1)
         + UseOfA(plans[n - 1], a, b, region, ALeads(plans, a, b, region, m, swap, n - 1))
  }

  /** More of either type than the plans can take. */
  function Enough(plans: seq<SavingsPlan>, a: Kind, b: Kind, region: string, m: nat): nat {
    AUsed(plans, a, b, region, m, true, |plans|) + AUsed(plans, a, b, region, m, false, |plans|)
    + BUsed(plans, a, b, region, m, true, |plans|) + BUsed(plans, a, b, region, m, false, |plans|)
  }

  lemma {:induction false} UsedGrows(plans: seq<SavingsPlan>, a: Kind, b: Kind, region: string, m: nat, swap: bool,
                                     n: nat, k: nat)
    requires n <= k <= |plans|
    ensures AUsed(plans, a, b, region, m, swap, n) <= AUsed(plans, a, b, region, m, swap, k)
    ensures BUsed(plans, a, b, region, m, swap, n) <= BUsed(plans, a, b, region, m, swap, k)
  {
    if n < k {
      UsedGrows(plans, a, b, region, m, swap, n, k - 1);
    }
  }

  /** The plans' turns, with or without the swap at the tie. */
  lemma {:induction false} PlayAll(instances: seq<Instance>, plans: seq<SavingsPlan>, a: Kind, b: Kind, region: string,
                                   m: nat, swap: bool, n: nat) returns (end: Assigned)
    requires TwoKinds(instances, a, b, region) && n <= |plans|
    requires forall i :: 0 <= i < |plans| ==> IsPlan(plans[i])
    requires m < |plans| && PaidRate(plans[m], a, region) == PaidRate(plans[m], b, region)
    requires Open(instances, map[], All(a.itype)) >= Enough(plans, a, b, region, m)
    requires Open(instances, map[], All(b.itype)) >= Enough(plans, a, b, region, m)
    ensures CanPlay(instances, plans[..n], map[], end)
    ensures Open(instances, end, All(a.itype))
            == Open(instances, map[], All(a.itype)) - AUsed(plans, a, b, region, m, swap, n)
    ensures Open(instances, end, All(b.itype))
            == Open(instances, map[], All(b.itype)) - BUsed(plans, a, b, region, m, swap, n)
  {
    if n == 0 {
      end := map[];
      assert Turns(instances, [], end, end) && PlansOf([]) == [];
    } else {
      var before := PlayAll(instances, plans, a, b, region, m, swap, n - 1);
      UsedGrows(plans, a, b, region, m, swap, n, |plans|);
      end := PlayOne(instances, plans, a, b, region, n - 1, ALeads(plans, a, b, region, m, swap, n - 1), before);
    }
  }

  /** The turn of plan j, with the type in the lead that visits first. */
  lemma TurnOf(instances: seq<Instance>, sp: SavingsPlan, before: Assigned, a: Kind, b: Kind, region: string,
               aLeads: bool)
    returns (t: Turn)
    requires TwoKinds(instances, a, b, region) && IsPlan(sp)
    requires if aLeads then PaidRate(sp, a, region) >= PaidRate(sp, b, region)
             else PaidRate(sp, b, region) >= PaidRate(sp, a, region)
    requires Open(instances, before, All(a.itype)) >= UseOfA(sp, a, b, region, aLeads)
    requires Open(instances, before, All(b.itype)) >= UseOfB(sp, a, b, region, aLeads)
    ensures t.sp == sp && t.before == before && Played(instances, t).Some?
    ensures TakenOf(instances, sp, t.order, a.itype) == UseOfA(sp, a, b, region, aLeads)
    ensures TakenOf(instances, sp, t.order, b.itype) == UseOfB(sp, a, b, region, aLeads)
  {
    if aLeads {
      t := LeadTurn(instances, sp, before, a, b, region);
    } else {
      t := LeadTurn(instances, sp, before, b, a, region);
    }
  }

  lemma PlayOne(instances: seq<Instance>, plans: seq<SavingsPlan>, a: Kind, b: Kind, region: string,
                j: nat, aLeads: bool, before: Assigned) returns (end: Assigned)
    requires TwoKinds(instances, a, b, region) && j < |plans| && IsPlan(plans[j])
    requires if aLeads then PaidRate(plans[j], a, region) >= PaidRate(plans[j], b, region)
             else PaidRate(plans[j], b, region) >= PaidRate(plans[j], a, region)
    requires Open(instances, before, All(a.itype)) >= UseOfA(plans[j], a, b, region, aLeads)
    requires Open(instances, before, All(b.itype)) >= UseOfB(plans[j], a, b, region, aLeads)
    requires CanPlay(instances, plans[..j], map[], before)
    ensures CanPlay(instances, plans[..j + 1], map[], end)
    ensures Open(instances, end, All(a.itype))
            == Open(instances, before, All(a.itype)) - UseOfA(plans[j], a, b, region, aLeads)
    ensures Open(instances, end, All(b.itype))
            == Open(instances, before, All(b.itype)) - UseOfB(plans[j], a, b, region, aLeads)
  {
    var t := TurnOf(instances, plans[j], before, a, b, region, aLeads);
    end := Played(instances, t).value;
    TurnUses(instances, t, a.itype);
    TurnUses(instances, t, b.itype);
    CanPlayOneMore(instances, plans[..j], map[], before, t, end);
    assert plans[..j] + [plans[j]] == plans[..j + 1];
  }

  /** The swap shows in the end. */
  lemma {:induction false} SwapShows(plans: seq<SavingsPlan>, a: Kind, b: Kind, region: string, m: nat, n: nat)
    requires m < |plans| && n <= |plans| && PaidRate(plans[m], a, region) == PaidRate(plans[m], b, region)
    requires Takes(plans[m].commitment, PaidRate(plans[m], a, region))
    ensures if n <= m then BUsed(plans, a, b, region, m, true, n) == BUsed(plans, a, b, region, m, false, n)
            else BUsed(plans, a, b, region, m, true, n) > BUsed(plans, a, b, region, m, false, n)
  {
    if n > 0 {
      SwapShows(plans, a, b, region, m, n - 1);
      NothingFitsRest(PaidRate(plans[m], a, region), plans[m].commitment);
    }
  }

  // ----- The fleet -----

  function Id(n: nat): (id: string)
    ensures |id| == n
  {
    seq(n, _ => 'i')
  }

  function Member(k: Kind, region: string, n: nat): Instance {
    Instance(Id(n), k.itype, k.family, region, "", LINUX, "")
  }

  function LargeFleet(a: Kind, b: Kind, region: string, n: nat): seq<Instance> {
    if n == 0 then [] else LargeFleet(a, b, region, n - 1) + [Member(a, region, 2 * n - 1)] + [Member(b, region, 2 * n)]
  }

  lemma {:induction false} FleetIs(a: Kind, b: Kind, region: string, n: nat)
    requires a.itype != b.itype
    ensures TwoKinds(LargeFleet(a, b, region, n), a, b, region)
    ensures forall inst :: inst in LargeFleet(a, b, region, n) ==> |inst.id| <= 2 * n
  {
    if n > 0 {
      FleetIs(a, b, region, n - 1);
    }
  }

  lemma {:induction false} FleetOpen(a: Kind, b: Kind, region: string, n: nat)
    requires a.itype != b.itype
    ensures Open(LargeFleet(a, b, region, n), map[], All(a.itype)) == n
    ensures Open(LargeFleet(a, b, region, n), map[], All(b.itype)) == n
  {
    if n > 0 {
      var rest := LargeFleet(a, b, region, n - 1);
      var one := rest + [Member(a, region, 2 * n - 1)];
      assert one[..|rest|] == rest && LargeFleet(a, b, region, n)[..|one|] == one;
      FleetOpen(a, b, region, n - 1);
    }
  }

  lemma {:induction false} NothingElse(instances: seq<Instance>)
    ensures BlockStage(instances, {}) == map[]
    ensures ReservedStage(instances, RiState(map[], map[])) == RiState(map[], map[])
  {
    if instances != [] {
      NothingElse(instances[..|instances| - 1]);
    }
  }

  // ----- The condition is exact -----

  /** Fleets as they are read: IDs are distinct and the family is that of the type. */
  predicate Realistic(instances: seq<Instance>) {
    && DistinctIds(instances)
    && forall i :: 0 <= i < |instances| ==> instances[i].family == InstanceFamily(instances[i].itype)
  }

  /** Can the plan pay for the type at all? */
  predicate Covers(sp: SavingsPlan, itype: string) {
    itype in sp.rates && (sp.spType == COMPUTE || InstanceFamily(itype) == sp.family)
  }

  /** No two types have the same rate in the plan, if it can afford that rate. */
  predicate RatesNameTypes(sp: SavingsPlan) {
    forall x, y :: x in sp.rates && y in sp.rates && Covers(sp, x) && Covers(sp, y)
                   && sp.rates[x] == sp.rates[y] && Takes(sp.commitment, sp.rates[x]) ==>
                     x == y
  }

  /** Whatever the fleet, the reservations and the blocks: all outcomes have the same counts. */
  ghost predicate TiesNeverShow(sps: seq<SavingsPlan>) {
    forall instances, ris, cbIds, s, a, t, b ::
      Realistic(instances) && Outcome(instances, sps, ris, cbIds, s, a) && Outcome(instances, sps, ris, cbIds, t, b) ==>
        SameCounts(instances, a, b)
  }

  lemma NamedTypesAreUnambiguous(instances: seq<Instance>, sp: SavingsPlan)
    requires Realistic(instances) && RatesNameTypes(sp)
    ensures Unambiguous(instances, sp)
  {
    forall x, y | && x in instances && y in instances && Eligible(sp, x) && Eligible(sp, y)
                  && Rate(sp, x) == Rate(sp, y) && Takes(sp.commitment, Rate(sp, x))
      ensures x.itype == y.itype
    {
      assert Covers(sp, x.itype) && Covers(sp, y.itype);
    }
  }

  lemma FleetOutcome(instances: seq<Instance>, sps: seq<SavingsPlan>, end: Assigned) returns (turns: seq<Turn>)
    requires CanPlay(instances, PlansInTurn(sps), map[], end)
    ensures Outcome(instances, sps, [], {}, turns, end)
  {
    NothingElse(instances);
    turns :| Turns(instances, turns, map[], end) && PlansOf(turns) == PlansInTurn(sps);
  }

  lemma DifferentCounts(instances: seq<Instance>, sps: seq<SavingsPlan>, s: seq<Turn>, a: Assigned,
                        t: seq<Turn>, b: Assigned, itype: string)
    requires DistinctIds(instances)
    requires Outcome(instances, sps, [], {}, s, a) && Outcome(instances, sps, [], {}, t, b)
    requires Open(instances, a, All(itype)) != Open(instances, b, All(itype))
    ensures !SameCounts(instances, a, b)
  {
    var start := BeforePlans(instances, [], {});
    OutcomeExtends(instances, sps, [], {}, s, a);
    OutcomeExtends(instances, sps, [], {}, t, b);
    KindsAdd(instances, start, a, itype);
    KindsAdd(instances, start, b, itype);
    assert CountOfType(instances, a, OnDemand, itype) != CountOfType(instances, b, OnDemand, itype);
  }

  /** On a fleet large enough for all plans to use up their commitments, the plans can end with
      different numbers of one of the tied types uncovered. */
  lemma TwoEnds(instances: seq<Instance>, plans: seq<SavingsPlan>, a: Kind, b: Kind, m: nat)
    returns (c: Assigned, d: Assigned)
    requires m < |plans| && forall i :: 0 <= i < |plans| ==> IsPlan(plans[i])
    requires TwoKinds(instances, a, b, plans[m].region)
    requires var rate := PaidRate(plans[m], a, plans[m].region);
             PaidRate(plans[m], b, plans[m].region) == rate && Takes(plans[m].commitment, rate)
    requires Open(instances, map[], All(a.itype)) >= Enough(plans, a, b, plans[m].region, m)
    requires Open(instances, map[], All(b.itype)) >= Enough(plans, a, b, plans[m].region, m)
    ensures CanPlay(instances, plans, map[], c) && CanPlay(instances, plans, map[], d)
    ensures Open(instances, c, All(b.itype)) != Open(instances, d, All(b.itype))
  {
    var n := |plans|;
    assert plans[..n] == plans;
    c := PlayAll(instances, plans, a, b, plans[m].region, m, false, n);
    d := PlayAll(instances, plans, a, b, plans[m].region, m, true, n);
    SwapShows(plans, a, b, plans[m].region, m, n);
  }

  lemma PlansInTurnArePlans(sps: seq<SavingsPlan>)
    ensures forall i :: 0 <= i < |PlansInTurn(sps)| ==> IsPlan(PlansInTurn(sps)[i])
  {
    OfTypeIs(sps, EC2_INSTANCE);
    OfTypeIs(sps, COMPUTE);
  }

  /** A tie of one plan shows. */
  lemma TieShows(sps: seq<SavingsPlan>, m: nat, x: string, y: string)
    requires m < |PlansInTurn(sps)| && x != y
    requires var sp := PlansInTurn(sps)[m];
             Covers(sp, x) && Covers(sp, y) && sp.rates[x] == sp.rates[y] && Takes(sp.commitment, sp.rates[x])
    ensures !TiesNeverShow(sps)
  {
    var plans := PlansInTurn(sps);
    var region, a, b := plans[m].region, Kind(x, InstanceFamily(x)), Kind(y, InstanceFamily(y));
    var size := Enough(plans, a, b, region, m);
    var instances := LargeFleet(a, b, region, size);
    PlansInTurnArePlans(sps);
    FleetIs(a, b, region, size);
    FleetOpen(a, b, region, size);
    var c, d := TwoEnds(instances, plans, a, b, m);
    var s := FleetOutcome(instances, sps, c);
    var t := FleetOutcome(instances, sps, d);
    DifferentCounts(instances, sps, s, c, t, d, b.itype);
    assert Realistic(instances);
  }

  /** Ties never show, on any fleet, if and only if no plan has one rate, which it can afford, for
      two types. */
  lemma TiesNeverShowIff(sps: seq<SavingsPlan>)
    ensures TiesNeverShow(sps) <==> forall sp :: sp in PlansInTurn(sps) ==> RatesNameTypes(sp)
  {
    if forall sp :: sp in PlansInTurn(sps) ==> RatesNameTypes(sp) {
      forall instances, ris, cbIds, s, a, t, b |
        && Realistic(instances)
        && Outcome(instances, sps, ris, cbIds, s, a)
        && Outcome(instances, sps, ris, cbIds, t, b)
        ensures SameCounts(instances, a, b)
      {
        forall sp | sp in PlansInTurn(sps) ensures Unambiguous(instances, sp) {
          NamedTypesAreUnambiguous(instances, sp);
        }
        OutcomesAgree(instances, sps, ris, cbIds, s, a, t, b);
      }
    } else {
      var sp :| sp in PlansInTurn(sps) && !RatesNameTypes(sp);
      var m :| 0 <= m < |PlansInTurn(sps)| && PlansInTurn(sps)[m] == sp;
      var x, y :| && Covers(sp, x) && Covers(sp, y) && sp.rates[x] == sp.rates[y]
                  && Takes(sp.commitment, sp.rates[x]) && x != y;
      TieShows(sps, m, x, y);
    }
  }
}
