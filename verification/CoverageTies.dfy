/** Ties matter from one plan to the next: which of two equally dear instances an unstable sort
    puts first decides what is left for the plans that follow. */
module CoverageTies {
  import opened GreedyTurn
  import opened Basics
  import opened Coverage

  /** Two instances of different types, a plan that can pay for one of either at the same rate,
      and a plan for all families that has a rate for the second type only. */
  predicate Fleet(a: Instance, b: Instance, first: SavingsPlan, second: SavingsPlan) {
    && a.id != b.id && a.crId == "" && b.crId == ""
    && first.spType == EC2_INSTANCE && Eligible(first, a) && Eligible(first, b)
    && Rate(first, a) == Rate(first, b) == first.commitment > 0.0
    && second.spType == COMPUTE
    && Rate(second, a) == 0.0 && Rate(second, b) == second.commitment > 0.0
  }

  lemma CandidatesOfTwo(a: Instance, b: Instance, sp: SavingsPlan, covered: Assigned)
    ensures Candidates([a, b], sp, covered)
            == (if a.id !in covered && Eligible(sp, a) then [0] else [])
               + (if b.id !in covered && Eligible(sp, b) then [1] else [])
  {
    assert [a, b][..1] == [a] && [a][..0] == [];
    assert Candidates([], sp, covered) == [];
    assert Candidates([a], sp, covered) == if a.id !in covered && Eligible(sp, a) then [0] else [];
  }

  lemma TurnOfOne(instances: seq<Instance>, sp: SavingsPlan, before: Assigned, x: nat)
    requires x < |instances| && Candidates(instances, sp, before) == [x]
    ensures var inst := instances[x];
            Played(instances, Turn(sp, before, [x]))
            == Some(if Takes(sp.commitment, Rate(sp, inst))
                    then before[inst.id := Assignment(SavingsPlanCover, sp.id, Rate(sp, inst))] else before)
  {
    OneMore(instances, sp, before, [], x);
    assert [] + [x] == [x];
  }

  lemma StageOfTwo(instances: seq<Instance>, sp: SavingsPlan, before: Assigned, x: nat, y: nat)
    requires x < |instances| && y < |instances|
    requires Rate(sp, instances[x]) == Rate(sp, instances[y]) == sp.commitment > 0.0
    ensures TurnStage(instances, sp, [x] + [y], before)
            == before[instances[x].id := Assignment(SavingsPlanCover, sp.id, Rate(sp, instances[x]))]
  {
    OneMore(instances, sp, before, [], x);
    OneMore(instances, sp, before, [x], y);
    assert [] + [x] == [x];
  }

  /** Two candidates at a rate that uses up the commitment: the one visited first is taken. */
  lemma {:induction false} TurnOfTwo(instances: seq<Instance>, sp: SavingsPlan, before: Assigned, x: nat, y: nat)
    requires x < |instances| && y < |instances|
    requires multiset(Candidates(instances, sp, before)) == multiset{x, y}
    requires Rate(sp, instances[x]) == Rate(sp, instances[y]) == sp.commitment > 0.0
    ensures Played(instances, Turn(sp, before, [x] + [y]))
            == Some(before[instances[x].id := Assignment(SavingsPlanCover, sp.id, Rate(sp, instances[x]))])
  {
    StageOfTwo(instances, sp, before, x, y);
    OrderOfTwo(instances, sp, before, x, y, [x] + [y]);
  }

  lemma OrderOfTwo(instances: seq<Instance>, sp: SavingsPlan, before: Assigned, x: nat, y: nat, order: seq<nat>)
    requires x < |instances| && y < |instances| && order == [x, y]
    requires multiset(Candidates(instances, sp, before)) == multiset{x, y}
    requires Rate(sp, instances[x]) == Rate(sp, instances[y])
    ensures IsOrder(instances, sp, before, order)
  {
    MultisetOfTwo(x, y, order);
    RatesOfTwo(instances, sp, x, y, order);
  }

  lemma MultisetOfTwo(x: nat, y: nat, order: seq<nat>)
    requires order == [x, y]
    ensures multiset(order) == multiset{x, y}
  {
  }

  lemma RatesOfTwo(instances: seq<Instance>, sp: SavingsPlan, x: nat, y: nat, order: seq<nat>)
    requires x < |instances| && y < |instances| && order == [x, y]
    requires Rate(sp, instances[x]) == Rate(sp, instances[y])
    ensures Indices(instances, order) && Descending(RatesOf(instances, sp, order))
  {
  }

  lemma NothingBeforePlans(a: Instance, b: Instance, first: SavingsPlan, second: SavingsPlan)
    requires Fleet(a, b, first, second)
    ensures PlansInTurn([first, second]) == [first] + [second]
    ensures BeforePlans([a, b], [], {}) == map[]
  {
    assert [first, second][..1] == [first] && [first][..0] == [];
    assert OfType([first], EC2_INSTANCE) == [first] && OfType([first], COMPUTE) == [];
    assert [a, b][..1] == [a] && [a][..0] == [];
    assert BlockStage([a], {}) == map[];
    var s := RiState(map[], map[]);
    assert ReservedStage([a], s) == s;
  }

  lemma TwoTurns(instances: seq<Instance>, t: Turn, u: Turn, end: Assigned)
    requires Played(instances, t) == Some(u.before) && Played(instances, u) == Some(end)
    ensures Turns(instances, [t] + [u], t.before, end) && PlansOf([t] + [u]) == [t.sp] + [u.sp]
  {
    OneTurn(instances, t, u.before);
    OneTurn(instances, u, end);
    TurnsCompose(instances, [t], [u], t.before, u.before, end);
  }

  /** The first plan takes the instance visited first. */
  lemma FirstPlanTakes(a: Instance, b: Instance, first: SavingsPlan, second: SavingsPlan, x: nat)
    requires Fleet(a, b, first, second) && x < 2
    ensures var inst := if x == 0 then a else b;
            Played([a, b], Turn(first, map[], [x] + [1 - x]))
            == Some(map[inst.id := Assignment(SavingsPlanCover, first.id, first.commitment)])
  {
    CandidatesOfTwo(a, b, first, map[]);
    TurnOfTwo([a, b], first, map[], x, 1 - x);
  }

  /** The second plan takes the other one if it has a rate for it. */
  lemma SecondPlanTakes(a: Instance, b: Instance, first: SavingsPlan, second: SavingsPlan, x: nat)
    requires Fleet(a, b, first, second) && x < 2
    ensures var taken := if x == 0 then a else b;
            var before: Assigned := map[taken.id := Assignment(SavingsPlanCover, first.id, first.commitment)];
            Played([a, b], Turn(second, before, [1 - x]))
            == Some(if x == 0 then before[b.id := Assignment(SavingsPlanCover, second.id, second.commitment)]
                    else before)
  {
    var taken := if x == 0 then a else b;
    var before: Assigned := map[taken.id := Assignment(SavingsPlanCover, first.id, first.commitment)];
    CandidatesOfTwo(a, b, second, before);
    TurnOfOne([a, b], second, before, 1 - x);
  }

  lemma TieBroken(a: Instance, b: Instance, first: SavingsPlan, second: SavingsPlan, x: nat)
    returns (turns: seq<Turn>, end: Assigned)
    requires Fleet(a, b, first, second) && x < 2
    ensures Outcome([a, b], [first, second], [], {}, turns, end)
    ensures b.id in end && (a.id in end <==> x == 0)
  {
    var c1 := Assignment(SavingsPlanCover, first.id, first.commitment);
    var c2 := Assignment(SavingsPlanCover, second.id, second.commitment);
    var before: Assigned := map[(if x == 0 then a else b).id := c1];
    FirstPlanTakes(a, b, first, second, x);
    SecondPlanTakes(a, b, first, second, x);
    end := if x == 0 then before[b.id := c2] else before;
    var t, u := Turn(first, map[], [x] + [1 - x]), Turn(second, before, [1 - x]);
    turns := [t] + [u];
    TwoTurns([a, b], t, u, end);
    NothingBeforePlans(a, b, first, second);
  }

  /** The same analysis of the same fleet has two outcomes: with the tie broken one way both
      instances are covered, with the other way one stays on demand. */
  lemma TiesCanDecideCoverage(a: Instance, b: Instance, first: SavingsPlan, second: SavingsPlan)
    requires Fleet(a, b, first, second)
    ensures exists t, c :: Outcome([a, b], [first, second], [], {}, t, c) && a.id in c && b.id in c
    ensures exists t, c :: Outcome([a, b], [first, second], [], {}, t, c) && a.id !in c && b.id in c
  {
    var t0, c0 := TieBroken(a, b, first, second, 0);
    var t1, c1 := TieBroken(a, b, first, second, 1);
  }
}
