/** One Savings Plan's turn, seen through the hourly rates of its candidates.

    The turn offers the candidates one by one, in the order of the sequence, to a
    commitment that shrinks as candidates are taken.  A candidate is taken when the
    remaining commitment reaches 99.5% of its rate; taking it in that last half percent
    exhausts the commitment.  Nothing here depends on which instance has which rate,
    so these are the facts every order of equal rates shares.
  */
module GreedyTurn {

  /** Is the remaining commitment within tolerance of a full hour at this rate? */
  predicate Fits(remaining: real, rate: real) {
    remaining >= rate * 0.995
  }

  predicate Takes(remaining: real, rate: real) {
    rate > 0.0 && Fits(remaining, rate)
  }

  function Spend(remaining: real, rate: real): real {
    if !Takes(remaining, rate) then remaining
    else if remaining < rate then 0.0
    else remaining - rate
  }

  /** What is left of the commitment after all candidates were offered. */
  function Left(rates: seq<real>, commitment: real): real {
    if rates == [] then commitment
    else Spend(Left(rates[..|rates| - 1], commitment), rates[|rates| - 1])
  }

  /** Was the candidate at position i taken? */
  predicate Taken(rates: seq<real>, commitment: real, i: nat)
    requires i < |rates|
  {
    Takes(Left(rates[..i], commitment), rates[i])
  }

  /** Taken although the full rate no longer fitted. */
  predicate TakenByTolerance(rates: seq<real>, commitment: real, i: nat)
    requires i < |rates|
  {
    Taken(rates, commitment, i) && Left(rates[..i], commitment) < rates[i]
  }

  /** The multiset of the rates of all taken candidates. */
  function ChargedRates(rates: seq<real>, commitment: real): multiset<real> {
    if rates == [] then multiset{}
    else
      var n := |rates| - 1;
      ChargedRates(rates[..n], commitment)
      + if Taken(rates, commitment, n) then multiset{rates[n]} else multiset{}
  }

  /** The sum of the rates of all taken candidates. */
  function Charged(rates: seq<real>, commitment: real): real {
    if rates == [] then 0.0
    else
      var n := |rates| - 1;
      Charged(rates[..n], commitment) + if Taken(rates, commitment, n) then rates[n] else 0.0
  }

  predicate Descending(rates: seq<real>) {
    forall i, j :: 0 <= i < j < |rates| ==> rates[i] >= rates[j]
  }

  // ----- Budget -----

  /** The books balance: what is charged and what is left together make up the commitment,
      unless the tolerance was used, in which case nothing is left and the overdraft is at
      most 0.5% of the charge.  The remaining commitment is never negative and never grows. */
  lemma {:induction false} BudgetBound(rates: seq<real>, commitment: real)
    requires commitment >= 0.0
    ensures 0.0 <= Left(rates, commitment) <= commitment
    ensures 0.0 <= Charged(rates, commitment)
    ensures Charged(rates, commitment) * 0.995 <= commitment - Left(rates, commitment) * 0.995
    ensures Left(rates, commitment) + Charged(rates, commitment) >= commitment
    ensures Left(rates, commitment) > 0.0 ==> Left(rates, commitment) + Charged(rates, commitment) == commitment
  {
    if rates != [] {
      BudgetBound(rates[..|rates| - 1], commitment);
    }
  }

  /** A negative commitment covers nothing. */
  lemma {:induction false} NegativeCommitment(rates: seq<real>, commitment: real)
    requires commitment < 0.0
    ensures Left(rates, commitment) == commitment && Charged(rates, commitment) == 0.0
  {
    if rates != [] {
      NegativeCommitment(rates[..|rates| - 1], commitment);
    }
  }

  /** The remaining commitment only shrinks along the turn. */
  lemma {:induction false} LeftShrinks(rates: seq<real>, commitment: real, i: nat)
    requires i <= |rates|
    ensures Left(rates, commitment) <= Left(rates[..i], commitment)
  {
    var n := |rates|;
    if i < n {
      LeftShrinks(rates[..n - 1], commitment, i);
      assert rates[..n - 1][..i] == rates[..i];
    } else {
      assert rates[..i] == rates;
    }
  }

  /** The tolerance is used at most once per turn, and always for the last taken candidate. */
  lemma {:induction false} ToleranceIsLast(rates: seq<real>, commitment: real, i: nat, j: nat)
    requires i < j < |rates|
    requires TakenByTolerance(rates, commitment, i)
    ensures !Taken(rates, commitment, j)
  {
    assert rates[..i + 1][..i] == rates[..i];
    assert Left(rates[..i + 1], commitment) == 0.0;
    LeftShrinks(rates[..j], commitment, i + 1);
    assert rates[..j][..i + 1] == rates[..i + 1];
  }

  /** A candidate with a positive rate is passed over only if the turn ends with less than
      99.5% of its rate. */
  lemma PassedOver(rates: seq<real>, commitment: real, i: nat)
    requires i < |rates| && rates[i] > 0.0 && !Taken(rates, commitment, i)
    ensures !Fits(Left(rates, commitment), rates[i])
  {
    LeftShrinks(rates, commitment, i);
  }

  // ----- Quality of the greedy choice -----

  /** Unless nothing was taken, the charge is at least the cheapest rate offered. */
  lemma {:induction false} FirstTake(rates: seq<real>, commitment: real, floor: real)
    requires commitment >= 0.0
    requires forall k :: 0 <= k < |rates| ==> rates[k] >= floor
    ensures Left(rates, commitment) == commitment || Charged(rates, commitment) >= floor
  {
    if rates != [] {
      var n := |rates| - 1;
      FirstTake(rates[..n], commitment, floor);
      BudgetBound(rates[..n], commitment);
    }
  }

  /** Charges only accumulate along the turn. */
  lemma {:induction false} ChargedGrows(rates: seq<real>, commitment: real, i: nat)
    requires i <= |rates|
    ensures Charged(rates[..i], commitment) <= Charged(rates, commitment)
  {
    var n := |rates|;
    if i < n {
      ChargedGrows(rates[..n - 1], commitment, i);
      assert rates[..n - 1][..i] == rates[..i];
    } else {
      assert rates[..i] == rates;
    }
  }

  predicate Affordable(rates: seq<real>, commitment: real, i: nat)
    requires i < |rates|
  {
    Takes(commitment, rates[i])
  }

  /** With the candidates in descending order, one affordable candidate left out means that
      more than commitment / 1.995 was charged. */
  lemma GreedyQuality(rates: seq<real>, commitment: real, i: nat)
    requires Descending(rates)
    requires i < |rates| && Affordable(rates, commitment, i) && !Taken(rates, commitment, i)
    ensures Charged(rates, commitment) * 1.995 > commitment
  {
    FirstTake(rates[..i], commitment, rates[i]);
    BudgetBound(rates[..i], commitment);
    ChargedGrows(rates, commitment, i);
  }

  /** The total rate of a selection of candidates. */
  function Total(rates: seq<real>, pick: seq<bool>): real
    requires |pick| == |rates|
  {
    if rates == [] then 0.0
    else
      var n := |rates| - 1;
      Total(rates[..n], pick[..n]) + if pick[n] then rates[n] else 0.0
  }

  lemma {:induction false} PickedFitsTotal(rates: seq<real>, pick: seq<bool>, i: nat)
    requires |pick| == |rates| && i < |rates| && pick[i]
    requires forall k :: 0 <= k < |rates| && pick[k] ==> rates[k] > 0.0
    ensures 0.0 <= Total(rates, pick) - rates[i]
  {
    var n := |rates| - 1;
    if i < n {
      PickedFitsTotal(rates[..n], pick[..n], i);
    } else {
      TotalNonNegative(rates[..n], pick[..n]);
    }
  }

  lemma {:induction false} TotalNonNegative(rates: seq<real>, pick: seq<bool>)
    requires |pick| == |rates|
    requires forall k :: 0 <= k < |rates| && pick[k] ==> rates[k] > 0.0
    ensures Total(rates, pick) >= 0.0
  {
    if rates != [] {
      TotalNonNegative(rates[..|rates| - 1], pick[..|rates| - 1]);
    }
  }

  /** If every picked candidate was taken, the pick costs no more than the charge. */
  lemma {:induction false} TakenDominates(rates: seq<real>, commitment: real, pick: seq<bool>)
    requires |pick| == |rates|
    requires forall k: nat :: k < |rates| && pick[k] ==> Taken(rates, commitment, k)
    ensures Total(rates, pick) <= Charged(rates, commitment)
  {
    if rates != [] {
      var n := |rates| - 1;
      forall k: nat | k < n && pick[..n][k] ensures Taken(rates[..n], commitment, k) {
        assert rates[..n][..k] == rates[..k];
        assert Taken(rates, commitment, k);
      }
      TakenDominates(rates[..n], commitment, pick[..n]);
    }
  }

  /** Approximation guarantee: whatever selection of candidates fits the commitment, the
      greedy turn charges more than half of what that selection would. */
  lemma HalfOptimal(rates: seq<real>, commitment: real, pick: seq<bool>)
    requires Descending(rates)
    requires |pick| == |rates|
    requires forall k :: 0 <= k < |rates| && pick[k] ==> rates[k] > 0.0
    requires Total(rates, pick) <= commitment
    ensures Total(rates, pick) <= Charged(rates, commitment) * 1.995
  {
    TotalNonNegative(rates, pick);
    BudgetBound(rates, commitment);
    if i: nat :| i < |rates| && Affordable(rates, commitment, i) && !Taken(rates, commitment, i) {
      GreedyQuality(rates, commitment, i);
    } else {
      forall k: nat | k < |rates| && pick[k] ensures Taken(rates, commitment, k) {
        PickedFitsTotal(rates, pick, k);
        assert Affordable(rates, commitment, k);
      }
      TakenDominates(rates, commitment, pick);
    }
  }

  /** The descending order is what the guarantee rests on: offered cheapest first, one cheap
      candidate can shut out the one that would have used the whole commitment. */
  lemma UnsortedTurnCanWasteTheCommitment()
    ensures var rates := [1.0, 100.0];
            !Descending(rates)
            && Total(rates, [false, true]) == 100.0
            && Charged(rates, 100.0) == 1.0
  {
    var rates := [1.0, 100.0];
    assert rates[0] < rates[1];
    assert rates[..1] == [1.0] && rates[..1][..0] == [];
    assert [false, true][..1] == [false];
    assert Left(rates[..1], 100.0) == 99.0;
  }

  // ----- Ties -----

  lemma FirstIsLargest(a: seq<real>, b: seq<real>)
    requires Descending(a) && a != [] && multiset(a) == multiset(b)
    ensures b != [] && a[0] >= b[0]
  {
    assert a[0] in multiset(b);
    assert b[0] in multiset(a);
  }

  /** A multiset of rates has only one descending order. */
  lemma {:induction false} DescendingOrderIsUnique(a: seq<real>, b: seq<real>)
    requires Descending(a) && Descending(b)
    requires multiset(a) == multiset(b)
    ensures a == b
  {
    if a == [] {
      assert |b| == |multiset(b)| == 0;
    } else {
      FirstIsLargest(a, b);
      FirstIsLargest(b, a);
      assert a == [a[0]] + a[1..] && b == [b[0]] + b[1..];
      assert multiset(a[1..]) == multiset(a) - multiset{a[0]} == multiset(b[1..]);
      DescendingOrderIsUnique(a[1..], b[1..]);
    }
  }
}
