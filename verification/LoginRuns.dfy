/** Concurrent logins: the steps of any number of requests interleaved in any way, each step
    atomic under the lock of the limiter it touches. */
module LoginRuns {
  import opened Basics
  import opened Limiter
  import opened LimiterRuns
  import Login

  /** One step of one request. */
  datatype Action =
    | ReserveIp(r: nat, at: int, admitted: bool)
    | ReserveUser(r: nat, at: int, admitted: bool, retryAfter: int)
    | Verify(r: nat, at: int, matches: bool)
    | StartSession(r: nat, at: int, started: bool)
    | ReleaseIp(r: nat, at: int)
    | ReleaseUser(r: nat, at: int)

  /** How far a request has come; one that is not in the map has not begun. */
  datatype Phase = IpReserved | InFlight | Matched | Started | IpReleased | Over

  type Phases = map<nat, Phase>

  /** The phase a request must be in to take the action, None for not begun. */
  function Needs(a: Action): Option<Phase> {
    match a
    case ReserveIp(_, _, _) => None
    case ReserveUser(_, _, _, _) => Some(IpReserved)
    case Verify(_, _, _) => Some(InFlight)
    case StartSession(_, _, _) => Some(Matched)
    case ReleaseIp(_, _) => Some(Started)
    case ReleaseUser(_, _) => Some(IpReleased)
  }

  function Next(a: Action): Phase {
    match a
    case ReserveIp(_, _, admitted) => if admitted then IpReserved else Over
    case ReserveUser(_, _, admitted, _) => if admitted then InFlight else Over
    case Verify(_, _, matches) => if matches then Matched else Over
    case StartSession(_, _, started) => if started then Started else Over
    case ReleaseIp(_, _) => IpReleased
    case ReleaseUser(_, _) => Over
  }

  function PhasesAfter(actions: seq<Action>): Phases {
    if actions == [] then map[]
    else
      var a := actions[|actions| - 1];
      PhasesAfter(actions[..|actions| - 1])[a.r := Next(a)]
  }

  /** The call an action makes to the user limiter; `user` names the normalised key of a request. */
  function CallOf(user: nat -> string, a: Action): seq<Event> {
    match a
    case ReserveUser(r, at, admitted, retryAfter) => [Reserve(user(r), at, admitted, retryAfter)]
    case ReleaseUser(r, at) => [Succeed(user(r), at)]
    case _ => []
  }

  function UserCalls(user: nat -> string, actions: seq<Action>): seq<Event> {
    if actions == [] then []
    else UserCalls(user, actions[..|actions| - 1]) + CallOf(user, actions[|actions| - 1])
  }

  /** Every request takes its steps in order, the clock never goes back, and the user limiter
      answers as it does. */
  ghost predicate LoginRun(c: Config, user: nat -> string, actions: seq<Action>, states: seq<Attempts>) {
    && InOrder(actions)
    && Run(c, states, UserCalls(user, actions))
  }

  predicate InOrder(actions: seq<Action>) {
    actions == []
    || (InOrder(actions[..|actions| - 1])
        && MayFollow(actions[..|actions| - 1], actions[|actions| - 1]))
  }

  /** The request is in the right phase for the action, and the clock has not gone back. */
  predicate MayFollow(actions: seq<Action>, a: Action) {
    && Get(PhasesAfter(actions), a.r) == Needs(a)
    && (actions != [] ==> actions[|actions| - 1].at <= a.at)
  }

  // ----- Conservation of attempts -----

  function Verified(user: nat -> string, actions: seq<Action>, key: string, from: int, to: int): nat {
    if actions == [] then 0
    else
      var a := actions[|actions| - 1];
      Verified(user, actions[..|actions| - 1], key, from, to)
      + if a.Verify? && user(a.r) == key && from <= a.at < to then 1 else 0
  }

  /** The requests for this user that hold an attempt and have not run the password check. */
  function Pending(user: nat -> string, actions: seq<Action>, key: string): set<nat> {
    PendingIn(user, PhasesAfter(actions), key)
  }

  function PendingIn(user: nat -> string, phases: Phases, key: string): set<nat> {
    set r | r in phases && phases[r] == InFlight && user(r) == key
  }

  /** The actions before a point in time. */
  function Before(actions: seq<Action>, time: int): seq<Action> {
    if actions == [] then []
    else
      var a := actions[|actions| - 1];
      Before(actions[..|actions| - 1], time) + if a.at < time then [a] else []
  }

  lemma {:induction false} BeforeAll(actions: seq<Action>, time: int)
    requires InOrder(actions)
    requires actions != [] && actions[|actions| - 1].at < time
    ensures Before(actions, time) == actions
    ensures Before(actions[..|actions| - 1], time) == actions[..|actions| - 1]
  {
    var n := |actions| - 1;
    if n > 0 {
      assert actions[..n][n - 1] == actions[n - 1];
      BeforeAll(actions[..n], time);
    }
  }

  /** An admitted reservation makes one login pending, a password check ends one. */
  function PendingChange(user: nat -> string, a: Action, key: string): int {
    if user(a.r) != key then 0
    else if a.ReserveUser? && a.admitted then 1
    else if a.Verify? then -1
    else 0
  }

  lemma PendingUpdate(user: nat -> string, phases: Phases, r: nat, phase: Phase, key: string)
    ensures PendingIn(user, phases[r := phase], key)
            == if phase == InFlight && user(r) == key then PendingIn(user, phases, key) + {r}
               else PendingIn(user, phases, key) - {r}
  {
  }

  lemma PhaseStep(user: nat -> string, phases: Phases, a: Action, key: string)
    requires Get(phases, a.r) == Needs(a)
    ensures |PendingIn(user, phases[a.r := Next(a)], key)|
            == |PendingIn(user, phases, key)| + PendingChange(user, a, key)
  {
    var was := PendingIn(user, phases, key);
    PendingUpdate(user, phases, a.r, Next(a), key);
    assert a.r in was <==> a.Verify? && user(a.r) == key;
    assert a.r !in was ==> was - {a.r} == was;
  }

  lemma PendingStep(user: nat -> string, actions: seq<Action>, key: string)
    requires InOrder(actions) && actions != []
    ensures var n := |actions| - 1;
            |Pending(user, actions, key)|
            == |Pending(user, actions[..n], key)| + PendingChange(user, actions[n], key)
  {
    var n := |actions| - 1;
    PhaseStep(user, PhasesAfter(actions[..n]), actions[n], key);
  }

  lemma PendingBefore(user: nat -> string, actions: seq<Action>, key: string, time: int)
    requires InOrder(actions) && actions != []
    ensures var n := |actions| - 1;
            |Pending(user, Before(actions, time), key)|
            == |Pending(user, Before(actions[..n], time), key)|
               + if actions[n].at < time then PendingChange(user, actions[n], key) else 0
  {
    if actions[|actions| - 1].at < time {
      BeforeAll(actions, time);
      PendingStep(user, actions, key);
    } else {
      assert Before(actions, time) == Before(actions[..|actions| - 1], time);
    }
  }

  /** Password checks spend admitted attempts: the checks run within an interval and the
      attempts pending at its end are the attempts admitted in it and those pending at its
      beginning. */
  lemma {:induction false} AttemptsAreConserved(user: nat -> string, actions: seq<Action>, key: string,
                                                from: int, to: int)
    requires InOrder(actions) && from <= to
    ensures Verified(user, actions, key, from, to) + |Pending(user, Before(actions, to), key)|
            == AllowedIn(UserCalls(user, actions), key, from, to) + |Pending(user, Before(actions, from), key)|
  {
    if actions != [] {
      var n := |actions| - 1;
      PendingBefore(user, actions, key, from);
      PendingBefore(user, actions, key, to);
      CallsStep(user, actions, key, from, to);
      AttemptsAreConserved(user, actions[..n], key, from, to);
    }
  }

  lemma {:induction false} CallsStep(user: nat -> string, actions: seq<Action>, key: string, from: int, to: int)
    requires actions != []
    ensures var n := |actions| - 1;
            var a := actions[n];
            AllowedIn(UserCalls(user, actions), key, from, to)
            == AllowedIn(UserCalls(user, actions[..n]), key, from, to)
               + if a.ReserveUser? && a.admitted && user(a.r) == key && from <= a.at < to then 1 else 0
  {
    var n := |actions| - 1;
    var calls := UserCalls(user, actions[..n]);
    if UserCalls(user, actions) != calls {
      assert UserCalls(user, actions)[..|calls|] == calls;
    }
  }

  /** The bound on password checks for one user name, in every run and whatever is interleaved: in
      any half-open interval of one window's length, no more than the attempts the window may
      admit and the logins that already held an attempt when it began. */
  lemma ChecksAreBounded(c: Config, user: nat -> string, actions: seq<Action>, states: seq<Attempts>,
                         key: string, from: int)
    requires LoginRun(c, user, actions, states)
    ensures Verified(user, actions, key, from, from + c.window)
            <= Allowance(c, states, UserCalls(user, actions), key, from) + |Pending(user, Before(actions, from), key)|
  {
    WindowBound(c, states, UserCalls(user, actions), key, from);
    AttemptsAreConserved(user, actions, key, from, from + c.window);
  }

  // ----- Prompt logins -----

  /** When each request was last admitted by the user limiter. */
  function ReservedAt(actions: seq<Action>): map<nat, int> {
    if actions == [] then map[]
    else
      var a := actions[|actions| - 1];
      var before := ReservedAt(actions[..|actions| - 1]);
      if a.ReserveUser? then before[a.r := a.at] else before
  }

  /** Every login runs its password check within d of its reservation with the user limiter. */
  predicate Prompt(actions: seq<Action>, d: int) {
    actions == []
    || (Prompt(actions[..|actions| - 1], d)
        && InTime(ReservedAt(actions[..|actions| - 1]), actions[|actions| - 1], d))
  }

  predicate InTime(reserved: map<nat, int>, a: Action, d: int) {
    a.Verify? ==> a.r in reserved && a.at <= reserved[a.r] + d
  }

  /** The pending logins whose attempt was reserved in the interval. */
  function PendingFrom(user: nat -> string, actions: seq<Action>, key: string, from: int, to: int): set<nat> {
    ReservedIn(Pending(user, actions, key), ReservedAt(actions), from, to)
  }

  function ReservedIn(pending: set<nat>, reserved: map<nat, int>, from: int, to: int): set<nat> {
    set r | r in pending && r in reserved && from <= reserved[r] < to
  }

  lemma {:induction false} ReservedBefore(actions: seq<Action>, r: nat)
    requires InOrder(actions) && r in ReservedAt(actions)
    ensures actions != [] && ReservedAt(actions)[r] <= actions[|actions| - 1].at
  {
    var n := |actions| - 1;
    if r in ReservedAt(actions[..n]) {
      ReservedBefore(actions[..n], r);
    }
  }

  /** One action, seen from the sets: an admitted reservation adds its login to the pending ones
      of the interval, and a prompt check ends one of them. */
  lemma PromptUpdate(user: nat -> string, phases: Phases, reserved: map<nat, int>, a: Action,
                     key: string, from: int, to: int, d: int)
    requires Get(phases, a.r) == Needs(a) && InTime(reserved, a, d)
    requires a.r in reserved ==> reserved[a.r] <= a.at
    ensures var was := ReservedIn(PendingIn(user, phases, key), reserved, from, to);
            var left := ReservedIn(PendingIn(user, phases[a.r := Next(a)], key),
                                   if a.ReserveUser? then reserved[a.r := a.at] else reserved, from, to);
            if a.ReserveUser? && a.admitted && user(a.r) == key && from <= a.at < to
            then a.r !in was && left == was + {a.r}
            else left == was - {a.r} && (a.Verify? && user(a.r) == key && from + d <= a.at < to ==> a.r in was)
  {
    PendingUpdate(user, phases, a.r, Next(a), key);
  }

  lemma PromptStep(user: nat -> string, actions: seq<Action>, key: string, from: int, to: int, d: int)
    requires InOrder(actions) && Prompt(actions, d) && actions != []
    ensures var n := |actions| - 1;
            var a := actions[n];
            |PendingFrom(user, actions, key, from, to)|
            <= |PendingFrom(user, actions[..n], key, from, to)|
               + (if a.ReserveUser? && a.admitted && user(a.r) == key && from <= a.at < to then 1 else 0)
               - if a.Verify? && user(a.r) == key && from + d <= a.at < to then 1 else 0
  {
    var n := |actions| - 1;
    var a := actions[n];
    if a.r in ReservedAt(actions[..n]) {
      ReservedBefore(actions[..n], a.r);
    }
    PromptUpdate(user, PhasesAfter(actions[..n]), ReservedAt(actions[..n]), a, key, from, to, d);
    var was := PendingFrom(user, actions[..n], key, from, to);
    SubsetSize(was - {a.r}, was);
    assert a.r in was ==> |was - {a.r}| == |was| - 1;
  }

  /** With prompt checks, the checks of an interval spend attempts admitted in it or at most d
      before it. */
  lemma {:induction false} PromptChecksAreAdmitted(user: nat -> string, actions: seq<Action>, key: string,
                                                   from: int, to: int, d: int)
    requires InOrder(actions) && Prompt(actions, d) && d >= 0
    ensures Verified(user, actions, key, from + d, to) + |PendingFrom(user, actions, key, from, to)|
            <= AllowedIn(UserCalls(user, actions), key, from, to)
  {
    if actions != [] {
      PromptChecksAreAdmitted(user, actions[..|actions| - 1], key, from, to, d);
      PromptStep(user, actions, key, from, to, d);
      CallsStep(user, actions, key, from, to);
    }
  }

  /** When every login runs its check within d of its reservation, the logins pending at the
      beginning need not be counted: an interval shorter than the window by d holds no more checks
      than the window that ends with it may admit attempts. */
  lemma PromptChecksAreBounded(c: Config, user: nat -> string, actions: seq<Action>, states: seq<Attempts>,
                               key: string, from: int, d: int)
    requires LoginRun(c, user, actions, states) && Prompt(actions, d) && d >= 0
    ensures Verified(user, actions, key, from + d, from + c.window)
            <= Allowance(c, states, UserCalls(user, actions), key, from)
  {
    WindowBound(c, states, UserCalls(user, actions), key, from);
    PromptChecksAreAdmitted(user, actions, key, from, from + c.window, d);
  }

  // ----- Taking one more action -----

  lemma OneMoreAction(actions: seq<Action>, a: Action)
    requires InOrder(actions) && MayFollow(actions, a)
    ensures InOrder(actions + [a])
    ensures PhasesAfter(actions + [a]) == PhasesAfter(actions)[a.r := Next(a)]
  {
    assert (actions + [a])[..|actions|] == actions;
  }

  lemma OneMoreCall(user: nat -> string, actions: seq<Action>, a: Action)
    ensures UserCalls(user, actions + [a]) == UserCalls(user, actions) + CallOf(user, a)
  {
    assert (actions + [a])[..|actions|] == actions;
  }

  lemma OneMoreCheck(user: nat -> string, actions: seq<Action>, a: Action, key: string, from: int, to: int)
    ensures Verified(user, actions + [a], key, from, to)
            == Verified(user, actions, key, from, to)
               + if a.Verify? && user(a.r) == key && from <= a.at < to then 1 else 0
  {
    assert (actions + [a])[..|actions|] == actions;
  }

  /** Every request is for the same user. */
  function Always(key: string): nat -> string { _ => key }

  // ----- Why pending logins count, and how far the delay does -----

  /** Actions in order, with prompt checks, up to some time; requests from `next` on have not begun. */
  predicate Trace(actions: seq<Action>, d: int, next: nat, last: int) {
    && InOrder(actions) && Prompt(actions, d)
    && (actions != [] ==> actions[|actions| - 1].at <= last)
    && forall r :: r in PhasesAfter(actions) ==> r < next
  }

  lemma OneMorePrompt(actions: seq<Action>, a: Action, d: int)
    requires Prompt(actions, d) && InTime(ReservedAt(actions), a, d)
    ensures Prompt(actions + [a], d)
    ensures ReservedAt(actions + [a])
            == if a.ReserveUser? then ReservedAt(actions)[a.r := a.at] else ReservedAt(actions)
  {
    assert (actions + [a])[..|actions|] == actions;
  }

  /** The next request passes the limiter of its address and is answered by that of its user. */
  lemma Enter(actions: seq<Action>, d: int, next: nat, last: int, now: int, admitted: bool, retryAfter: int,
              key: string)
    returns (actions': seq<Action>)
    requires Trace(actions, d, next, last) && last <= now
    ensures Trace(actions', d, next + 1, now)
    ensures PhasesAfter(actions') == PhasesAfter(actions)[next := if admitted then InFlight else Over]
    ensures ReservedAt(actions') == ReservedAt(actions)[next := now]
    ensures UserCalls(Always(key), actions')
            == UserCalls(Always(key), actions) + [Reserve(key, now, admitted, retryAfter)]
    ensures forall from, to :: Verified(Always(key), actions', key, from, to)
                               == Verified(Always(key), actions, key, from, to)
  {
    var first, second := ReserveIp(next, now, true), ReserveUser(next, now, admitted, retryAfter);
    var a1 := actions + [first];
    actions' := a1 + [second];
    OneMoreAction(actions, first);
    OneMoreAction(a1, second);
    OneMorePrompt(actions, first, d);
    OneMorePrompt(a1, second, d);
    OneMoreCall(Always(key), actions, first);
    OneMoreCall(Always(key), a1, second);
    forall from, to
      ensures Verified(Always(key), actions', key, from, to) == Verified(Always(key), actions, key, from, to)
    {
      OneMoreCheck(Always(key), actions, first, key, from, to);
      OneMoreCheck(Always(key), a1, second, key, from, to);
    }
  }

  /** A pending login runs its check in time, and the password does not match. */
  lemma CheckNow(actions: seq<Action>, d: int, next: nat, last: int, r: nat, now: int, key: string)
    returns (actions': seq<Action>)
    requires Trace(actions, d, next, last) && last <= now
    requires Get(PhasesAfter(actions), r) == Some(InFlight)
    requires r in ReservedAt(actions) && now <= ReservedAt(actions)[r] + d
    ensures Trace(actions', d, next, now) && UserCalls(Always(key), actions') == UserCalls(Always(key), actions)
    ensures forall from, to :: Verified(Always(key), actions', key, from, to)
                               == Verified(Always(key), actions, key, from, to) + if from <= now < to then 1 else 0
  {
    var check := Verify(r, now, false);
    actions' := actions + [check];
    OneMoreAction(actions, check);
    OneMorePrompt(actions, check, d);
    OneMoreCall(Always(key), actions, check);
    assert UserCalls(Always(key), actions) + [] == UserCalls(Always(key), actions);
    forall from, to
      ensures Verified(Always(key), actions', key, from, to)
              == Verified(Always(key), actions, key, from, to) + if from <= now < to then 1 else 0
    {
      OneMoreCheck(Always(key), actions, check, key, from, to);
    }
  }

  /** n logins reserve at time 0. */
  lemma {:induction false} SpendActions(key: string, d: int, n: nat, from: int, to: int) returns (actions: seq<Action>)
    ensures Trace(actions, d, n, 0) && UserCalls(Always(key), actions) == SpendCalls(key, n)
    ensures Verified(Always(key), actions, key, from, to) == 0
    ensures n > 0 ==> Get(PhasesAfter(actions), 0) == Some(InFlight) && Get(ReservedAt(actions), 0) == Some(0)
  {
    if n == 0 {
      actions := [];
    } else {
      var before := SpendActions(key, d, n - 1, from, to);
      actions := Enter(before, d, n - 1, 0, 0, true, 0, key);
    }
  }

  /** The budget is spent at time 0, one more login is refused, and login 0 checks d later. */
  lemma LockActions(c: Config, key: string, d: int, now: int, from: int, to: int) returns (actions: seq<Action>)
    requires c.Valid() && 0 <= d <= now && from <= d < to
    ensures Trace(actions, d, c.max + 1, now) && UserCalls(Always(key), actions) == LockCalls(c, key, now, 0)
    ensures Verified(Always(key), actions, key, from, to) == 1
  {
    var spent := SpendActions(key, d, c.max, from, to);
    var refused := Enter(spent, d, c.max, 0, 0, false, c.window, key);
    actions := CheckNow(refused, d, c.max + 1, 0, 0, d, key);
  }

  /** And k more logins reserve and check later. */
  lemma {:induction false} LateActions(c: Config, key: string, d: int, now: int, k: nat, from: int, to: int)
    returns (actions: seq<Action>)
    requires c.Valid() && 0 <= d <= now && from <= d && now < to
    ensures Trace(actions, d, c.max + 1 + k, now) && UserCalls(Always(key), actions) == LockCalls(c, key, now, k)
    ensures Verified(Always(key), actions, key, from, to) == 1 + k
    decreases k
  {
    if k == 0 {
      actions := LockActions(c, key, d, now, from, to);
    } else {
      var before := LateActions(c, key, d, now, k - 1, from, to);
      var entered := Enter(before, d, c.max + k, now, now, true, 0, key);
      actions := CheckNow(entered, d, c.max + 1 + k, now, c.max + k, now, key);
    }
  }

  /** The bound for prompt logins is tight: a login that checks d after its reservation is checked
      together with the `max` admitted once the window is over. */
  lemma PromptBoundIsTight(c: Config, key: string, d: int, now: int, to: int)
    returns (actions: seq<Action>, states: seq<Attempts>)
    requires c.Valid() && 0 <= d <= now && c.window <= now < to
    ensures LoginRun(c, Always(key), actions, states) && BelowCapacity(states) && Prompt(actions, d)
    ensures Verified(Always(key), actions, key, d, to) == c.max + 1
    ensures SucceededIn(UserCalls(Always(key), actions), key, 0, to) == 0
  {
    actions := LateActions(c, key, d, now, c.max, d, to);
    states := LockRun(c, key, now, to, c.max);
  }

  /** Without the pending logins the bound fails: a login that waits a whole window between its
      reservation and its password check is checked together with the `max` admitted after it. */
  lemma PendingLoginsMustCount(c: Config, key: string) returns (actions: seq<Action>, states: seq<Attempts>)
    requires c.Valid()
    ensures LoginRun(c, Always(key), actions, states) && BelowCapacity(states)
    ensures var from := c.window + 1;
            && Verified(Always(key), actions, key, from, from + c.window) == c.max + 1
            && SucceededIn(UserCalls(Always(key), actions), key, from, from + c.window) == 0
  {
    var from := c.window + 1;
    actions, states := PromptBoundIsTight(c, key, from, from, from + c.window);
    FewerSuccesses(UserCalls(Always(key), actions), key, 0, from + c.window, from, from + c.window);
  }

  /** With checks within d of their reservations, every interval of this length, begun d after some
      instant, holds no more checks than the window from that instant may admit attempts. */
  ghost predicate PromptlyBounded(c: Config, d: int, length: int) {
    forall user, actions, states, key, from ::
      LoginRun(c, user, actions, states) && Prompt(actions, d) ==>
        ChecksWithin(c, user, actions, states, key, from, d, length)
  }

  predicate ChecksWithin(c: Config, user: nat -> string, actions: seq<Action>, states: seq<Attempts>,
                         key: string, from: int, d: int, length: int)
    requires |states| == |UserCalls(user, actions)| + 1
  {
    Verified(user, actions, key, from + d, from + d + length)
    <= Allowance(c, states, UserCalls(user, actions), key, from)
  }

  lemma {:induction false} FewerChecks(user: nat -> string, actions: seq<Action>, key: string,
                                       from: int, to: int, end: int)
    requires to <= end
    ensures Verified(user, actions, key, from, to) <= Verified(user, actions, key, from, end)
  {
    if actions != [] {
      FewerChecks(user, actions[..|actions| - 1], key, from, to, end);
    }
  }

  lemma {:induction false} NoChecks(user: nat -> string, actions: seq<Action>, key: string, from: int)
    ensures Verified(user, actions, key, from, from) == 0
  {
    if actions != [] {
      NoChecks(user, actions[..|actions| - 1], key, from);
    }
  }

  lemma AllowanceWithoutSuccess(c: Config, states: seq<Attempts>, events: seq<Event>, key: string, to: int)
    requires Run(c, states, events) && BelowCapacity(states)
    requires c.window <= to && SucceededIn(events, key, 0, to) == 0
    ensures Allowance(c, states, events, key, 0) == c.max
  {
    FewerSuccesses(events, key, 0, to, 0, c.window);
    NoEvictions(c, states, events, key, 0, c.window);
    assert c.max * (0 + 0 + 1) == c.max;
  }

  /** The witness exceeds the allowance, which is the plain budget. */
  lemma TooLongRun(c: Config, key: string, d: int, length: int) returns (actions: seq<Action>, states: seq<Attempts>)
    requires c.Valid() && d >= 0 && length > 0 && d + length > c.window
    ensures LoginRun(c, Always(key), actions, states) && Prompt(actions, d)
    ensures !ChecksWithin(c, Always(key), actions, states, key, 0, d, length)
  {
    actions, states := PromptBoundIsTight(c, key, d, if d >= c.window then d else c.window, d + length);
    AllowanceWithoutSuccess(c, states, UserCalls(Always(key), actions), key, d + length);
  }

  lemma AllowanceIsNatural(c: Config, states: seq<Attempts>, events: seq<Event>, key: string, from: int)
    requires c.Valid() && |states| == |events| + 1
    ensures Allowance(c, states, events, key, from) >= 0
  {
  }

  lemma NothingHolds(c: Config, user: nat -> string, actions: seq<Action>, states: seq<Attempts>,
                     key: string, from: int, d: int)
    requires LoginRun(c, user, actions, states)
    ensures ChecksWithin(c, user, actions, states, key, from, d, 0)
  {
    NoChecks(user, actions, key, from + d);
    AllowanceIsNatural(c, states, UserCalls(user, actions), key, from);
  }

  lemma ShortHolds(c: Config, user: nat -> string, actions: seq<Action>, states: seq<Attempts>,
                   key: string, from: int, d: int, length: int)
    requires LoginRun(c, user, actions, states) && Prompt(actions, d) && d >= 0
    requires d + length <= c.window
    ensures ChecksWithin(c, user, actions, states, key, from, d, length)
  {
    PromptChecksAreBounded(c, user, actions, states, key, from, d);
    FewerChecks(user, actions, key, from + d, from + d + length, from + c.window);
  }

  /** Exactly how long such an interval may be: delay and interval together must fit the window. */
  lemma PromptlyBoundedIff(c: Config, d: int, length: int)
    requires c.Valid() && d >= 0 && length >= 0
    ensures PromptlyBounded(c, d, length) <==> length == 0 || d + length <= c.window
  {
    if length > 0 && d + length > c.window {
      var actions, states := TooLongRun(c, "", d, length);
    } else {
      forall user, actions, states, key, from | LoginRun(c, user, actions, states) && Prompt(actions, d)
        ensures ChecksWithin(c, user, actions, states, key, from, d, length)
      {
        if length == 0 {
          NothingHolds(c, user, actions, states, key, from, d);
        } else {
          ShortHolds(c, user, actions, states, key, from, d, length);
        }
      }
    }
  }

  // ----- The steps are what the handler does -----

  /** These calls, one after the other, lead the limiter through these maps. */
  ghost predicate Answers(c: Config, states: seq<Attempts>, calls: seq<Event>) {
    |states| == |calls| + 1 && forall i :: 0 <= i < |calls| ==> StepAt(c, states, calls, i)
  }

  /** The actions of a request that gets through both limiters. */
  function Passing(r: nat, ipNow: int, userNow: int): seq<Action> {
    [ReserveIp(r, ipNow, true), ReserveUser(r, userNow, true, 0)]
  }

  function Checked(r: nat, ipNow: int, userNow: int, now: int, matches: bool): seq<Action> {
    Passing(r, ipNow, userNow) + [Verify(r, now, matches)]
  }

  /** The actions of a request that ends in this response. */
  function ActionsOf(r: nat, response: Login.Response, gate: Login.Gate, retryAfter: int,
                     ipNow: int, userNow: int, now: int): seq<Action>
  {
    match response
    case BadRequest => []
    case Lockout(_) =>
      if gate.ClosedByIp? then [ReserveIp(r, ipNow, false)]
      else [ReserveIp(r, ipNow, true), ReserveUser(r, userNow, false, retryAfter)]
    case Unauthorized => Checked(r, ipNow, userNow, now, false)
    case ServerError => Checked(r, ipNow, userNow, now, true) + [StartSession(r, now, false)]
    case LoggedIn(_, _) =>
      Checked(r, ipNow, userNow, now, true) + [StartSession(r, now, true)] + [ReleaseIp(r, now)] + [ReleaseUser(r, now)]
  }

  /** The calls these actions make to the user limiter. */
  function CallsOf(response: Login.Response, gate: Login.Gate, retryAfter: int, key: string,
                   userNow: int, now: int): seq<Event>
  {
    match response
    case BadRequest => []
    case Lockout(_) => if gate.ClosedByIp? then [] else [Reserve(key, userNow, false, retryAfter)]
    case LoggedIn(_, _) => [Reserve(key, userNow, true, 0)] + [Succeed(key, now)]
    case _ => [Reserve(key, userNow, true, 0)]
  }

  lemma ClosedInOrder(r: nat, gate: Login.Gate, retryAfter: int, ipNow: int, userNow: int, now: int,
                      seconds: int, key: string)
    requires ipNow <= userNow
    ensures var response := Login.Lockout(seconds);
            var actions := ActionsOf(r, response, gate, retryAfter, ipNow, userNow, now);
            && InOrder(actions) && Get(PhasesAfter(actions), r) == Some(Phase.Over)
            && UserCalls(Always(key), actions) == CallsOf(response, gate, retryAfter, key, userNow, now)
  {
    var first, second := ReserveIp(r, ipNow, !gate.ClosedByIp?), ReserveUser(r, userNow, false, retryAfter);
    assert [] + [first] == [first];
    OneMoreAction([], first);
    OneMoreCall(Always(key), [], first);
    if !gate.ClosedByIp? {
      assert [first] + [second] == [first, second];
      OneMoreAction([first], second);
      OneMoreCall(Always(key), [first], second);
    }
  }

  lemma PassedInOrder(r: nat, ipNow: int, userNow: int, key: string)
    requires ipNow <= userNow
    ensures var actions := Passing(r, ipNow, userNow);
            && InOrder(actions) && Get(PhasesAfter(actions), r) == Some(InFlight)
            && UserCalls(Always(key), actions) == [Reserve(key, userNow, true, 0)]
  {
    var first, second := ReserveIp(r, ipNow, true), ReserveUser(r, userNow, true, 0);
    assert [] + [first] == [first];
    OneMoreAction([], first);
    OneMoreCall(Always(key), [], first);
    assert [first] + [second] == [first, second];
    OneMoreAction([first], second);
    OneMoreCall(Always(key), [first], second);
  }

  /** An action of the request that makes no call to the user limiter. */
  lemma QuietAction(actions: seq<Action>, a: Action, calls: seq<Event>, key: string)
    requires InOrder(actions) && Get(PhasesAfter(actions), a.r) == Needs(a)
    requires actions != [] && actions[|actions| - 1].at <= a.at
    requires UserCalls(Always(key), actions) == calls && !a.ReserveUser? && !a.ReleaseUser?
    ensures InOrder(actions + [a]) && Get(PhasesAfter(actions + [a]), a.r) == Some(Next(a))
    ensures UserCalls(Always(key), actions + [a]) == calls
  {
    OneMoreAction(actions, a);
    OneMoreCall(Always(key), actions, a);
    assert calls + [] == calls;
  }

  lemma CheckedInOrder(r: nat, ipNow: int, userNow: int, now: int, matches: bool, key: string)
    requires ipNow <= userNow <= now
    ensures var actions := Checked(r, ipNow, userNow, now, matches);
            && InOrder(actions) && Get(PhasesAfter(actions), r) == Some(if matches then Matched else Phase.Over)
            && UserCalls(Always(key), actions) == [Reserve(key, userNow, true, 0)]
  {
    PassedInOrder(r, ipNow, userNow, key);
    QuietAction(Passing(r, ipNow, userNow), Verify(r, now, matches), [Reserve(key, userNow, true, 0)], key);
  }

  lemma StartedInOrder(r: nat, ipNow: int, userNow: int, now: int, started: bool, key: string)
    requires ipNow <= userNow <= now
    ensures var actions := Checked(r, ipNow, userNow, now, true) + [StartSession(r, now, started)];
            && InOrder(actions) && Get(PhasesAfter(actions), r) == Some(if started then Started else Phase.Over)
            && UserCalls(Always(key), actions) == [Reserve(key, userNow, true, 0)]
  {
    CheckedInOrder(r, ipNow, userNow, now, true, key);
    QuietAction(Checked(r, ipNow, userNow, now, true), StartSession(r, now, started),
                [Reserve(key, userNow, true, 0)], key);
  }

  lemma ReleasedInOrder(r: nat, actions: seq<Action>, calls: seq<Event>, now: int, key: string)
    requires InOrder(actions) && actions != [] && actions[|actions| - 1].at <= now
    requires Get(PhasesAfter(actions), r) == Some(Started) && UserCalls(Always(key), actions) == calls
    ensures var all := actions + [ReleaseIp(r, now)] + [ReleaseUser(r, now)];
            && InOrder(all) && Get(PhasesAfter(all), r) == Some(Phase.Over)
            && UserCalls(Always(key), all) == calls + [Succeed(key, now)]
  {
    QuietAction(actions, ReleaseIp(r, now), calls, key);
    OneMoreAction(actions + [ReleaseIp(r, now)], ReleaseUser(r, now));
    OneMoreCall(Always(key), actions + [ReleaseIp(r, now)], ReleaseUser(r, now));
  }

  lemma LoggedInOrder(r: nat, ipNow: int, userNow: int, now: int, key: string)
    requires ipNow <= userNow <= now
    ensures var actions := Checked(r, ipNow, userNow, now, true) + [StartSession(r, now, true)]
                           + [ReleaseIp(r, now)] + [ReleaseUser(r, now)];
            && InOrder(actions) && Get(PhasesAfter(actions), r) == Some(Phase.Over)
            && UserCalls(Always(key), actions) == [Reserve(key, userNow, true, 0)] + [Succeed(key, now)]
  {
    StartedInOrder(r, ipNow, userNow, now, true, key);
    ReleasedInOrder(r, Checked(r, ipNow, userNow, now, true) + [StartSession(r, now, true)],
                    [Reserve(key, userNow, true, 0)], now, key);
  }

  lemma ActionsInOrder(r: nat, response: Login.Response, gate: Login.Gate, retryAfter: int,
                       ipNow: int, userNow: int, now: int, key: string)
    requires ipNow <= userNow <= now
    ensures var actions := ActionsOf(r, response, gate, retryAfter, ipNow, userNow, now);
            && InOrder(actions)
            && Get(PhasesAfter(actions), r) == (if response.BadRequest? then None else Some(Phase.Over))
            && (Verify(r, now, !response.Unauthorized?) in actions <==> !response.BadRequest? && !response.Lockout?)
            && UserCalls(Always(key), actions) == CallsOf(response, gate, retryAfter, key, userNow, now)
  {
    match response
    case BadRequest =>
    case Lockout(seconds) => ClosedInOrder(r, gate, retryAfter, ipNow, userNow, now, seconds, key);
    case Unauthorized => CheckedInOrder(r, ipNow, userNow, now, false, key);
    case ServerError => StartedInOrder(r, ipNow, userNow, now, false, key);
    case LoggedIn(_, _) => LoggedInOrder(r, ipNow, userNow, now, key);
  }

  /** The maps of the user limiter from one call of a request to the next. */
  function StatesOf(response: Login.Response, gate: Login.Gate, was: Attempts, reserved: Attempts, end: Attempts)
    : seq<Attempts>
  {
    match response
    case BadRequest => [was]
    case Lockout(_) => if gate.ClosedByIp? then [was] else [was, reserved]
    case LoggedIn(_, _) => [was, reserved, end]
    case _ => [was, reserved]
  }

  lemma CallsAnswered(c: Config, response: Login.Response, gate: Login.Gate, retryAfter: int, key: string,
                      userNow: int, now: int, was: Attempts, reserved: Attempts, end: Attempts)
    requires var closed := response.BadRequest? || (response.Lockout? && gate.ClosedByIp?);
             closed || ReserveStep(c, was, key, userNow, reserved, !response.Lockout?,
                                   if response.Lockout? then retryAfter else 0)
    requires response.LoggedIn? ==> end == reserved - {key}
    ensures Answers(c, StatesOf(response, gate, was, reserved, end),
                    CallsOf(response, gate, retryAfter, key, userNow, now))
  {
    var states := StatesOf(response, gate, was, reserved, end);
    var calls := CallsOf(response, gate, retryAfter, key, userNow, now);
    forall i: nat | i < |calls| ensures StepAt(c, states, calls, i) {
      assert calls[i] == if i == 1 then Succeed(key, now)
                         else Reserve(key, userNow, !response.Lockout?, if response.Lockout? then retryAfter else 0);
      assert Step(c, states[i], calls[i], states[i + 1]);
    }
  }

  /** What a response says about the two reservations, as Handler.Login promises it. */
  ghost predicate Explains(c: Config, response: Login.Response, gate: Login.Gate, key: string, userNow: int,
                           was: Attempts, reserved: Attempts, end: Attempts)
  {
    && (response.BadRequest? ==> reserved == was)
    && (response.Lockout? ==>
          match gate
          case Open => false
          case ClosedByIp(_) => reserved == was
          case ClosedByUser(seconds) => Login.Refused(c, was, key, userNow, reserved, seconds))
    && (!response.BadRequest? && !response.Lockout? ==> Login.Admitted(c, was, key, userNow, reserved))
    && end == if response.LoggedIn? then reserved - {key} else reserved
  }

  /** How long the refusal of the user limiter lasts, if there is one. */
  lemma ExplainedCall(c: Config, response: Login.Response, gate: Login.Gate, key: string, userNow: int,
                      was: Attempts, reserved: Attempts, end: Attempts) returns (retryAfter: int)
    requires Explains(c, response, gate, key, userNow, was, reserved, end)
    ensures response.BadRequest? || (response.Lockout? && gate.ClosedByIp?)
            || ReserveStep(c, was, key, userNow, reserved, !response.Lockout?,
                           if response.Lockout? then retryAfter else 0)
    ensures response.LoggedIn? ==> end == reserved - {key}
  {
    retryAfter := 0;
    if response.Lockout? && gate.ClosedByUser? {
      retryAfter :| ReserveStep(c, was, key, userNow, reserved, false, retryAfter);
    }
  }

  lemma StatesAre(c: Config, response: Login.Response, gate: Login.Gate, key: string, userNow: int,
                  was: Attempts, reserved: Attempts, end: Attempts)
    requires Explains(c, response, gate, key, userNow, was, reserved, end)
    ensures var states := StatesOf(response, gate, was, reserved, end);
            states != [] && states[0] == was && states[|states| - 1] == end
  {
  }

  lemma ExplainedInOrder(c: Config, r: nat, response: Login.Response, gate: Login.Gate, key: string,
                         ipNow: int, userNow: int, now: int, was: Attempts, reserved: Attempts, end: Attempts)
    returns (actions: seq<Action>, states: seq<Attempts>)
    requires ipNow <= userNow <= now && Explains(c, response, gate, key, userNow, was, reserved, end)
    ensures InOrder(actions) && Get(PhasesAfter(actions), r) == if response.BadRequest? then None else Some(Phase.Over)
    ensures Verify(r, now, !response.Unauthorized?) in actions <==> !response.BadRequest? && !response.Lockout?
    ensures exists retryAfter :: actions == ActionsOf(r, response, gate, retryAfter, ipNow, userNow, now)
    ensures Answers(c, states, UserCalls(Always(key), actions))
    ensures states[0] == was && states[|states| - 1] == end
  {
    var retryAfter := ExplainedCall(c, response, gate, key, userNow, was, reserved, end);
    StatesAre(c, response, gate, key, userNow, was, reserved, end);
    actions := ActionsOf(r, response, gate, retryAfter, ipNow, userNow, now);
    states := StatesOf(response, gate, was, reserved, end);
    ActionsInOrder(r, response, gate, retryAfter, ipNow, userNow, now, key);
    CallsAnswered(c, response, gate, retryAfter, key, userNow, now, was, reserved, end);
  }

  /** Handling one request takes its actions in order and to the end, with a password check unless
      it was malformed or locked out, and the user limiter sees just the calls these amount to. */
  method PerformLogin(h: Login.Handler, ghost r: nat, clientKey: string, username: string, password: string,
                      normalise: string -> string, verify: (string, string) -> Option<string>,
                      drawn: bool, token: string, ipNow: int, userNow: int, now: int)
    returns (response: Login.Response, ghost actions: seq<Action>, ghost states: seq<Attempts>)
    requires h.ipLimiter != h.userLimiter && h.ipLimiter.config.Valid() && h.userLimiter.config.Valid()
    requires ipNow <= userNow <= now
    modifies h.ipLimiter, h.userLimiter, h.sessions
    ensures InOrder(actions) && Get(PhasesAfter(actions), r) == if response.BadRequest? then None else Some(Phase.Over)
    ensures Verify(r, now, !response.Unauthorized?) in actions <==> !response.BadRequest? && !response.Lockout?
    ensures exists gate, retryAfter :: actions == ActionsOf(r, response, gate, retryAfter, ipNow, userNow, now)
    ensures Answers(h.userLimiter.config, states, UserCalls(Always(Login.UserKey(normalise, username)), actions))
    ensures states[0] == old(h.userLimiter.attempts) && states[|states| - 1] == h.userLimiter.attempts
  {
    ghost var was := h.userLimiter.attempts;
    ghost var gate, ip, user;
    response, gate, ip, user := h.Login(clientKey, username, password, normalise, verify, drawn, token,
                                        ipNow, userNow, now);
    actions, states := ExplainedInOrder(h.userLimiter.config, r, response, gate, Login.UserKey(normalise, username),
                                        ipNow, userNow, now, was, user, h.userLimiter.attempts);
  }
}
