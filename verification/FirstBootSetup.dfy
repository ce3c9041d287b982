/**
  Concurrent first-boot setup posts (cmd/web/auth.go setupSubmit, setupClosed), as a state machine
  over their statements. A post holds the setup mutex from its first statement to its return;
  other requests may create and remove accounts at any moment, and any statement may fail.
*/
module FirstBootSetup {
  import opened Wrappers

  /** What a post carries: whether its token equals the instance's, and whether its credentials pass. */
  datatype Post = Post(tokenMatches: bool, credentialsOk: bool)

  datatype Phase =
    | Waiting
    | Holding
    | Open
    | Returned(created: Option<int>)

  datatype Request = Request(post: Post, phase: Phase)

  /** `admins` lists the accounts setup made, in order; no step reads it. */
  datatype System = System(tokenSet: bool, accounts: set<int>, nextId: int, lock: Option<nat>,
                           requests: seq<Request>, admins: seq<int>)

  datatype Step =
    | AcquireStep(p: nat)
    | CheckStep(p: nat, storeOk: bool)
    | CreateStep(p: nat, storeOk: bool)
    | OtherAccountStep
    | RemoveAccountStep(id: int)

  function SetPhase(s: System, p: nat, phase: Phase): System
    requires p < |s.requests|
  {
    s.(requests := s.requests[p := s.requests[p].(phase := phase)])
  }

  function Return(s: System, p: nat, created: Option<int>): System
    requires p < |s.requests|
  {
    SetPhase(s, p, Returned(created)).(lock := None)
  }

  predicate Enabled(s: System, step: Step) {
    match step
    case AcquireStep(p) => p < |s.requests| && s.requests[p].phase.Waiting? && s.lock.None?
    case CheckStep(p, _) => p < |s.requests| && s.requests[p].phase.Holding?
    case CreateStep(p, _) => p < |s.requests| && s.requests[p].phase.Open?
    case OtherAccountStep => true
    case RemoveAccountStep(id) => id in s.accounts
  }

  /** setupClosed: no token configured, the count failed, or an account exists. */
  function Check(s: System, p: nat, storeOk: bool): System
    requires p < |s.requests|
  {
    if !s.tokenSet || !storeOk || s.accounts != {} then Return(s, p, None) else SetPhase(s, p, Open)
  }

  function Create(s: System, p: nat, storeOk: bool): System
    requires p < |s.requests|
  {
    var post := s.requests[p].post;
    if !post.tokenMatches || !post.credentialsOk || !storeOk then Return(s, p, None)
    else Return(s, p, Some(s.nextId)).(accounts := s.accounts + {s.nextId}, nextId := s.nextId + 1,
                                       admins := s.admins + [s.nextId])
  }

  function Apply(s: System, step: Step): System
    requires Enabled(s, step)
  {
    match step
    case AcquireStep(p) => SetPhase(s, p, Holding).(lock := Some(p))
    case CheckStep(p, storeOk) => Check(s, p, storeOk)
    case CreateStep(p, storeOk) => Create(s, p, storeOk)
    case OtherAccountStep => s.(accounts := s.accounts + {s.nextId}, nextId := s.nextId + 1)
    case RemoveAccountStep(id) => s.(accounts := s.accounts - {id})
  }

  ghost predicate Init(s: System) {
    && s.lock.None? && s.admins == []
    && forall p :: 0 <= p < |s.requests| ==> s.requests[p].phase.Waiting?
  }

  ghost predicate StepsTo(s: System, step: Step, s': System) {
    Enabled(s, step) && s' == Apply(s, step)
  }

  ghost predicate IsRun(states: seq<System>, steps: seq<Step>) {
    && |states| == |steps| + 1
    && Init(states[0])
    && forall k :: 0 <= k < |steps| ==> StepsTo(states[k], steps[k], states[k + 1])
  }

  /** A post past its first statement is the one that holds the mutex. */
  ghost predicate HoldsLock(s: System, p: nat)
    requires p < |s.requests|
  {
    && (s.requests[p].phase.Holding? || s.requests[p].phase.Open? ==> s.lock == Some(p))
    && (s.requests[p].phase.Open? ==> s.tokenSet)
  }

  /** A post that returned with an account carried the instance's token and good credentials. */
  ghost predicate ReportsAdmin(s: System, p: nat)
    requires p < |s.requests|
  {
    s.requests[p].phase.Returned? && s.requests[p].phase.created.Some? ==>
      && s.requests[p].phase.created.value in s.admins
      && s.requests[p].post.tokenMatches && s.requests[p].post.credentialsOk
  }

  /** The post that made an admin, carrying the instance's token and good credentials. */
  ghost predicate MadeBy(s: System, admin: int, p: nat) {
    && p < |s.requests|
    && s.requests[p].phase == Returned(Some(admin))
    && s.requests[p].post.tokenMatches && s.requests[p].post.credentialsOk
  }

  ghost predicate WasMade(s: System, admin: int) {
    exists p :: MadeBy(s, admin, p)
  }

  /** The holder of the mutex has found the instance without accounts. */
  predicate SomeOpen(s: System) {
    s.lock.Some? && s.lock.value < |s.requests| && s.requests[s.lock.value].phase.Open?
  }

  /** The admins setup has made and may still make before an account exists again. */
  function Chances(s: System): nat {
    |s.admins| + if SomeOpen(s) || s.accounts == {} then 1 else 0
  }

  /** The step took the last account away. */
  predicate Empties(s: System, s': System) {
    s.accounts != {} && s'.accounts == {}
  }

  /** How often the store was without accounts: at the start, or by a removal. */
  function TimesEmpty(states: seq<System>): nat
    requires states != []
  {
    if |states| == 1 then (if states[0].accounts == {} then 1 else 0)
    else
      TimesEmpty(states[..|states| - 1]) + if Empties(states[|states| - 2], states[|states| - 1]) then 1 else 0
  }

  ghost predicate Invariant(s: System) {
    && (forall p :: 0 <= p < |s.requests| ==> HoldsLock(s, p) && ReportsAdmin(s, p))
    && (s.admins != [] ==> s.tokenSet)
    && (forall i :: 0 <= i < |s.admins| ==> WasMade(s, s.admins[i]))
  }

  lemma StepKeepsMade(s: System, step: Step)
    requires Invariant(s) && Enabled(s, step)
    ensures forall i :: 0 <= i < |Apply(s, step).admins| ==> WasMade(Apply(s, step), Apply(s, step).admins[i])
  {
    var s' := Apply(s, step);
    forall i | 0 <= i < |s'.admins|
      ensures WasMade(s', s'.admins[i])
    {
      if i < |s.admins| {
        assert WasMade(s, s.admins[i]);
        var p :| MadeBy(s, s.admins[i], p);
        assert MadeBy(s', s.admins[i], p);
      } else {
        assert MadeBy(s', s'.admins[i], step.p);
      }
    }
  }

  lemma StepKeepsInvariant(s: System, step: Step)
    requires Invariant(s) && Enabled(s, step)
    ensures Invariant(Apply(s, step))
  {
    var s' := Apply(s, step);
    StepKeepsMade(s, step);
    if step.CheckStep? || step.CreateStep? {
      assert HoldsLock(s, step.p);
    }
    forall q: nat | q < |s'.requests|
      ensures HoldsLock(s', q) && ReportsAdmin(s', q)
    {
      assert HoldsLock(s, q);
      assert ReportsAdmin(s, q);
    }
  }

  /** Only taking the last account away gives setup another chance. */
  lemma StepSpendsChances(s: System, step: Step)
    requires Invariant(s) && Enabled(s, step)
    ensures Chances(Apply(s, step)) <= Chances(s) + if Empties(s, Apply(s, step)) then 1 else 0
  {
    if step.CheckStep? || step.CreateStep? {
      assert HoldsLock(s, step.p);
    }
  }

  lemma {:induction false} RunKeepsInvariant(states: seq<System>, steps: seq<Step>)
    requires IsRun(states, steps)
    ensures Invariant(states[|steps|])
    ensures Chances(states[|steps|]) <= TimesEmpty(states)
    decreases |steps|
  {
    if |steps| > 0 {
      var n := |steps| - 1;
      forall k | 0 <= k < n
        ensures StepsTo(states[..n + 1][k], steps[..n][k], states[..n + 1][k + 1])
      {
        assert StepsTo(states[k], steps[k], states[k + 1]);
      }
      RunKeepsInvariant(states[..n + 1], steps[..n]);
      assert states[..n + 1] == states[..|states| - 1];
      assert StepsTo(states[n], steps[n], states[n + 1]);
      StepKeepsInvariant(states[n], steps[n]);
      StepSpendsChances(states[n], steps[n]);
    }
  }

  /** Under any number of concurrent setup posts, with other accounts created and removed beside them,
      setup makes no more admins than the store was without accounts: at the start or by a removal. */
  lemma SetupMakesOneAdminPerEmptyStore(states: seq<System>, steps: seq<Step>)
    requires IsRun(states, steps)
    ensures |states[|steps|].admins| <= TimesEmpty(states)
    ensures states[|steps|].admins != [] ==> states[|steps|].tokenSet
  {
    RunKeepsInvariant(states, steps);
  }

  /** So, while the last account is never taken away, at most one post makes an admin, and none does on an
      instance that began with an account or has no token. */
  lemma SetupMakesAtMostOneAdmin(states: seq<System>, steps: seq<Step>, p: nat, q: nat)
    requires IsRun(states, steps)
    requires TimesEmpty(states) == if states[0].accounts == {} then 1 else 0
    requires p < |states[|steps|].requests| && q < |states[|steps|].requests|
    requires states[|steps|].requests[p].phase.Returned? && states[|steps|].requests[p].phase.created.Some?
    requires states[|steps|].requests[q].phase.Returned? && states[|steps|].requests[q].phase.created.Some?
    ensures states[|steps|].requests[p].phase == states[|steps|].requests[q].phase
    ensures |states[|steps|].admins| == 1 && states[0].accounts == {} && states[|steps|].tokenSet
  {
    RunKeepsInvariant(states, steps);
    assert ReportsAdmin(states[|steps|], p) && ReportsAdmin(states[|steps|], q);
  }

  /** Over any run a post that came back with an account carried the instance's token and good
      credentials, and every admin setup made was made by such a post. */
  lemma AdminsNeedTheToken(states: seq<System>, steps: seq<Step>)
    requires IsRun(states, steps)
    ensures var s := states[|steps|];
            && (forall p :: 0 <= p < |s.requests| ==> ReportsAdmin(s, p))
            && (forall i :: 0 <= i < |s.admins| ==> WasMade(s, s.admins[i]))
  {
    RunKeepsInvariant(states, steps);
    var s := states[|steps|];
    forall p | 0 <= p < |s.requests|
      ensures ReportsAdmin(s, p)
    {
      assert HoldsLock(s, p) && ReportsAdmin(s, p);
    }
  }

  /** Setup is open to a post exactly when a token is configured, the store answers and it holds no
      account; and an open post makes an admin exactly when its token and its credentials are good and
      the store works. */
  lemma PostMakesAdminExactly(s: System, p: nat, storeOk: bool)
    requires p < |s.requests|
    ensures s.requests[p].phase.Holding? ==>
              var s' := Apply(s, CheckStep(p, storeOk));
              && (s'.requests[p].phase == Open <==> s.tokenSet && storeOk && s.accounts == {})
              && (s'.requests[p].phase != Open ==> s'.requests[p].phase == Returned(None) && s'.lock == None)
              && s'.admins == s.admins && s'.accounts == s.accounts
    ensures s.requests[p].phase.Open? ==>
              var s' := Apply(s, CreateStep(p, storeOk));
              var good := s.requests[p].post.tokenMatches && s.requests[p].post.credentialsOk && storeOk;
              && s'.requests[p].phase == Returned(if good then Some(s.nextId) else None)
              && s'.admins == (if good then s.admins + [s.nextId] else s.admins)
              && s'.accounts == (if good then s.accounts + {s.nextId} else s.accounts)
              && s'.lock == None
  {
  }

  lemma StepMore(states: seq<System>, steps: seq<Step>, step: Step, s': System) returns (longer: seq<System>, more: seq<Step>)
    requires IsRun(states, steps) && StepsTo(states[|steps|], step, s')
    ensures longer == states + [s'] && more == steps + [step] && IsRun(longer, more)
    ensures TimesEmpty(longer) == TimesEmpty(states) + if Empties(states[|steps|], s') then 1 else 0
  {
    longer, more := states + [s'], steps + [step];
    assert longer[..|longer| - 1] == states;
    forall k | 0 <= k < |more|
      ensures StepsTo(longer[k], more[k], longer[k + 1])
    {
      if k < |steps| {
        assert StepsTo(states[k], steps[k], states[k + 1]);
      }
    }
  }

  /** Two posts that pass every check, and the admins setup has made. */
  function TwoPosts(accounts: set<int>, nextId: int, lock: Option<nat>, first: Phase, second: Phase, admins: seq<int>): System {
    System(true, accounts, nextId, lock, [Request(Post(true, true), first), Request(Post(true, true), second)], admins)
  }

  lemma FirstAdmin() returns (states: seq<System>, steps: seq<Step>)
    ensures IsRun(states, steps) && TimesEmpty(states) == 1
    ensures states[|steps|] == TwoPosts({0}, 1, None, Returned(Some(0)), Waiting, [0])
  {
    states, steps := [TwoPosts({}, 0, None, Waiting, Waiting, [])], [];
    states, steps := StepMore(states, steps, AcquireStep(0), TwoPosts({}, 0, Some(0), Holding, Waiting, []));
    states, steps := StepMore(states, steps, CheckStep(0, true), TwoPosts({}, 0, Some(0), Open, Waiting, []));
    states, steps := StepMore(states, steps, CreateStep(0, true), TwoPosts({0}, 1, None, Returned(Some(0)), Waiting, [0]));
  }

  /** And the bound is met: an admin made by setup, then removed, leaves setup open for a second. */
  lemma EmptiedStoreReopensSetup() returns (states: seq<System>, steps: seq<Step>)
    ensures IsRun(states, steps) && TimesEmpty(states) == 2 && states[|steps|].admins == [0, 1]
  {
    var done := Returned(Some(0));
    states, steps := FirstAdmin();
    states, steps := StepMore(states, steps, RemoveAccountStep(0), TwoPosts({}, 1, None, done, Waiting, [0]));
    states, steps := StepMore(states, steps, AcquireStep(1), TwoPosts({}, 1, Some(1), done, Holding, [0]));
    states, steps := StepMore(states, steps, CheckStep(1, true), TwoPosts({}, 1, Some(1), done, Open, [0]));
    states, steps := StepMore(states, steps, CreateStep(1, true), TwoPosts({1}, 2, None, done, Returned(Some(1)), [0, 1]));
  }

  /** Nothing but the check looks at the accounts: one that another request makes after an open check does
      not stop the post from making its admin. */
  lemma AdminBesideAnotherAccount() returns (states: seq<System>, steps: seq<Step>)
    ensures IsRun(states, steps) && TimesEmpty(states) == 1
    ensures states[|steps|] == TwoPosts({0, 1}, 2, None, Returned(Some(1)), Waiting, [1])
  {
    states, steps := [TwoPosts({}, 0, None, Waiting, Waiting, [])], [];
    states, steps := StepMore(states, steps, AcquireStep(0), TwoPosts({}, 0, Some(0), Holding, Waiting, []));
    states, steps := StepMore(states, steps, CheckStep(0, true), TwoPosts({}, 0, Some(0), Open, Waiting, []));
    states, steps := StepMore(states, steps, OtherAccountStep, TwoPosts({0}, 1, Some(0), Open, Waiting, []));
    states, steps := StepMore(states, steps, CreateStep(0, true), TwoPosts({0, 1}, 2, None, Returned(Some(1)), Waiting, [1]));
  }
}
