/**
  Parallel accepts of invites (cmd/web/auth.go inviteAccept, lookupInvite; db/queries/invite.sql),
  as a state machine over the statements each request issues. Between two statements of one
  request any statement of any other may run, and any statement may fail.

  `owner` and `winner` are history: which request created an account, and which request's consume
  took effect. No step reads them.
*/
module InviteAccept {
  import opened Wrappers

  datatype Role = Admin | Viewer | OtherRole(name: string)

  datatype Account = Account(username: string, role: Role)

  datatype Invite = Invite(role: Role, expiresAt: int, consumed: bool, accepted: Option<int>)

  /** What a request posts: the invite its token names, the chosen username, and whether the
      credentials pass validation. */
  datatype Post = Post(invite: int, username: string, credentialsOk: bool)

  datatype Outcome =
    | InvalidInvite
    | BadCredentials
    | CreateFailed
    | Accepted(account: int)
    | LostRemoved(account: int)
    | LostKept(account: int)

  datatype Phase =
    | Start
    | LookedUp
    | Created(account: int)
    | Consumed(account: int)
    | Lost(account: int, raced: bool)
    | Finished(outcome: Outcome)

  datatype Request = Request(post: Post, phase: Phase)

  datatype ActRow = InviteAccepted(invite: int, username: string, role: Role)

  datatype System = System(accounts: map<int, Account>, nextId: int, invites: map<int, Invite>, acts: seq<ActRow>,
                           requests: seq<Request>, owner: map<int, nat>, winner: map<int, nat>)

  datatype Step =
    | LookupStep(p: nat, now: int)
    | CreateStep(p: nat, storeOk: bool)
    | ConsumeStep(p: nat, storeOk: bool)
    | DeleteStep(p: nat, storeOk: bool)
    | RecordStep(p: nat)
    | MintStep(id: int, invite: Invite)
    | AdminCreateStep(account: Account)
    | AdminDeleteStep(id: int)

  function SetPhase(s: System, p: nat, phase: Phase): System
    requires p < |s.requests|
  {
    s.(requests := s.requests[p := s.requests[p].(phase := phase)])
  }

  predicate UsernameTaken(s: System, username: string) {
    exists a :: a in s.accounts && s.accounts[a].username == username
  }

  /** lookupInvite: the row exists, is not consumed, has not expired, and names a known role. */
  predicate Acceptable(s: System, id: int, now: int) {
    && id in s.invites
    && !s.invites[id].consumed
    && now < s.invites[id].expiresAt
    && s.invites[id].role in {Admin, Viewer}
  }

  function Lookup(s: System, p: nat, now: int): System
    requires p < |s.requests|
  {
    SetPhase(s, p, if Acceptable(s, s.requests[p].post.invite, now) then LookedUp else Finished(InvalidInvite))
  }

  function CreateAccount(s: System, p: nat): System
    requires p < |s.requests| && s.requests[p].post.invite in s.invites
  {
    var post := s.requests[p].post;
    SetPhase(s, p, Created(s.nextId)).(
      accounts := s.accounts[s.nextId := Account(post.username, s.invites[post.invite].role)],
      nextId := s.nextId + 1,
      owner := s.owner[s.nextId := p])
  }

  function Create(s: System, p: nat, storeOk: bool): System
    requires p < |s.requests| && s.requests[p].post.invite in s.invites
  {
    var post := s.requests[p].post;
    if !post.credentialsOk then SetPhase(s, p, Finished(BadCredentials))
    else if !storeOk || UsernameTaken(s, post.username) then SetPhase(s, p, Finished(CreateFailed))
    else CreateAccount(s, p)
  }

  /** One UPDATE ... WHERE consumed_at IS NULL. Its account reference must still exist. */
  function Consume(s: System, p: nat, storeOk: bool): System
    requires p < |s.requests| && s.requests[p].phase.Created? && s.requests[p].post.invite in s.invites
  {
    var i, a := s.requests[p].post.invite, s.requests[p].phase.account;
    if s.invites[i].consumed then SetPhase(s, p, Lost(a, storeOk))
    else if !storeOk || a !in s.accounts then SetPhase(s, p, Lost(a, false))
    else SetPhase(s, p, Consumed(a)).(invites := s.invites[i := s.invites[i].(consumed := true, accepted := Some(a))],
                                      winner := s.winner[i := p])
  }

  /** Deleting an account nulls the reference of the invite that recorded it. */
  function RemoveAccount(s: System, a: int): System {
    s.(accounts := s.accounts - {a},
       invites := map i | i in s.invites ::
                    if s.invites[i].accepted == Some(a) then s.invites[i].(accepted := None) else s.invites[i])
  }

  function Delete(s: System, p: nat, storeOk: bool): System
    requires p < |s.requests| && s.requests[p].phase.Lost?
  {
    var a := s.requests[p].phase.account;
    if storeOk then SetPhase(RemoveAccount(s, a), p, Finished(LostRemoved(a)))
    else SetPhase(s, p, Finished(LostKept(a)))
  }

  function Record(s: System, p: nat): System
    requires p < |s.requests| && s.requests[p].phase.Consumed? && s.requests[p].post.invite in s.invites
  {
    var post := s.requests[p].post;
    SetPhase(s, p, Finished(Accepted(s.requests[p].phase.account))).(
      acts := s.acts + [InviteAccepted(post.invite, post.username, s.invites[post.invite].role)])
  }

  predicate PhaseIs(s: System, p: nat, step: Step) {
    && p < |s.requests|
    && (step.LookupStep? || s.requests[p].post.invite in s.invites)
    && match step
       case LookupStep(_, _) => s.requests[p].phase.Start?
       case CreateStep(_, _) => s.requests[p].phase.LookedUp?
       case ConsumeStep(_, _) => s.requests[p].phase.Created?
       case DeleteStep(_, _) => s.requests[p].phase.Lost?
       case RecordStep(_) => s.requests[p].phase.Consumed?
       case _ => false
  }

  predicate Enabled(s: System, step: Step) {
    match step
    case MintStep(id, invite) => id !in s.invites && !invite.consumed && invite.accepted.None?
    case AdminCreateStep(account) => !UsernameTaken(s, account.username)
    case AdminDeleteStep(id) => id in s.accounts
    case _ => PhaseIs(s, step.p, step)
  }

  function Apply(s: System, step: Step): System
    requires Enabled(s, step)
  {
    match step
    case LookupStep(p, now) => Lookup(s, p, now)
    case CreateStep(p, storeOk) => Create(s, p, storeOk)
    case ConsumeStep(p, storeOk) => Consume(s, p, storeOk)
    case DeleteStep(p, storeOk) => Delete(s, p, storeOk)
    case RecordStep(p) => Record(s, p)
    case MintStep(id, invite) => s.(invites := s.invites[id := invite])
    case AdminCreateStep(account) => s.(accounts := s.accounts[s.nextId := account], nextId := s.nextId + 1)
    case AdminDeleteStep(id) => RemoveAccount(s, id)
  }

  /** A store at any time before the first accept: accounts and invites as they are, no request begun. */
  ghost predicate Init(s: System) {
    && (forall a :: a in s.accounts ==> a < s.nextId)
    && (forall p :: 0 <= p < |s.requests| ==> s.requests[p].phase.Start?)
    && s.acts == [] && s.owner == map[] && s.winner == map[]
  }

  ghost predicate IsRun(states: seq<System>, steps: seq<Step>) {
    && |states| == |steps| + 1
    && Init(states[0])
    && forall k :: 0 <= k < |steps| ==> StepsTo(states[k], steps[k], states[k + 1])
  }

  ghost predicate StepsTo(s: System, step: Step, s': System) {
    Enabled(s, step) && s' == Apply(s, step)
  }

  // ---------------------------------------------------------------- the invariant

  function AccountOf(phase: Phase): Option<int> {
    match phase
    case Created(a) => Some(a)
    case Consumed(a) => Some(a)
    case Lost(a, _) => Some(a)
    case Finished(Accepted(a)) => Some(a)
    case Finished(LostRemoved(a)) => Some(a)
    case Finished(LostKept(a)) => Some(a)
    case _ => None
  }

  predicate Won(phase: Phase) {
    phase.Consumed? || (phase.Finished? && phase.outcome.Accepted?)
  }

  /** Each account made by a request belongs to that request alone. */
  ghost predicate OwnersAgree(s: System) {
    && (forall a :: a in s.accounts || a in s.owner ==> a < s.nextId)
    && (forall a :: a in s.owner ==> OwnerAgrees(s, a))
    && (forall p :: 0 <= p < |s.requests| ==> RequestAgrees(s, p))
  }

  ghost predicate OwnerAgrees(s: System, a: int)
    requires a in s.owner
  {
    && s.owner[a] < |s.requests|
    && AccountOf(s.requests[s.owner[a]].phase) == Some(a)
    && s.requests[s.owner[a]].post.invite in s.invites
    && (a in s.accounts ==>
          s.accounts[a] == Account(s.requests[s.owner[a]].post.username, s.invites[s.requests[s.owner[a]].post.invite].role))
  }

  ghost predicate RequestAgrees(s: System, p: nat)
    requires p < |s.requests|
  {
    var r := s.requests[p];
    && (AccountOf(r.phase).Some? ==> AccountOf(r.phase).value in s.owner && s.owner[AccountOf(r.phase).value] == p)
    && (r.phase.Finished? && r.phase.outcome.LostRemoved? ==> r.phase.outcome.account !in s.accounts)
    && (Won(r.phase) ==> r.post.invite in s.winner && s.winner[r.post.invite] == p)
    && (r.phase.Lost? && r.phase.raced ==> r.post.invite in s.winner)
    && ((r.phase.LookedUp? || r.phase.Created?) && r.post.invite in s.invites && s.invites[r.post.invite].consumed
        ==> r.post.invite in s.winner)
  }

  /** The winner of an invite is the one request whose consume took effect, and the invite records its
      account for as long as that account exists. */
  ghost predicate WinnerAgrees(s: System, i: int)
    requires i in s.winner
  {
    && s.winner[i] < |s.requests|
    && s.requests[s.winner[i]].post.invite == i
    && Won(s.requests[s.winner[i]].phase)
    && i in s.invites && s.invites[i].consumed
    && var a := AccountOf(s.requests[s.winner[i]].phase).value;
       s.invites[i].accepted == if a in s.accounts then Some(a) else None
  }

  ghost predicate WinnersAgree(s: System) {
    forall i :: i in s.winner ==> WinnerAgrees(s, i)
  }

  /** Each recorded acceptance is its invite's only one, and names the winner. */
  ghost predicate ActAgrees(s: System, k: nat)
    requires k < |s.acts|
  {
    var i := s.acts[k].invite;
    && i in s.winner && s.winner[i] < |s.requests| && i in s.invites
    && var r := s.requests[s.winner[i]];
       && r.phase.Finished? && r.phase.outcome.Accepted?
       && s.acts[k] == InviteAccepted(i, r.post.username, s.invites[i].role)
  }

  ghost predicate ActsAgree(s: System) {
    && (forall k :: 0 <= k < |s.acts| ==> ActAgrees(s, k))
    && (forall j, k :: 0 <= j < k < |s.acts| ==> s.acts[j].invite != s.acts[k].invite)
  }

  ghost predicate Invariant(s: System) {
    OwnersAgree(s) && WinnersAgree(s) && ActsAgree(s)
  }

  // ---------------------------------------------------------------- each step keeps it

  /** A request that moves on without an account to its name, or keeps the one it has, changes nothing else. */
  lemma PhaseChangeKeeps(s: System, p: nat, phase: Phase)
    requires Invariant(s) && p < |s.requests|
    requires AccountOf(phase) == AccountOf(s.requests[p].phase) && !Won(phase) && !Won(s.requests[p].phase)
    requires RequestAgrees(SetPhase(s, p, phase), p)
    ensures Invariant(SetPhase(s, p, phase))
  {
    var s' := SetPhase(s, p, phase);
    forall a | a in s'.owner ensures OwnerAgrees(s', a) { assert OwnerAgrees(s, a); }
    forall q: nat | q < |s'.requests| ensures RequestAgrees(s', q) { assert RequestAgrees(s, q); }
    forall i | i in s'.winner ensures WinnerAgrees(s', i) { assert WinnerAgrees(s, i); }
    forall k: nat | k < |s'.acts| ensures ActAgrees(s', k) { assert ActAgrees(s, k); }
  }

  lemma LookupKeeps(s: System, p: nat, now: int)
    requires Invariant(s) && Enabled(s, LookupStep(p, now))
    ensures Invariant(Lookup(s, p, now))
  {
    PhaseChangeKeeps(s, p, if Acceptable(s, s.requests[p].post.invite, now) then LookedUp else Finished(InvalidInvite));
  }

  lemma CreateAccountKeeps(s: System, p: nat)
    requires Invariant(s)
    requires p < |s.requests| && s.requests[p].post.invite in s.invites && s.requests[p].phase.LookedUp?
    ensures Invariant(CreateAccount(s, p))
  {
    var s' := CreateAccount(s, p);
    assert RequestAgrees(s, p);
    forall a | a in s'.owner ensures OwnerAgrees(s', a) { if a in s.owner { assert OwnerAgrees(s, a); } }
    forall q: nat | q < |s'.requests| ensures RequestAgrees(s', q) { assert RequestAgrees(s, q); }
    forall i | i in s'.winner ensures WinnerAgrees(s', i) {
      assert WinnerAgrees(s, i);
      assert RequestAgrees(s, s.winner[i]);
    }
    forall k: nat | k < |s'.acts| ensures ActAgrees(s', k) { assert ActAgrees(s, k); }
  }

  lemma CreateKeeps(s: System, p: nat, storeOk: bool)
    requires Invariant(s) && Enabled(s, CreateStep(p, storeOk))
    ensures Invariant(Create(s, p, storeOk))
  {
    var post := s.requests[p].post;
    if !post.credentialsOk {
      PhaseChangeKeeps(s, p, Finished(BadCredentials));
    } else if !storeOk || UsernameTaken(s, post.username) {
      PhaseChangeKeeps(s, p, Finished(CreateFailed));
    } else {
      CreateAccountKeeps(s, p);
    }
  }

  lemma LoseConsumeKeeps(s: System, p: nat, raced: bool)
    requires Invariant(s)
    requires p < |s.requests| && s.requests[p].phase.Created?
    requires raced ==> s.requests[p].post.invite in s.winner
    ensures Invariant(SetPhase(s, p, Lost(s.requests[p].phase.account, raced)))
  {
    assert RequestAgrees(s, p);
    PhaseChangeKeeps(s, p, Lost(s.requests[p].phase.account, raced));
  }

  lemma WinConsumeKeeps(s: System, p: nat)
    requires Invariant(s) && Enabled(s, ConsumeStep(p, true))
    requires !s.invites[s.requests[p].post.invite].consumed && s.requests[p].phase.account in s.accounts
    ensures Invariant(Consume(s, p, true))
  {
    var s' := Consume(s, p, true);
    var won := s.requests[p].post.invite;
    assert RequestAgrees(s, p);
    assert won in s.winner ==> WinnerAgrees(s, won);
    forall a | a in s'.owner ensures OwnerAgrees(s', a) { assert OwnerAgrees(s, a); }
    forall i | i in s'.winner ensures WinnerAgrees(s', i) { if i in s.winner { assert WinnerAgrees(s, i); } }
    forall q: nat | q < |s'.requests| ensures RequestAgrees(s', q) { assert RequestAgrees(s, q); }
    forall k: nat | k < |s'.acts| ensures ActAgrees(s', k) { assert ActAgrees(s, k); }
  }

  lemma ConsumeKeeps(s: System, p: nat, storeOk: bool)
    requires Invariant(s) && Enabled(s, ConsumeStep(p, storeOk))
    ensures Invariant(Consume(s, p, storeOk))
  {
    assert RequestAgrees(s, p);
    if s.invites[s.requests[p].post.invite].consumed {
      LoseConsumeKeeps(s, p, storeOk);
    } else if !storeOk || s.requests[p].phase.account !in s.accounts {
      LoseConsumeKeeps(s, p, false);
    } else {
      WinConsumeKeeps(s, p);
    }
  }

  lemma RemoveAccountKeeps(s: System, a: int)
    requires Invariant(s)
    ensures Invariant(RemoveAccount(s, a))
  {
    var s' := RemoveAccount(s, a);
    forall b | b in s'.owner ensures OwnerAgrees(s', b) { assert OwnerAgrees(s, b); }
    forall q: nat | q < |s'.requests| ensures RequestAgrees(s', q) { assert RequestAgrees(s, q); }
    forall i | i in s'.winner ensures WinnerAgrees(s', i) { assert WinnerAgrees(s, i); }
    forall k: nat | k < |s'.acts| ensures ActAgrees(s', k) { assert ActAgrees(s, k); }
  }

  lemma FinishLostKeeps(s: System, p: nat, outcome: Outcome)
    requires Invariant(s)
    requires p < |s.requests| && s.requests[p].phase.Lost?
    requires outcome == LostKept(s.requests[p].phase.account)
             || (outcome == LostRemoved(s.requests[p].phase.account) && s.requests[p].phase.account !in s.accounts)
    ensures Invariant(SetPhase(s, p, Finished(outcome)))
  {
    assert RequestAgrees(s, p);
    PhaseChangeKeeps(s, p, Finished(outcome));
  }

  lemma RecordKeeps(s: System, p: nat)
    requires Invariant(s) && Enabled(s, RecordStep(p))
    ensures Invariant(Record(s, p))
  {
    var s' := Record(s, p);
    assert RequestAgrees(s, p);
    forall a | a in s'.owner ensures OwnerAgrees(s', a) { assert OwnerAgrees(s, a); }
    forall q: nat | q < |s'.requests| ensures RequestAgrees(s', q) { assert RequestAgrees(s, q); }
    forall i | i in s'.winner ensures WinnerAgrees(s', i) { assert WinnerAgrees(s, i); }
    forall k: nat | k < |s'.acts| ensures ActAgrees(s', k) && (k < |s.acts| ==> s.acts[k].invite != s.requests[p].post.invite) {
      if k < |s.acts| {
        assert ActAgrees(s, k);
      }
    }
  }

  lemma MintKeeps(s: System, id: int, invite: Invite)
    requires Invariant(s) && Enabled(s, MintStep(id, invite))
    ensures Invariant(s.(invites := s.invites[id := invite]))
  {
    var s' := s.(invites := s.invites[id := invite]);
    forall a | a in s'.owner ensures OwnerAgrees(s', a) { assert OwnerAgrees(s, a); }
    forall q: nat | q < |s'.requests| ensures RequestAgrees(s', q) { assert RequestAgrees(s, q); }
    forall i | i in s'.winner ensures WinnerAgrees(s', i) { assert WinnerAgrees(s, i); }
    forall k: nat | k < |s'.acts| ensures ActAgrees(s', k) { assert ActAgrees(s, k); }
  }

  lemma AdminCreateKeeps(s: System, account: Account)
    requires Invariant(s)
    ensures Invariant(s.(accounts := s.accounts[s.nextId := account], nextId := s.nextId + 1))
  {
    var s' := s.(accounts := s.accounts[s.nextId := account], nextId := s.nextId + 1);
    forall a | a in s'.owner ensures OwnerAgrees(s', a) { assert OwnerAgrees(s, a); }
    forall q: nat | q < |s'.requests| ensures RequestAgrees(s', q) { assert RequestAgrees(s, q); }
    forall i | i in s'.winner ensures WinnerAgrees(s', i) {
      assert WinnerAgrees(s, i);
      assert RequestAgrees(s, s.winner[i]);
    }
    forall k: nat | k < |s'.acts| ensures ActAgrees(s', k) { assert ActAgrees(s, k); }
  }

  lemma StepKeepsInvariant(s: System, step: Step)
    requires Invariant(s) && Enabled(s, step)
    ensures Invariant(Apply(s, step))
  {
    match step
    case LookupStep(p, now) => LookupKeeps(s, p, now);
    case CreateStep(p, storeOk) => CreateKeeps(s, p, storeOk);
    case ConsumeStep(p, storeOk) => ConsumeKeeps(s, p, storeOk);
    case DeleteStep(p, storeOk) =>
      var a := s.requests[p].phase.account;
      if storeOk {
        RemoveAccountKeeps(s, a);
        FinishLostKeeps(RemoveAccount(s, a), p, LostRemoved(a));
      } else {
        FinishLostKeeps(s, p, LostKept(a));
      }
    case RecordStep(p) => RecordKeeps(s, p);
    case MintStep(id, invite) => MintKeeps(s, id, invite);
    case AdminCreateStep(account) => AdminCreateKeeps(s, account);
    case AdminDeleteStep(id) => RemoveAccountKeeps(s, id);
  }

  lemma {:induction false} RunKeepsInvariant(states: seq<System>, steps: seq<Step>)
    requires IsRun(states, steps)
    ensures Invariant(states[|steps|])
    decreases |steps|
  {
    if |steps| > 0 {
      var n := |steps| - 1;
      forall k | 0 <= k < n
        ensures StepsTo(states[..n + 1][k], steps[..n][k], states[..n + 1][k + 1])
      {
        assert StepsTo(states[k], steps[k], states[k + 1]);
      }
      RunKeepsInvariant(states[..n + 1], steps[..n]);
      assert StepsTo(states[n], steps[n], states[n + 1]);
      StepKeepsInvariant(states[n], steps[n]);
    }
  }

  // ---------------------------------------------------------------- what it is for

  ghost predicate AllFinished(s: System) {
    forall p :: 0 <= p < |s.requests| ==> s.requests[p].phase.Finished? || s.requests[p].phase.Start?
  }

  /** An account a request made from invite `i` that still exists. */
  ghost predicate Survives(s: System, i: int, a: int) {
    a in s.accounts && a in s.owner && s.owner[a] < |s.requests| && s.requests[s.owner[a]].post.invite == i
  }

  ghost predicate DeleteFailed(s: System, a: int) {
    a in s.owner && s.owner[a] < |s.requests| && s.requests[s.owner[a]].phase == Finished(LostKept(a))
  }

  /** Over any interleaving of any number of accepts, with invites minted and accounts made and
      removed beside them: once no accept is under way, the accounts an invite still has are exactly
      the one the invite records and those whose removal after a lost consume failed. */
  lemma SurvivorsOfAnInvite(states: seq<System>, steps: seq<Step>, i: int, a: int)
    requires IsRun(states, steps)
    requires AllFinished(states[|steps|])
    ensures var s := states[|steps|];
            Survives(s, i, a) <==>
              || (i in s.winner && i in s.invites && s.invites[i].accepted == Some(a))
              || (DeleteFailed(s, a) && a in s.accounts && s.requests[s.owner[a]].post.invite == i)
  {
    var s := states[|steps|];
    RunKeepsInvariant(states, steps);
    if i in s.winner {
      assert WinnerAgrees(s, i);
      assert RequestAgrees(s, s.winner[i]);
    }
    if Survives(s, i, a) {
      assert OwnerAgrees(s, a);
      assert RequestAgrees(s, s.owner[a]);
    }
  }

  /** So when no removal failed, at most one account from the invite survives, it is the one the
      invite records, and it holds the invite's role. */
  lemma AtMostOneAccountPerInvite(states: seq<System>, steps: seq<Step>, i: int, a: int, b: int)
    requires IsRun(states, steps)
    requires AllFinished(states[|steps|])
    requires Survives(states[|steps|], i, a) && Survives(states[|steps|], i, b)
    requires !DeleteFailed(states[|steps|], a) && !DeleteFailed(states[|steps|], b)
    ensures var s := states[|steps|];
            a == b && i in s.invites && s.invites[i].accepted == Some(a) && s.accounts[a].role == s.invites[i].role
  {
    SurvivorsOfAnInvite(states, steps, i, a);
    SurvivorsOfAnInvite(states, steps, i, b);
    RunKeepsInvariant(states, steps);
    assert OwnerAgrees(states[|steps|], a);
  }

  /** The audit log holds at most one acceptance per invite, and an accept is only ever turned away
      from its consume because another accept of the same invite has won. */
  lemma OneAcceptancePerInvite(states: seq<System>, steps: seq<Step>)
    requires IsRun(states, steps)
    ensures var s := states[|steps|];
            && (forall j, k :: 0 <= j < k < |s.acts| ==> s.acts[j].invite != s.acts[k].invite)
            && (forall p :: 0 <= p < |s.requests| && s.requests[p].phase.Lost? && s.requests[p].phase.raced
                  ==> s.requests[p].post.invite in s.winner && s.winner[s.requests[p].post.invite] != p)
  {
    var s := states[|steps|];
    RunKeepsInvariant(states, steps);
    forall p | 0 <= p < |s.requests| && s.requests[p].phase.Lost? && s.requests[p].phase.raced
      ensures s.requests[p].post.invite in s.winner && s.winner[s.requests[p].post.invite] != p
    {
      assert RequestAgrees(s, p);
      assert WinnerAgrees(s, s.requests[p].post.invite);
    }
  }

  // ---------------------------------------------------------------- what an accept needs

  /** The k-th step is the request's lookup, and it found its invite unused, before its expiry and
      for a role that can be granted. */
  ghost predicate FoundOpen(states: seq<System>, steps: seq<Step>, p: nat, k: nat)
    requires |states| == |steps| + 1
  {
    && k < |steps| && steps[k].LookupStep? && steps[k].p == p && p < |states[k].requests|
    && var i := states[k].requests[p].post.invite;
       && i in states[k].invites && i in states[|steps|].invites
       && !states[k].invites[i].consumed
       && steps[k].now < states[k].invites[i].expiresAt
       && (states[k].invites[i].role == Admin || states[k].invites[i].role == Viewer)
       && states[|steps|].invites[i].role == states[k].invites[i].role
       && p < |states[|steps|].requests| && states[|steps|].requests[p].post == states[k].requests[p].post
  }

  /** The request has got past its lookup. */
  predicate PastLookup(phase: Phase) {
    !phase.Start? && phase != Finished(InvalidInvite)
  }

  lemma StepKeepsPosts(s: System, step: Step, p: nat)
    requires Enabled(s, step) && p < |s.requests|
    ensures |Apply(s, step).requests| == |s.requests|
    ensures Apply(s, step).requests[p].post == s.requests[p].post
  {
  }

  lemma RemoveKeepsRole(s: System, a: int, i: int)
    requires i in s.invites
    ensures i in RemoveAccount(s, a).invites && RemoveAccount(s, a).invites[i].role == s.invites[i].role
  {
  }

  /** No step takes an invite away or changes its role. */
  lemma StepKeepsRole(s: System, step: Step, i: int)
    requires Enabled(s, step) && i in s.invites
    ensures i in Apply(s, step).invites && Apply(s, step).invites[i].role == s.invites[i].role
  {
    match step
    case DeleteStep(p, storeOk) => RemoveKeepsRole(s, s.requests[p].phase.account, i);
    case AdminDeleteStep(id) => RemoveKeepsRole(s, id, i);
    case _ =>
  }

  lemma LookupOpensExactly(s: System, p: nat, now: int)
    requires Enabled(s, LookupStep(p, now))
    ensures var i := s.requests[p].post.invite;
            Apply(s, LookupStep(p, now)).requests[p].phase ==
            if i in s.invites && !s.invites[i].consumed && now < s.invites[i].expiresAt
               && (s.invites[i].role == Admin || s.invites[i].role == Viewer)
            then LookedUp else Finished(InvalidInvite)
  {
  }

  lemma StepLooksUp(s: System, step: Step, q: nat)
    requires Enabled(s, step) && q < |s.requests|
    requires !PastLookup(s.requests[q].phase) && PastLookup(Apply(s, step).requests[q].phase)
    ensures step.LookupStep? && step.p == q
  {
  }

  lemma {:induction false} LookedUpBefore(states: seq<System>, steps: seq<Step>, p: nat) returns (k: nat)
    requires IsRun(states, steps) && p < |states[|steps|].requests| && PastLookup(states[|steps|].requests[p].phase)
    ensures FoundOpen(states, steps, p, k)
    decreases |steps|
  {
    if |steps| == 0 {
      assert false;
    } else {
      var n := |steps| - 1;
      forall j | 0 <= j < n
        ensures StepsTo(states[..n + 1][j], steps[..n][j], states[..n + 1][j + 1])
      {
        assert StepsTo(states[j], steps[j], states[j + 1]);
      }
      assert StepsTo(states[n], steps[n], states[n + 1]);
      StepKeepsPosts(states[n], steps[n], p);
      if PastLookup(states[n].requests[p].phase) {
        k := LookedUpBefore(states[..n + 1], steps[..n], p);
        StepKeepsRole(states[n], steps[n], states[k].requests[p].post.invite);
      } else {
        k := n;
        StepLooksUp(states[n], steps[n], p);
        LookupOpensExactly(states[n], p, steps[n].now);
        StepKeepsRole(states[n], steps[n], states[n].requests[p].post.invite);
      }
    }
  }

  /** Over any run, an account made from an invite was made by a request that looked the invite up
      unused, before its expiry and for a role that can be granted, and it holds that role. */
  lemma AccountsNeedAnOpenInvite(states: seq<System>, steps: seq<Step>, a: int) returns (k: nat)
    requires IsRun(states, steps) && a in states[|steps|].owner
    ensures FoundOpen(states, steps, states[|steps|].owner[a], k)
    ensures var s := states[|steps|];
            a in s.accounts ==>
              var post := states[k].requests[s.owner[a]].post;
              s.accounts[a] == Account(post.username, states[k].invites[post.invite].role)
  {
    var s := states[|steps|];
    RunKeepsInvariant(states, steps);
    assert OwnerAgrees(s, a);
    k := LookedUpBefore(states, steps, s.owner[a]);
  }

  /** A statement makes an account for a request exactly when the request was looked up, its
      credentials are good, the store works and no account has its username. */
  lemma AccountMadeExactly(s: System, step: Step)
    requires Invariant(s) && Enabled(s, step)
    ensures Apply(s, step).owner != s.owner <==>
              && step.CreateStep? && step.storeOk
              && s.requests[step.p].post.credentialsOk
              && forall a :: a in s.accounts ==> s.accounts[a].username != s.requests[step.p].post.username
  {
    assert s.nextId !in s.owner;
  }

  /** Two requests for invite 7, at some stage of a run. */
  function TwoAccepts(accounts: map<int, Account>, nextId: int, invite: Invite, acts: seq<ActRow>, first: Phase, second: Phase,
                      owner: map<int, nat>, winner: map<int, nat>): System {
    System(accounts, nextId, map[7 := invite], acts,
           [Request(Post(7, "a", true), first), Request(Post(7, "b", true), second)], owner, winner)
  }

  const OPEN_INVITE := Invite(Viewer, 100, false, None)
  const TAKEN_INVITE := Invite(Viewer, 100, true, Some(0))
  const BOTH_ACCOUNTS: map<int, Account> := map[0 := Account("a", Viewer), 1 := Account("b", Viewer)]
  const BOTH_OWNED: map<int, nat> := map[0 := 0, 1 := 1]
  const FIRST_WINS: map<int, nat> := map[7 := 0]

  lemma BothGetAccounts() returns (states: seq<System>, steps: seq<Step>)
    ensures IsRun(states, steps) && |steps| == 4
    ensures states[4] == TwoAccepts(BOTH_ACCOUNTS, 2, OPEN_INVITE, [], Created(0), Created(1), BOTH_OWNED, map[])
  {
    var s0 := TwoAccepts(map[], 0, OPEN_INVITE, [], Start, Start, map[], map[]);
    var s1 := TwoAccepts(map[], 0, OPEN_INVITE, [], LookedUp, Start, map[], map[]);
    var s2 := TwoAccepts(map[], 0, OPEN_INVITE, [], LookedUp, LookedUp, map[], map[]);
    var s3 := TwoAccepts(map[0 := Account("a", Viewer)], 1, OPEN_INVITE, [], Created(0), LookedUp, map[0 := 0], map[]);
    var s4 := TwoAccepts(BOTH_ACCOUNTS, 2, OPEN_INVITE, [], Created(0), Created(1), BOTH_OWNED, map[]);
    assert StepsTo(s0, LookupStep(0, 50), s1);
    assert StepsTo(s1, LookupStep(1, 50), s2);
    assert StepsTo(s2, CreateStep(0, true), s3);
    assert StepsTo(s3, CreateStep(1, true), s4) by {
      assert s3.accounts[0].username != "b";
    }
    states, steps := [s0, s1, s2, s3, s4], [LookupStep(0, 50), LookupStep(1, 50), CreateStep(0, true), CreateStep(1, true)];
  }

  lemma StepMore(states: seq<System>, steps: seq<Step>, step: Step, s': System) returns (longer: seq<System>, more: seq<Step>)
    requires IsRun(states, steps) && StepsTo(states[|steps|], step, s')
    ensures longer == states + [s'] && more == steps + [step] && IsRun(longer, more)
  {
    longer, more := states + [s'], steps + [step];
    forall k | 0 <= k < |more|
      ensures StepsTo(longer[k], more[k], longer[k + 1])
    {
      if k < |steps| {
        assert StepsTo(states[k], steps[k], states[k + 1]);
      }
    }
  }

  /** Where a removal fails there are two: of two parallel accepts of one invite the second loses, its
      account is not removed, and both accounts stay. */
  lemma LostAcceptCanKeepItsAccount() returns (states: seq<System>, steps: seq<Step>)
    ensures IsRun(states, steps) && AllFinished(states[|steps|])
    ensures Survives(states[|steps|], 7, 0) && Survives(states[|steps|], 7, 1)
    ensures states[|steps|].invites == map[7 := TAKEN_INVITE] && DeleteFailed(states[|steps|], 1)
  {
    states, steps := BothGetAccounts();
    var s5 := TwoAccepts(BOTH_ACCOUNTS, 2, TAKEN_INVITE, [], Consumed(0), Created(1), BOTH_OWNED, FIRST_WINS);
    var s6 := TwoAccepts(BOTH_ACCOUNTS, 2, TAKEN_INVITE, [], Consumed(0), Lost(1, true), BOTH_OWNED, FIRST_WINS);
    var s7 := TwoAccepts(BOTH_ACCOUNTS, 2, TAKEN_INVITE, [], Consumed(0), Finished(LostKept(1)), BOTH_OWNED, FIRST_WINS);
    var s8 := TwoAccepts(BOTH_ACCOUNTS, 2, TAKEN_INVITE, [InviteAccepted(7, "a", Viewer)], Finished(Accepted(0)),
                         Finished(LostKept(1)), BOTH_OWNED, FIRST_WINS);
    states, steps := StepMore(states, steps, ConsumeStep(0, true), s5);
    states, steps := StepMore(states, steps, ConsumeStep(1, true), s6);
    states, steps := StepMore(states, steps, DeleteStep(1, false), s7);
    states, steps := StepMore(states, steps, RecordStep(0), s8);
  }
}
