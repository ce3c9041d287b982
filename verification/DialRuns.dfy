/**
  Concurrent dial moves (cmd/web/dialtx.go and its eight callers), as a state machine over the
  statements each submission issues inside its transaction: lock the row and read it, update it,
  record the Acts that are due, commit, or roll back at any point. What a transaction has
  written is invisible until it commits.

  `commits` is history: the submissions in commit order. No step reads it.
*/
module DialRuns {
  import opened Dials

  datatype Phase =
    | Waiting
    | Begun
    | Locked(read: Values)
    | Writing(read: Values, writes: map<Dial, int>, recorded: seq<Act>)
    | Committed
    | RolledBack

  datatype Request = Request(sub: Submission, phase: Phase)

  datatype System = System(store: Store, locks: map<Row, nat>, requests: seq<Request>, commits: seq<Submission>)

  datatype Step =
    | BeginStep(p: nat)
    | LockStep(p: nat)
    | UpdateStep(p: nat)
    | RecordStep(p: nat)
    | CommitStep(p: nat)
    | RollbackStep(p: nat)

  function SetPhase(s: System, p: nat, phase: Phase): System
    requires p < |s.requests|
  {
    s.(requests := s.requests[p := s.requests[p].(phase := phase)])
  }

  function DueOf(sub: Submission, read: Values): seq<Act> {
    Due(Compared(sub), read, Writes(sub, read))
  }

  /** A row lock blocks until the row is free; a commit waits for every due Act. */
  predicate Enabled(s: System, step: Step) {
    && step.p < |s.requests|
    && var r := s.requests[step.p];
       match step
       case BeginStep(_) => r.phase.Waiting? && Admissible(r.sub)
       case LockStep(_) => r.phase.Begun? && RowFor(r.sub) !in s.locks
       case UpdateStep(_) => r.phase.Locked?
       case RecordStep(_) => r.phase.Writing? && |r.phase.recorded| < |DueOf(r.sub, r.phase.read)|
       case CommitStep(_) => r.phase.Writing? && |r.phase.recorded| >= |DueOf(r.sub, r.phase.read)|
       case RollbackStep(_) => r.phase.Begun? || r.phase.Locked? || r.phase.Writing?
  }

  function Apply(s: System, step: Step): System
    requires Enabled(s, step)
  {
    var r := s.requests[step.p];
    match step
    case BeginStep(p) => SetPhase(s, p, Begun)
    case LockStep(p) => SetPhase(s, p, Locked(s.store.values)).(locks := s.locks[RowFor(r.sub) := p])
    case UpdateStep(p) => SetPhase(s, p, Writing(r.phase.read, Writes(r.sub, r.phase.read), []))
    case RecordStep(p) =>
      var due := DueOf(r.sub, r.phase.read);
      SetPhase(s, p, r.phase.(recorded := r.phase.recorded + [due[|r.phase.recorded|]]))
    case CommitStep(p) =>
      SetPhase(s, p, Committed).(store := Store(s.store.values.Set(r.phase.writes), s.store.log + r.phase.recorded),
                                 locks := s.locks - {RowFor(r.sub)},
                                 commits := s.commits + [r.sub])
    case RollbackStep(p) =>
      SetPhase(s, p, RolledBack).(locks := if r.phase.Begun? then s.locks else s.locks - {RowFor(r.sub)})
  }

  ghost predicate Init(s: System, initial: Values) {
    && s.store == Store(initial, []) && s.locks == map[] && s.commits == []
    && forall p :: 0 <= p < |s.requests| ==> s.requests[p].phase.Waiting?
  }

  ghost predicate StepsTo(s: System, step: Step, s': System) {
    Enabled(s, step) && s' == Apply(s, step)
  }

  ghost predicate IsRun(initial: Values, states: seq<System>, steps: seq<Step>) {
    && |states| == |steps| + 1
    && Init(states[0], initial)
    && forall k :: 0 <= k < |steps| ==> StepsTo(states[k], steps[k], states[k + 1])
  }

  ghost predicate AgreeOn(row: Row, a: Values, b: Values) {
    forall d :: RowOf(d) == row ==> a.At(d) == b.At(d)
  }

  /** A request past its lock holds its row, and what it read there is still what is committed. */
  ghost predicate HoldsItsRow(s: System, p: nat)
    requires p < |s.requests|
  {
    var r := s.requests[p];
    && (!r.phase.Waiting? ==> Admissible(r.sub))
    && (r.phase.Locked? || r.phase.Writing? ==>
          && RowFor(r.sub) in s.locks && s.locks[RowFor(r.sub)] == p
          && AgreeOn(RowFor(r.sub), r.phase.read, s.store.values))
    && (r.phase.Writing? ==>
          && r.phase.writes == Writes(r.sub, r.phase.read)
          && r.phase.recorded <= DueOf(r.sub, r.phase.read))
  }

  ghost predicate Invariant(initial: Values, s: System) {
    && (forall p :: 0 <= p < |s.requests| ==> HoldsItsRow(s, p))
    && s.store == Moves(Store(initial, []), s.commits)
    && (forall k :: 0 <= k < |s.commits| ==> Admissible(s.commits[k]))
  }

  lemma WritesStayInRow(sub: Submission, read: Values, d: Dial)
    requires Admissible(sub) && d in Writes(sub, read)
    ensures RowOf(d) == RowFor(sub)
  {
  }

  lemma ComparedStayInRow(sub: Submission, d: Dial)
    requires Admissible(sub) && d in Compared(sub)
    ensures RowOf(d) == RowFor(sub)
  {
  }

  lemma {:induction false} DueDependsOnDials(dials: seq<Dial>, a: Values, b: Values, writes: map<Dial, int>)
    requires forall d :: d in dials ==> a.At(d) == b.At(d)
    ensures Due(dials, a, writes) == Due(dials, b, writes)
  {
    if dials != [] {
      DueDependsOnDials(dials[1..], a, b, writes);
      assert a.At(dials[0]) == b.At(dials[0]);
    }
  }

  /** What a request computed from its locked read is what it would compute at its commit. */
  lemma LockedReadIsCurrent(sub: Submission, read: Values, now: Values)
    requires Admissible(sub) && AgreeOn(RowFor(sub), read, now)
    ensures Writes(sub, read) == Writes(sub, now)
    ensures DueOf(sub, read) == DueOf(sub, now)
  {
    if RowFor(sub) == RetentionRow {
      assert read.At(Observation) == now.At(Observation) && read.At(Dispatch) == now.At(Dispatch);
    }
    forall d | d in Compared(sub)
      ensures read.At(d) == now.At(d)
    {
      ComparedStayInRow(sub, d);
    }
    DueDependsOnDials(Compared(sub), read, now, Writes(sub, now));
  }

  lemma SetKeepsOtherRows(values: Values, sub: Submission, read: Values, row: Row)
    requires Admissible(sub) && row != RowFor(sub)
    ensures AgreeOn(row, values, values.Set(Writes(sub, read)))
  {
    forall d | RowOf(d) == row
      ensures values.At(d) == values.Set(Writes(sub, read)).At(d)
    {
      if d in Writes(sub, read) {
        WritesStayInRow(sub, read, d);
      }
    }
  }

  /** A commit writes only its own row, so what another request read of its row stays current. */
  lemma CommitSparesOthers(s: System, p: nat, q: nat)
    requires Enabled(s, CommitStep(p)) && q < |s.requests|
    requires HoldsItsRow(s, p) && HoldsItsRow(s, q)
    ensures HoldsItsRow(Apply(s, CommitStep(p)), q)
  {
    var r, other := s.requests[p], s.requests[q];
    if q != p && (other.phase.Locked? || other.phase.Writing?) {
      assert RowFor(other.sub) != RowFor(r.sub);
      SetKeepsOtherRows(s.store.values, r.sub, r.phase.read, RowFor(other.sub));
    }
  }

  lemma CommitKeeps(initial: Values, s: System, p: nat)
    requires Invariant(initial, s) && Enabled(s, CommitStep(p))
    ensures Invariant(initial, Apply(s, CommitStep(p)))
  {
    var s' := Apply(s, CommitStep(p));
    var r := s.requests[p];
    assert HoldsItsRow(s, p);
    LockedReadIsCurrent(r.sub, r.phase.read, s.store.values);
    assert r.phase.recorded == DueOf(r.sub, r.phase.read);
    assert s'.store == Move(s.store, r.sub);
    assert s'.commits[..|s'.commits| - 1] == s.commits;
    forall q: nat | q < |s'.requests|
      ensures HoldsItsRow(s', q)
    {
      assert HoldsItsRow(s, q);
      CommitSparesOthers(s, p, q);
    }
  }

  lemma OtherStepKeeps(initial: Values, s: System, step: Step)
    requires Invariant(initial, s) && Enabled(s, step) && !step.CommitStep?
    ensures Invariant(initial, Apply(s, step))
  {
    var s' := Apply(s, step);
    assert HoldsItsRow(s, step.p);
    forall q: nat | q < |s'.requests|
      ensures HoldsItsRow(s', q)
    {
      assert HoldsItsRow(s, q);
    }
  }

  lemma {:induction false} RunKeepsInvariant(initial: Values, states: seq<System>, steps: seq<Step>)
    requires IsRun(initial, states, steps)
    ensures Invariant(initial, states[|steps|])
    decreases |steps|
  {
    if |steps| > 0 {
      var n := |steps| - 1;
      forall k | 0 <= k < n
        ensures StepsTo(states[..n + 1][k], steps[..n][k], states[..n + 1][k + 1])
      {
        assert StepsTo(states[k], steps[k], states[k + 1]);
      }
      RunKeepsInvariant(initial, states[..n + 1], steps[..n]);
      assert StepsTo(states[n], steps[n], states[n + 1]);
      if steps[n].CommitStep? {
        CommitKeeps(initial, states[n], steps[n].p);
      } else {
        OtherStepKeeps(initial, states[n], steps[n]);
      }
    }
  }

  /** Every interleaving, with rollbacks anywhere, leaves the store that running the committed
      submissions one after another in commit order leaves. */
  lemma DialMovesSerialise(initial: Values, states: seq<System>, steps: seq<Step>)
    requires IsRun(initial, states, steps)
    ensures states[|steps|].store == Moves(Store(initial, []), states[|steps|].commits)
  {
    RunKeepsInvariant(initial, states, steps);
  }

  /** Told dial by dial: each dial goes through the values its committed submissions leave, one after
      another, and the last of them is stored. So the last committed submission with a field for a
      dial decides it, and without one it keeps its first value. */
  lemma CommitsDecideDials(initial: Values, states: seq<System>, steps: seq<Step>, d: Dial) returns (through: seq<int>)
    requires IsRun(initial, states, steps)
    ensures Goes(d, through, initial.At(d), states[|steps|].commits)
    ensures through[|states[|steps|].commits|] == states[|steps|].store.values.At(d)
    ensures forall k: nat :: k < |through| && UntouchedFrom(d, states[|steps|].commits, k) ==>
              through[k] == states[|steps|].store.values.At(d)
  {
    DialMovesSerialise(initial, states, steps);
    var commits := states[|steps|].commits;
    through := MovesGo(initial, commits, d);
    forall k: nat | k < |through| && UntouchedFrom(d, commits, k)
      ensures through[k] == through[|commits|]
    {
      UntouchedStays(d, through, initial.At(d), commits, k);
    }
  }

  /** So for each dial the Act log never records one value twice in a row, and its last value, or the
      initial value if there is none, is the stored one. */
  lemma ActLogIsFaithful(initial: Values, states: seq<System>, steps: seq<Step>, d: Dial)
    requires IsRun(initial, states, steps)
    ensures Faithful(initial, states[|steps|].store, d)
  {
    RunKeepsInvariant(initial, states, steps);
    MovesKeepFaithful(initial, states[|steps|].commits, d);
  }

  /** In terms of the text the log stores: two consecutive Acts of a dial never read the same, and
      the last one records the stored value. */
  lemma ActTextsAreFaithful(initial: Values, states: seq<System>, steps: seq<Step>, d: Dial)
    requires IsRun(initial, states, steps)
    ensures TextsFaithful(states[|steps|].store, d)
  {
    ActLogIsFaithful(initial, states, steps, d);
    RunKeepsInvariant(initial, states, steps);
    MovesRecordable(initial, states[|steps|].commits);
    FaithfulTexts(initial, states[|steps|].store, d);
  }

  // ---------------------------------------------------------------- a move can go through

  /** A stretch of a run, from any state. */
  ghost predicate IsPath(states: seq<System>, steps: seq<Step>) {
    && |states| == |steps| + 1
    && forall k :: 0 <= k < |steps| ==> StepsTo(states[k], steps[k], states[k + 1])
  }

  lemma PathMore(states: seq<System>, steps: seq<Step>, step: Step) returns (longer: seq<System>, more: seq<Step>)
    requires IsPath(states, steps) && Enabled(states[|steps|], step)
    ensures longer == states + [Apply(states[|steps|], step)] && more == steps + [step] && IsPath(longer, more)
  {
    longer, more := states + [Apply(states[|steps|], step)], steps + [step];
    forall k | 0 <= k < |more|
      ensures StepsTo(longer[k], more[k], longer[k + 1])
    {
      if k < |steps| {
        assert StepsTo(states[k], steps[k], states[k + 1]);
      }
    }
  }

  /** A request that has written can record every Act that is due, one after another. */
  lemma RecordTheRest(states: seq<System>, steps: seq<Step>, p: nat, s: System, read: Values, writes: map<Dial, int>, n: nat)
    returns (longer: seq<System>, more: seq<Step>)
    requires IsPath(states, steps) && p < |s.requests|
    requires var due := DueOf(s.requests[p].sub, read);
             n <= |due| && states[|steps|] == SetPhase(s, p, Writing(read, writes, due[..n]))
    ensures IsPath(longer, more) && longer[0] == states[0]
    ensures longer[|more|] == SetPhase(s, p, Writing(read, writes, DueOf(s.requests[p].sub, read)))
    decreases |DueOf(s.requests[p].sub, read)| - n
  {
    var due := DueOf(s.requests[p].sub, read);
    if n == |due| {
      longer, more := states, steps;
      assert due[..n] == due;
    } else {
      var states', steps' := PathMore(states, steps, RecordStep(p));
      assert due[..n + 1] == due[..n] + [due[n]];
      assert states'[|steps'|] == SetPhase(s, p, Writing(read, writes, due[..n + 1]));
      longer, more := RecordTheRest(states', steps', p, s, read, writes, n + 1);
    }
  }

  /** Which submissions a handler lets into a transaction. */
  lemma BeginsExactly(s: System, p: nat)
    requires p < |s.requests| && s.requests[p].phase.Waiting?
    ensures Enabled(s, BeginStep(p)) <==>
            match s.requests[p].sub
            case CoverageForm(_, _, _) => true
            case TranscriptForm(days) => days >= 0
            case AddressCapForm(addresses) => addresses >= 1
            case ToggleForm(toggle, _) => toggle == UpdateCheck || toggle == ApiAccess
            case IntervalForm(cadence, days) => (cadence == ZoneCadence || cadence == DnsCadence) && 1 <= days <= 3650
  {
  }

  /** The three retention dials share one row and the three instance dials another; each cadence has its
      own, so a move waits for no move of another row. */
  lemma RowsShared(a: Dial, b: Dial)
    ensures RowOf(a) == RowOf(b) <==>
            || a == b
            || {a, b} <= {Observation, Dispatch, Transcript}
            || {a, b} <= {AddressCap, UpdateCheck, ApiAccess}
  {
  }

  /** Whatever else is under way, a waiting submission that is let in can commit as one move as long as
      no transaction holds its row, and it leaves the locks as they were. */
  lemma FreeRowCommits(s: System, p: nat) returns (states: seq<System>, steps: seq<Step>)
    requires p < |s.requests| && Enabled(s, BeginStep(p))
    requires RowFor(s.requests[p].sub) !in s.locks
    ensures IsPath(states, steps) && states[0] == s
    ensures var end := states[|steps|];
            && end.requests == s.requests[p := Request(s.requests[p].sub, Committed)]
            && end.store == Move(s.store, s.requests[p].sub)
            && end.commits == s.commits + [s.requests[p].sub]
            && end.locks == s.locks
  {
    var sub, read := s.requests[p].sub, s.store.values;
    var writes, locked := Writes(sub, read), s.(locks := s.locks[RowFor(sub) := p]);
    states, steps := PathMore([s], [], BeginStep(p));
    states, steps := PathMore(states, steps, LockStep(p));
    assert states[|steps|] == SetPhase(locked, p, Locked(read));
    states, steps := PathMore(states, steps, UpdateStep(p));
    assert states[|steps|] == SetPhase(locked, p, Writing(read, writes, []));
    states, steps := RecordTheRest(states, steps, p, locked, read, writes, 0);
    states, steps := PathMore(states, steps, CommitStep(p));
    assert s.locks[RowFor(sub) := p] - {RowFor(sub)} == s.locks;
  }
}
