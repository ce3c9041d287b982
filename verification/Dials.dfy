/**
  One dial move (the eight callers of cmd/web/dialtx.go moveDial): what each form may write, which dials
  it compares, the Acts that are due and their texts, and what a sequence of moves leaves.
*/
module Dials {
  import opened Wrappers
  import opened Decimal
  import opened DialText

  datatype Dial = Observation | Dispatch | Transcript | AddressCap | UpdateCheck | ApiAccess | ZoneCadence | DnsCadence

  datatype Row = RetentionRow | InstanceRow | ZoneRow | DnsRow

  const FLOOR_CADENCES := 2
  const SECONDS_PER_DAY := 86400
  const MAX_INTERVAL_DAYS := 3650

  function RowOf(d: Dial): Row {
    match d
    case Observation => RetentionRow
    case Dispatch => RetentionRow
    case Transcript => RetentionRow
    case AddressCap => InstanceRow
    case UpdateCheck => InstanceRow
    case ApiAccess => InstanceRow
    case ZoneCadence => ZoneRow
    case DnsCadence => DnsRow
  }

  /** The stored value of every dial; a toggle is 0 or 1, a cadence is in seconds. */
  datatype Values = Values(observation: int, dispatch: int, transcript: int, addressCap: int,
                           updateCheck: int, apiAccess: int, zoneCadence: int, dnsCadence: int)
  {
    function At(d: Dial): int {
      match d
      case Observation => observation
      case Dispatch => dispatch
      case Transcript => transcript
      case AddressCap => addressCap
      case UpdateCheck => updateCheck
      case ApiAccess => apiAccess
      case ZoneCadence => zoneCadence
      case DnsCadence => dnsCadence
    }

    /** The value a dial has once the columns in `writes` are set. */
    function After(writes: map<Dial, int>, d: Dial): int {
      if d in writes then writes[d] else At(d)
    }

    function Set(writes: map<Dial, int>): Values {
      Values(After(writes, Observation), After(writes, Dispatch), After(writes, Transcript), After(writes, AddressCap),
             After(writes, UpdateCheck), After(writes, ApiAccess), After(writes, ZoneCadence), After(writes, DnsCadence))
    }
  }

  /** One posted form, after its fields are read and before the transaction opens. `floorDays` is
      the observation floor the UPDATE itself derives. */
  datatype Submission =
    | CoverageForm(observation: Option<int>, dispatch: Option<int>, floorDays: nat)
    | TranscriptForm(days: int)
    | AddressCapForm(addresses: int)
    | ToggleForm(toggle: Dial, on: bool)
    | IntervalForm(cadence: Dial, days: int)

  /** What each handler refuses before it opens a transaction. */
  predicate Admissible(sub: Submission) {
    match sub
    case CoverageForm(_, _, _) => true
    case TranscriptForm(days) => days >= 0
    case AddressCapForm(addresses) => addresses >= 1
    case ToggleForm(toggle, _) => toggle in {UpdateCheck, ApiAccess}
    case IntervalForm(cadence, days) => cadence in {ZoneCadence, DnsCadence} && 1 <= days <= MAX_INTERVAL_DAYS
  }

  function RowFor(sub: Submission): Row {
    match sub
    case CoverageForm(_, _, _) => RetentionRow
    case TranscriptForm(_) => RetentionRow
    case AddressCapForm(_) => InstanceRow
    case ToggleForm(_, _) => InstanceRow
    case IntervalForm(cadence, _) => RowOf(cadence)
  }

  /** The columns the handler's UPDATE sets, computed from its locked read. */
  function Writes(sub: Submission, read: Values): map<Dial, int> {
    match sub
    case CoverageForm(observation, dispatch, floorDays) =>
      map[Observation := ClampToFloor(ParseDialValue(observation, read.observation), floorDays),
          Dispatch := ClampToFloor(ParseDialValue(dispatch, read.dispatch), FLOOR_CADENCES)]
    case TranscriptForm(days) =>
      map[Observation := read.observation, Dispatch := read.dispatch, Transcript := days]
    case AddressCapForm(addresses) => map[AddressCap := addresses]
    case ToggleForm(toggle, on) => map[toggle := if on then 1 else 0]
    case IntervalForm(cadence, days) => map[cadence := days * SECONDS_PER_DAY]
  }

  /** The dials the handler compares, in the order it records them. */
  function Compared(sub: Submission): seq<Dial> {
    match sub
    case CoverageForm(_, _, _) => [Observation, Dispatch]
    case TranscriptForm(_) => [Transcript]
    case AddressCapForm(_) => [AddressCap]
    case ToggleForm(toggle, _) => [toggle]
    case IntervalForm(cadence, _) => [cadence]
  }

  datatype Act = DialMoved(dial: Dial, value: int)

  /** The text the Act stores for its value. */
  function Text(a: Act): string {
    match a.dial
    case Observation => HumanDays(a.value)
    case Dispatch => HumanCadences(a.value)
    case Transcript => HumanDays(a.value)
    case AddressCap => if a.value >= 0 then Dec(a.value) else "-" + Dec(-a.value)
    case UpdateCheck => OnOff(a.value)
    case ApiAccess => OnOff(a.value)
    case ZoneCadence => HumanDays(a.value / SECONDS_PER_DAY)
    case DnsCadence => HumanDays(a.value / SECONDS_PER_DAY)
  }

  /** The Acts due for one move: one for each compared dial whose written value differs. */
  function Due(dials: seq<Dial>, read: Values, writes: map<Dial, int>): seq<Act> {
    if dials == [] then []
    else DueFor(dials[0], read, writes) + Due(dials[1..], read, writes)
  }

  function DueFor(d: Dial, read: Values, writes: map<Dial, int>): seq<Act> {
    if read.After(writes, d) != read.At(d) then [DialMoved(d, writes[d])] else []
  }

  // ---------------------------------------------------------------- one move at a time

  datatype Store = Store(values: Values, log: seq<Act>)

  /** The move as the handler means it: read, write, compare and record in one piece. */
  function Move(s: Store, sub: Submission): Store {
    var writes := Writes(sub, s.values);
    Store(s.values.Set(writes), s.log + Due(Compared(sub), s.values, writes))
  }

  function Moves(s: Store, subs: seq<Submission>): Store {
    if subs == [] then s else Move(Moves(s, subs[..|subs| - 1]), subs[|subs| - 1])
  }

  /** The values recorded for one dial, after the value it began with. */
  function Recorded(initial: int, log: seq<Act>, d: Dial): seq<int> {
    if log == [] then [initial]
    else
      var before := Recorded(initial, log[..|log| - 1], d);
      if log[|log| - 1].dial == d then before + [log[|log| - 1].value] else before
  }

  ghost predicate NoRepeat(s: seq<int>) {
    forall i :: 0 < i < |s| ==> s[i - 1] != s[i]
  }

  /** The log of one dial tells its story: no value twice in a row, and the last is the stored one. */
  ghost predicate Faithful(initial: Values, s: Store, d: Dial) {
    var r := Recorded(initial.At(d), s.log, d);
    |r| > 0 && NoRepeat(r) && r[|r| - 1] == s.values.At(d)
  }

  lemma {:induction false} RecordedAppend(initial: int, log: seq<Act>, more: seq<Act>, d: Dial)
    ensures |Recorded(initial, more, d)| > 0 && Recorded(initial, more, d)[0] == initial
    ensures Recorded(initial, log + more, d) == Recorded(initial, log, d) + Recorded(initial, more, d)[1..]
    decreases |more|
  {
    if more == [] {
      assert log + more == log;
    } else {
      RecordedAppend(initial, log, more[..|more| - 1], d);
      assert (log + more)[..|log + more| - 1] == log + more[..|more| - 1];
    }
  }

  lemma RecordedOne(initial: int, a: Act, d: Dial)
    ensures Recorded(initial, [a], d) == if a.dial == d then [initial, a.value] else [initial]
  {
    assert [a][..0] == [];
  }

  /** Among distinct compared dials, the Acts due record each moved dial once and no other. */
  lemma {:induction false} RecordedDue(dials: seq<Dial>, read: Values, writes: map<Dial, int>, d: Dial)
    requires forall i, j :: 0 <= i < j < |dials| ==> dials[i] != dials[j]
    ensures Recorded(read.At(d), Due(dials, read, writes), d)
            == if d in dials && read.After(writes, d) != read.At(d) then [read.At(d), writes[d]] else [read.At(d)]
  {
    if dials != [] {
      RecordedDue(dials[1..], read, writes, d);
      RecordedAppend(read.At(d), DueFor(dials[0], read, writes), Due(dials[1..], read, writes), d);
      if read.After(writes, dials[0]) != read.At(dials[0]) {
        RecordedOne(read.At(d), DialMoved(dials[0], writes[dials[0]]), d);
      }
    }
  }

  /** A move never changes a dial it does not compare: a transcript move leaves the other two dials
      of its row alone, though its UPDATE rewrites all three. */
  lemma MoveKeepsSiblings(s: Store, sub: Submission, d: Dial)
    requires d !in Compared(sub)
    ensures Move(s, sub).values.At(d) == s.values.At(d)
  {
    if sub.ToggleForm? || sub.IntervalForm? {
      assert Compared(sub)[0] != d;
    } else if sub.TranscriptForm? || sub.AddressCapForm? {
      assert Compared(sub)[0] != d;
    } else {
      assert Compared(sub)[0] != d && Compared(sub)[1] != d;
    }
  }

  /** A move records a dial exactly when it changes it, and then with the value it leaves. */
  lemma MoveRecords(s: Store, sub: Submission, d: Dial)
    ensures Recorded(s.values.At(d), Due(Compared(sub), s.values, Writes(sub, s.values)), d)
            == if Move(s, sub).values.At(d) == s.values.At(d) then [s.values.At(d)]
               else [s.values.At(d), Move(s, sub).values.At(d)]
    ensures Stored(sub, d, s.values.At(d), Move(s, sub).values.At(d))
  {
    MoveStores(s, sub, d);
    RecordedDue(Compared(sub), s.values, Writes(sub, s.values), d);
    if d !in Compared(sub) {
      MoveKeepsSiblings(s, sub, d);
    }
  }

  /** What a coverage form leaves in one of its two dials: the submitted count, or the locked value
      when the field does not parse or is negative, raised to the floor when it is bounded and below
      it. 0 keeps everything and is never raised. */
  ghost predicate KeepsFloor(submitted: Option<int>, locked: int, floor: int, after: int) {
    var asked := if submitted.Some? && submitted.value >= 0 then submitted.value else locked;
    after == if 0 < asked < floor then floor else asked
  }

  /** What a submission leaves in a dial that held `before`. */
  ghost predicate Stored(sub: Submission, d: Dial, before: int, after: int) {
    match sub
    case CoverageForm(observation, dispatch, floorDays) =>
      && (d == Observation ==> KeepsFloor(observation, before, floorDays, after))
      && (d == Dispatch ==> KeepsFloor(dispatch, before, 2, after))
      && (d != Observation && d != Dispatch ==> after == before)
    case TranscriptForm(days) => after == if d == Transcript then days else before
    case AddressCapForm(addresses) => after == if d == AddressCap then addresses else before
    case ToggleForm(toggle, on) => if d == toggle then after in {0, 1} && (after == 1 <==> on) else after == before
    case IntervalForm(cadence, days) => after == if d == cadence then days * 24 * 60 * 60 else before
  }

  lemma MoveStores(s: Store, sub: Submission, d: Dial)
    ensures Stored(sub, d, s.values.At(d), Move(s, sub).values.At(d))
  {
  }

  /** The values a dial goes through, one for the start and one for each submission. */
  ghost predicate Goes(d: Dial, through: seq<int>, initial: int, subs: seq<Submission>) {
    && |through| == |subs| + 1
    && through[0] == initial
    && forall k :: 0 <= k < |subs| ==> Stored(subs[k], d, through[k], through[k + 1])
  }

  lemma GoesOn(d: Dial, through: seq<int>, initial: int, subs: seq<Submission>, sub: Submission, now: int)
    requires Goes(d, through, initial, subs) && Stored(sub, d, through[|subs|], now)
    ensures Goes(d, through + [now], initial, subs + [sub])
  {
    var more, after := subs + [sub], through + [now];
    forall k | 0 <= k < |more|
      ensures Stored(more[k], d, after[k], after[k + 1])
    {
      if k < |subs| {
        assert Stored(subs[k], d, through[k], through[k + 1]);
      }
    }
  }

  lemma {:induction false} MovesGo(initial: Values, subs: seq<Submission>, d: Dial) returns (through: seq<int>)
    ensures Goes(d, through, initial.At(d), subs)
    ensures through[|subs|] == Moves(Store(initial, []), subs).values.At(d)
  {
    if subs == [] {
      through := [initial.At(d)];
    } else {
      var n := |subs| - 1;
      var earlier := MovesGo(initial, subs[..n], d);
      var before := Moves(Store(initial, []), subs[..n]);
      MoveStores(before, subs[n], d);
      var now := Move(before, subs[n]).values.At(d);
      GoesOn(d, earlier, initial.At(d), subs[..n], subs[n], now);
      assert subs == subs[..n] + [subs[n]];
      through := earlier + [now];
    }
  }

  /** The form has a field for the dial. */
  predicate Touches(sub: Submission, d: Dial) {
    match sub
    case CoverageForm(_, _, _) => d in {Observation, Dispatch}
    case TranscriptForm(_) => d == Transcript
    case AddressCapForm(_) => d == AddressCap
    case ToggleForm(toggle, _) => d == toggle
    case IntervalForm(cadence, _) => d == cadence
  }

  /** From the k-th submission on, none has a field for the dial. */
  ghost predicate UntouchedFrom(d: Dial, subs: seq<Submission>, k: nat) {
    forall j :: k <= j < |subs| ==> !Touches(subs[j], d)
  }

  lemma {:induction false} UntouchedStays(d: Dial, through: seq<int>, initial: int, subs: seq<Submission>, k: nat)
    requires Goes(d, through, initial, subs) && k <= |subs|
    requires UntouchedFrom(d, subs, k)
    ensures through[k] == through[|subs|]
    decreases |subs| - k
  {
    if k < |subs| {
      assert Stored(subs[k], d, through[k], through[k + 1]) && !Touches(subs[k], d);
      UntouchedStays(d, through, initial, subs, k + 1);
    }
  }

  lemma NoRepeatJoin(r: seq<int>, x: int)
    requires |r| > 0 && NoRepeat(r) && r[|r| - 1] != x
    ensures NoRepeat(r + [x])
  {
  }

  lemma MoveKeepsFaithful(initial: Values, s: Store, sub: Submission, d: Dial)
    requires Faithful(initial, s, d)
    ensures Faithful(initial, Move(s, sub), d)
  {
    var due := Due(Compared(sub), s.values, Writes(sub, s.values));
    RecordedAppend(initial.At(d), s.log, due, d);
    MoveRecords(s, sub, d);
    StartDoesNotMatter(initial.At(d), s.values.At(d), due, d);
    var r, now := Recorded(initial.At(d), s.log, d), Move(s, sub).values.At(d);
    if now != s.values.At(d) {
      NoRepeatJoin(r, now);
      assert Recorded(initial.At(d), s.log + due, d) == r + [now];
    } else {
      assert Recorded(initial.At(d), s.log + due, d) == r;
    }
  }

  lemma {:induction false} StartDoesNotMatter(a: int, b: int, log: seq<Act>, d: Dial)
    ensures |Recorded(a, log, d)| == |Recorded(b, log, d)| > 0
    ensures Recorded(a, log, d)[1..] == Recorded(b, log, d)[1..]
  {
    if log != [] {
      StartDoesNotMatter(a, b, log[..|log| - 1], d);
    }
  }

  lemma {:induction false} MovesKeepFaithful(initial: Values, subs: seq<Submission>, d: Dial)
    ensures Faithful(initial, Moves(Store(initial, []), subs), d)
  {
    if subs != [] {
      MovesKeepFaithful(initial, subs[..|subs| - 1], d);
      MoveKeepsFaithful(initial, Moves(Store(initial, []), subs[..|subs| - 1]), subs[|subs| - 1], d);
    }
  }

  // ---------------------------------------------------------------- the recorded text

  /** The values a committed move can record. */
  predicate Recordable(d: Dial, value: int) {
    match d
    case AddressCap => value >= 1
    case UpdateCheck => value in {0, 1}
    case ApiAccess => value in {0, 1}
    case ZoneCadence => value > 0 && value % SECONDS_PER_DAY == 0
    case DnsCadence => value > 0 && value % SECONDS_PER_DAY == 0
    case _ => value >= 0
  }

  /** What the log shows of a recorded value. */
  lemma TextReads(d: Dial, value: int)
    requires Recordable(d, value)
    ensures var text := Text(DialMoved(d, value));
            match d
            case Dispatch => text == if value == 0 then "keep everything" else Counted(value, "cadence")
            case AddressCap => text == Dec(value)
            case UpdateCheck => text == if value == 1 then "on" else "off"
            case ApiAccess => text == if value == 1 then "on" else "off"
            case ZoneCadence => value % 86400 == 0 && text == HumanDays(value / 86400)
            case DnsCadence => value % 86400 == 0 && text == HumanDays(value / 86400)
            case _ => text == HumanDays(value)
  {
    HumanCadencesReads(value);
  }

  lemma TextDeterminesValue(d: Dial, a: int, b: int)
    requires Recordable(d, a) && Recordable(d, b)
    ensures Text(DialMoved(d, a)) == Text(DialMoved(d, b)) <==> a == b
  {
    HumanDaysDeterminesDays(a, b);
    HumanCadencesDeterminesCount(a, b);
    HumanDaysDeterminesDays(a / SECONDS_PER_DAY, b / SECONDS_PER_DAY);
    if d == AddressCap && Dec(a) == Dec(b) {
      DecInjective(a, b);
    }
    assert "on"[1] != "off"[1];
  }

  ghost predicate AllRecordable(log: seq<Act>) {
    forall k :: 0 <= k < |log| ==> Recordable(log[k].dial, log[k].value)
  }

  lemma WritesRecordable(sub: Submission, read: Values, d: Dial)
    requires Admissible(sub) && d in Compared(sub)
    requires read.After(Writes(sub, read), d) != read.At(d)
    ensures Recordable(d, Writes(sub, read)[d])
  {
    if sub.IntervalForm? {
      assert sub.days * SECONDS_PER_DAY % SECONDS_PER_DAY == 0;
    }
  }

  lemma {:induction false} DueRecordable(dials: seq<Dial>, sub: Submission, read: Values)
    requires Admissible(sub)
    requires forall d :: d in dials ==> d in Compared(sub)
    ensures AllRecordable(Due(dials, read, Writes(sub, read)))
  {
    if dials != [] {
      DueRecordable(dials[1..], sub, read);
      assert dials[0] in Compared(sub);
      if read.After(Writes(sub, read), dials[0]) != read.At(dials[0]) {
        WritesRecordable(sub, read, dials[0]);
      }
    }
  }

  lemma {:induction false} MovesRecordable(initial: Values, subs: seq<Submission>)
    requires forall k :: 0 <= k < |subs| ==> Admissible(subs[k])
    ensures AllRecordable(Moves(Store(initial, []), subs).log)
  {
    if subs != [] {
      var prev, last := subs[..|subs| - 1], subs[|subs| - 1];
      MovesRecordable(initial, prev);
      DueRecordable(Compared(last), last, Moves(Store(initial, []), prev).values);
    }
  }

  /** The Acts of one dial, in order. */
  function ActsOf(log: seq<Act>, d: Dial): seq<Act> {
    if log == [] then []
    else ActsOf(log[..|log| - 1], d) + if log[|log| - 1].dial == d then [log[|log| - 1]] else []
  }

  lemma {:induction false} ActsAreRecorded(initial: int, log: seq<Act>, d: Dial)
    requires AllRecordable(log)
    ensures |Recorded(initial, log, d)| == |ActsOf(log, d)| + 1
    ensures forall k :: 0 <= k < |ActsOf(log, d)| ==>
              ActsOf(log, d)[k] == DialMoved(d, Recorded(initial, log, d)[k + 1]) && Recordable(d, ActsOf(log, d)[k].value)
  {
    if log != [] {
      ActsAreRecorded(initial, log[..|log| - 1], d);
    }
  }

  ghost predicate TextsFaithful(s: Store, d: Dial) {
    var acts := ActsOf(s.log, d);
    && (forall k :: 0 < k < |acts| ==> Text(acts[k - 1]) != Text(acts[k]))
    && (acts != [] ==> acts[|acts| - 1] == DialMoved(d, s.values.At(d)))
  }

  lemma FaithfulTexts(initial: Values, s: Store, d: Dial)
    requires Faithful(initial, s, d) && AllRecordable(s.log)
    ensures TextsFaithful(s, d)
  {
    ActsAreRecorded(initial.At(d), s.log, d);
    var acts, r := ActsOf(s.log, d), Recorded(initial.At(d), s.log, d);
    forall k | 0 < k < |acts|
      ensures Text(acts[k - 1]) != Text(acts[k])
    {
      assert acts[k - 1] == DialMoved(d, r[k]) && acts[k] == DialMoved(d, r[k + 1]);
      assert r[k + 1 - 1] != r[k + 1];
      TextDeterminesValue(d, r[k], r[k + 1]);
    }
  }
}
