/**
  The bounded in-memory hub of per-run progress events (cmd/web/progress.go).

  `ProgressHub` is the mutable object; `Record` and `Evict` are the state functions its methods
  are proved against. `Admissions`, `Live` and `EventsOf` describe the same hub from the
  history of recorded events alone, without any bound on a log; the theorem
  `HubRefinesHistory` connects the two.
*/
module ProgressHub {
  const MAX_PROGRESS_RUNS: nat := 256
  const MAX_EVENTS_PER_RUN: nat := 1024

  datatype Event = Event(dispatch: int, job: int, level: string, text: string)

  datatype HubState = HubState(byRun: map<int, seq<Event>>, recent: seq<int>)

  const EMPTY_HUB := HubState(map[], [])

  predicate Counted(ev: Event) {
    ev.dispatch != 0 && ev.job != 0
  }

  function Evict(h: HubState): HubState
    decreases |h.recent|
  {
    if |h.recent| <= MAX_PROGRESS_RUNS then h
    else Evict(HubState(h.byRun - {h.recent[0]}, h.recent[1..]))
  }

  function Record(h: HubState, ev: Event): HubState {
    if !Counted(ev) then h
    else
      var known := ev.dispatch in h.byRun;
      var log := if known then h.byRun[ev.dispatch] else [];
      var admitted := if known then h else Evict(h.(recent := h.recent + [ev.dispatch]));
      if |log| >= MAX_EVENTS_PER_RUN then admitted
      else admitted.(byRun := admitted.byRun[ev.dispatch := log + [ev]])
  }

  function LogOf(h: HubState, dispatch: int): seq<Event> {
    if dispatch in h.byRun then h.byRun[dispatch] else []
  }

  /** The hub object. Its lock is held for the whole of each method, so each is one step. */
  class Hub {
    var byRun: map<int, seq<Event>>
    var recent: seq<int>

    function State(): HubState
      reads this
    {
      HubState(byRun, recent)
    }

    constructor ()
      ensures State() == EMPTY_HUB
    {
      byRun, recent := map[], [];
    }

    method RecordEvent(ev: Event)
      modifies this
      ensures State() == Record(old(State()), ev)
    {
      if ev.dispatch == 0 || ev.job == 0 {
        return;
      }
      var log := [];
      if ev.dispatch in byRun {
        log := byRun[ev.dispatch];
      } else {
        recent := recent + [ev.dispatch];
        EvictOldest();
      }
      if |log| >= MAX_EVENTS_PER_RUN {
        return;
      }
      byRun := byRun[ev.dispatch := log + [ev]];
    }

    method EvictOldest()
      modifies this
      ensures State() == Evict(old(State()))
    {
      while |recent| > MAX_PROGRESS_RUNS
        invariant Evict(State()) == Evict(old(State()))
        decreases |recent|
      {
        var oldest := recent[0];
        recent := recent[1..];
        byRun := byRun - {oldest};
      }
    }

    method ForDispatch(dispatch: int) returns (out: seq<Event>)
      ensures out == LogOf(State(), dispatch)
    {
      if dispatch !in byRun || |byRun[dispatch]| == 0 {
        return [];
      }
      out := byRun[dispatch];
    }
  }

  // ---------------------------------------------------------------- history, without bounds

  function LastN<T>(s: seq<T>, n: nat): seq<T> {
    if |s| <= n then s else s[|s| - n..]
  }

  function FirstN<T>(s: seq<T>, n: nat): seq<T> {
    if |s| <= n then s else s[..n]
  }

  /** The positions in `evs` at which a run was admitted: an event with a run and a job, of a run not
      then live. */
  ghost function Admissions(evs: seq<Event>): (a: seq<nat>)
    ensures forall i :: 0 <= i < |a| ==> a[i] < |evs|
    decreases |evs|, 0
  {
    if evs == [] then []
    else
      var prev := evs[..|evs| - 1];
      var ev := evs[|evs| - 1];
      if ev.dispatch != 0 && ev.job != 0 && !Live(prev, ev.dispatch) then Admissions(prev) + [|evs| - 1] else Admissions(prev)
  }

  /** A run is live when its latest admission is among the last 256 admissions of any run. */
  ghost predicate Live(evs: seq<Event>, dispatch: int)
    decreases |evs|, 2
  {
    exists i :: 0 <= i < |LiveAdmissions(evs)| && evs[LiveAdmissions(evs)[i]].dispatch == dispatch
  }

  ghost function LiveAdmissions(evs: seq<Event>): (a: seq<nat>)
    ensures forall i :: 0 <= i < |a| ==> a[i] < |evs|
    decreases |evs|, 1
  {
    LastN(Admissions(evs), MAX_PROGRESS_RUNS)
  }

  /** Every event of one run that has a job, in order. */
  function EventsOf(evs: seq<Event>, dispatch: int): seq<Event> {
    if evs == [] then []
    else
      var prev := EventsOf(evs[..|evs| - 1], dispatch);
      var ev := evs[|evs| - 1];
      if ev.dispatch != 0 && ev.job != 0 && ev.dispatch == dispatch then prev + [ev] else prev
  }

  function Replay(evs: seq<Event>): HubState {
    if evs == [] then EMPTY_HUB
    else Record(Replay(evs[..|evs| - 1]), evs[|evs| - 1])
  }

  // ---------------------------------------------------------------- refinement

  ghost predicate NoDuplicates(s: seq<int>) {
    forall i, j :: 0 <= i < j < |s| ==> s[i] != s[j]
  }

  ghost predicate HubInvariant(h: HubState) {
    && NoDuplicates(h.recent)
    && |h.recent| <= MAX_PROGRESS_RUNS
    && (forall d :: d in h.byRun <==> d in h.recent)
    && (forall d :: d in h.byRun ==> 1 <= |h.byRun[d]| <= MAX_EVENTS_PER_RUN)
  }

  /** Admitting a run to a hub that meets the invariant drops at most the one oldest run. */
  lemma EvictDropsOldest(h: HubState, d: int)
    requires HubInvariant(h) && d !in h.byRun
    ensures Evict(h.(recent := h.recent + [d])) ==
            if |h.recent| < MAX_PROGRESS_RUNS then h.(recent := h.recent + [d])
            else HubState(h.byRun - {h.recent[0]}, h.recent[1..] + [d])
  {
    var grown := h.recent + [d];
    if |h.recent| == MAX_PROGRESS_RUNS {
      assert grown[1..] == h.recent[1..] + [d];
    }
  }

  lemma RecordKeepsInvariant(h: HubState, ev: Event)
    requires HubInvariant(h)
    ensures HubInvariant(Record(h, ev))
  {
    if Counted(ev) && ev.dispatch !in h.byRun {
      EvictDropsOldest(h, ev.dispatch);
      var h' := Record(h, ev);
      if |h.recent| == MAX_PROGRESS_RUNS {
        assert h.recent == [h.recent[0]] + h.recent[1..];
        assert h.recent[0] !in h.recent[1..] by {
          assert forall j :: 1 <= j < |h.recent| ==> h.recent[j] != h.recent[0];
        }
        assert h'.recent == h.recent[1..] + [ev.dispatch];
      } else {
        assert h'.recent == h.recent + [ev.dispatch];
      }
    }
  }

  ghost function RunAt(evs: seq<Event>, i: nat): int
    requires i < |LiveAdmissions(evs)|
  {
    evs[LiveAdmissions(evs)[i]].dispatch
  }

  ghost function LogSince(evs: seq<Event>, i: nat): seq<Event>
    requires i < |LiveAdmissions(evs)|
  {
    FirstN(EventsOf(evs[LiveAdmissions(evs)[i]..], RunAt(evs, i)), MAX_EVENTS_PER_RUN)
  }

  /** The hub is exactly what the history says: the live runs in admission order, each holding
      the first 1024 of the events recorded for it since its latest admission. */
  ghost predicate Refines(h: HubState, evs: seq<Event>) {
    && |h.recent| == |LiveAdmissions(evs)|
    && forall i: nat :: i < |h.recent| ==> RefinesAt(h, evs, i)
  }

  ghost predicate RefinesAt(h: HubState, evs: seq<Event>, i: nat)
    requires i < |h.recent| == |LiveAdmissions(evs)|
  {
    && h.recent[i] == RunAt(evs, i)
    && h.recent[i] in h.byRun
    && h.byRun[h.recent[i]] == LogSince(evs, i)
  }

  function AddedFor(ev: Event, d: int): seq<Event> {
    if Counted(ev) && ev.dispatch == d then [ev] else []
  }

  lemma EventsOfSnoc(evs: seq<Event>, ev: Event, k: nat, d: int)
    requires k <= |evs|
    ensures EventsOf((evs + [ev])[k..], d) == EventsOf(evs[k..], d) + AddedFor(ev, d)
  {
    var all := (evs + [ev])[k..];
    assert all[..|all| - 1] == evs[k..];
    assert all[|all| - 1] == ev;
  }

  /** Adding to a full log changes nothing; adding to any other appends. */
  lemma FirstNAppend<T>(s: seq<T>, t: seq<T>, n: nat)
    ensures FirstN(FirstN(s, n) + t, n) == FirstN(s + t, n)
  {
    if |s| > n {
      assert (s[..n] + t)[..n] == s[..n] == (s + t)[..n];
    }
  }

  /** Recording into the hub adds to one log and leaves every other log that stays alone. */
  lemma RecordedLog(h: HubState, ev: Event, d: int)
    requires HubInvariant(h)
    requires d in h.byRun
    requires d in Record(h, ev).byRun
    ensures Record(h, ev).byRun[d] == FirstN(h.byRun[d] + AddedFor(ev, d), MAX_EVENTS_PER_RUN)
  {
    if Counted(ev) && ev.dispatch !in h.byRun {
      EvictDropsOldest(h, ev.dispatch);
    }
  }

  /** The log of a live run, one event later. */
  lemma CarriedLog(h: HubState, prev: seq<Event>, ev: Event, i: nat)
    requires HubInvariant(h) && Refines(h, prev)
    requires i < |h.recent| && h.recent[i] in Record(h, ev).byRun
    ensures var d := h.recent[i];
            Record(h, ev).byRun[d]
            == FirstN(EventsOf((prev + [ev])[LiveAdmissions(prev)[i]..], d), MAX_EVENTS_PER_RUN)
  {
    var d, k := h.recent[i], LiveAdmissions(prev)[i];
    assert RefinesAt(h, prev, i);
    RecordedLog(h, ev, d);
    EventsOfSnoc(prev, ev, k, d);
    FirstNAppend(EventsOf(prev[k..], d), AddedFor(ev, d), MAX_EVENTS_PER_RUN);
  }

  lemma SnocAdmissions(prev: seq<Event>, ev: Event)
    ensures Admissions(prev + [ev]) ==
            if Counted(ev) && !Live(prev, ev.dispatch) then Admissions(prev) + [|prev|] else Admissions(prev)
  {
    var evs := prev + [ev];
    assert evs[..|evs| - 1] == prev;
  }

  lemma RefinesMatchesLive(h: HubState, evs: seq<Event>, d: int)
    requires Refines(h, evs)
    ensures Live(evs, d) <==> d in h.recent
  {
    if d in h.recent {
      var i: nat :| i < |h.recent| && h.recent[i] == d;
      assert RefinesAt(h, evs, i);
    }
    if Live(evs, d) {
      var i: nat :| i < |LiveAdmissions(evs)| && evs[LiveAdmissions(evs)[i]].dispatch == d;
      assert RefinesAt(h, evs, i);
    }
  }

  /** One more event of a live run, or an uncounted one, leaves the admissions as they were. */
  lemma StepWithoutAdmission(h: HubState, prev: seq<Event>, ev: Event)
    requires HubInvariant(h) && Refines(h, prev)
    requires !Counted(ev) || Live(prev, ev.dispatch)
    ensures Refines(Record(h, ev), prev + [ev])
  {
    SnocAdmissions(prev, ev);
    RefinesMatchesLive(h, prev, ev.dispatch);
    var evs := prev + [ev];
    forall i: nat | i < |h.recent|
      ensures RefinesAt(Record(h, ev), evs, i)
    {
      assert RefinesAt(h, prev, i);
      CarriedLog(h, prev, ev, i);
    }
  }

  lemma AdmittedLog(prev: seq<Event>, ev: Event)
    requires Counted(ev)
    ensures EventsOf((prev + [ev])[|prev|..], ev.dispatch) == [ev]
  {
    EventsOfSnoc(prev, ev, |prev|, ev.dispatch);
    assert prev[|prev|..] == [];
  }

  lemma LastNSnoc<T>(s: seq<T>, x: T, n: nat)
    requires n > 0
    ensures LastN(s + [x], n) == LastN(s, n)[if |s| < n then 0 else 1..] + [x]
  {
  }

  /** How many of the oldest runs admitting one more drops. */
  function Dropped(h: HubState): nat {
    if |h.recent| < MAX_PROGRESS_RUNS then 0 else 1
  }

  lemma AdmissionOrder(h: HubState, prev: seq<Event>, ev: Event)
    requires HubInvariant(h) && Refines(h, prev)
    requires Counted(ev) && !Live(prev, ev.dispatch)
    ensures Dropped(h) <= |h.recent|
    ensures Record(h, ev).recent == h.recent[Dropped(h)..] + [ev.dispatch]
    ensures LiveAdmissions(prev + [ev]) == LiveAdmissions(prev)[Dropped(h)..] + [|prev|]
    ensures ev.dispatch !in h.byRun
  {
    SnocAdmissions(prev, ev);
    RefinesMatchesLive(h, prev, ev.dispatch);
    EvictDropsOldest(h, ev.dispatch);
    LastNSnoc(Admissions(prev), |prev|, MAX_PROGRESS_RUNS);
  }

  /** A run that stays keeps its place behind those dropped, and its log grows as its history does. */
  lemma StayingRun(h: HubState, prev: seq<Event>, ev: Event, i: nat)
    requires HubInvariant(h) && Refines(h, prev)
    requires Counted(ev) && !Live(prev, ev.dispatch)
    requires i < |Record(h, ev).recent| - 1
    ensures |Record(h, ev).recent| == |LiveAdmissions(prev + [ev])|
    ensures RefinesAt(Record(h, ev), prev + [ev], i)
  {
    var h', j := Record(h, ev), i + Dropped(h);
    AdmissionOrder(h, prev, ev);
    RecordKeepsInvariant(h, ev);
    assert RefinesAt(h, prev, j);
    assert h'.recent[i] == h.recent[j] == RunAt(prev, j);
    assert h'.recent[i] in h'.recent;
    CarriedLog(h, prev, ev, j);
  }

  lemma AdmittedRun(h: HubState, prev: seq<Event>, ev: Event)
    requires HubInvariant(h) && Refines(h, prev)
    requires Counted(ev) && !Live(prev, ev.dispatch)
    ensures |Record(h, ev).recent| == |LiveAdmissions(prev + [ev])| > 0
    ensures RefinesAt(Record(h, ev), prev + [ev], |Record(h, ev).recent| - 1)
  {
    AdmissionOrder(h, prev, ev);
    AdmittedLog(prev, ev);
    EvictDropsOldest(h, ev.dispatch);
    assert Record(h, ev).byRun[ev.dispatch] == [ev];
  }

  lemma StepWithAdmission(h: HubState, prev: seq<Event>, ev: Event)
    requires HubInvariant(h) && Refines(h, prev)
    requires Counted(ev) && !Live(prev, ev.dispatch)
    ensures Refines(Record(h, ev), prev + [ev])
  {
    var evs, h' := prev + [ev], Record(h, ev);
    AdmittedRun(h, prev, ev);
    forall i: nat | i < |h'.recent|
      ensures RefinesAt(h', evs, i)
    {
      if i < |h'.recent| - 1 {
        StayingRun(h, prev, ev, i);
      }
    }
  }

  /** Over every sequence of recorded events: `recent` has no duplicate, holds at most 256 runs and
      is the key set of `byRun`, and the hub is exactly the one the history describes. */
  lemma {:induction false} HubRefinesHistory(evs: seq<Event>)
    ensures HubInvariant(Replay(evs))
    ensures Refines(Replay(evs), evs)
  {
    if evs == [] {
    } else {
      var prev, ev := evs[..|evs| - 1], evs[|evs| - 1];
      HubRefinesHistory(prev);
      RecordKeepsInvariant(Replay(prev), ev);
      assert prev + [ev] == evs;
      if Counted(ev) && !Live(prev, ev.dispatch) {
        StepWithAdmission(Replay(prev), prev, ev);
      } else {
        StepWithoutAdmission(Replay(prev), prev, ev);
      }
    }
  }
}
