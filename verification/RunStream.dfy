/**
  The live log of one run (cmd/web/progress.go, cmd/web/scans.go): the packed stream cursor, the
  lines derived on each poll tick, the long-poll loop, and the whole system of a hub that records
  events, a job table that grows, and a viewer that polls and echoes the cursor back.

  A line's rendered tag is "#" followed by its job id, so `Line` carries the job id itself.
*/
module RunStream {
  import opened Wrappers
  import opened ProgressHub

  const STREAM_CURSOR_BASE: nat := 1_000_000

  datatype JobView = JobView(id: int, kind: string, state: string, vantage: string, batch: string,
                             superseded: bool, retrying: bool)

  datatype Line = Line(job: int, level: string, text: string)

  // ---------------------------------------------------------------- the cursor

  function EncodeCursor(events: nat, state: nat): nat {
    var low := if state >= STREAM_CURSOR_BASE then STREAM_CURSOR_BASE - 1 else state;
    events * STREAM_CURSOR_BASE + low
  }

  function DecodeCursor(after: int): (nat, nat) {
    if after < 0 then (0, 0) else (after / STREAM_CURSOR_BASE, after % STREAM_CURSOR_BASE)
  }

  /** Decoding undoes encoding exactly for the state counts the low part can carry. */
  lemma CursorRoundTrip(events: nat, state: nat)
    ensures DecodeCursor(EncodeCursor(events, state)) == (events, state) <==> state < STREAM_CURSOR_BASE
  {
    var low := if state >= STREAM_CURSOR_BASE then STREAM_CURSOR_BASE - 1 else state;
    var c := EncodeCursor(events, state);
    assert c == events * STREAM_CURSOR_BASE + low;
    assert c / STREAM_CURSOR_BASE == events && c % STREAM_CURSOR_BASE == low;
  }

  /** The viewer's first cursor is a bare count of rendered state lines. It reads back as that
      count exactly when it is below the base. */
  lemma FirstCursorIsStateCount(rendered: nat)
    ensures DecodeCursor(rendered) == (0, rendered) <==> rendered < STREAM_CURSOR_BASE
  {
  }

  /** Every cursor a poll can answer with fits 31 bits. */
  lemma CursorFitsInt32(events: nat, state: nat)
    requires events <= MAX_EVENTS_PER_RUN
    ensures EncodeCursor(events, state) <= 1_024_999_999 < 0x8000_0000
  {
  }

  // ---------------------------------------------------------------- the derived lines

  predicate JobActive(state: string) {
    state == "ready" || state == "running"
  }

  function StateLine(j: JobView): Line {
    var level := if j.state == "dead" then "error" else if j.superseded || j.retrying then "warn" else "";
    var text := j.kind + " · " + j.state
                + (if j.vantage != "" then " · " + j.vantage else "")
                + (if j.batch != "" then " · " + j.batch else "");
    Line(j.id, level, text)
  }

  predicate Passes(filter: Option<int>, job: int) {
    filter.None? || filter.value == job
  }

  /** The rows the filter keeps. */
  function KeptJobs(jobs: seq<JobView>, filter: Option<int>): seq<JobView> {
    if jobs == [] then []
    else
      var last := jobs[|jobs| - 1];
      KeptJobs(jobs[..|jobs| - 1], filter) + if Passes(filter, last.id) then [last] else []
  }

  function LinesOfJobs(jobs: seq<JobView>): seq<Line> {
    seq(|jobs|, i requires 0 <= i < |jobs| => StateLine(jobs[i]))
  }

  /** The served state log: the prefix the cursor can address. */
  function StateLines(jobs: seq<JobView>, filter: Option<int>): seq<Line> {
    var all := LinesOfJobs(KeptJobs(jobs, filter));
    if |all| >= STREAM_CURSOR_BASE then all[..STREAM_CURSOR_BASE - 1] else all
  }

  function EventLines(log: seq<Event>, filter: Option<int>): seq<Line> {
    if log == [] then []
    else
      var last := log[|log| - 1];
      EventLines(log[..|log| - 1], filter)
      + if Passes(filter, last.job) then [Line(last.job, last.level, last.text)] else []
  }

  // ---------------------------------------------------------------- what is watched, by position

  /** A viewer of job `filter` watches that job's rows and events alone; without a filter, all. */
  ghost predicate WatchedPositions(at: seq<nat>, ids: seq<int>, filter: Option<int>) {
    && (forall k :: 0 <= k < |at| ==> at[k] < |ids|)
    && (forall k, l :: 0 <= k < l < |at| ==> at[k] < at[l])
    && forall i :: 0 <= i < |ids| ==> (i in at <==> filter == None || filter == Some(ids[i]))
  }

  function JobIds(jobs: seq<JobView>): seq<int> {
    seq(|jobs|, i requires 0 <= i < |jobs| => jobs[i].id)
  }

  function EventJobs(log: seq<Event>): seq<int> {
    seq(|log|, i requires 0 <= i < |log| => log[i].job)
  }

  ghost predicate IsEventLine(line: Line, ev: Event) {
    line.job == ev.job && line.level == ev.level && line.text == ev.text
  }

  /** A row's line: its level tells a dead row from a superseded or retrying one, and its text
      names the kind, the state, and the vantage and the batch where there are any. */
  ghost predicate IsStateLine(line: Line, j: JobView) {
    && line.job == j.id
    && (line.level == "error" <==> j.state == "dead")
    && (line.level == "warn" <==> j.state != "dead" && (j.superseded || j.retrying))
    && (line.level in {"error", "warn", ""})
    && (j.vantage == "" && j.batch == "" ==> line.text == j.kind + " · " + j.state)
    && (j.vantage != "" && j.batch == "" ==> line.text == j.kind + " · " + j.state + " · " + j.vantage)
    && (j.vantage == "" && j.batch != "" ==> line.text == j.kind + " · " + j.state + " · " + j.batch)
    && (j.vantage != "" && j.batch != "" ==>
          line.text == j.kind + " · " + j.state + " · " + j.vantage + " · " + j.batch)
  }

  /** The event log of a viewer: one line for each watched event, in order. */
  ghost predicate IsEventLog(lines: seq<Line>, log: seq<Event>, filter: Option<int>, at: seq<nat>) {
    && WatchedPositions(at, EventJobs(log), filter)
    && |lines| == |at|
    && forall k :: 0 <= k < |at| ==> IsEventLine(lines[k], log[at[k]])
  }

  /** The state log of a viewer: one line for each of its first 999,999 watched rows, in order. */
  ghost predicate IsStateLog(lines: seq<Line>, jobs: seq<JobView>, filter: Option<int>, at: seq<nat>) {
    && WatchedPositions(at, JobIds(jobs), filter)
    && |lines| == (if |at| < 1_000_000 then |at| else 999_999)
    && forall k :: 0 <= k < |lines| ==> IsStateLine(lines[k], jobs[at[k]])
  }

  lemma SnocWatched(at: seq<nat>, ids: seq<int>, id: int, filter: Option<int>) returns (at': seq<nat>)
    requires WatchedPositions(at, ids, filter)
    ensures WatchedPositions(at', ids + [id], filter)
    ensures at' == if filter == None || filter == Some(id) then at + [|ids|] else at
  {
    if filter == None || filter == Some(id) {
      at' := at + [|ids|];
      forall i | 0 <= i < |ids| + 1
        ensures i in at' <==> filter == None || filter == Some((ids + [id])[i])
      {
        assert i in at' <==> i in at || i == |ids|;
      }
    } else {
      at' := at;
    }
  }

  lemma StateLineReads(j: JobView)
    ensures IsStateLine(StateLine(j), j)
  {
    var base := j.kind + " · " + j.state;
    assert base + "" == base;
    assert base + "" + "" == base;
    var part := base + (if j.vantage != "" then " · " + j.vantage else "");
    assert part + "" == part;
    assert base + (" · " + j.vantage) == base + " · " + j.vantage;
    assert part + (" · " + j.batch) == part + " · " + j.batch;
  }

  lemma {:induction false} EventLinesAreWatched(log: seq<Event>, filter: Option<int>) returns (at: seq<nat>)
    ensures IsEventLog(EventLines(log, filter), log, filter, at)
  {
    if log == [] {
      at := [];
    } else {
      var n := |log| - 1;
      var before := EventLinesAreWatched(log[..n], filter);
      assert EventJobs(log) == EventJobs(log[..n]) + [log[n].job];
      at := SnocWatched(before, EventJobs(log[..n]), log[n].job, filter);
      forall k | 0 <= k < |at|
        ensures IsEventLine(EventLines(log, filter)[k], log[at[k]])
      {
        if k < |before| {
          assert IsEventLine(EventLines(log[..n], filter)[k], log[..n][before[k]]);
        }
      }
    }
  }

  lemma {:induction false} KeptJobsAreWatched(jobs: seq<JobView>, filter: Option<int>) returns (at: seq<nat>)
    ensures WatchedPositions(at, JobIds(jobs), filter)
    ensures |KeptJobs(jobs, filter)| == |at|
    ensures forall k :: 0 <= k < |at| ==> KeptJobs(jobs, filter)[k] == jobs[at[k]]
  {
    if jobs == [] {
      at := [];
    } else {
      var n := |jobs| - 1;
      var before := KeptJobsAreWatched(jobs[..n], filter);
      assert JobIds(jobs) == JobIds(jobs[..n]) + [jobs[n].id];
      at := SnocWatched(before, JobIds(jobs[..n]), jobs[n].id, filter);
      forall k | 0 <= k < |at|
        ensures KeptJobs(jobs, filter)[k] == jobs[at[k]]
      {
        if k < |before| {
          assert KeptJobs(jobs[..n], filter)[k] == jobs[..n][before[k]];
        }
      }
    }
  }

  lemma StateLinesAreWatched(jobs: seq<JobView>, filter: Option<int>) returns (at: seq<nat>)
    ensures IsStateLog(StateLines(jobs, filter), jobs, filter, at)
  {
    at := KeptJobsAreWatched(jobs, filter);
    forall k | 0 <= k < |StateLines(jobs, filter)|
      ensures IsStateLine(StateLines(jobs, filter)[k], jobs[at[k]])
    {
      StateLineReads(jobs[at[k]]);
    }
  }

  ghost predicate Waiting(j: JobView) {
    j.state in {"ready", "running"}
  }

  /** The run is over for this viewer: no row is waiting or running, or the filtered job is settled
      or absent. */
  ghost predicate Done(jobs: seq<JobView>, filter: Option<int>) {
    match filter
    case None => forall i :: 0 <= i < |jobs| ==> !Waiting(jobs[i])
    case Some(id) =>
      forall i :: 0 <= i < |jobs| && jobs[i].id == id && (forall k :: 0 <= k < i ==> jobs[k].id != id)
        ==> !Waiting(jobs[i])
  }

  lemma SnocJobs(jobs: seq<JobView>, n: nat, filter: Option<int>)
    requires n < |jobs|
    ensures KeptJobs(jobs[..n + 1], filter)
            == KeptJobs(jobs[..n], filter) + if Passes(filter, jobs[n].id) then [jobs[n]] else []
    ensures LinesOfJobs(KeptJobs(jobs[..n + 1], filter))
            == LinesOfJobs(KeptJobs(jobs[..n], filter)) + if Passes(filter, jobs[n].id) then [StateLine(jobs[n])] else []
  {
    assert jobs[..n + 1][..n] == jobs[..n];
  }

  method StateLog(jobs: seq<JobView>, filter: Option<int>) returns (state: seq<Line>)
    ensures state == StateLines(jobs, filter)
    ensures exists at :: IsStateLog(state, jobs, filter, at)
  {
    state := [];
    for i := 0 to |jobs|
      invariant state == LinesOfJobs(KeptJobs(jobs[..i], filter))
    {
      SnocJobs(jobs, i, filter);
      if filter.Some? && jobs[i].id != filter.value {
        continue;
      }
      state := state + [StateLine(jobs[i])];
    }
    assert jobs[..|jobs|] == jobs;
    if |state| >= STREAM_CURSOR_BASE {
      state := state[..STREAM_CURSOR_BASE - 1];
    }
    ghost var at := StateLinesAreWatched(jobs, filter);
  }

  method EventStreamLines(log: seq<Event>, filter: Option<int>) returns (lines: seq<Line>)
    ensures lines == EventLines(log, filter)
    ensures exists at :: IsEventLog(lines, log, filter, at)
  {
    lines := [];
    for i := 0 to |log|
      invariant lines == EventLines(log[..i], filter)
    {
      assert log[..i + 1][..i] == log[..i];
      if filter.Some? && log[i].job != filter.value {
        continue;
      }
      lines := lines + [Line(log[i].job, log[i].level, log[i].text)];
    }
    assert log[..|log|] == log;
    ghost var at := EventLinesAreWatched(log, filter);
  }

  method RunDone(jobs: seq<JobView>, filter: Option<int>) returns (done: bool)
    ensures done <==> Done(jobs, filter)
  {
    done := true;
    if filter.Some? {
      for i := 0 to |jobs|
        invariant done
        invariant forall k :: 0 <= k < i ==> jobs[k].id != filter.value
      {
        if jobs[i].id == filter.value {
          return !JobActive(jobs[i].state);
        }
      }
      return;
    }
    for i := 0 to |jobs|
      invariant done
      invariant forall k :: 0 <= k < i ==> !Waiting(jobs[k])
    {
      if JobActive(jobs[i].state) {
        return false;
      }
    }
  }

  // ---------------------------------------------------------------- one long poll

  /** What one tick reads: the job rows, and then the run's log in the hub. */
  datatype Snapshot = Snapshot(jobs: seq<JobView>, log: seq<Event>)

  /** The wire carries `state + events` as one array, state lines first. */
  datatype Response = Response(state: seq<Line>, events: seq<Line>, next: nat, done: bool)

  function From<T>(s: seq<T>, n: nat): seq<T> {
    if n < |s| then s[n..] else []
  }

  function NextCursor(s: Snapshot, filter: Option<int>): nat {
    EncodeCursor(|EventLines(s.log, filter)|, |StateLines(s.jobs, filter)|)
  }

  ghost predicate Answers(s: Snapshot, filter: Option<int>, after: int) {
    var (eventCur, stateCur) := DecodeCursor(after);
    |StateLines(s.jobs, filter)| > stateCur || |EventLines(s.log, filter)| > eventCur || Done(s.jobs, filter)
  }

  ghost function Answer(s: Snapshot, filter: Option<int>, after: int): Response {
    var (eventCur, stateCur) := DecodeCursor(after);
    Response(From(StateLines(s.jobs, filter), stateCur), From(EventLines(s.log, filter), eventCur),
             NextCursor(s, filter), Done(s.jobs, filter))
  }

  function TimedOut(s: Snapshot, filter: Option<int>): Response {
    Response([], [], NextCursor(s, filter), false)
  }

  /** How many of a viewer's `watched` rows the cursor can address. */
  function Addressable(watched: nat): nat {
    if watched < 1_000_000 then watched else 999_999
  }

  /** The lines of the watched rows from position `from` on, up to the last addressable one. */
  ghost predicate RowsPast(lines: seq<Line>, jobs: seq<JobView>, rows: seq<nat>, from: nat)
    requires forall k :: 0 <= k < |rows| ==> rows[k] < |jobs|
  {
    && |lines| == (if Addressable(|rows|) > from then Addressable(|rows|) - from else 0)
    && forall k :: 0 <= k < |lines| ==> IsStateLine(lines[k], jobs[rows[from + k]])
  }

  /** The lines of the watched events from position `from` on. */
  ghost predicate EventsPast(lines: seq<Line>, log: seq<Event>, at: seq<nat>, from: nat)
    requires forall k :: 0 <= k < |at| ==> at[k] < |log|
  {
    && |lines| == (if |at| > from then |at| - from else 0)
    && forall k :: 0 <= k < |lines| ==> IsEventLine(lines[k], log[at[from + k]])
  }

  /** What one pass of the loop answers, told by the positions of the watched rows and events: the
      lines past the two halves of `after`, one for each position, and the cursor behind the last
      of them; or, when there is no news, no line. */
  ghost predicate TickServes(news: bool, r: Response, s: Snapshot, filter: Option<int>, after: int,
                             rows: seq<nat>, at: seq<nat>) {
    var eventCur := if after < 0 then 0 else after / 1_000_000;
    var stateCur := if after < 0 then 0 else after % 1_000_000;
    && WatchedPositions(rows, JobIds(s.jobs), filter)
    && WatchedPositions(at, EventJobs(s.log), filter)
    && (news <==> Addressable(|rows|) > stateCur || |at| > eventCur || Done(s.jobs, filter))
    && r.next == |at| * 1_000_000 + Addressable(|rows|)
    && (r.done <==> Done(s.jobs, filter))
    && RowsPast(r.state, s.jobs, rows, stateCur)
    && EventsPast(r.events, s.log, at, eventCur)
  }

  lemma StatesPastCursor(jobs: seq<JobView>, filter: Option<int>, from: nat) returns (rows: seq<nat>)
    ensures WatchedPositions(rows, JobIds(jobs), filter)
    ensures |StateLines(jobs, filter)| == Addressable(|rows|)
    ensures RowsPast(From(StateLines(jobs, filter), from), jobs, rows, from)
  {
    rows := StateLinesAreWatched(jobs, filter);
    var states := StateLines(jobs, filter);
    forall k | 0 <= k < |From(states, from)|
      ensures IsStateLine(From(states, from)[k], jobs[rows[from + k]])
    {
      assert From(states, from)[k] == states[from + k];
    }
  }

  lemma EventsPastCursor(log: seq<Event>, filter: Option<int>, from: nat) returns (at: seq<nat>)
    ensures WatchedPositions(at, EventJobs(log), filter)
    ensures |EventLines(log, filter)| == |at|
    ensures EventsPast(From(EventLines(log, filter), from), log, at, from)
  {
    at := EventLinesAreWatched(log, filter);
    var events := EventLines(log, filter);
    forall k | 0 <= k < |From(events, from)|
      ensures IsEventLine(From(events, from)[k], log[at[from + k]])
    {
      assert From(events, from)[k] == events[from + k];
    }
  }

  lemma AnswerServesWatched(s: Snapshot, filter: Option<int>, after: int)
    returns (rows: seq<nat>, at: seq<nat>)
    ensures TickServes(Answers(s, filter, after),
                       if Answers(s, filter, after) then Answer(s, filter, after) else TimedOut(s, filter),
                       s, filter, after, rows, at)
  {
    var (eventCur, stateCur) := DecodeCursor(after);
    rows := StatesPastCursor(s.jobs, filter, stateCur);
    at := EventsPastCursor(s.log, filter, eventCur);
  }

  /** One pass of the poll loop: derive, pack the cursor, and answer if there is news. */
  method Tick(s: Snapshot, filter: Option<int>, after: int) returns (news: bool, r: Response)
    ensures news <==> Answers(s, filter, after)
    ensures r == if news then Answer(s, filter, after) else TimedOut(s, filter)
    ensures exists rows, at :: TickServes(news, r, s, filter, after, rows, at)
  {
    ghost var rows, at := AnswerServesWatched(s, filter, after);
    var (eventCur, stateCur) := DecodeCursor(after);
    var state := StateLog(s.jobs, filter);
    var events := EventStreamLines(s.log, filter);
    var done := RunDone(s.jobs, filter);
    var next := EncodeCursor(|events|, |state|);
    if |state| > stateCur || |events| > eventCur || done {
      var from := if stateCur < |state| then stateCur else |state|;
      var eventFrom := if eventCur < |events| then eventCur else |events|;
      return true, Response(state[from..], events[eventFrom..], next, done);
    }
    return false, Response([], [], next, false);
  }

  /** What the ticks of one poll come to, the hold expiring after the last of them. */
  ghost function PollResponse(ticks: seq<Snapshot>, filter: Option<int>, after: int): Response
    requires |ticks| > 0
  {
    if Answers(ticks[0], filter, after) then Answer(ticks[0], filter, after)
    else if |ticks| == 1 then TimedOut(ticks[0], filter)
    else PollResponse(ticks[1..], filter, after)
  }

  lemma PollStep(ticks: seq<Snapshot>, i: nat, filter: Option<int>, after: int)
    requires i < |ticks|
    ensures PollResponse(ticks[i..], filter, after) ==
            if Answers(ticks[i], filter, after) then Answer(ticks[i], filter, after)
            else if i == |ticks| - 1 then TimedOut(ticks[i], filter)
            else PollResponse(ticks[i + 1..], filter, after)
  {
    assert ticks[i..][0] == ticks[i] && ticks[i..][1..] == ticks[i + 1..];
  }

  ghost predicate HadNoNews(s: Snapshot, filter: Option<int>, after: int) {
    exists r, rows, at :: TickServes(false, r, s, filter, after, rows, at)
  }

  /** The k-th tick is the first with news and `r` is its answer, or it is the last one and no tick
      had news. */
  ghost predicate DecidedAt(ticks: seq<Snapshot>, k: nat, r: Response, filter: Option<int>, after: int)
    requires k < |ticks|
  {
    && (forall i :: 0 <= i < k ==> HadNoNews(ticks[i], filter, after))
    && exists news, rows, at ::
         TickServes(news, r, ticks[k], filter, after, rows, at) && (news || k == |ticks| - 1)
  }

  lemma TickDecides(ticks: seq<Snapshot>, k: nat, news: bool, r: Response, filter: Option<int>, after: int)
    requires k < |ticks|
    requires forall i :: 0 <= i < k ==> HadNoNews(ticks[i], filter, after)
    requires exists rows, at :: TickServes(news, r, ticks[k], filter, after, rows, at)
    ensures news || k == |ticks| - 1 ==> DecidedAt(ticks, k, r, filter, after)
    ensures !news ==> HadNoNews(ticks[k], filter, after)
  {
  }

  /** The poll loop over the snapshots its ticks read. */
  method Poll(ticks: seq<Snapshot>, filter: Option<int>, after: int) returns (r: Response)
    requires |ticks| > 0
    ensures r == PollResponse(ticks, filter, after)
    ensures exists k :: 0 <= k < |ticks| && DecidedAt(ticks, k, r, filter, after)
  {
    r := Response([], [], 0, false);
    assert ticks[0..] == ticks;
    var i := 0;
    while i < |ticks|
      invariant 0 <= i <= |ticks|
      invariant i < |ticks| ==> PollResponse(ticks[i..], filter, after) == PollResponse(ticks, filter, after)
      invariant forall k :: 0 <= k < i ==> HadNoNews(ticks[k], filter, after)
      invariant i == |ticks| ==> r == PollResponse(ticks, filter, after) && DecidedAt(ticks, i - 1, r, filter, after)
    {
      PollStep(ticks, i, filter, after);
      var news;
      news, r := Tick(ticks[i], filter, after);
      TickDecides(ticks, i, news, r, filter, after);
      if news {
        return;
      }
      i := i + 1;
    }
  }

  /** The first tick with news answers; a poll without news answers with no line and `done` false. */
  lemma {:induction false} FirstNewsAnswers(ticks: seq<Snapshot>, filter: Option<int>, after: int, k: nat)
    requires k < |ticks|
    requires forall i :: 0 <= i < k ==> !Answers(ticks[i], filter, after)
    ensures PollResponse(ticks, filter, after) == PollResponse(ticks[k..], filter, after)
    ensures PollResponse(ticks[k..], filter, after) ==
            if Answers(ticks[k], filter, after) then Answer(ticks[k], filter, after)
            else if k == |ticks| - 1 then TimedOut(ticks[k], filter)
            else PollResponse(ticks[k + 1..], filter, after)
  {
    PollStep(ticks, k, filter, after);
    if k > 0 {
      FirstNewsAnswers(ticks, filter, after, k - 1);
      PollStep(ticks, k - 1, filter, after);
    } else {
      assert ticks[0..] == ticks;
    }
  }

  // ---------------------------------------------------------------- the whole system

  /** A viewer holds the cursor it will send back, every line it was given so far, and, while a
      poll is in flight, the job rows that poll's current tick has read. */
  datatype Viewer = Viewer(cursor: nat, states: seq<Line>, events: seq<Line>, reading: Option<seq<JobView>>)

  datatype System = System(jobs: seq<JobView>, hub: HubState, viewer: Viewer)

  datatype Step =
    | RecordStep(ev: Event)
    | JobsStep(rows: seq<JobView>)
    | ReadJobsStep
    | RespondStep(holdExpired: bool)
    | AbortStep

  /** Rows may change state and text in place; new rows arrive only at the end. */
  ghost predicate GrownFrom(before: seq<JobView>, after: seq<JobView>) {
    && |before| <= |after|
    && forall i :: 0 <= i < |before| ==> before[i].id == after[i].id
  }

  ghost function Receive(v: Viewer, s: Snapshot, filter: Option<int>, holdExpired: bool): Viewer {
    if Answers(s, filter, v.cursor) then
      var r := Answer(s, filter, v.cursor);
      Viewer(r.next, v.states + r.state, v.events + r.events, None)
    else if holdExpired then
      v.(cursor := TimedOut(s, filter).next, reading := None)
    else
      v.(reading := None)
  }

  ghost predicate Next(run: int, filter: Option<int>, s: System, step: Step, s': System) {
    match step
    case RecordStep(ev) => s' == s.(hub := Record(s.hub, ev))
    case JobsStep(rows) => GrownFrom(s.jobs, rows) && s' == s.(jobs := rows)
    case ReadJobsStep => s' == s.(viewer := s.viewer.(reading := Some(s.jobs)))
    case RespondStep(holdExpired) =>
      && s.viewer.reading.Some?
      && s' == s.(viewer := Receive(s.viewer, Snapshot(s.viewer.reading.value, LogOf(s.hub, run)), filter, holdExpired))
    case AbortStep => s' == s.(viewer := s.viewer.(reading := None))
  }

  /** The page rendered `rendered` state lines before the first poll. */
  ghost predicate Init(filter: Option<int>, s: System, rendered: nat) {
    && HubInvariant(s.hub)
    && rendered <= |StateLines(s.jobs, filter)|
    && s.viewer == Viewer(rendered, [], [], None)
  }

  /** A run of the system in which the watched run's log is never evicted. */
  ghost predicate IsRun(run: int, filter: Option<int>, states: seq<System>, steps: seq<Step>) {
    && |states| == |steps| + 1
    && forall i :: 0 <= i < |steps| ==>
        && Next(run, filter, states[i], steps[i], states[i + 1])
        && (run in states[i].hub.byRun ==> run in states[i + 1].hub.byRun)
  }

  /** What a viewer whose cursor stands at (eventCur, stateCur) holds: the state positions from
      `rendered` up to stateCur, each once and in order, each the line of that position's job; and
      the first eventCur events, each once and in order. */
  ghost predicate HeldExactlyOnce(v: Viewer, states: seq<Line>, events: seq<Line>, rendered: nat, eventCur: nat, stateCur: nat) {
    && rendered <= stateCur <= |states|
    && eventCur <= |events|
    && v.events == events[..eventCur]
    && |v.states| == stateCur - rendered
    && forall p :: rendered <= p < stateCur ==> v.states[p - rendered].job == states[p].job
  }

  ghost predicate ExactlyOnce(run: int, filter: Option<int>, rendered: nat, s: System) {
    HeldExactlyOnce(s.viewer, StateLines(s.jobs, filter), EventLines(LogOf(s.hub, run), filter), rendered,
                    DecodeCursor(s.viewer.cursor).0, DecodeCursor(s.viewer.cursor).1)
  }

  ghost predicate ReadingFits(filter: Option<int>, s: System) {
    s.viewer.reading.Some? ==>
      && GrownFrom(s.viewer.reading.value, s.jobs)
      && DecodeCursor(s.viewer.cursor).1 <= |StateLines(s.viewer.reading.value, filter)|
  }

  ghost predicate StreamInvariant(run: int, filter: Option<int>, rendered: nat, s: System) {
    && HubInvariant(s.hub)
    && ExactlyOnce(run, filter, rendered, s)
    && ReadingFits(filter, s)
    && s.viewer.cursor < 0x8000_0000
  }

  // ---------------------------------------------------------------- growth

  lemma {:induction false} GrownKept(before: seq<JobView>, after: seq<JobView>, filter: Option<int>)
    requires GrownFrom(before, after)
    ensures |KeptJobs(before, filter)| <= |KeptJobs(after, filter)|
    ensures |before| == |after| ==> |KeptJobs(before, filter)| == |KeptJobs(after, filter)|
    ensures forall i :: 0 <= i < |KeptJobs(before, filter)| ==>
              KeptJobs(before, filter)[i].id == KeptJobs(after, filter)[i].id
    decreases |after|
  {
    if |before| < |after| {
      GrownKept(before, after[..|after| - 1], filter);
    } else if |after| > 0 {
      GrownKept(before[..|before| - 1], after[..|after| - 1], filter);
    }
  }

  lemma GrownStateLines(before: seq<JobView>, after: seq<JobView>, filter: Option<int>)
    requires GrownFrom(before, after)
    ensures |StateLines(before, filter)| <= |StateLines(after, filter)|
    ensures forall i :: 0 <= i < |StateLines(before, filter)| ==>
              StateLines(before, filter)[i].job == StateLines(after, filter)[i].job
  {
    GrownKept(before, after, filter);
  }

  lemma {:induction false} EventLinesPrefix(log: seq<Event>, n: nat, filter: Option<int>)
    requires n <= |log|
    ensures EventLines(log[..n], filter) <= EventLines(log, filter)
    decreases |log| - n
  {
    if n < |log| {
      EventLinesPrefix(log, n + 1, filter);
      assert log[..n + 1][..n] == log[..n];
    } else {
      assert log[..n] == log;
    }
  }

  lemma {:induction false} EventLinesBound(log: seq<Event>, filter: Option<int>)
    ensures |EventLines(log, filter)| <= |log|
  {
    if log != [] {
      EventLinesBound(log[..|log| - 1], filter);
    }
  }

  /** Recording never disturbs what a log already holds, unless the run is evicted. */
  lemma RecordExtendsLog(h: HubState, ev: Event, run: int)
    requires HubInvariant(h)
    requires run in h.byRun ==> run in Record(h, ev).byRun
    ensures LogOf(h, run) <= LogOf(Record(h, ev), run)
  {
    if run in h.byRun {
      RecordedLog(h, ev, run);
    }
  }

  // ---------------------------------------------------------------- every step keeps the invariant

  lemma RecordStepKeeps(run: int, filter: Option<int>, rendered: nat, s: System, ev: Event)
    requires StreamInvariant(run, filter, rendered, s)
    requires run in s.hub.byRun ==> run in Record(s.hub, ev).byRun
    ensures StreamInvariant(run, filter, rendered, s.(hub := Record(s.hub, ev)))
  {
    RecordKeepsInvariant(s.hub, ev);
    RecordExtendsLog(s.hub, ev, run);
    var log, log' := LogOf(s.hub, run), LogOf(Record(s.hub, ev), run);
    assert log'[..|log|] == log;
    EventLinesPrefix(log', |log|, filter);
  }

  lemma JobsStepKeeps(run: int, filter: Option<int>, rendered: nat, s: System, rows: seq<JobView>)
    requires StreamInvariant(run, filter, rendered, s)
    requires GrownFrom(s.jobs, rows)
    ensures StreamInvariant(run, filter, rendered, s.(jobs := rows))
  {
    GrownStateLines(s.jobs, rows, filter);
  }

  lemma NextCursorDecodes(snap: Snapshot, filter: Option<int>)
    requires |snap.log| <= MAX_EVENTS_PER_RUN
    ensures DecodeCursor(NextCursor(snap, filter)) == (|EventLines(snap.log, filter)|, |StateLines(snap.jobs, filter)|)
    ensures NextCursor(snap, filter) < 0x8000_0000
  {
    EventLinesBound(snap.log, filter);
    CursorFitsInt32(|EventLines(snap.log, filter)|, |StateLines(snap.jobs, filter)|);
    CursorRoundTrip(|EventLines(snap.log, filter)|, |StateLines(snap.jobs, filter)|);
  }

  /** Appending what lies past the cursor leaves the viewer level with everything the tick read. */
  lemma CatchUp(v: Viewer, v': Viewer, read: seq<Line>, states: seq<Line>, events: seq<Line>,
                rendered: nat, eventCur: nat, stateCur: nat)
    requires HeldExactlyOnce(v, states, events, rendered, eventCur, stateCur)
    requires stateCur <= |read| <= |states|
    requires forall p :: 0 <= p < |read| ==> read[p].job == states[p].job
    requires v'.events == v.events + From(events, eventCur)
    requires v'.states == v.states + From(read, stateCur)
    ensures HeldExactlyOnce(v', states, events, rendered, |events|, |read|)
  {
    assert events[..eventCur] + From(events, eventCur) == events == events[..|events|];
  }

  /** A poll answer brings the viewer level with everything its tick read. */
  lemma RespondStepKeeps(run: int, filter: Option<int>, rendered: nat, s: System, holdExpired: bool)
    requires StreamInvariant(run, filter, rendered, s)
    requires s.viewer.reading.Some?
    ensures var snap := Snapshot(s.viewer.reading.value, LogOf(s.hub, run));
            StreamInvariant(run, filter, rendered, s.(viewer := Receive(s.viewer, snap, filter, holdExpired)))
  {
    var snap := Snapshot(s.viewer.reading.value, LogOf(s.hub, run));
    var v' := Receive(s.viewer, snap, filter, holdExpired);
    var (eventCur, stateCur) := DecodeCursor(s.viewer.cursor);
    var read, events := StateLines(snap.jobs, filter), EventLines(snap.log, filter);
    GrownStateLines(snap.jobs, s.jobs, filter);
    NextCursorDecodes(snap, filter);
    if Answers(snap, filter, s.viewer.cursor) {
      CatchUp(s.viewer, v', read, StateLines(s.jobs, filter), events, rendered, eventCur, stateCur);
    } else if holdExpired {
      CatchUp(s.viewer, v', read, StateLines(s.jobs, filter), events, rendered, eventCur, stateCur);
    }
  }

  lemma StepKeepsInvariant(run: int, filter: Option<int>, rendered: nat, s: System, step: Step, s': System)
    requires StreamInvariant(run, filter, rendered, s)
    requires Next(run, filter, s, step, s')
    requires run in s.hub.byRun ==> run in s'.hub.byRun
    ensures StreamInvariant(run, filter, rendered, s')
  {
    match step
    case RecordStep(ev) => RecordStepKeeps(run, filter, rendered, s, ev);
    case JobsStep(rows) => JobsStepKeeps(run, filter, rendered, s, rows);
    case ReadJobsStep =>
    case RespondStep(holdExpired) => RespondStepKeeps(run, filter, rendered, s, holdExpired);
    case AbortStep =>
  }

  lemma {:induction false} RunKeepsInvariant(run: int, filter: Option<int>, rendered: nat,
                                                     states: seq<System>, steps: seq<Step>)
    requires IsRun(run, filter, states, steps)
    requires Init(filter, states[0], rendered)
    ensures StreamInvariant(run, filter, rendered, states[|steps|])
    decreases |steps|
  {
    if |steps| == 0 {
      FirstCursorIsStateCount(rendered);
    } else {
      var n := |steps| - 1;
      RunKeepsInvariant(run, filter, rendered, states[..n + 1], steps[..n]);
      StepKeepsInvariant(run, filter, rendered, states[n], steps[n], states[n + 1]);
    }
  }

  /** Where a viewer stands, told by the watched positions: it was given the line of each of the
      first eventCur watched events, and a line of each watched row from `rendered` to stateCur. */
  ghost predicate HoldsWatched(v: Viewer, jobs: seq<JobView>, log: seq<Event>, filter: Option<int>, rendered: nat,
                               rows: seq<nat>, at: seq<nat>) {
    var eventCur, stateCur := v.cursor / 1_000_000, v.cursor % 1_000_000;
    && WatchedPositions(rows, JobIds(jobs), filter)
    && WatchedPositions(at, EventJobs(log), filter)
    && rendered <= stateCur <= Addressable(|rows|)
    && |v.events| == eventCur <= |at|
    && |v.states| == stateCur - rendered
    && (forall k :: 0 <= k < eventCur ==> IsEventLine(v.events[k], log[at[k]]))
    && (forall k :: 0 <= k < |v.states| ==> v.states[k].job == jobs[rows[rendered + k]].id)
  }

  lemma InvariantHoldsWatched(run: int, filter: Option<int>, rendered: nat, s: System)
    returns (rows: seq<nat>, at: seq<nat>)
    requires StreamInvariant(run, filter, rendered, s)
    ensures HoldsWatched(s.viewer, s.jobs, LogOf(s.hub, run), filter, rendered, rows, at)
  {
    var log := LogOf(s.hub, run);
    var v := s.viewer;
    rows := StateLinesAreWatched(s.jobs, filter);
    at := EventLinesAreWatched(log, filter);
    var states, events := StateLines(s.jobs, filter), EventLines(log, filter);
    forall k | 0 <= k < |v.events|
      ensures IsEventLine(v.events[k], log[at[k]])
    {
      assert v.events[k] == events[k];
    }
    forall k | 0 <= k < |v.states|
      ensures v.states[k].job == s.jobs[rows[rendered + k]].id
    {
      assert v.states[rendered + k - rendered].job == states[rendered + k].job;
      assert IsStateLine(states[rendered + k], s.jobs[rows[rendered + k]]);
    }
  }

  /** Over any interleaving of recorded events, new or changed job rows, poll ticks, expired holds
      and lost polls, a viewer of a run that is never evicted is given every watched state position
      and every watched event up to its cursor exactly once and in order, and its cursor fits 31
      bits. */
  lemma StreamDeliversExactlyOnce(run: int, filter: Option<int>, rendered: nat,
                                  states: seq<System>, steps: seq<Step>)
    requires IsRun(run, filter, states, steps)
    requires Init(filter, states[0], rendered)
    ensures StreamInvariant(run, filter, rendered, states[|steps|])
    ensures exists rows, at ::
              var s := states[|steps|];
              HoldsWatched(s.viewer, s.jobs, LogOf(s.hub, run), filter, rendered, rows, at)
  {
    RunKeepsInvariant(run, filter, rendered, states, steps);
    var rows, at := InvariantHoldsWatched(run, filter, rendered, states[|steps|]);
  }

  /** Nothing is left behind: once a tick has read the rows and the log and its poll has answered
      or its hold has run out, the viewer holds every addressable state position and every event. */
  lemma PollCatchesUp(run: int, filter: Option<int>, rendered: nat, s: System, read: System, answered: System)
    requires StreamInvariant(run, filter, rendered, s)
    requires Next(run, filter, s, ReadJobsStep, read)
    requires Next(run, filter, read, RespondStep(true), answered)
    ensures answered.viewer.events == EventLines(LogOf(answered.hub, run), filter)
    ensures |answered.viewer.states| == |StateLines(answered.jobs, filter)| - rendered
    ensures StreamInvariant(run, filter, rendered, answered)
    ensures exists at :: IsEventLog(answered.viewer.events, LogOf(answered.hub, run), filter, at)
    ensures exists rows ::
              && WatchedPositions(rows, JobIds(answered.jobs), filter)
              && |answered.viewer.states| == Addressable(|rows|) - rendered
  {
    var at := EventLinesAreWatched(LogOf(answered.hub, run), filter);
    var rows := StateLinesAreWatched(answered.jobs, filter);
    StepKeepsInvariant(run, filter, rendered, s, ReadJobsStep, read);
    RespondStepKeeps(run, filter, rendered, read, true);
    NextCursorDecodes(Snapshot(s.jobs, LogOf(s.hub, run)), filter);
  }

  /** Why eviction is excluded above: a log that restarted after an eviction holds only lines the
      viewer has not seen, and a poll hands over all of them exactly when the echoed event cursor
      is still zero or there is none. */
  lemma RestartedLogDelivered(s: Snapshot, filter: Option<int>, after: int)
    ensures Answer(s, filter, after).events == EventLines(s.log, filter)
            <==> DecodeCursor(after).0 == 0 || EventLines(s.log, filter) == []
  {
    var events := EventLines(s.log, filter);
    var eventCur := DecodeCursor(after).0;
    assert |From(events, eventCur)| == if eventCur < |events| then |events| - eventCur else 0;
  }

  /** The state log is cut only where the cursor cannot follow: it serves every kept row up to
      position 999,998. */
  lemma ServedPositions(jobs: seq<JobView>, filter: Option<int>)
    ensures |StateLines(jobs, filter)| ==
            if |KeptJobs(jobs, filter)| < STREAM_CURSOR_BASE then |KeptJobs(jobs, filter)| else STREAM_CURSOR_BASE - 1
    ensures forall p :: 0 <= p < |StateLines(jobs, filter)| ==>
              StateLines(jobs, filter)[p] == StateLine(KeptJobs(jobs, filter)[p])
  {
  }
}
