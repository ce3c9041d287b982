/**
  The drift feed and its export (cmd/web/driftfeed.go): the window cap, the split of the read into
  batch runs, the groups and counts of the page, and the rows of the CSV.

  A row carries what its classification branches on, already decoded. Labels, times and details
  are not part of the model.
*/
module DriftFeed {
  import opened Wrappers

  const DRIFT_FEED_LIMIT: nat := 500
  const DRIFT_BATCH_LIMIT: nat := 50

  datatype Change = Withdrawn | Descoped | Appeared | Revealed | Returned | Changed

  datatype Kind = KindAppeared | KindRevealed | KindReturned

  datatype Row = Row(id: int, batch: int, closed: bool, descoped: bool, hasPredecessor: bool, openedAperture: bool,
                     sameDerivation: bool, predecessorClosed: bool, reEntry: Kind)

  datatype Event = Event(row: Row, change: Change)

  /** classifyDriftEvent: a row whose derivation moved is a break, and no event. */
  function Classify(row: Row): Option<Change> {
    if row.closed then Some(if row.descoped then Descoped else Withdrawn)
    else if !row.hasPredecessor then Some(if row.openedAperture then Revealed else Appeared)
    else if !row.sameDerivation then None
    else if row.predecessorClosed then
      Some(match row.reEntry
           case KindAppeared => Appeared
           case KindRevealed => Revealed
           case KindReturned => Returned)
    else Some(Changed)
  }

  method CapDriftFeed(rows: seq<Row>) returns (capped: seq<Row>, truncated: bool)
    ensures capped <= rows && |capped| <= DRIFT_FEED_LIMIT
    ensures truncated <==> capped != rows
    ensures truncated ==> |capped| == DRIFT_FEED_LIMIT
  {
    if |rows| > DRIFT_FEED_LIMIT {
      return rows[..DRIFT_FEED_LIMIT], true;
    }
    return rows, false;
  }

  // ---------------------------------------------------------------- batch runs

  datatype Run = Run(rows: seq<Row>, truncated: bool)

  ghost predicate OneBatch(rows: seq<Row>) {
    rows != [] && forall i :: 0 <= i < |rows| ==> rows[i].batch == rows[0].batch
  }

  function Concat<T>(parts: seq<seq<T>>): seq<T> {
    if parts == [] then [] else Concat(parts[..|parts| - 1]) + parts[|parts| - 1]
  }

  /** The rows split into maximal stretches of one batch. */
  ghost predicate IsSplit(rows: seq<Row>, parts: seq<seq<Row>>) {
    && Concat(parts) == rows
    && (forall i :: 0 <= i < |parts| ==> OneBatch(parts[i]))
    && (forall i :: 0 < i < |parts| ==> Differ(parts[i - 1], parts[i]))
  }

  ghost predicate Differ(a: seq<Row>, b: seq<Row>) {
    a != [] && b != [] && a[0].batch != b[0].batch
  }

  function Cut(part: seq<Row>): Run {
    if |part| > DRIFT_BATCH_LIMIT then Run(part[..DRIFT_BATCH_LIMIT], true) else Run(part, false)
  }

  function CutAll(parts: seq<seq<Row>>): seq<Run> {
    if parts == [] then [] else CutAll(parts[..|parts| - 1]) + [Cut(parts[|parts| - 1])]
  }

  ghost predicate AreRuns(rows: seq<Row>, runs: seq<Run>) {
    exists parts :: IsSplit(rows, parts) && runs == CutAll(parts)
  }

  lemma SplitSnoc(rows: seq<Row>, parts: seq<seq<Row>>, i: nat, j: nat)
    requires i < j <= |rows|
    requires IsSplit(rows[..i], parts)
    requires OneBatch(rows[i..j])
    requires i > 0 ==> rows[i - 1].batch != rows[i].batch
    ensures IsSplit(rows[..j], parts + [rows[i..j]])
    ensures CutAll(parts + [rows[i..j]]) == CutAll(parts) + [Cut(rows[i..j])]
  {
    var longer := parts + [rows[i..j]];
    assert longer[..|parts|] == parts;
    assert rows[..j] == rows[..i] + rows[i..j];
    if parts != [] {
      LastOfSplit(rows[..i], parts);
      assert i > 0 && rows[..i][i - 1] == rows[i - 1];
    }
  }

  /** The last row of a split is in its last part. */
  lemma LastOfSplit(rows: seq<Row>, parts: seq<seq<Row>>)
    requires IsSplit(rows, parts) && parts != []
    ensures rows != [] && rows[|rows| - 1].batch == parts[|parts| - 1][0].batch
  {
    var last := parts[|parts| - 1];
    assert OneBatch(last);
    assert rows == Concat(parts[..|parts| - 1]) + last;
    assert rows[|rows| - 1] == last[|last| - 1];
  }

  /** The inner scan: how far the batch that begins at `i` goes on. */
  method RunEnd(rows: seq<Row>, i: nat) returns (j: nat)
    requires i < |rows|
    ensures i < j <= |rows|
    ensures OneBatch(rows[i..j])
    ensures j < |rows| ==> rows[j - 1].batch != rows[j].batch
  {
    j := i;
    while j < |rows| && rows[j].batch == rows[i].batch
      invariant i <= j <= |rows|
      invariant forall k :: i <= k < j ==> rows[k].batch == rows[i].batch
    {
      j := j + 1;
    }
  }

  method CutRun(rows: seq<Row>) returns (run: Run)
    ensures run == Cut(rows)
  {
    run := Run(rows, false);
    if |run.rows| > DRIFT_BATCH_LIMIT {
      run := Run(run.rows[..DRIFT_BATCH_LIMIT], true);
    }
  }

  method DriftBatchRuns(rows: seq<Row>) returns (runs: seq<Run>)
    ensures AreRuns(rows, runs)
  {
    runs := [];
    ghost var parts: seq<seq<Row>> := [];
    var i := 0;
    assert IsSplit(rows[..0], parts);
    while i < |rows|
      invariant i <= |rows|
      invariant IsSplit(rows[..i], parts) && runs == CutAll(parts)
      invariant 0 < i < |rows| ==> rows[i - 1].batch != rows[i].batch
      decreases |rows| - i
    {
      var j := RunEnd(rows, i);
      var run := CutRun(rows[i..j]);
      SplitSnoc(rows, parts, i, j);
      parts := parts + [rows[i..j]];
      runs := runs + [run];
      i := j;
    }
    assert rows[..|rows|] == rows;
  }

  /** Where the last part of a split begins: from there on every row is of the last row's batch, and
      the row before it is not. */
  ghost predicate LastPartBegins(rows: seq<Row>, at: nat) {
    && at < |rows|
    && (forall k :: at <= k < |rows| ==> rows[k].batch == rows[|rows| - 1].batch)
    && (at > 0 ==> rows[at - 1].batch != rows[|rows| - 1].batch)
  }

  lemma SplitFront(rows: seq<Row>, parts: seq<seq<Row>>)
    requires IsSplit(rows, parts) && parts != []
    ensures |parts[|parts| - 1]| <= |rows|
    ensures rows[|rows| - |parts[|parts| - 1]|..] == parts[|parts| - 1]
    ensures IsSplit(rows[..|rows| - |parts[|parts| - 1]|], parts[..|parts| - 1])
  {
    assert rows == Concat(parts[..|parts| - 1]) + parts[|parts| - 1];
  }

  lemma SplitLastPart(rows: seq<Row>, parts: seq<seq<Row>>)
    requires IsSplit(rows, parts) && parts != []
    ensures |parts[|parts| - 1]| <= |rows|
    ensures LastPartBegins(rows, |rows| - |parts[|parts| - 1]|)
  {
    var front, last := parts[..|parts| - 1], parts[|parts| - 1];
    SplitFront(rows, parts);
    assert OneBatch(last);
    var at := |rows| - |last|;
    assert forall k :: at <= k < |rows| ==> rows[k] == last[k - at];
    if at > 0 {
      assert rows[..at] != [];
      assert front != [];
      LastOfSplit(rows[..at], front);
      assert Differ(parts[|parts| - 2], last);
      assert rows[..at][at - 1] == rows[at - 1];
    }
  }

  lemma LastPartIsUnique(rows: seq<Row>, a: nat, b: nat)
    requires LastPartBegins(rows, a) && LastPartBegins(rows, b)
    ensures a == b
  {
  }

  /** There is one way to split a read into batch runs. */
  lemma {:induction false} SplitIsUnique(rows: seq<Row>, a: seq<seq<Row>>, b: seq<seq<Row>>)
    requires IsSplit(rows, a) && IsSplit(rows, b)
    ensures a == b
    decreases |rows|
  {
    if a != [] {
      LastOfSplit(rows, a);
    }
    if b != [] {
      LastOfSplit(rows, b);
    }
    if a != [] && b != [] {
      var p, q := a[|a| - 1], b[|b| - 1];
      SplitLastPart(rows, a);
      SplitLastPart(rows, b);
      LastPartIsUnique(rows, |rows| - |p|, |rows| - |q|);
      SplitFront(rows, a);
      SplitFront(rows, b);
      assert OneBatch(p);
      SplitIsUnique(rows[..|rows| - |p|], a[..|a| - 1], b[..|b| - 1]);
      assert a == a[..|a| - 1] + [p] && b == b[..|b| - 1] + [q];
    }
  }

  // ---------------------------------------------------------------- the page and the export

  /** The events of a list of rows, in order. */
  function Events(rows: seq<Row>): seq<Event> {
    if rows == [] then []
    else
      var last := rows[|rows| - 1];
      Events(rows[..|rows| - 1]) + if Classify(last).Some? then [Event(last, Classify(last).value)] else []
  }

  /** The events a read shows: those of its runs, each cut at the batch limit. */
  function Shown(runs: seq<Run>): seq<Event> {
    if runs == [] then [] else Shown(runs[..|runs| - 1]) + Events(runs[|runs| - 1].rows)
  }

  function Count(events: seq<Event>, change: Change): nat {
    if events == [] then 0
    else Count(events[..|events| - 1], change) + if events[|events| - 1].change == change then 1 else 0
  }

  datatype Group = Group(batch: int, truncated: bool, events: seq<Event>)

  function GroupEvents(groups: seq<Group>): seq<Event> {
    if groups == [] then [] else GroupEvents(groups[..|groups| - 1]) + groups[|groups| - 1].events
  }

  type Movement = map<Change, nat>

  function Moved(m: Movement, change: Change): nat {
    if change in m then m[change] else 0
  }

  function Sum(m: Movement): nat {
    Moved(m, Withdrawn) + Moved(m, Descoped) + Moved(m, Appeared) + Moved(m, Revealed) + Moved(m, Returned) + Moved(m, Changed)
  }

  ghost predicate Tallies(m: Movement, events: seq<Event>) {
    forall c :: Moved(m, c) == Count(events, c)
  }

  lemma EventsSnoc(rows: seq<Row>, i: nat)
    requires i < |rows|
    ensures Events(rows[..i + 1])
            == Events(rows[..i]) + if Classify(rows[i]).Some? then [Event(rows[i], Classify(rows[i]).value)] else []
  {
    assert rows[..i + 1][..i] == rows[..i];
  }

  lemma CountSnoc(events: seq<Event>, e: Event, c: Change)
    ensures Count(events + [e], c) == Count(events, c) + if e.change == c then 1 else 0
  {
    assert (events + [e])[..|events|] == events;
  }

  lemma {:induction false} CountConcat(a: seq<Event>, b: seq<Event>, c: Change)
    ensures Count(a + b, c) == Count(a, c) + Count(b, c)
    decreases |b|
  {
    if b == [] {
      assert a + b == a;
    } else {
      CountConcat(a, b[..|b| - 1], c);
      assert (a + b)[..|a + b| - 1] == a + b[..|b| - 1];
    }
  }

  /** `moved` is `movement` with each event counted under its change. */
  ghost predicate Tallied(movement: Movement, moved: Movement, events: seq<Event>) {
    forall c :: Moved(moved, c) == Moved(movement, c) + Count(events, c)
  }

  lemma TallyGrows(movement: Movement, moved: Movement, events: seq<Event>, e: Event)
    requires Tallied(movement, moved, events)
    ensures Tallied(movement, moved[e.change := Moved(moved, e.change) + 1], events + [e])
  {
    forall c
      ensures Count(events + [e], c) == Count(events, c) + if e.change == c then 1 else 0
    {
      CountSnoc(events, e, c);
    }
  }

  /** One group's events, counted into the movement as they are appended. */
  method FillGroup(run: Run, movement: Movement) returns (events: seq<Event>, moved: Movement)
    ensures events == Events(run.rows)
    ensures Tallied(movement, moved, events)
  {
    events, moved := [], movement;
    for i := 0 to |run.rows|
      invariant events == Events(run.rows[..i])
      invariant Tallied(movement, moved, events)
    {
      EventsSnoc(run.rows, i);
      var change := Classify(run.rows[i]);
      if change.None? {
        continue;
      }
      var e := Event(run.rows[i], change.value);
      TallyGrows(movement, moved, events, e);
      moved := moved[e.change := Moved(moved, e.change) + 1];
      events := events + [e];
    }
    assert run.rows[..|run.rows|] == run.rows;
  }

  /** Each shown group is a run with its events; a run without any is not shown. */
  function GroupsOf(runs: seq<Run>): seq<Group> {
    if runs == [] then []
    else
      var last := runs[|runs| - 1];
      GroupsOf(runs[..|runs| - 1])
      + if last.rows == [] || Events(last.rows) == [] then [] else [Group(last.rows[0].batch, last.truncated, Events(last.rows))]
  }

  lemma RunsSnoc(runs: seq<Run>, i: nat)
    requires i < |runs|
    ensures Shown(runs[..i + 1]) == Shown(runs[..i]) + Events(runs[i].rows)
    ensures GroupsOf(runs[..i + 1]) == GroupsOf(runs[..i])
            + if runs[i].rows == [] || Events(runs[i].rows) == [] then []
              else [Group(runs[i].rows[0].batch, runs[i].truncated, Events(runs[i].rows))]
  {
    assert runs[..i + 1][..i] == runs[..i];
  }

  lemma {:induction false} RunsAreNotEmpty(parts: seq<seq<Row>>, i: nat)
    requires forall k :: 0 <= k < |parts| ==> OneBatch(parts[k])
    requires i < |CutAll(parts)|
    ensures |CutAll(parts)| == |parts| && CutAll(parts)[i] == Cut(parts[i]) && CutAll(parts)[i].rows != []
  {
    CutAllAt(parts);
    assert OneBatch(parts[i]);
  }

  lemma {:induction false} CutAllAt(parts: seq<seq<Row>>)
    ensures |CutAll(parts)| == |parts|
    ensures forall i :: 0 <= i < |parts| ==> CutAll(parts)[i] == Cut(parts[i])
  {
    if parts != [] {
      CutAllAt(parts[..|parts| - 1]);
    }
  }

  /** What the page shows of the rows: the groups of their runs, and a count of each kind of event shown. */
  ghost predicate IsFeed(rows: seq<Row>, groups: seq<Group>, movement: Movement) {
    exists runs :: AreRuns(rows, runs) && groups == GroupsOf(runs) && Tallies(movement, Shown(runs))
  }

  method BuildDriftFeed(rows: seq<Row>) returns (groups: seq<Group>, movement: Movement)
    ensures IsFeed(rows, groups, movement)
  {
    var split := DriftBatchRuns(rows);
    ghost var parts :| IsSplit(rows, parts) && split == CutAll(parts);
    groups, movement := [], map[];
    for i := 0 to |split|
      invariant groups == GroupsOf(split[..i])
      invariant Tallies(movement, Shown(split[..i]))
    {
      RunsAreNotEmpty(parts, i);
      RunsSnoc(split, i);
      var run := split[i];
      var events, moved := FillGroup(run, movement);
      forall c ensures Count(Shown(split[..i + 1]), c) == Count(Shown(split[..i]), c) + Count(events, c) {
        CountConcat(Shown(split[..i]), events, c);
      }
      movement := moved;
      if |events| == 0 {
        continue;
      }
      groups := groups + [Group(run.rows[0].batch, run.truncated, events)];
    }
    assert split[..|split|] == split;
  }

  datatype ExportLine = HeaderLine | EventLine(event: Event) | BatchNote(batch: int) | FeedNote

  function ExportEvents(lines: seq<ExportLine>): seq<Event> {
    if lines == [] then []
    else
      var last := lines[|lines| - 1];
      ExportEvents(lines[..|lines| - 1]) + if last.EventLine? then [last.event] else []
  }

  function Notes(lines: seq<ExportLine>): nat {
    if lines == [] then 0
    else Notes(lines[..|lines| - 1]) + if lines[|lines| - 1].BatchNote? then 1 else 0
  }

  lemma LineSnoc(lines: seq<ExportLine>, line: ExportLine)
    ensures ExportEvents(lines + [line]) == ExportEvents(lines) + if line.EventLine? then [line.event] else []
    ensures Notes(lines + [line]) == Notes(lines) + if line.BatchNote? then 1 else 0
  {
    assert (lines + [line])[..|lines|] == lines;
  }

  function TruncatedRuns(runs: seq<Run>): nat {
    if runs == [] then 0 else TruncatedRuns(runs[..|runs| - 1]) + if runs[|runs| - 1].truncated then 1 else 0
  }

  /** The last line written is not the feed's own note. */
  predicate Open(lines: seq<ExportLine>) {
    |lines| > 0 && lines[|lines| - 1] != FeedNote
  }

  /** `out` is `lines` with the events of the first `i` rows written after it. */
  ghost predicate Exported(lines: seq<ExportLine>, out: seq<ExportLine>, rows: seq<Row>, i: nat)
    requires i <= |rows|
  {
    && ExportEvents(out) == ExportEvents(lines) + Events(rows[..i])
    && Notes(out) == Notes(lines) && (Open(lines) ==> Open(out))
  }

  lemma ExportGrows(lines: seq<ExportLine>, out: seq<ExportLine>, rows: seq<Row>, i: nat)
    requires i < |rows| && Exported(lines, out, rows, i)
    ensures match Classify(rows[i])
            case None => Exported(lines, out, rows, i + 1)
            case Some(change) => Exported(lines, out + [EventLine(Event(rows[i], change))], rows, i + 1)
  {
    var shown := Events(rows[..i]);
    EventsSnoc(rows, i);
    match Classify(rows[i])
    case None =>
      assert Events(rows[..i + 1]) == shown + [] == shown;
    case Some(change) =>
      var e := Event(rows[i], change);
      LineSnoc(out, EventLine(e));
      assert ExportEvents(out + [EventLine(e)]) == ExportEvents(lines) + shown + [e] == ExportEvents(lines) + (shown + [e]);
  }

  method ExportRun(lines: seq<ExportLine>, run: Run) returns (out: seq<ExportLine>)
    requires run.rows != []
    ensures ExportEvents(out) == ExportEvents(lines) + Events(run.rows)
    ensures Notes(out) == Notes(lines) + if run.truncated then 1 else 0
    ensures Open(lines) ==> Open(out)
  {
    out := lines;
    for i := 0 to |run.rows|
      invariant Exported(lines, out, run.rows, i)
    {
      ExportGrows(lines, out, run.rows, i);
      var change := Classify(run.rows[i]);
      if change.None? {
        continue;
      }
      out := out + [EventLine(Event(run.rows[i], change.value))];
    }
    assert run.rows[..|run.rows|] == run.rows;
    if run.truncated {
      LineSnoc(out, BatchNote(run.rows[0].batch));
      out := out + [BatchNote(run.rows[0].batch)];
    }
  }

  lemma ShownSnoc(runs: seq<Run>, i: nat)
    requires i < |runs|
    ensures Shown(runs[..i + 1]) == Shown(runs[..i]) + Events(runs[i].rows)
    ensures TruncatedRuns(runs[..i + 1]) == TruncatedRuns(runs[..i]) + if runs[i].truncated then 1 else 0
  {
    assert runs[..i + 1][..i] == runs[..i];
  }

  /** What the export holds of the rows: the events of their runs in order, and a note for each cut run. */
  ghost predicate IsExport(rows: seq<Row>, lines: seq<ExportLine>) {
    exists runs :: AreRuns(rows, runs) && ExportEvents(lines) == Shown(runs) && Notes(lines) == TruncatedRuns(runs)
  }

  method WriteRuns(runs: seq<Run>) returns (lines: seq<ExportLine>)
    requires NoneEmpty(runs)
    ensures ExportEvents(lines) == Shown(runs) && Notes(lines) == TruncatedRuns(runs)
    ensures Open(lines)
  {
    LineSnoc([], HeaderLine);
    assert [] + [HeaderLine] == [HeaderLine];
    lines := [HeaderLine];
    for i := 0 to |runs|
      invariant ExportEvents(lines) == Shown(runs[..i])
      invariant Notes(lines) == TruncatedRuns(runs[..i])
      invariant Open(lines)
    {
      ShownSnoc(runs, i);
      lines := ExportRun(lines, runs[i]);
    }
    assert runs[..|runs|] == runs;
  }

  method WriteDriftExport(rows: seq<Row>, truncated: bool) returns (lines: seq<ExportLine>)
    ensures IsExport(rows, lines)
    ensures |lines| > 0 && (truncated <==> lines[|lines| - 1] == FeedNote)
  {
    var runs := DriftBatchRuns(rows);
    AreRunsNoneEmpty(rows, runs);
    lines := WriteRuns(runs);
    if truncated {
      LineSnoc(lines, FeedNote);
      lines := lines + [FeedNote];
    }
  }

  // ---------------------------------------------------------------- which rows are shown

  /** A row whose derivation differs from its predecessor's is no event. */
  predicate IsBreak(row: Row) {
    !row.closed && row.hasPredecessor && !row.sameDerivation
  }

  /** Under which change a row is shown: a closed one by its reason, a first one by its aperture, one
      behind a closed predecessor by how it came back, and any other as a change. */
  predicate ShownAs(row: Row, change: Change) {
    var first := !row.closed && !row.hasPredecessor;
    var follows := !row.closed && row.hasPredecessor && row.sameDerivation;
    match change
    case Withdrawn => row.closed && !row.descoped
    case Descoped => row.closed && row.descoped
    case Appeared => (first && !row.openedAperture) || (follows && row.predecessorClosed && row.reEntry == KindAppeared)
    case Revealed => (first && row.openedAperture) || (follows && row.predecessorClosed && row.reEntry == KindRevealed)
    case Returned => follows && row.predecessorClosed && row.reEntry == KindReturned
    case Changed => follows && !row.predecessorClosed
  }

  lemma ClassifyReads(row: Row, change: Change)
    ensures Classify(row) == Some(change) <==> ShownAs(row, change)
    ensures Classify(row).None? <==> IsBreak(row)
  {
  }

  /** Fewer than 50 rows of its own batch run up to the row without a gap. */
  ghost predicate WithinLimit(rows: seq<Row>, i: nat)
    requires i < |rows|
  {
    i < 50 || exists k :: i - 50 <= k < i && rows[k].batch != rows[i].batch
  }

  ghost predicate Listed(rows: seq<Row>, i: nat)
    requires i < |rows|
  {
    WithinLimit(rows, i) && !IsBreak(rows[i])
  }

  ghost predicate IsEventOf(e: Event, row: Row) {
    e.row == row && ShownAs(row, e.change)
  }

  /** The events are those of the first `n` rows: one for each listed row, in order. */
  ghost predicate ListsRows(rows: seq<Row>, n: nat, at: seq<nat>, events: seq<Event>)
    requires n <= |rows|
  {
    && (forall k :: 0 <= k < |at| ==> at[k] < n)
    && (forall k, l :: 0 <= k < l < |at| ==> at[k] < at[l])
    && (forall i :: 0 <= i < n ==> (i in at <==> Listed(rows, i)))
    && |events| == |at|
    && forall k :: 0 <= k < |at| ==> IsEventOf(events[k], rows[at[k]])
  }

  lemma ListRow(rows: seq<Row>, n: nat, at: seq<nat>, events: seq<Event>) returns (at': seq<nat>)
    requires n < |rows| && ListsRows(rows, n, at, events)
    ensures WithinLimit(rows, n) ==>
              ListsRows(rows, n + 1, at',
                        events + if Classify(rows[n]).Some? then [Event(rows[n], Classify(rows[n]).value)] else [])
    ensures !WithinLimit(rows, n) ==> ListsRows(rows, n + 1, at', events)
  {
    ClassifyReads(rows[n], if Classify(rows[n]).Some? then Classify(rows[n]).value else Changed);
    if Listed(rows, n) {
      at' := at + [n];
      forall i | 0 <= i < n + 1
        ensures i in at' <==> Listed(rows, i)
      {
        assert i in at' <==> i in at || i == n;
      }
    } else {
      at' := at;
      assert events + [] == events;
    }
  }

  /** The stretch of one batch from `from` to `to`, with another batch's row, or none, before it. */
  ghost predicate IsStretch(rows: seq<Row>, from: nat, to: nat) {
    && from < to <= |rows|
    && (forall k :: from <= k < to ==> rows[k].batch == rows[from].batch)
    && (from > 0 ==> rows[from - 1].batch != rows[from].batch)
  }

  lemma StretchLimit(rows: seq<Row>, from: nat, to: nat, i: nat)
    requires IsStretch(rows, from, to) && from <= i < to
    ensures WithinLimit(rows, i) <==> i < from + 50
  {
    assert rows[i].batch == rows[from].batch;
    if 50 <= i < from + 50 {
      assert rows[from - 1].batch != rows[i].batch;
    }
  }

  /** The rows of a stretch that a run keeps. */
  function KeptRows(rows: seq<Row>, from: nat, n: nat): seq<Row>
    requires from <= n <= |rows|
  {
    rows[from..if n < from + 50 then n else from + 50]
  }

  lemma {:induction false} ListStretch(rows: seq<Row>, from: nat, to: nat, n: nat, at: seq<nat>, events: seq<Event>)
    returns (at': seq<nat>)
    requires IsStretch(rows, from, to) && from <= n <= to
    requires ListsRows(rows, from, at, events)
    ensures ListsRows(rows, n, at', events + Events(KeptRows(rows, from, n)))
    decreases n - from
  {
    if n == from {
      at' := at;
      assert events + Events([]) == events;
    } else {
      var m := n - 1;
      var before := ListStretch(rows, from, to, m, at, events);
      at' := ListRow(rows, m, before, events + Events(KeptRows(rows, from, m)));
      StretchLimit(rows, from, to, m);
      if m < from + 50 {
        KeptGrows(rows, from, m);
        assert events + Events(KeptRows(rows, from, n))
               == events + Events(KeptRows(rows, from, m)) + EventsOfRow(rows[m]);
      }
    }
  }

  function EventsOfRow(row: Row): seq<Event> {
    if Classify(row).Some? then [Event(row, Classify(row).value)] else []
  }

  lemma KeptGrows(rows: seq<Row>, from: nat, m: nat)
    requires from <= m < |rows| && m < from + 50
    ensures Events(KeptRows(rows, from, m + 1)) == Events(KeptRows(rows, from, m)) + EventsOfRow(rows[m])
  {
    assert KeptRows(rows, from, m + 1)[..m - from] == KeptRows(rows, from, m);
  }

  lemma LastPartIsStretch(rows: seq<Row>, n: nat, parts: seq<seq<Row>>) returns (from: nat)
    requires n <= |rows| && IsSplit(rows[..n], parts) && parts != []
    ensures from == n - |parts[|parts| - 1]| && IsStretch(rows, from, n)
    ensures rows[from..n] == parts[|parts| - 1]
    ensures IsSplit(rows[..from], parts[..|parts| - 1])
  {
    var last := parts[|parts| - 1];
    SplitFront(rows[..n], parts);
    SplitLastPart(rows[..n], parts);
    assert OneBatch(last);
    from := n - |last|;
    assert rows[..n][..from] == rows[..from];
    assert rows[..n][from..] == rows[from..n];
    forall k | from <= k < n
      ensures rows[k].batch == rows[from].batch
    {
      assert rows[..n][k].batch == rows[..n][n - 1].batch == rows[..n][from].batch;
    }
    if from > 0 {
      assert rows[..n][from - 1].batch != rows[..n][n - 1].batch;
    }
  }

  lemma {:induction false} SplitLists(rows: seq<Row>, n: nat, parts: seq<seq<Row>>) returns (at: seq<nat>)
    requires n <= |rows| && IsSplit(rows[..n], parts)
    ensures ListsRows(rows, n, at, Shown(CutAll(parts)))
    decreases |parts|
  {
    if parts == [] {
      at := [];
    } else {
      var prev, last := parts[..|parts| - 1], parts[|parts| - 1];
      var from := LastPartIsStretch(rows, n, parts);
      var before := SplitLists(rows, from, prev);
      at := ListStretch(rows, from, n, n, before, Shown(CutAll(prev)));
      CutKeeps(rows, from, n);
      assert CutAll(parts)[..|CutAll(parts)| - 1] == CutAll(prev);
    }
  }

  lemma CutKeeps(rows: seq<Row>, from: nat, n: nat)
    requires from <= n <= |rows|
    ensures Cut(rows[from..n]).rows == KeptRows(rows, from, n)
  {
  }

  /** Every group shows some events, all of rows of its own batch. */
  ghost predicate OfOneBatch(group: Group) {
    group.events != [] && forall i :: 0 <= i < |group.events| ==> group.events[i].row.batch == group.batch
  }

  lemma {:induction false} EventsComeFromRows(rows: seq<Row>, e: Event)
    requires e in Events(rows)
    ensures e.row in rows
  {
    if e !in Events(rows[..|rows| - 1]) {
      assert e.row == rows[|rows| - 1];
    } else {
      EventsComeFromRows(rows[..|rows| - 1], e);
    }
  }

  lemma {:induction false} GroupsAreOfOneBatch(runs: seq<Run>)
    requires forall i :: 0 <= i < |runs| ==> OneBatch(runs[i].rows)
    ensures forall group: Group :: group in GroupsOf(runs) ==> OfOneBatch(group)
  {
    if runs != [] {
      var last := runs[|runs| - 1];
      GroupsAreOfOneBatch(runs[..|runs| - 1]);
      forall e: Event | e in Events(last.rows)
        ensures e.row.batch == last.rows[0].batch
      {
        EventsComeFromRows(last.rows, e);
        assert OneBatch(last.rows);
      }
    }
  }

  /** The page of any read shows, in order and each once, the rows that are within the first 50 of
      their batch's run and whose derivation has not moved, each under its own change and in a group of
      its own batch. */
  lemma PageShowsExactly(rows: seq<Row>, groups: seq<Group>, movement: Movement) returns (at: seq<nat>)
    requires IsFeed(rows, groups, movement)
    ensures ListsRows(rows, |rows|, at, GroupEvents(groups))
    ensures Tallies(movement, GroupEvents(groups))
    ensures forall group: Group :: group in groups ==> OfOneBatch(group)
  {
    var runs: seq<Run> :| AreRuns(rows, runs) && groups == GroupsOf(runs) && Tallies(movement, Shown(runs));
    AreRunsNoneEmpty(rows, runs);
    GroupsHoldShown(runs);
    at := RunsList(rows, runs);
    RunsAreOfOneBatch(rows, runs);
    GroupsAreOfOneBatch(runs);
  }

  lemma RunsList(rows: seq<Row>, runs: seq<Run>) returns (at: seq<nat>)
    requires AreRuns(rows, runs)
    ensures ListsRows(rows, |rows|, at, Shown(runs))
  {
    var parts: seq<seq<Row>> :| IsSplit(rows, parts) && runs == CutAll(parts);
    assert rows[..|rows|] == rows;
    at := SplitLists(rows, |rows|, parts);
  }

  lemma RunsAreOfOneBatch(rows: seq<Row>, runs: seq<Run>)
    requires AreRuns(rows, runs)
    ensures forall i :: 0 <= i < |runs| ==> OneBatch(runs[i].rows)
  {
    var parts: seq<seq<Row>> :| IsSplit(rows, parts) && runs == CutAll(parts);
    CutAllAt(parts);
    forall i | 0 <= i < |runs|
      ensures OneBatch(runs[i].rows)
    {
      assert OneBatch(parts[i]);
    }
  }

  // ---------------------------------------------------------------- they agree

  lemma RunsAreUnique(rows: seq<Row>, a: seq<Run>, b: seq<Run>)
    requires AreRuns(rows, a) && AreRuns(rows, b)
    ensures a == b
  {
    var p :| IsSplit(rows, p) && a == CutAll(p);
    var q :| IsSplit(rows, q) && b == CutAll(q);
    SplitIsUnique(rows, p, q);
  }

  /** A run is marked truncated exactly when its stretch of rows passed the batch limit, and it holds
      the first rows of that stretch. */
  lemma TruncatedExactly(rows: seq<Row>, runs: seq<Run>, parts: seq<seq<Row>>, i: nat)
    requires IsSplit(rows, parts) && AreRuns(rows, runs) && i < |parts|
    ensures |runs| == |parts|
    ensures runs[i].truncated <==> |parts[i]| > DRIFT_BATCH_LIMIT
    ensures runs[i].rows <= parts[i] && (!runs[i].truncated ==> runs[i].rows == parts[i])
    ensures runs[i].truncated ==> |runs[i].rows| == DRIFT_BATCH_LIMIT
  {
    var p :| IsSplit(rows, p) && runs == CutAll(p);
    SplitIsUnique(rows, p, parts);
    CutAllAt(parts);
  }

  ghost predicate NoneEmpty(runs: seq<Run>) {
    forall i :: 0 <= i < |runs| ==> runs[i].rows != []
  }

  lemma AreRunsNoneEmpty(rows: seq<Row>, runs: seq<Run>)
    requires AreRuns(rows, runs)
    ensures NoneEmpty(runs)
  {
    var parts :| IsSplit(rows, parts) && runs == CutAll(parts);
    CutAllAt(parts);
    forall i | 0 <= i < |runs|
      ensures runs[i].rows != []
    {
      assert OneBatch(parts[i]);
    }
  }

  lemma {:induction false} GroupsHoldShown(runs: seq<Run>)
    requires NoneEmpty(runs)
    ensures GroupEvents(GroupsOf(runs)) == Shown(runs)
  {
    if runs != [] {
      var prev, last := runs[..|runs| - 1], runs[|runs| - 1];
      GroupsHoldShown(prev);
      if Events(last.rows) != [] {
        var group := Group(last.rows[0].batch, last.truncated, Events(last.rows));
        assert (GroupsOf(prev) + [group])[..|GroupsOf(prev)|] == GroupsOf(prev);
      } else {
        assert GroupsOf(prev) + [] == GroupsOf(prev);
      }
    }
  }

  lemma {:induction false} TallySum(m: Movement, events: seq<Event>)
    requires Tallies(m, events)
    ensures Sum(m) == |events|
  {
    CountsAddUp(events);
  }

  lemma {:induction false} CountsAddUp(events: seq<Event>)
    ensures Count(events, Withdrawn) + Count(events, Descoped) + Count(events, Appeared) + Count(events, Revealed)
            + Count(events, Returned) + Count(events, Changed) == |events|
  {
    if events != [] {
      CountsAddUp(events[..|events| - 1]);
    }
  }

  lemma FeedOfRuns(rows: seq<Row>, runs: seq<Run>, groups: seq<Group>, movement: Movement)
    requires IsFeed(rows, groups, movement) && AreRuns(rows, runs)
    ensures groups == GroupsOf(runs) && Tallies(movement, Shown(runs))
  {
    var page :| AreRuns(rows, page) && groups == GroupsOf(page) && Tallies(movement, Shown(page));
    RunsAreUnique(rows, page, runs);
  }

  lemma ExportOfRuns(rows: seq<Row>, runs: seq<Run>, lines: seq<ExportLine>)
    requires IsExport(rows, lines) && AreRuns(rows, runs)
    ensures ExportEvents(lines) == Shown(runs) && Notes(lines) == TruncatedRuns(runs)
  {
    var exported :| AreRuns(rows, exported) && ExportEvents(lines) == Shown(exported) && Notes(lines) == TruncatedRuns(exported);
    RunsAreUnique(rows, exported, runs);
  }

  /** The page and the export of one read agree: the groups hold exactly the events the export lists,
      in its order, and the movement counts, kind by kind and in total, are theirs. */
  lemma PageAndExportAgree(rows: seq<Row>, groups: seq<Group>, movement: Movement, lines: seq<ExportLine>)
    requires IsFeed(rows, groups, movement) && IsExport(rows, lines)
    ensures GroupEvents(groups) == ExportEvents(lines)
    ensures Tallies(movement, ExportEvents(lines))
    ensures Sum(movement) == |GroupEvents(groups)| == |ExportEvents(lines)|
  {
    var page :| AreRuns(rows, page) && groups == GroupsOf(page) && Tallies(movement, Shown(page));
    ExportOfRuns(rows, page, lines);
    AreRunsNoneEmpty(rows, page);
    GroupsHoldShown(page);
    TallySum(movement, Shown(page));
  }

  function TruncatedGroups(groups: seq<Group>): nat {
    if groups == [] then 0 else TruncatedGroups(groups[..|groups| - 1]) + if groups[|groups| - 1].truncated then 1 else 0
  }

  /** A truncated run none of whose listed rows is an event. */
  predicate Silent(run: Run) {
    run.truncated && Events(run.rows) == []
  }

  function SilentRuns(runs: seq<Run>): nat {
    if runs == [] then 0 else SilentRuns(runs[..|runs| - 1]) + if Silent(runs[|runs| - 1]) then 1 else 0
  }

  lemma {:induction false} SilentRunsLoseTheirNote(runs: seq<Run>)
    requires NoneEmpty(runs)
    ensures TruncatedGroups(GroupsOf(runs)) + SilentRuns(runs) == TruncatedRuns(runs)
    ensures SilentRuns(runs) == 0 <==> forall i :: 0 <= i < |runs| ==> !Silent(runs[i])
  {
    if runs != [] {
      var prev, last := runs[..|runs| - 1], runs[|runs| - 1];
      SilentRunsLoseTheirNote(prev);
      assert forall i :: 0 <= i < |prev| ==> prev[i] == runs[i];
      if Events(last.rows) != [] {
        var group := Group(last.rows[0].batch, last.truncated, Events(last.rows));
        assert (GroupsOf(prev) + [group])[..|GroupsOf(prev)|] == GroupsOf(prev);
      } else {
        assert GroupsOf(prev) + [] == GroupsOf(prev);
      }
    }
  }

  /** The page marks as many truncated groups as the export has batch notes exactly when no truncated
      run is left without an event: the page drops such a run, the export still notes its cut. */
  lemma TruncationNotesAgreeExactly(rows: seq<Row>, runs: seq<Run>, groups: seq<Group>, movement: Movement, lines: seq<ExportLine>)
    requires IsFeed(rows, groups, movement) && IsExport(rows, lines)
    requires AreRuns(rows, runs)
    ensures TruncatedGroups(groups) == Notes(lines) <==> forall i :: 0 <= i < |runs| ==> !Silent(runs[i])
  {
    FeedOfRuns(rows, runs, groups, movement);
    ExportOfRuns(rows, runs, lines);
    AreRunsNoneEmpty(rows, runs);
    SilentRunsLoseTheirNote(runs);
  }

  /** A row whose derivation moved, in one batch. */
  function BreakRow(i: nat): Row {
    Row(i, 1, false, false, true, false, false, false, KindAppeared)
  }

  lemma OneBatchIsOneRun(rows: seq<Row>)
    requires OneBatch(rows)
    ensures AreRuns(rows, [Cut(rows)])
  {
    assert [rows][..0] == [];
    assert Concat([rows]) == rows && IsSplit(rows, [rows]);
    assert CutAll([rows]) == [Cut(rows)];
  }

  lemma {:induction false} BreaksAreNoEvents(rows: seq<Row>)
    requires forall i :: 0 <= i < |rows| ==> Classify(rows[i]).None?
    ensures Events(rows) == []
  {
    if rows != [] {
      BreaksAreNoEvents(rows[..|rows| - 1]);
    }
  }

  lemma SilentRunShowsNothing(run: Run)
    requires Silent(run)
    ensures GroupsOf([run]) == [] && TruncatedRuns([run]) == 1
  {
    assert [run][..0] == [];
  }

  /** A batch of more than 50 rows whose first 50 are no events: the page shows nothing of it, not even
      that it was cut; the export says so. */
  lemma SilentBatchLosesItsNote(rows: seq<Row>, groups: seq<Group>, movement: Movement, lines: seq<ExportLine>)
    requires OneBatch(rows) && |rows| > DRIFT_BATCH_LIMIT
    requires forall i :: 0 <= i < DRIFT_BATCH_LIMIT ==> Classify(rows[i]).None?
    requires IsFeed(rows, groups, movement) && IsExport(rows, lines)
    ensures groups == [] && TruncatedGroups(groups) == 0 && Notes(lines) == 1
  {
    OneBatchIsOneRun(rows);
    FeedOfRuns(rows, [Cut(rows)], groups, movement);
    ExportOfRuns(rows, [Cut(rows)], lines);
    BreaksAreNoEvents(rows[..DRIFT_BATCH_LIMIT]);
    SilentRunShowsNothing(Cut(rows));
  }

  /** Such a read: 51 rows of one batch, each with a moved derivation. */
  lemma FiftyOneBreaksLoseTheirNote(rows: seq<Row>, groups: seq<Group>, movement: Movement, lines: seq<ExportLine>)
    requires |rows| == 51 && forall i :: 0 <= i < |rows| ==> rows[i] == BreakRow(i)
    requires IsFeed(rows, groups, movement) && IsExport(rows, lines)
    ensures groups == [] && TruncatedGroups(groups) == 0 && Notes(lines) == 1
  {
    assert OneBatch(rows);
    SilentBatchLosesItsNote(rows, groups, movement, lines);
  }
}
