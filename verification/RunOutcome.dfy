/**
  A run's outcome (cmd/web/scans.go, db/queries/span.sql): a signal belongs to the batch whose window its
  first sighting falls in, a window running from the batch's instant to the next instant any batch has.

  `batches` is the whole batch table; instants are whole numbers and never the zero time. `classified` says
  of a drift row whether the feed shows it.
*/
module RunOutcome {
  import opened Wrappers

  datatype Batch = Batch(id: int, at: int)

  /** One row of ListBatchWindows. */
  datatype Window = Window(batchId: int, at: int, next: Option<int>)

  datatype DriftRow = DriftRow(batchId: int, classified: bool)

  datatype Outcome = Outcome(concluded: bool, transitions: nat, newSignals: nat)

  ghost predicate IsInstant(batches: seq<Batch>, at: int) {
    exists b :: b in batches && b.at == at
  }

  /** Some batch came after `at` and no later than `seen`. */
  ghost predicate Superseded(batches: seq<Batch>, at: int, seen: int) {
    exists b :: b in batches && at < b.at <= seen
  }

  ghost predicate NextInstant(batches: seq<Batch>, at: int, next: Option<int>) {
    match next
    case None => forall b :: b in batches ==> b.at <= at
    case Some(n) => at < n && IsInstant(batches, n) && forall b :: b in batches ==> b.at <= at || n <= b.at
  }

  ghost predicate IsWindow(batches: seq<Batch>, ids: set<int>, w: Window) {
    Batch(w.batchId, w.at) in batches && w.batchId in ids && NextInstant(batches, w.at, w.next)
  }

  ghost predicate HasWindow(windows: seq<Window>, at: int, n: nat)
    requires n <= |windows|
  {
    exists k :: 0 <= k < n && windows[k].at == at
  }

  /** The windows the query reads: one for each batch asked for, closing at the next instant of any batch. */
  ghost predicate AreWindows(batches: seq<Batch>, ids: set<int>, windows: seq<Window>) {
    && (forall k :: 0 <= k < |windows| ==> IsWindow(batches, ids, windows[k]))
    && (forall b :: b in batches && b.id in ids ==> HasWindow(windows, b.at, |windows|))
  }

  /** The batch instant `at` is the latest one not after the signal was first seen. */
  ghost predicate Governs(batches: seq<Batch>, at: int, firstSeen: Option<int>) {
    firstSeen.Some? && at <= firstSeen.value && !Superseded(batches, at, firstSeen.value)
  }

  ghost predicate GovernedBy(batches: seq<Batch>, starts: set<int>, firstSeen: Option<int>) {
    exists at :: at in starts && Governs(batches, at, firstSeen)
  }

  ghost function CountGoverned(batches: seq<Batch>, starts: set<int>, signals: seq<Option<int>>): nat {
    if signals == [] then 0
    else CountGoverned(batches, starts, signals[..|signals| - 1])
         + if GovernedBy(batches, starts, signals[|signals| - 1]) then 1 else 0
  }

  /** A signal is the run's when one of the run's batches is the latest of all batches not after its
      first sighting. */
  ghost predicate IsNewIn(batches: seq<Batch>, ids: set<int>, firstSeen: Option<int>) {
    && firstSeen.Some?
    && exists b :: b in batches && b.id in ids && b.at <= firstSeen.value && IsLatest(batches, b.at, firstSeen.value)
  }

  ghost predicate IsLatest(batches: seq<Batch>, at: int, seen: int) {
    forall b :: b in batches && b.at <= seen ==> b.at <= at
  }

  /** The positions of the run's own signals. */
  ghost function NewSignals(batches: seq<Batch>, ids: set<int>, signals: seq<Option<int>>): set<int> {
    set i | 0 <= i < |signals| && IsNewIn(batches, ids, signals[i])
  }

  ghost function Transitions(rows: seq<DriftRow>, ids: set<int>): set<int> {
    set i | 0 <= i < |rows| && rows[i].batchId in ids && rows[i].classified
  }

  lemma NewIsGoverned(batches: seq<Batch>, ids: set<int>, firstSeen: Option<int>)
    ensures IsNewIn(batches, ids, firstSeen) <==> GovernedBy(batches, RunInstants(batches, ids), firstSeen)
  {
    if IsNewIn(batches, ids, firstSeen) {
      var b :| b in batches && b.id in ids && b.at <= firstSeen.value && IsLatest(batches, b.at, firstSeen.value);
      assert b.at in RunInstants(batches, ids) && Governs(batches, b.at, firstSeen);
    }
    if GovernedBy(batches, RunInstants(batches, ids), firstSeen) {
      var at :| at in RunInstants(batches, ids) && Governs(batches, at, firstSeen);
      var b :| b in batches && b.id in ids && b.at == at;
      assert IsLatest(batches, b.at, firstSeen.value);
    }
  }

  /** The count is the number of the run's signals, each counted once. */
  lemma {:induction false} CountIsCardinality(batches: seq<Batch>, ids: set<int>, signals: seq<Option<int>>)
    ensures CountGoverned(batches, RunInstants(batches, ids), signals) == |NewSignals(batches, ids, signals)|
  {
    if signals == [] {
      assert NewSignals(batches, ids, signals) == {};
    } else {
      var n := |signals| - 1;
      CountIsCardinality(batches, ids, signals[..n]);
      NewIsGoverned(batches, ids, signals[n]);
      var before := NewSignals(batches, ids, signals[..n]);
      assert NewSignals(batches, ids, signals) == if IsNewIn(batches, ids, signals[n]) then before + {n} else before;
    }
  }

  lemma {:induction false} TransitionsAreCardinality(rows: seq<DriftRow>, ids: set<int>)
    ensures CountTransitions(rows, ids) == |Transitions(rows, ids)|
  {
    if rows == [] {
      assert Transitions(rows, ids) == {};
    } else {
      var n := |rows| - 1;
      TransitionsAreCardinality(rows[..n], ids);
      var before := Transitions(rows[..n], ids);
      assert Transitions(rows, ids) == if rows[n].batchId in ids && rows[n].classified then before + {n} else before;
    }
  }

  /** The instants of the run's own batches. */
  ghost function RunInstants(batches: seq<Batch>, ids: set<int>): set<int> {
    set b | b in batches && b.id in ids :: b.at
  }

  function CountTransitions(rows: seq<DriftRow>, ids: set<int>): nat {
    if rows == [] then 0
    else
      var last := rows[|rows| - 1];
      CountTransitions(rows[..|rows| - 1], ids) + if last.batchId in ids && last.classified then 1 else 0
  }

  ghost predicate Instants(batches: seq<Batch>, starts: set<int>) {
    forall at :: at in starts ==> IsInstant(batches, at)
  }

  /** A sighting has one governing instant at most. */
  lemma GoverningInstantIsUnique(batches: seq<Batch>, a: int, b: int, firstSeen: Option<int>)
    requires IsInstant(batches, a) && IsInstant(batches, b)
    requires Governs(batches, a, firstSeen) && Governs(batches, b, firstSeen)
    ensures a == b
  {
    var p :| p in batches && p.at == a;
    var q :| q in batches && q.at == b;
  }

  /** Sets of instants with nothing in common count signals with nothing in common. */
  lemma {:induction false} CountsAdd(batches: seq<Batch>, a: set<int>, b: set<int>, signals: seq<Option<int>>)
    requires Instants(batches, a) && Instants(batches, b) && a !! b
    ensures CountGoverned(batches, a + b, signals) == CountGoverned(batches, a, signals) + CountGoverned(batches, b, signals)
  {
    if signals != [] {
      CountsAdd(batches, a, b, signals[..|signals| - 1]);
      var s := signals[|signals| - 1];
      assert GovernedBy(batches, a + b, s) <==> GovernedBy(batches, a, s) || GovernedBy(batches, b, s);
      if GovernedBy(batches, a, s) && GovernedBy(batches, b, s) {
        var x :| x in a && Governs(batches, x, s);
        var y :| y in b && Governs(batches, y, s);
        GoverningInstantIsUnique(batches, x, y, s);
        assert false;
      }
    }
  }

  lemma InWindowIsGoverned(batches: seq<Batch>, w: Window, seen: int)
    requires NextInstant(batches, w.at, w.next)
    ensures w.at <= seen && (w.next.None? || seen < w.next.value) <==> Governs(batches, w.at, Some(seen))
  {
    if w.next.Some? && w.next.value <= seen {
      var b :| b in batches && b.at == w.next.value;
      assert Superseded(batches, w.at, seen);
    }
  }

  /** The signals first seen inside one window. */
  method CountInWindow(ghost batches: seq<Batch>, w: Window, signals: seq<Option<int>>) returns (n: nat)
    requires NextInstant(batches, w.at, w.next)
    ensures n == CountGoverned(batches, {w.at}, signals)
  {
    n := 0;
    for j := 0 to |signals|
      invariant n == CountGoverned(batches, {w.at}, signals[..j])
    {
      assert signals[..j + 1][..j] == signals[..j];
      assert GovernedBy(batches, {w.at}, signals[j]) <==> Governs(batches, w.at, signals[j]) by {
        assert w.at in {w.at};
      }
      if signals[j].None? {
        continue;
      }
      var seen := signals[j].value;
      InWindowIsGoverned(batches, w, seen);
      if w.at <= seen && (w.next.None? || seen < w.next.value) {
        n := n + 1;
      }
    }
    assert signals[..|signals|] == signals;
  }

  /** A concluded run counts each signal once, exactly when the latest batch instant not after its first
      sighting is one of the run's own. */
  method CountRunOutcome(ghost batches: seq<Batch>, ids: set<int>, rows: seq<DriftRow>, windows: seq<Window>, signals: seq<Option<int>>)
    returns (out: Outcome)
    requires AreWindows(batches, ids, windows)
    ensures ids == {} ==> out == Outcome(false, 0, 0)
    ensures ids != {} ==>
      out == Outcome(true, CountTransitions(rows, ids), CountGoverned(batches, RunInstants(batches, ids), signals))
    ensures ids != {} ==>
      out == Outcome(true, |Transitions(rows, ids)|, |NewSignals(batches, ids, signals)|)
  {
    TransitionsAreCardinality(rows, ids);
    CountIsCardinality(batches, ids, signals);
    if ids == {} {
      return Outcome(false, 0, 0);
    }
    var transitions: nat := 0;
    for i := 0 to |rows|
      invariant transitions == CountTransitions(rows[..i], ids)
    {
      assert rows[..i + 1][..i] == rows[..i];
      if rows[i].batchId !in ids {
        continue;
      }
      if rows[i].classified {
        transitions := transitions + 1;
      }
    }
    assert rows[..|rows|] == rows;
    var newSignals := CountNewSignals(batches, ids, windows, signals);
    out := Outcome(true, transitions, newSignals);
  }

  lemma {:induction false} NoInstantsCountNothing(batches: seq<Batch>, signals: seq<Option<int>>)
    ensures CountGoverned(batches, {}, signals) == 0
  {
    if signals != [] {
      NoInstantsCountNothing(batches, signals[..|signals| - 1]);
    }
  }

  method CountNewSignals(ghost batches: seq<Batch>, ids: set<int>, windows: seq<Window>, signals: seq<Option<int>>) returns (n: nat)
    requires AreWindows(batches, ids, windows)
    ensures n == CountGoverned(batches, RunInstants(batches, ids), signals)
  {
    n := 0;
    var counted: set<int> := {};
    NoInstantsCountNothing(batches, signals);
    for i := 0 to |windows|
      invariant forall at :: at in counted <==> HasWindow(windows, at, i)
      invariant n == CountGoverned(batches, counted, signals)
    {
      var w := windows[i];
      assert IsWindow(batches, ids, w);
      if w.batchId !in ids || w.at in counted {
        continue;
      }
      StartsAreInstants(batches, ids, windows, counted, i);
      var inside := CountInWindow(batches, w, signals);
      CountsAdd(batches, counted, {w.at}, signals);
      counted := counted + {w.at};
      n := n + inside;
    }
    AllInstantsCounted(batches, ids, windows, counted);
  }

  lemma StartsAreInstants(batches: seq<Batch>, ids: set<int>, windows: seq<Window>, counted: set<int>, i: nat)
    requires AreWindows(batches, ids, windows) && i < |windows|
    requires forall at :: at in counted <==> HasWindow(windows, at, i)
    ensures Instants(batches, counted) && Instants(batches, {windows[i].at})
  {
    forall at | at in counted
      ensures IsInstant(batches, at)
    {
      var k :| 0 <= k < i && windows[k].at == at;
      assert IsWindow(batches, ids, windows[k]);
      assert Batch(windows[k].batchId, at) in batches;
    }
    assert IsWindow(batches, ids, windows[i]);
    assert Batch(windows[i].batchId, windows[i].at) in batches;
  }

  lemma AllInstantsCounted(batches: seq<Batch>, ids: set<int>, windows: seq<Window>, counted: set<int>)
    requires AreWindows(batches, ids, windows)
    requires forall at :: at in counted <==> HasWindow(windows, at, |windows|)
    ensures counted == RunInstants(batches, ids)
  {
    forall at | at in counted
      ensures at in RunInstants(batches, ids)
    {
      var k :| 0 <= k < |windows| && windows[k].at == at;
      assert IsWindow(batches, ids, windows[k]);
      assert Batch(windows[k].batchId, at) in batches;
    }
    forall at | at in RunInstants(batches, ids)
      ensures at in counted
    {
      var b :| b in batches && b.id in ids && b.at == at;
      assert HasWindow(windows, b.at, |windows|);
    }
  }

  lemma NewInBoth(batches: seq<Batch>, a: set<int>, b: set<int>, firstSeen: Option<int>)
    ensures IsNewIn(batches, a, firstSeen) && IsNewIn(batches, b, firstSeen) ==>
              !(RunInstants(batches, a) !! RunInstants(batches, b))
  {
    if IsNewIn(batches, a, firstSeen) && IsNewIn(batches, b, firstSeen) {
      var p :| p in batches && p.id in a && p.at <= firstSeen.value && IsLatest(batches, p.at, firstSeen.value);
      var q :| q in batches && q.id in b && q.at <= firstSeen.value && IsLatest(batches, q.at, firstSeen.value);
      assert p.at == q.at;
      assert p.at in RunInstants(batches, a) * RunInstants(batches, b);
    }
  }

  /** Runs whose batches share no instant share no signal: counted together they count what they count apart. */
  lemma RunsShareNoSignal(batches: seq<Batch>, a: set<int>, b: set<int>, signals: seq<Option<int>>)
    requires RunInstants(batches, a) !! RunInstants(batches, b)
    ensures CountGoverned(batches, RunInstants(batches, a + b), signals)
         == CountGoverned(batches, RunInstants(batches, a), signals) + CountGoverned(batches, RunInstants(batches, b), signals)
    ensures NewSignals(batches, a, signals) !! NewSignals(batches, b, signals)
    ensures |NewSignals(batches, a + b, signals)| == |NewSignals(batches, a, signals)| + |NewSignals(batches, b, signals)|
  {
    CountIsCardinality(batches, a, signals);
    CountIsCardinality(batches, b, signals);
    CountIsCardinality(batches, a + b, signals);
    forall i | 0 <= i < |signals|
      ensures !(IsNewIn(batches, a, signals[i]) && IsNewIn(batches, b, signals[i]))
    {
      NewInBoth(batches, a, b, signals[i]);
    }
    assert RunInstants(batches, a + b) == RunInstants(batches, a) + RunInstants(batches, b);
    CountsAdd(batches, RunInstants(batches, a), RunInstants(batches, b), signals);
  }

  /** A signal seen no earlier than some batch has a governing instant. */
  lemma EverySignalHasABatch(batches: seq<Batch>, firstSeen: Option<int>, b: Batch)
    requires b in batches && firstSeen.Some? && b.at <= firstSeen.value
    ensures exists c :: c in batches && Governs(batches, c.at, firstSeen)
  {
    LatestBatch(batches, firstSeen.value, b);
  }

  lemma {:induction false} LatestBatch(batches: seq<Batch>, seen: int, b: Batch)
    requires b in batches && b.at <= seen
    ensures exists c :: c in batches && Governs(batches, c.at, Some(seen))
    decreases seen - b.at
  {
    if Superseded(batches, b.at, seen) {
      var c :| c in batches && b.at < c.at <= seen;
      LatestBatch(batches, seen, c);
    } else {
      assert Governs(batches, b.at, Some(seen));
    }
  }
}
