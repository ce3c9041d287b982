/**
  The reach leg of one service in one vantage class (cmd/web/vantageclass.go legFromClassGroup,
  classGap, collapseReachLegs; internal/exposure/exposure.go ComposeReach).

  An opening instant is a natural number and 0 is Go's zero time. A row's value is already decoded.
*/
module ReachLegs {
  import opened Wrappers
  import opened Sorting

  datatype Reach = Reached | NotReached | Unsaid(name: string)

  datatype LegRow = LegRow(subject: string, dialled: string, egress: string, reach: Reach, reason: string, cause: string,
                           isGap: bool, openedAt: nat)

  datatype Leg = Valued(value: Reach) | GapLeg | NeverConfigured

  datatype LegInfo = LegInfo(outcome: Option<Reach>, isGap: bool, reasons: seq<string>, causes: seq<string>, since: nat)

  function LegFrom(outcome: Reach, isGap: bool): Leg {
    if isGap then GapLeg else if outcome.Unsaid? then NeverConfigured else Valued(outcome)
  }

  function HeldLeg(outcome: Option<Reach>, isGap: bool): Leg {
    if isGap then GapLeg else if outcome.None? then NeverConfigured else LegFrom(outcome.value, false)
  }

  /** The reading of the class: one vantage that reached settles it, then one that did not. */
  ghost function Composed(group: seq<LegRow>): Option<Reach> {
    if exists i :: 0 <= i < |group| && group[i].reach == Reached then Some(Reached)
    else if exists i :: 0 <= i < |group| && group[i].reach == NotReached then Some(NotReached)
    else None
  }

  ghost predicate Gapped(group: seq<LegRow>) {
    exists i :: 0 <= i < |group| && group[i].isGap
  }

  ghost function Held(group: seq<LegRow>): Leg {
    HeldLeg(Composed(group), Composed(group).None? && Gapped(group))
  }

  /** The openings of the spans that hold the leg's own value, in row order. */
  function Openings(group: seq<LegRow>, held: Leg): seq<nat> {
    if group == [] then []
    else
      var last := group[|group| - 1];
      Openings(group[..|group| - 1], held) + if LegFrom(last.reach, last.isGap) == held then [last.openedAt] else []
  }

  /** The date the loop carries: replaced while unset, then by an earlier or by a later opening. */
  function Since(openings: seq<nat>, earliest: bool): nat {
    if openings == [] then 0
    else
      var before, at := Since(openings[..|openings| - 1], earliest), openings[|openings| - 1];
      if before == 0 || (earliest && at < before) || (!earliest && at > before) then at else before
  }

  function AddOnce(seen: seq<string>, s: string): seq<string> {
    if s in seen then seen else seen + [s]
  }

  function GapReasons(group: seq<LegRow>): seq<string> {
    if group == [] then []
    else
      var before, last := GapReasons(group[..|group| - 1]), group[|group| - 1];
      if last.isGap && last.reason != "" then AddOnce(before, last.reason) else before
  }

  function GapCauses(group: seq<LegRow>): seq<string> {
    if group == [] then []
    else
      var before, last := GapCauses(group[..|group| - 1]), group[|group| - 1];
      if last.isGap then AddOnce(before, last.cause) else before
  }

  ghost predicate IsLeg(group: seq<LegRow>, info: LegInfo) {
    && info.outcome == Composed(group)
    && info.isGap == (Composed(group).None? && Gapped(group))
    && info.reasons == (if Composed(group).None? then GapReasons(group) else [])
    && info.causes == (if Composed(group).None? then GapCauses(group) else [])
    && info.since == Since(Openings(group, Held(group)), Held(group) == Valued(Reached))
  }

  // ---------------------------------------------------------------- the loops

  method ComposeReach(group: seq<LegRow>) returns (r: Option<Reach>)
    ensures r == Composed(group)
  {
    var decided := false;
    for i := 0 to |group|
      invariant forall k :: 0 <= k < i ==> group[k].reach != Reached
      invariant decided <==> exists k :: 0 <= k < i && group[k].reach == NotReached
    {
      match group[i].reach {
        case Reached => return Some(Reached);
        case NotReached => decided := true;
        case Unsaid(_) =>
      }
    }
    r := if decided then Some(NotReached) else None;
  }

  method ClassGap(group: seq<LegRow>) returns (gapped: bool, reasons: seq<string>, causes: seq<string>)
    ensures gapped <==> Gapped(group)
    ensures reasons == GapReasons(group) && causes == GapCauses(group)
  {
    gapped, reasons, causes := false, [], [];
    for i := 0 to |group|
      invariant gapped <==> exists k :: 0 <= k < i && group[k].isGap
      invariant reasons == GapReasons(group[..i]) && causes == GapCauses(group[..i])
    {
      assert group[..i + 1][..i] == group[..i];
      var row := group[i];
      if !row.isGap {
        continue;
      }
      gapped := true;
      if row.reason != "" && row.reason !in reasons {
        reasons := reasons + [row.reason];
      }
      if row.cause !in causes {
        causes := causes + [row.cause];
      }
    }
    assert group[..|group|] == group;
  }

  lemma SinceSnoc(openings: seq<nat>, at: nat, earliest: bool)
    ensures var before := Since(openings, earliest);
            Since(openings + [at], earliest)
            == if before == 0 || (earliest && at < before) || (!earliest && at > before) then at else before
  {
    assert (openings + [at])[..|openings|] == openings;
  }

  /** One more row of the group moves the date only if it holds the leg's value. */
  lemma OpeningsSnoc(group: seq<LegRow>, i: nat, held: Leg, earliest: bool)
    requires i < |group|
    ensures var before, at := Since(Openings(group[..i], held), earliest), group[i].openedAt;
            Since(Openings(group[..i + 1], held), earliest)
            == if LegFrom(group[i].reach, group[i].isGap) == held
                  && (before == 0 || (earliest && at < before) || (!earliest && at > before)) then at else before
  {
    assert group[..i + 1][..i] == group[..i];
    var seen := Openings(group[..i], held);
    assert seen + [] == seen;
    SinceSnoc(seen, group[i].openedAt, earliest);
  }

  method LegFromClassGroup(group: seq<LegRow>) returns (info: LegInfo)
    ensures IsLeg(group, info)
  {
    var outcome := ComposeReach(group);
    info := LegInfo(outcome, false, [], [], 0);
    if outcome.None? {
      var gapped, reasons, causes := ClassGap(group);
      info := info.(isGap := gapped, reasons := reasons, causes := causes);
    }
    var held := HeldLeg(info.outcome, info.isGap);
    var earliest := held == Valued(Reached);
    var since := 0;
    for i := 0 to |group|
      invariant since == Since(Openings(group[..i], held), earliest)
    {
      var row := group[i];
      OpeningsSnoc(group, i, held, earliest);
      if LegFrom(row.reach, row.isGap) != held {
        continue;
      }
      if since == 0 || (earliest && row.openedAt < since) || (!earliest && row.openedAt > since) {
        since := row.openedAt;
      }
    }
    assert group[..|group|] == group;
    info := info.(since := since);
  }

  // ---------------------------------------------------------------- what the date means

  ghost predicate IsMin(x: nat, s: seq<nat>) {
    x in s && forall i :: 0 <= i < |s| ==> x <= s[i]
  }

  ghost predicate IsMax(x: nat, s: seq<nat>) {
    x in s && forall i :: 0 <= i < |s| ==> s[i] <= x
  }

  /** A leg that is not reached is dated by the latest of its openings, whatever they are. */
  lemma {:induction false} LatestOpening(openings: seq<nat>)
    requires openings != []
    ensures IsMax(Since(openings, false), openings)
  {
    if |openings| > 1 {
      LatestOpening(openings[..|openings| - 1]);
      assert Since(openings[..|openings| - 1], false) in openings[..|openings| - 1];
    } else {
      assert openings[..0] == [];
    }
  }

  /** A reached leg is dated by the earliest of its openings, exactly when none of them is the zero
      time or the last of them is. */
  lemma {:induction false} EarliestOpening(openings: seq<nat>)
    requires openings != []
    ensures IsMin(Since(openings, true), openings) <==> 0 !in openings || openings[|openings| - 1] == 0
    ensures 0 in openings && openings[|openings| - 1] != 0 ==> Since(openings, true) != 0
    ensures openings[|openings| - 1] == 0 ==> Since(openings, true) == 0
  {
    var prev, last := openings[..|openings| - 1], openings[|openings| - 1];
    if prev != [] {
      EarliestOpening(prev);
      assert forall x :: x in openings <==> x in prev || x == last;
      assert Since(prev, true) == 0 ==> 0 in prev by { SinceIsOneOfThem(prev, true); }
      SinceIsOneOfThem(openings, true);
    }
  }

  lemma {:induction false} SinceIsOneOfThem(openings: seq<nat>, earliest: bool)
    requires openings != []
    ensures Since(openings, earliest) in openings
  {
    if |openings| > 1 {
      SinceIsOneOfThem(openings[..|openings| - 1], earliest);
    } else {
      assert openings[..0] == [];
    }
  }

  /** The date of a leg that some span dates: the latest opening among the spans holding its value,
      or for a reached leg the earliest, exactly when no such opening is the zero time or the last is. */
  lemma LegDate(group: seq<LegRow>, info: LegInfo)
    requires IsLeg(group, info) && Openings(group, Held(group)) != []
    ensures var openings := Openings(group, Held(group));
            if Held(group) == Valued(Reached)
            then IsMin(info.since, openings) <==> 0 !in openings || openings[|openings| - 1] == 0
            else IsMax(info.since, openings)
  {
    EarliestOpening(Openings(group, Held(group)));
    LatestOpening(Openings(group, Held(group)));
  }

  /** The row says what the leg says: a Gap, no value, or the same value. */
  ghost predicate HoldsValue(info: LegInfo, row: LegRow) {
    if row.isGap then info.isGap
    else if row.reach.Unsaid? then info.outcome.None? && !info.isGap
    else info.outcome == Some(row.reach)
  }

  lemma HoldsValueIs(group: seq<LegRow>, info: LegInfo, row: LegRow)
    requires IsLeg(group, info)
    ensures LegFrom(row.reach, row.isGap) == Held(group) <==> HoldsValue(info, row)
  {
    var outcome := Composed(group);
    assert outcome.Some? ==> outcome == Some(Reached) || outcome == Some(NotReached);
  }

  /** The leg's date is an opening of a row that says what the leg says: the latest, or for a reached
      leg without an opening at the zero time the earliest; without such a row there is no date. */
  ghost predicate IsDated(group: seq<LegRow>, info: LegInfo) {
    && ((forall i :: 0 <= i < |group| ==> !HoldsValue(info, group[i])) ==> info.since == 0)
    && (forall i :: 0 <= i < |group| && HoldsValue(info, group[i]) ==>
          OpenedAt(group, info, info.since)
          && (info.outcome != Some(Reached) ==> group[i].openedAt <= info.since)
          && (info.outcome == Some(Reached) && !OpenedAt(group, info, 0) ==> info.since <= group[i].openedAt))
  }

  ghost predicate OpenedAt(group: seq<LegRow>, info: LegInfo, x: nat) {
    exists i :: 0 <= i < |group| && HoldsValue(info, group[i]) && group[i].openedAt == x
  }

  lemma OpeningsAreOpenedAt(group: seq<LegRow>, info: LegInfo, x: nat)
    requires IsLeg(group, info)
    ensures x in Openings(group, Held(group)) <==> OpenedAt(group, info, x)
  {
    OpeningsMultiset(group, Held(group), x);
    forall i | 0 <= i < |group|
      ensures LegFrom(group[i].reach, group[i].isGap) == Held(group) <==> HoldsValue(info, group[i])
    {
      HoldsValueIs(group, info, group[i]);
    }
  }

  lemma LegIsDated(group: seq<LegRow>, info: LegInfo)
    requires IsLeg(group, info)
    ensures IsDated(group, info)
  {
    var openings := Openings(group, Held(group));
    forall x
      ensures x in openings <==> OpenedAt(group, info, x)
    {
      OpeningsAreOpenedAt(group, info, x);
    }
    if openings == [] {
      forall i | 0 <= i < |group|
        ensures !HoldsValue(info, group[i])
      {
        assert HoldsValue(info, group[i]) ==> OpenedAt(group, info, group[i].openedAt);
      }
    } else {
      LegDate(group, info);
      assert openings[0] in openings;
      SinceIsOneOfThem(openings, Held(group) == Valued(Reached));
      forall i | 0 <= i < |group| && HoldsValue(info, group[i])
        ensures group[i].openedAt in openings
      {
        assert OpenedAt(group, info, group[i].openedAt);
      }
    }
  }

  /** What the rows of a class make of its leg. */
  lemma LegReads(group: seq<LegRow>, info: LegInfo)
    requires IsLeg(group, info)
    ensures info.outcome == Some(Reached) <==> exists i :: 0 <= i < |group| && group[i].reach == Reached
    ensures info.outcome == Some(NotReached) <==>
              && (exists i :: 0 <= i < |group| && group[i].reach == NotReached)
              && forall i :: 0 <= i < |group| ==> group[i].reach != Reached
    ensures info.isGap <==> info.outcome.None? && exists i :: 0 <= i < |group| && group[i].isGap
    ensures info.outcome.Some? ==> info.reasons == [] && info.causes == []
    ensures info.outcome.None? ==> forall s ::
              s in info.reasons <==> s != "" && exists i :: 0 <= i < |group| && group[i].isGap && group[i].reason == s
    ensures info.outcome.None? ==> forall s ::
              s in info.causes <==> exists i :: 0 <= i < |group| && group[i].isGap && group[i].cause == s
    ensures IsDated(group, info)
  {
    LegIsDated(group, info);
    forall s
      ensures s in GapReasons(group) <==> s != "" && exists i :: 0 <= i < |group| && group[i].isGap && group[i].reason == s
      ensures s in GapCauses(group) <==> exists i :: 0 <= i < |group| && group[i].isGap && group[i].cause == s
    {
      ReasonsAreGapReasons(group, s);
    }
  }

  // ---------------------------------------------------------------- row order

  lemma {:induction false} OpeningsMultiset(a: seq<LegRow>, held: Leg, x: nat)
    ensures x in Openings(a, held) <==> exists i :: 0 <= i < |a| && LegFrom(a[i].reach, a[i].isGap) == held && a[i].openedAt == x
  {
    if a != [] {
      OpeningsMultiset(a[..|a| - 1], held, x);
      var prev := a[..|a| - 1];
      assert forall i :: 0 <= i < |prev| ==> prev[i] == a[i];
    }
  }

  lemma SameRows(a: seq<LegRow>, b: seq<LegRow>)
    requires multiset(a) == multiset(b)
    ensures Composed(a) == Composed(b) && Gapped(a) == Gapped(b)
    ensures forall held, x :: x in Openings(a, held) <==> x in Openings(b, held)
  {
    forall r ensures r in a <==> r in b { assert r in multiset(a) <==> r in multiset(b); }
    RowsDecide(a, b);
    RowsDecide(b, a);
    forall held, x
      ensures x in Openings(a, held) <==> x in Openings(b, held)
    {
      OpeningsMultiset(a, held, x);
      OpeningsMultiset(b, held, x);
      if x in Openings(a, held) {
        OpeningCarries(a, b, held, x);
      }
      if x in Openings(b, held) {
        OpeningCarries(b, a, held, x);
      }
    }
  }

  lemma RowsDecide(a: seq<LegRow>, b: seq<LegRow>)
    requires forall r :: r in a ==> r in b
    ensures (exists i :: 0 <= i < |a| && a[i].reach == Reached) ==> exists i :: 0 <= i < |b| && b[i].reach == Reached
    ensures (exists i :: 0 <= i < |a| && a[i].reach == NotReached) ==> exists i :: 0 <= i < |b| && b[i].reach == NotReached
    ensures Gapped(a) ==> Gapped(b)
  {
    forall i | 0 <= i < |a| ensures exists j :: 0 <= j < |b| && b[j] == a[i] { assert a[i] in b; }
  }

  lemma OpeningCarries(a: seq<LegRow>, b: seq<LegRow>, held: Leg, x: nat)
    requires forall r :: r in a ==> r in b
    requires x in Openings(a, held)
    ensures x in Openings(b, held)
  {
    OpeningsMultiset(a, held, x);
    OpeningsMultiset(b, held, x);
    var i :| 0 <= i < |a| && LegFrom(a[i].reach, a[i].isGap) == held && a[i].openedAt == x;
    assert a[i] in b;
  }

  lemma SameExtreme(a: seq<nat>, b: seq<nat>, earliest: bool)
    requires forall x :: x in a <==> x in b
    requires earliest ==> 0 !in a
    ensures Since(a, earliest) == Since(b, earliest)
  {
    assert a != [] ==> a[0] in a;
    assert b != [] ==> b[0] in b;
    if a != [] {
      if earliest {
        EarliestOpening(a);
        EarliestOpening(b);
      } else {
        LatestOpening(a);
        LatestOpening(b);
      }
    }
  }

  lemma {:induction false} ReasonsAreGapReasons(group: seq<LegRow>, s: string)
    ensures s in GapReasons(group) <==> exists i :: 0 <= i < |group| && group[i].isGap && s != "" && group[i].reason == s
    ensures s in GapCauses(group) <==> exists i :: 0 <= i < |group| && group[i].isGap && group[i].cause == s
  {
    if group != [] {
      var prev := group[..|group| - 1];
      ReasonsAreGapReasons(prev, s);
      assert forall i :: 0 <= i < |prev| ==> prev[i] == group[i];
    }
  }

  lemma ReasonsCarry(a: seq<LegRow>, b: seq<LegRow>, s: string)
    requires forall r :: r in a ==> r in b
    ensures s in GapReasons(a) ==> s in GapReasons(b)
    ensures s in GapCauses(a) ==> s in GapCauses(b)
  {
    ReasonsAreGapReasons(a, s);
    ReasonsAreGapReasons(b, s);
    forall i | 0 <= i < |a| ensures exists j :: 0 <= j < |b| && b[j] == a[i] { assert a[i] in b; }
  }

  lemma SameReasons(a: seq<LegRow>, b: seq<LegRow>)
    requires multiset(a) == multiset(b)
    ensures ToSet(GapReasons(a)) == ToSet(GapReasons(b)) && ToSet(GapCauses(a)) == ToSet(GapCauses(b))
  {
    forall r ensures r in a <==> r in b { assert r in multiset(a) <==> r in multiset(b); }
    forall s ensures (s in GapReasons(a) <==> s in GapReasons(b)) && (s in GapCauses(a) <==> s in GapCauses(b)) {
      ReasonsCarry(a, b, s);
      ReasonsCarry(b, a, s);
    }
  }

  /** A leg's outcome, its gap flag and the set of its reasons and causes do not depend on row order;
      nor does its date, unless the leg is reached and one of its spans opened at the zero time. */
  lemma LegIgnoresOrder(a: seq<LegRow>, b: seq<LegRow>, p: LegInfo, q: LegInfo)
    requires multiset(a) == multiset(b)
    requires IsLeg(a, p) && IsLeg(b, q)
    ensures p.outcome == q.outcome && p.isGap == q.isGap
    ensures ToSet(p.reasons) == ToSet(q.reasons) && ToSet(p.causes) == ToSet(q.causes)
    ensures Held(a) != Valued(Reached) || 0 !in Openings(a, Held(a)) ==> p.since == q.since
  {
    SameRows(a, b);
    SameReasons(a, b);
    var held := Held(a);
    if held != Valued(Reached) || 0 !in Openings(a, held) {
      SameExtreme(Openings(a, held), Openings(b, held), held == Valued(Reached));
    }
  }

  /** The zero time does make a reached leg's date depend on row order: of two rows that reached, one of
      them opened at the zero time, the order decides the date. */
  lemma ZeroOpeningDependsOnOrder(zero: LegRow, later: LegRow, p: LegInfo, q: LegInfo)
    requires zero.reach == Reached && !zero.isGap && zero.openedAt == 0
    requires later.reach == Reached && !later.isGap && later.openedAt > 0
    requires IsLeg([zero, later], p) && IsLeg([later, zero], q)
    ensures p.since == later.openedAt && q.since == 0
  {
    PairOpenings(zero, later);
    PairOpenings(later, zero);
  }

  lemma SincePair(x: nat, y: nat)
    ensures Since([x, y], true) == if x == 0 || y < x then y else x
  {
    assert [x][..0] == [] && [x, y][..1] == [x];
    assert Since([], true) == 0;
    assert Since([x], true) == x;
  }

  lemma PairOpenings(a: LegRow, b: LegRow)
    requires a.reach == Reached && !a.isGap && b.reach == Reached && !b.isGap
    ensures Held([a, b]) == Valued(Reached)
    ensures Openings([a, b], Valued(Reached)) == [a.openedAt, b.openedAt]
    ensures Since([a.openedAt, b.openedAt], true)
         == if a.openedAt == 0 || b.openedAt < a.openedAt then b.openedAt else a.openedAt
  {
    assert [a, b][0].reach == Reached;
    var held := Valued(Reached);
    assert [a, b][..1] == [a] && [a][..0] == [];
    assert Openings([a], held) == Openings([a][..0], held) + [a.openedAt] == [a.openedAt];
    assert Openings([a, b], held) == Openings([a, b][..1], held) + [b.openedAt];
    SincePair(a.openedAt, b.openedAt);
  }

  // ---------------------------------------------------------------- every service, every class

  type Derive = (string, string) -> string

  function ClassRows(rows: seq<LegRow>, derive: Derive, subject: string, class_: string): seq<LegRow> {
    if rows == [] then []
    else
      var before, last := ClassRows(rows[..|rows| - 1], derive, subject, class_), rows[|rows| - 1];
      if last.subject == subject && derive(last.dialled, last.egress) == class_ then before + [last] else before
  }

  type Grouped = map<string, map<string, seq<LegRow>>>

  function GroupAt(g: Grouped, subject: string, class_: string): seq<LegRow> {
    if subject in g && class_ in g[subject] then g[subject][class_] else []
  }

  /** The grouping pass: every row lands in the one group of its subject and derived class, in order. */
  method GroupRows(rows: seq<LegRow>, derive: Derive) returns (g: Grouped)
    ensures forall subject, class_ :: GroupAt(g, subject, class_) == ClassRows(rows, derive, subject, class_)
    ensures forall subject, class_ :: subject in g && class_ in g[subject] ==> g[subject][class_] != []
  {
    g := map[];
    for i := 0 to |rows|
      invariant forall subject, class_ :: GroupAt(g, subject, class_) == ClassRows(rows[..i], derive, subject, class_)
      invariant forall subject, class_ :: subject in g && class_ in g[subject] ==> g[subject][class_] != []
    {
      assert rows[..i + 1][..i] == rows[..i];
      var row := rows[i];
      var c := derive(row.dialled, row.egress);
      var m := if row.subject in g then g[row.subject] else map[];
      m := m[c := (if c in m then m[c] else []) + [row]];
      g := g[row.subject := m];
    }
    assert rows[..|rows|] == rows;
  }

  ghost predicate IsCollapse(rows: seq<LegRow>, derive: Derive, out: map<string, map<string, LegInfo>>) {
    forall subject, class_ :: LegIsRight(rows, derive, out, subject, class_)
  }

  ghost predicate LegIsRight(rows: seq<LegRow>, derive: Derive, out: map<string, map<string, LegInfo>>, subject: string, class_: string) {
    var group := ClassRows(rows, derive, subject, class_);
    && (subject in out && class_ in out[subject] <==> group != [])
    && (subject in out && class_ in out[subject] ==> IsLeg(group, out[subject][class_]))
  }

  method LegsOfSubject(byClass: map<string, seq<LegRow>>) returns (cm: map<string, LegInfo>)
    ensures cm.Keys == byClass.Keys
    ensures forall c :: c in byClass ==> IsLeg(byClass[c], cm[c])
  {
    cm := map[];
    var todo := byClass.Keys;
    while todo != {}
      invariant todo <= byClass.Keys && cm.Keys == byClass.Keys - todo
      invariant forall c :: c in cm ==> IsLeg(byClass[c], cm[c])
      decreases todo
    {
      var c :| c in todo;
      var leg := LegFromClassGroup(byClass[c]);
      cm := cm[c := leg];
      todo := todo - {c};
    }
  }

  method CollapseReachLegs(rows: seq<LegRow>, derive: Derive) returns (out: map<string, map<string, LegInfo>>)
    ensures IsCollapse(rows, derive, out)
  {
    var g := GroupRows(rows, derive);
    out := map[];
    var todo := g.Keys;
    while todo != {}
      invariant todo <= g.Keys && out.Keys == g.Keys - todo
      invariant forall s :: s in out ==> out[s].Keys == g[s].Keys
      invariant forall s, c :: s in out && c in out[s] ==> IsLeg(g[s][c], out[s][c])
      decreases todo
    {
      var s :| s in todo;
      var cm := LegsOfSubject(g[s]);
      out := out[s := cm];
      todo := todo - {s};
    }
    forall subject, class_
      ensures LegIsRight(rows, derive, out, subject, class_)
    {
      assert GroupAt(g, subject, class_) == ClassRows(rows, derive, subject, class_);
    }
  }

  lemma {:induction false} ClassRowsMultiset(rows: seq<LegRow>, derive: Derive, subject: string, class_: string, r: LegRow)
    ensures multiset(ClassRows(rows, derive, subject, class_))[r]
            == if r.subject == subject && derive(r.dialled, r.egress) == class_ then multiset(rows)[r] else 0
  {
    if rows != [] {
      FrontAndLast(rows);
      ClassRowsMultiset(rows[..|rows| - 1], derive, subject, class_, r);
    }
  }

  /** Reordering the rows read moves no leg: the same services and classes hold legs, with the same
      outcome, gap flag and sets of reasons and causes, and the same date unless the leg is reached and one
      of its spans opened at the zero time. */
  lemma CollapseIgnoresOrder(a: seq<LegRow>, b: seq<LegRow>, derive: Derive, p: map<string, map<string, LegInfo>>,
                             q: map<string, map<string, LegInfo>>, subject: string, class_: string)
    requires multiset(a) == multiset(b)
    requires IsCollapse(a, derive, p) && IsCollapse(b, derive, q)
    ensures subject in p && class_ in p[subject] <==> subject in q && class_ in q[subject]
    ensures subject in p && class_ in p[subject] ==>
              var l, r := p[subject][class_], q[subject][class_];
              var held := Held(ClassRows(a, derive, subject, class_));
              && l.outcome == r.outcome && l.isGap == r.isGap
              && ToSet(l.reasons) == ToSet(r.reasons) && ToSet(l.causes) == ToSet(r.causes)
              && (held != Valued(Reached) || 0 !in Openings(ClassRows(a, derive, subject, class_), held) ==> l.since == r.since)
  {
    var g, h := ClassRows(a, derive, subject, class_), ClassRows(b, derive, subject, class_);
    forall r
      ensures multiset(g)[r] == multiset(h)[r]
    {
      ClassRowsMultiset(a, derive, subject, class_, r);
      ClassRowsMultiset(b, derive, subject, class_, r);
    }
    assert multiset(g) == multiset(h);
    assert |g| == |multiset(g)| == |multiset(h)| == |h|;
    assert LegIsRight(a, derive, p, subject, class_) && LegIsRight(b, derive, q, subject, class_);
    if g != [] {
      LegIgnoresOrder(g, h, p[subject][class_], q[subject][class_]);
    }
  }
}
