/**
  Firings on the topology drawing (cmd/web/graph.go joinSignals): each firing is attached to a drawn
  node, counted as cut by the column cap, or left out.

  Nodes are indexed by the text of their id, which carries no subject kind. `split` stands for the split
  of an endpoint subject into its name and its service. A severity is its rank, 0 the worst.
*/
module GraphSignals {
  import opened Sorting
  import opened Wrappers
  import opened GraphScope
  import opened GraphLayout
  import opened GraphDrawing

  const SEVERITIES: nat := 5

  datatype FiringKind = OnName | OnService | OnEndpoint | OnOther

  datatype Firing = Firing(kind: FiringKind, rule: string, subject: string, rank: nat)

  type Split = string -> (string, string)

  /** What the join reads of a drawing. */
  datatype Drawing = Drawing(ids: seq<string>, held: set<NodeId>, holdsName: string -> bool, split: Split)

  function TextsOf(nodes: seq<Node>): seq<string> {
    seq(|nodes|, i requires 0 <= i < |nodes| => nodes[i].id.key)
  }

  function DrawingOf(env: Env, scope: Scope, v: View, split: Split): Drawing {
    Drawing(TextsOf(v.nodes), v.held, name => HoldsName(env, scope, v.members, name), split)
  }

  /** Where a firing goes. */
  datatype Place = At(node: nat) | Cut | Outside

  /** The node an id names: the last one drawn with it. */
  function NodeOf(ids: seq<string>, id: string): Option<nat> {
    if ids == [] then None
    else if ids[|ids| - 1] == id then Some(|ids| - 1)
    else NodeOf(ids[..|ids| - 1], id)
  }

  lemma {:induction false} NodeOfIsLast(ids: seq<string>, id: string)
    ensures match NodeOf(ids, id)
            case None => id !in ids
            case Some(i) => i < |ids| && ids[i] == id && id !in ids[i + 1..]
  {
    if ids != [] {
      var prev := ids[..|ids| - 1];
      assert ids == prev + [ids[|ids| - 1]];
      NodeOfIsLast(prev, id);
      if ids[|ids| - 1] != id && NodeOf(prev, id).Some? {
        var i := NodeOf(prev, id).value;
        assert ids[i + 1..] == prev[i + 1..] + [ids[|ids| - 1]];
      }
    }
  }

  /** A subject's own node, or the cap's count if the scope holds the subject, or nothing. */
  function Attached(d: Drawing, id: string, internal: NodeId): Place {
    if NodeOf(d.ids, id).Some? then At(NodeOf(d.ids, id).value)
    else if internal in d.held then Cut
    else Outside
  }

  /** An endpoint goes to its name while the name is held at all, drawn or cut, and to its service
      only otherwise. */
  function PlaceOf(d: Drawing, f: Firing): Place {
    match f.kind
    case OnName => Attached(d, f.subject, NameId(f.subject))
    case OnService => Attached(d, f.subject, SvcId(f.subject))
    case OnEndpoint =>
      var (name, service) := d.split(f.subject);
      if name != "" && !d.holdsName(name) then Outside
      else if name != "" && !Attached(d, name, NameId(name)).Outside? then Attached(d, name, NameId(name))
      else Attached(d, service, SvcId(service))
    case OnOther => Outside
  }

  /** The firings that go to one place, in order. */
  function FiringsAt(d: Drawing, firings: seq<Firing>, place: Place): seq<Firing> {
    if firings == [] then []
    else
      var last := firings[|firings| - 1];
      FiringsAt(d, firings[..|firings| - 1], place) + if PlaceOf(d, last) == place then [last] else []
  }

  // ---------------------------------------------------------------- the loop

  type Index = map<string, nat>

  method IndexNodes(ids: seq<string>) returns (idx: Index)
    ensures forall id :: id in idx <==> NodeOf(ids, id).Some?
    ensures forall id :: id in idx ==> Some(idx[id]) == NodeOf(ids, id)
  {
    idx := map[];
    for i := 0 to |ids|
      invariant forall id :: id in idx <==> NodeOf(ids[..i], id).Some?
      invariant forall id :: id in idx ==> Some(idx[id]) == NodeOf(ids[..i], id)
    {
      assert ids[..i + 1][..i] == ids[..i];
      idx := idx[ids[i] := i];
    }
    assert ids[..|ids|] == ids;
  }

  /** The branches of the loop body: where `attach` puts the firing, or what the guards decide. */
  method Route(d: Drawing, idx: Index, f: Firing) returns (place: Place)
    requires forall id :: id in idx <==> NodeOf(d.ids, id).Some?
    requires forall id :: id in idx ==> Some(idx[id]) == NodeOf(d.ids, id)
    ensures place == PlaceOf(d, f)
  {
    match f.kind {
      case OnName =>
        if f.subject in idx {
          return At(idx[f.subject]);
        }
        return if NameId(f.subject) in d.held then Cut else Outside;
      case OnService =>
        if f.subject in idx {
          return At(idx[f.subject]);
        }
        return if SvcId(f.subject) in d.held then Cut else Outside;
      case OnEndpoint =>
        var (name, service) := d.split(f.subject);
        if name != "" && !d.holdsName(name) {
          return Outside;
        }
        if name != "" {
          if name in idx {
            return At(idx[name]);
          }
          if NameId(name) in d.held {
            return Cut;
          }
        }
        if service in idx {
          return At(idx[service]);
        }
        return if SvcId(service) in d.held then Cut else Outside;
      case OnOther =>
        return Outside;
    }
  }

  lemma FiringsSnoc(d: Drawing, firings: seq<Firing>, i: nat, place: Place)
    requires i < |firings|
    ensures FiringsAt(d, firings[..i + 1], place)
            == FiringsAt(d, firings[..i], place) + if PlaceOf(d, firings[i]) == place then [firings[i]] else []
  {
    assert firings[..i + 1][..i] == firings[..i];
  }

  lemma PlaceInRange(d: Drawing, f: Firing)
    ensures PlaceOf(d, f).At? ==> PlaceOf(d, f).node < |d.ids|
  {
    NodeOfIsLast(d.ids, f.subject);
    var (name, service) := d.split(f.subject);
    NodeOfIsLast(d.ids, name);
    NodeOfIsLast(d.ids, service);
  }

  /** The worst severity among some firings, if one has a severity at all. */
  ghost predicate IsWorst(firings: seq<Firing>, worst: Option<nat>) {
    match worst
    case None => forall i :: 0 <= i < |firings| ==> firings[i].rank >= SEVERITIES
    case Some(r) =>
      && r < SEVERITIES && (exists i :: 0 <= i < |firings| && firings[i].rank == r)
      && forall i :: 0 <= i < |firings| ==> r <= firings[i].rank
  }

  method WorstSeverity(firings: seq<Firing>) returns (worst: Option<nat>)
    ensures IsWorst(firings, worst)
  {
    worst := None;
    var bestRank := SEVERITIES;
    for i := 0 to |firings|
      invariant IsWorst(firings[..i], worst)
      invariant bestRank == if worst.Some? then worst.value else SEVERITIES
    {
      assert firings[..i + 1] == firings[..i] + [firings[i]];
      if firings[i].rank < bestRank {
        bestRank := firings[i].rank;
        worst := Some(bestRank);
        assert firings[..i + 1][i].rank == bestRank;
      } else if worst.Some? {
        var k :| 0 <= k < i && firings[..i][k].rank == worst.value;
        assert firings[..i + 1][k].rank == worst.value;
      }
    }
    assert firings[..|firings|] == firings;
  }

  method JoinSignals(env: Env, scope: Scope, v: View, split: Split, firings: seq<Firing>)
    returns (open: array<seq<Firing>>, worst: seq<Option<nat>>, cutSignals: nat)
    ensures fresh(open) && open.Length == |v.nodes| == |worst|
    ensures forall n :: 0 <= n < open.Length ==> open[n] == FiringsAt(DrawingOf(env, scope, v, split), firings, At(n))
    ensures forall n :: 0 <= n < open.Length ==> IsWorst(open[n], worst[n])
    ensures cutSignals == |FiringsAt(DrawingOf(env, scope, v, split), firings, Cut)|
  {
    var d := DrawingOf(env, scope, v, split);
    open, cutSignals := Attach(d, firings);
    worst := [];
    for n := 0 to open.Length
      invariant |worst| == n && forall k :: 0 <= k < n ==> IsWorst(open[k], worst[k])
      invariant forall k :: 0 <= k < open.Length ==> open[k] == FiringsAt(d, firings, At(k))
    {
      var w := WorstSeverity(open[n]);
      worst := worst + [w];
    }
  }

  /** The loop over the firings. */
  method Attach(d: Drawing, firings: seq<Firing>) returns (open: array<seq<Firing>>, cutSignals: nat)
    ensures fresh(open) && open.Length == |d.ids|
    ensures forall n :: 0 <= n < open.Length ==> open[n] == FiringsAt(d, firings, At(n))
    ensures cutSignals == |FiringsAt(d, firings, Cut)|
  {
    var idx := IndexNodes(d.ids);
    open := new seq<Firing>[|d.ids|](_ => []);
    cutSignals := 0;
    for i := 0 to |firings|
      invariant forall n :: 0 <= n < open.Length ==> open[n] == FiringsAt(d, firings[..i], At(n))
      invariant cutSignals == |FiringsAt(d, firings[..i], Cut)|
    {
      var place := Route(d, idx, firings[i]);
      PlaceInRange(d, firings[i]);
      forall n: nat ensures FiringsAt(d, firings[..i + 1], At(n))
                            == FiringsAt(d, firings[..i], At(n)) + if place == At(n) then [firings[i]] else [] {
        FiringsSnoc(d, firings, i, At(n));
      }
      FiringsSnoc(d, firings, i, Cut);
      if place.At? {
        open[place.node] := open[place.node] + [firings[i]];
      } else if place == Cut {
        cutSignals := cutSignals + 1;
      }
    }
    assert firings[..|firings|] == firings;
  }

  // ---------------------------------------------------------------- accounting

  /** How many firings the first `n` nodes hold. */
  function HeldBy(d: Drawing, firings: seq<Firing>, n: nat): nat {
    if n == 0 then 0 else HeldBy(d, firings, n - 1) + |FiringsAt(d, firings, At(n - 1))|
  }

  lemma {:induction false} HeldBySnoc(d: Drawing, firings: seq<Firing>, f: Firing, n: nat)
    ensures HeldBy(d, firings + [f], n)
            == HeldBy(d, firings, n) + if PlaceOf(d, f).At? && PlaceOf(d, f).node < n then 1 else 0
  {
    if n > 0 {
      HeldBySnoc(d, firings, f, n - 1);
      assert (firings + [f])[..|firings|] == firings;
    }
  }

  /** The places hold all the firings, none twice. */
  lemma {:induction false} PlacesHoldAll(d: Drawing, firings: seq<Firing>)
    ensures HeldBy(d, firings, |d.ids|) + |FiringsAt(d, firings, Cut)| + |FiringsAt(d, firings, Outside)| == |firings|
  {
    if firings == [] {
      NothingHeld(d, |d.ids|);
    } else {
      var prev, last := firings[..|firings| - 1], firings[|firings| - 1];
      PlacesHoldAll(d, prev);
      assert firings == prev + [last];
      HeldBySnoc(d, prev, last, |d.ids|);
      PlaceInRange(d, last);
    }
  }

  lemma {:induction false} NothingHeld(d: Drawing, n: nat)
    ensures HeldBy(d, [], n) == 0
  {
    if n > 0 {
      NothingHeld(d, n - 1);
    }
  }

  // ---------------------------------------------------------------- what the places mean

  /** A drawing with the spans and the scope it is of. */
  datatype Scene = Scene(env: Env, scope: Scope, rows: seq<Span>, v: View, split: Split) {
    function InScope(): Members {
      MembersOf(env, scope, rows)
    }

    function Corpus(): Parts {
      PartsOf(env, scope, InScope(), rows)
    }

    function Join(): Drawing {
      DrawingOf(env, scope, v, split)
    }
  }

  /** The view is the drawing of the scene's spans in its scope. */
  ghost predicate IsSceneOf(s: Scene) {
    IsGraph(s.env, s.scope, s.rows, s.v)
  }

  /** What of that the places depend on. */
  ghost predicate Known(s: Scene) {
    s.v.members == s.InScope() && forall id :: HeldOrCut(s.Corpus(), s.v, id)
  }

  lemma SceneIsKnown(s: Scene)
    requires IsSceneOf(s)
    ensures Known(s)
  {
    forall id
      ensures HeldOrCut(s.Corpus(), s.v, id)
    {
      HeldIsDrawnOrBeyondCap(s.env, s.scope, s.rows, s.v, id);
    }
  }

  ghost predicate DrawsText(v: View, text: string) {
    exists i :: 0 <= i < |v.nodes| && v.nodes[i].id.key == text
  }

  /** The `n`-th node bears the text, and no node drawn after it does. */
  ghost predicate LastWithText(v: View, text: string, n: nat) {
    && n < |v.nodes| && v.nodes[n].id.key == text
    && forall k :: n < k < |v.nodes| ==> v.nodes[k].id.key != text
  }

  /** The subject a firing is about in a scope: for an endpoint its name, if the scope holds the name and
      the drawing knows it, and otherwise its service. None for a firing the scope leaves out. */
  ghost function Target(s: Scene, f: Firing): Option<NodeId> {
    match f.kind
    case OnName => Some(NameId(f.subject))
    case OnService => Some(SvcId(f.subject))
    case OnEndpoint =>
      var (name, service) := s.split(f.subject);
      if name != "" && !HoldsName(s.env, s.scope, s.InScope(), name) then None
      else if name != "" && (name in s.Corpus().names || DrawsText(s.v, name)) then Some(NameId(name))
      else Some(SvcId(service))
    case OnOther => None
  }

  ghost predicate CutByCap(s: Scene, id: NodeId) {
    BeyondCap(SubjectsOf(s.Corpus(), id), id.key) && !DrawsText(s.v, id.key)
  }

  ghost predicate Nowhere(s: Scene, id: NodeId) {
    !IsHeld(s.Corpus(), id) && !DrawsText(s.v, id.key)
  }

  /** The firing's subject is one the scope holds, the column cap left it out, and no node bears its text. */
  ghost predicate IsCutFiring(s: Scene, f: Firing) {
    Target(s, f).Some? && CutByCap(s, Target(s, f).value)
  }

  /** The firing's subject is out of the scope, or neither held by it nor borne by any node. */
  ghost predicate IsOutside(s: Scene, f: Firing) {
    Target(s, f).None? || Nowhere(s, Target(s, f).value)
  }

  lemma TextIsInIds(s: Scene, text: string)
    ensures match NodeOf(s.Join().ids, text)
            case None => !DrawsText(s.v, text)
            case Some(n) => LastWithText(s.v, text, n)
  {
    var ids := TextsOf(s.v.nodes);
    NodeOfIsLast(ids, text);
    if DrawsText(s.v, text) {
      var i :| 0 <= i < |s.v.nodes| && s.v.nodes[i].id.key == text;
      assert ids[i] == text;
    }
    if NodeOf(ids, text).Some? {
      var n := NodeOf(ids, text).value;
      forall k | n < k < |s.v.nodes|
        ensures s.v.nodes[k].id.key != text
      {
        assert ids[n + 1..][k - n - 1] == ids[k];
      }
    }
  }

  /** Where a subject's firing goes: to the last node bearing its text, or else to the cut count when the
      cap left the subject out, or else nowhere. */
  ghost predicate GoesAsDrawn(s: Scene, id: NodeId, place: Place) {
    && (place.Cut? <==> CutByCap(s, id))
    && (place.Outside? <==> Nowhere(s, id))
    && (place.At? <==> DrawsText(s.v, id.key))
    && (place.At? ==> LastWithText(s.v, id.key, place.node))
  }

  lemma AttachedExactly(s: Scene, id: NodeId)
    requires Known(s)
    ensures GoesAsDrawn(s, id, Attached(s.Join(), id.key, id))
  {
    TextIsInIds(s, id.key);
    assert HeldOrCut(s.Corpus(), s.v, id);
    if IsDrawn(s.v, id) {
      var i :| 0 <= i < |s.v.nodes| && s.v.nodes[i].id == id;
      assert s.v.nodes[i].id.key == id.key;
    }
  }

  /** A firing goes where its target does. */
  lemma GoesToItsTarget(s: Scene, f: Firing)
    requires Known(s)
    ensures PlaceOf(s.Join(), f)
         == if Target(s, f).None? then Outside else Attached(s.Join(), Target(s, f).value.key, Target(s, f).value)
  {
    if f.kind == OnEndpoint {
      var id := NameId(s.split(f.subject).0);
      AttachedExactly(s, id);
      assert HeldOrCut(s.Corpus(), s.v, id);
    }
  }

  lemma GoesExactly(s: Scene, f: Firing)
    requires Known(s)
    ensures match Target(s, f)
            case None => PlaceOf(s.Join(), f) == Outside
            case Some(id) => GoesAsDrawn(s, id, PlaceOf(s.Join(), f))
  {
    GoesToItsTarget(s, f);
    if Target(s, f).Some? {
      AttachedExactly(s, Target(s, f).value);
    }
  }

  /** On the drawing of any estate and scope a firing is cut, outside or at a node exactly as its subject's
      place in the scope, in its sorted column and on the drawing say. */
  lemma FiringsGoExactly(s: Scene, f: Firing)
    requires IsSceneOf(s)
    ensures var place := PlaceOf(s.Join(), f);
            && (place.Cut? <==> IsCutFiring(s, f))
            && (place.Outside? <==> IsOutside(s, f))
            && (place.At? ==> Target(s, f).Some? && LastWithText(s.v, Target(s, f).value.key, place.node))
  {
    SceneIsKnown(s);
    GoesExactly(s, f);
  }

  ghost function CutCount(s: Scene, firings: seq<Firing>): nat {
    if firings == [] then 0
    else CutCount(s, firings[..|firings| - 1]) + if IsCutFiring(s, firings[|firings| - 1]) then 1 else 0
  }

  ghost function OutsideCount(s: Scene, firings: seq<Firing>): nat {
    if firings == [] then 0
    else OutsideCount(s, firings[..|firings| - 1]) + if IsOutside(s, firings[|firings| - 1]) then 1 else 0
  }

  /** How many firings the nodes hold between them. */
  ghost function OnNodes(s: Scene, firings: seq<Firing>): nat {
    HeldBy(s.Join(), firings, |s.v.nodes|)
  }

  lemma {:induction false} CountsArePlaces(s: Scene, firings: seq<Firing>)
    requires Known(s)
    ensures |FiringsAt(s.Join(), firings, Cut)| == CutCount(s, firings)
    ensures |FiringsAt(s.Join(), firings, Outside)| == OutsideCount(s, firings)
  {
    if firings != [] {
      CountsArePlaces(s, firings[..|firings| - 1]);
      GoesExactly(s, firings[|firings| - 1]);
    }
  }

  /** On the drawing of any estate and scope: what the nodes hold, the firings whose subject the cap left
      out and the firings whose subject is outside the scope or the corpus are all the firings, none twice;
      and the cut count is the number of the second. */
  lemma EveryFiringIsAccountedFor(s: Scene, firings: seq<Firing>)
    requires IsSceneOf(s)
    ensures |FiringsAt(s.Join(), firings, Cut)| == CutCount(s, firings)
    ensures OnNodes(s, firings) + CutCount(s, firings) + OutsideCount(s, firings) == |firings|
  {
    SceneIsKnown(s);
    CountsArePlaces(s, firings);
    PlacesHoldAll(s.Join(), firings);
  }

  /** An endpoint whose name the scope's spans hold never falls to its service and never drops out: it is
      at the last node bearing the name, or it is cut because the cap left the name out. */
  lemma HeldNameKeepsItsEndpoint(s: Scene, f: Firing)
    requires IsSceneOf(s) && f.kind == OnEndpoint
    requires s.split(f.subject).0 != "" && s.split(f.subject).0 in s.Corpus().names
    ensures match PlaceOf(s.Join(), f)
            case At(n) => LastWithText(s.v, s.split(f.subject).0, n)
            case Cut => CutByCap(s, NameId(s.split(f.subject).0))
            case Outside => false
  {
    SceneIsKnown(s);
    DrawnNamesAreInScope(s.env, s.scope, s.InScope(), s.rows, s.split(f.subject).0);
    GoesExactly(s, f);
  }

  /** A firing reaches its own subject's node exactly when no node drawn after that bears the same text. */
  lemma FiringIsOnItsOwnNodeExactly(s: Scene, f: Firing, own: nat)
    requires IsSceneOf(s) && own < |s.v.nodes|
    requires Target(s, f) == Some(s.v.nodes[own].id)
    ensures PlaceOf(s.Join(), f) == At(own) <==> LastWithText(s.v, s.v.nodes[own].id.key, own)
  {
    SceneIsKnown(s);
    GoesExactly(s, f);
    assert DrawsText(s.v, s.v.nodes[own].id.key);
  }

  /** A name spelled like the address it resolves to: the address's node, drawn after the name's, takes the
      name's firings. */
  lemma NameLosesItsFiringToAnAddress(env: Env, v: View, split: Split, rule: string, rank: nat)
    requires IsGraph(env, Whole, [NameSpan("192.0.2.1", ["192.0.2.1"])], v)
    ensures |v.nodes| == 2 && v.nodes[0].id == NameId("192.0.2.1") && v.nodes[1].id == AddrId("192.0.2.1")
    ensures PlaceOf(DrawingOf(env, Whole, v, split), Firing(OnName, rule, "192.0.2.1", rank)) == At(1)
  {
    var s := Scene(env, Whole, [NameSpan("192.0.2.1", ["192.0.2.1"])], v, split);
    PartsOfOne(env, "192.0.2.1");
    NodesOfOne(env, s.rows, v, "192.0.2.1");
    SceneIsKnown(s);
    LastOfTwoTakesIt(s, Firing(OnName, rule, "192.0.2.1", rank));
  }

  lemma LastOfTwoTakesIt(s: Scene, f: Firing)
    requires Known(s) && f.kind == OnName
    requires |s.v.nodes| == 2 && s.v.nodes[1].id.key == f.subject
    ensures PlaceOf(s.Join(), f) == At(1)
  {
    GoesExactly(s, f);
    assert DrawsText(s.v, f.subject);
  }

  lemma PartsOfOne(env: Env, text: string)
    ensures var rows := [NameSpan(text, [text])];
            var p := PartsOf(env, Whole, MembersOf(env, Whole, rows), rows);
            p.names == {text} && p.addrs == {text} && p.services == {}
  {
    assert [NameSpan(text, [text])][..0] == [];
  }

  lemma NodesOfOne(env: Env, rows: seq<Span>, v: View, text: string)
    requires IsGraph(env, Whole, rows, v)
    requires var p := PartsOf(env, Whole, MembersOf(env, Whole, rows), rows);
             p.names == {text} && p.addrs == {text} && p.services == {}
    ensures |v.nodes| == 2 && v.nodes[0].id == NameId(text) && v.nodes[1].id == AddrId(text)
  {
    var p := PartsOf(env, Whole, MembersOf(env, Whole, rows), rows);
    var c, order :| IsDrawing(p, c, order, v);
    DrawingIds(p, c, order, v);
    ListOfOne(c.names, text);
    ListOfOne(c.addrs, text);
    SortedListCount(c.services, {});
    IdsOfOne(c, text);
  }

  lemma ListOfOne(column: seq<string>, text: string)
    requires SortedListOf(column, {text})
    ensures column == [text]
  {
    SortedListCount(column, {text});
    assert column[0] in ToSet(column);
  }

  lemma IdsOfOne(c: Columns, text: string)
    requires c.names == [text] && c.addrs == [text] && c.services == []
    ensures DrawnIds(c) == [NameId(text), AddrId(text)]
  {
    IdsAt(c);
  }
}
