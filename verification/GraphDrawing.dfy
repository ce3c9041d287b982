/**
  The topology drawing (cmd/web/graph.go buildScopedGraph): the capped columns placed, the edges between
  what is drawn, and what holds of the whole for every estate and every scope.
*/
module GraphDrawing {
  import opened Sorting
  import opened GraphScope
  import opened GraphLayout

  // ---------------------------------------------------------------- the drawing

  datatype DrawnEdge = DrawnEdge(x1: int, y1: int, x2: int, y2: int, toService: bool)

  type Positions = map<NodeId, (int, int)>

  /** Where each drawn subject stands. */
  function PositionsOf(nodes: seq<Node>): Positions {
    if nodes == [] then map[]
    else
      var last := nodes[|nodes| - 1];
      PositionsOf(nodes[..|nodes| - 1])[last.id := (last.x, last.y)]
  }

  predicate Drawn(pos: Positions, e: Edge) {
    e.from in pos && e.to in pos
  }

  function Emitted(order: seq<Edge>, pos: Positions): seq<DrawnEdge> {
    if order == [] then []
    else
      var e := order[|order| - 1];
      Emitted(order[..|order| - 1], pos)
      + if Drawn(pos, e) then [DrawnEdge(pos[e.from].0, pos[e.from].1, pos[e.to].0, pos[e.to].1, e.to.SvcId?)] else []
  }

  function CutOf(edges: set<Edge>, pos: Positions): set<Edge> {
    set e | e in edges && !Drawn(pos, e)
  }

  /** How many of a column's subjects are drawn, for a column longer than the cap. */
  datatype ColumnCount = ColumnCount(caption: string, drawn: nat, held: nat)

  datatype View = View(nodes: seq<Node>, edges: seq<DrawnEdge>, cutEdges: nat, contentW: nat, contentH: nat, fitK: nat,
                       capped: seq<ColumnCount>, members: Members, held: set<NodeId>)

  /** The whole sorted columns of a drawing, before the cap. */
  datatype Columns = Columns(names: seq<string>, addrs: seq<string>, services: seq<string>)

  function NameIds(c: Columns): seq<NodeId> {
    Ids(k => NameId(k), c.names)
  }

  function AddrIds(c: Columns): seq<NodeId> {
    Ids(k => AddrId(k), c.addrs)
  }

  function SvcIds(c: Columns): seq<NodeId> {
    Ids(k => SvcId(k), c.services)
  }

  function DrawnIds(c: Columns): seq<NodeId> {
    Capped(NameIds(c)) + Capped(AddrIds(c)) + Capped(SvcIds(c))
  }

  function CountOf(caption: string, held: nat): seq<ColumnCount> {
    if held <= COLUMN_CAP then [] else [ColumnCount(caption, COLUMN_CAP, held)]
  }

  function CappedCounts(p: Parts): seq<ColumnCount> {
    CountOf("names", |p.names|) + CountOf("addresses", |p.addrs|) + CountOf("services", |p.services|)
  }

  /** The capped columns placed side by side. */
  function AllColumns(apexes: set<string>, c: Columns): seq<Node> {
    ColumnNodes(apexes, Capped(NameIds(c))) + ColumnNodes(apexes, Capped(AddrIds(c))) + ColumnNodes(apexes, Capped(SvcIds(c)))
  }


  /** What a drawing of these spans in this scope is. */
  ghost predicate IsDrawing(p: Parts, c: Columns, order: seq<Edge>, v: View) {
    && SortedListOf(c.names, p.names) && SortedListOf(c.addrs, p.addrs) && SortedListOf(c.services, p.services)
    && Lists(order, p.edges)
    && v.nodes == AllColumns(ApexesOf(p.names), c)
    && v.edges == Emitted(order, PositionsOf(v.nodes))
    && v.cutEdges == |CutOf(p.edges, PositionsOf(v.nodes))|
    && Bounds(v.nodes, v.contentW, v.contentH)
    && v.fitK == FitK(v.contentW, v.contentH)
    && v.capped == CappedCounts(p)
    && v.held == ToSet(NameIds(c) + AddrIds(c) + SvcIds(c))
  }

  ghost predicate IsGraph(env: Env, scope: Scope, rows: seq<Span>, v: View) {
    && v.members == MembersOf(env, scope, rows)
    && exists c, order :: IsDrawing(PartsOf(env, scope, MembersOf(env, scope, rows), rows), c, order, v)
  }

  lemma CutGrows(order: seq<Edge>, i: nat, pos: Positions)
    requires i < |order| && NoDuplicates(order)
    ensures ToSet(order[..i + 1]) == ToSet(order[..i]) + {order[i]}
    ensures |CutOf(ToSet(order[..i + 1]), pos)|
            == |CutOf(ToSet(order[..i]), pos)| + if Drawn(pos, order[i]) then 0 else 1
  {
    assert order[..i + 1] == order[..i] + [order[i]];
    assert order[i] !in order[..i];
    var before, after := CutOf(ToSet(order[..i]), pos), CutOf(ToSet(order[..i + 1]), pos);
    if Drawn(pos, order[i]) {
      assert after == before;
    } else {
      assert after == before + {order[i]};
    }
  }

  /** The edges with both ends drawn, in order. */
  function DrawnOf(order: seq<Edge>, pos: Positions): seq<Edge> {
    if order == [] then []
    else
      var e := order[|order| - 1];
      DrawnOf(order[..|order| - 1], pos) + if Drawn(pos, e) then [e] else []
  }

  lemma {:induction false} DrawnOfIs(order: seq<Edge>, pos: Positions)
    requires NoDuplicates(order)
    ensures NoDuplicates(DrawnOf(order, pos))
    ensures forall e :: e in DrawnOf(order, pos) <==> e in order && Drawn(pos, e)
  {
    if order != [] {
      var n := |order| - 1;
      DrawnOfIs(order[..n], pos);
      assert order == order[..n] + [order[n]];
      assert order[n] !in order[..n];
    }
  }

  ghost predicate LineBetween(pos: Positions, e: Edge, line: DrawnEdge) {
    && e.from in pos && e.to in pos
    && (line.x1, line.y1) == pos[e.from] && (line.x2, line.y2) == pos[e.to]
    && (line.toService <==> e.to.SvcId?)
  }

  /** The lines are those of `sources`, each once: the edges with both ends placed. */
  ghost predicate LinesOf(order: seq<Edge>, pos: Positions, edges: seq<DrawnEdge>, sources: seq<Edge>) {
    && NoDuplicates(sources)
    && (forall e :: e in sources <==> e in order && e.from in pos && e.to in pos)
    && |edges| == |sources|
    && forall k :: 0 <= k < |sources| ==> LineBetween(pos, sources[k], edges[k])
  }

  lemma EmittedAreLines(order: seq<Edge>, pos: Positions)
    requires NoDuplicates(order)
    ensures LinesOf(order, pos, Emitted(order, pos), DrawnOf(order, pos))
  {
    DrawnOfIs(order, pos);
    EmittedLines(order, pos);
  }

  lemma {:induction false} EmittedLines(order: seq<Edge>, pos: Positions)
    ensures |Emitted(order, pos)| == |DrawnOf(order, pos)|
    ensures forall k :: 0 <= k < |DrawnOf(order, pos)| ==> LineBetween(pos, DrawnOf(order, pos)[k], Emitted(order, pos)[k])
  {
    if order != [] {
      EmittedLines(order[..|order| - 1], pos);
    }
  }

  method DrawEdges(order: seq<Edge>, pos: Positions) returns (edges: seq<DrawnEdge>, cutEdges: nat)
    requires NoDuplicates(order)
    ensures edges == Emitted(order, pos)
    ensures exists sources :: LinesOf(order, pos, edges, sources)
    ensures cutEdges == |CutOf(ToSet(order), pos)|
  {
    edges, cutEdges := [], 0;
    assert CutOf(ToSet(order[..0]), pos) == {};
    for i := 0 to |order|
      invariant edges == Emitted(order[..i], pos)
      invariant cutEdges == |CutOf(ToSet(order[..i]), pos)|
    {
      assert order[..i + 1][..i] == order[..i];
      CutGrows(order, i, pos);
      var e := order[i];
      if e.from !in pos || e.to !in pos {
        cutEdges := cutEdges + 1;
        continue;
      }
      edges := edges + [DrawnEdge(pos[e.from].0, pos[e.from].1, pos[e.to].0, pos[e.to].1, e.to.SvcId?)];
    }
    assert order[..|order|] == order;
    EmittedAreLines(order, pos);
  }

  method NoteCapped(capped: seq<ColumnCount>, caption: string, keys: seq<string>) returns (r: seq<ColumnCount>)
    ensures r == capped + CountOf(caption, |keys|)
  {
    r := capped;
    if |keys| > COLUMN_CAP {
      r := r + [ColumnCount(caption, COLUMN_CAP, |keys|)];
    }
  }

  method PlaceColumns(apexes: set<string>, c: Columns) returns (nodes: seq<Node>, capped: seq<ColumnCount>)
    ensures nodes == AllColumns(apexes, c)
    ensures capped == CountOf("names", |c.names|) + CountOf("addresses", |c.addrs|) + CountOf("services", |c.services|)
  {
    capped := NoteCapped([], "names", c.names);
    var nameNodes := PlaceColumn(apexes, NameIds(c));
    capped := NoteCapped(capped, "addresses", c.addrs);
    var addrNodes := PlaceColumn(apexes, AddrIds(c));
    capped := NoteCapped(capped, "services", c.services);
    var svcNodes := PlaceColumn(apexes, SvcIds(c));
    nodes := nameNodes + addrNodes + svcNodes;
  }

  method SortColumns(parts: Parts) returns (c: Columns)
    ensures SortedListOf(c.names, parts.names) && SortedListOf(c.addrs, parts.addrs) && SortedListOf(c.services, parts.services)
    ensures |c.names| == |parts.names| && |c.addrs| == |parts.addrs| && |c.services| == |parts.services|
  {
    var names := SortedKeys(parts.names);
    var addrs := SortedKeys(parts.addrs);
    var services := SortedKeys(parts.services);
    SortedListCount(names, parts.names);
    SortedListCount(addrs, parts.addrs);
    SortedListCount(services, parts.services);
    c := Columns(names, addrs, services);
  }

  /** Place the columns, draw the edges and fit the drawing. */
  method DrawParts(parts: Parts, order: seq<Edge>, m: Members) returns (v: View, ghost c: Columns)
    requires Lists(order, parts.edges)
    ensures IsDrawing(parts, c, order, v) && v.members == m
  {
    var apexes := ClassifyNameTypes(parts.names);
    var columns := SortColumns(parts);
    var nodes, capped := PlaceColumns(apexes, columns);
    var w, h := GraphContentBounds(nodes);
    var edges, cutEdges := DrawEdges(order, PositionsOf(nodes));
    c := columns;
    v := View(nodes, edges, cutEdges, w, h, FitK(w, h), capped, m, ToSet(NameIds(columns) + AddrIds(columns) + SvcIds(columns)));
  }

  method BuildScopedGraph(env: Env, scope: Scope, rows: seq<Span>) returns (v: View)
    ensures IsGraph(env, scope, rows, v)
    ensures exists sources :: LinesFor(env, scope, rows, v, sources)
  {
    var m := GraphScopeMembers(env, scope, rows);
    var parts, order := Collect(env, scope, m, rows);
    ghost var c;
    v, c := DrawParts(parts, order, m);
    ghost var sources := LinesAreTheEdgesInScope(env, scope, rows, v);
  }

  // ---------------------------------------------------------------- legible and inside

  ghost predicate AllCapped(nodes: seq<Node>) {
    forall i :: 0 <= i < |nodes| ==> CappedNode(nodes[i])
  }

  lemma ColumnIsCapped(apexes: set<string>, ids: seq<NodeId>)
    ensures AllCapped(ColumnNodes(apexes, Capped(ids)))
  {
    var nodes := ColumnNodes(apexes, Capped(ids));
    ColumnNodesAt(apexes, Capped(ids));
    forall i | 0 <= i < |nodes|
      ensures CappedNode(nodes[i])
    {
      assert AtRow(nodes[i], i);
    }
  }

  lemma AllCappedConcat(a: seq<Node>, b: seq<Node>)
    requires AllCapped(a) && AllCapped(b)
    ensures AllCapped(a + b)
  {
  }

  /** Every node stands in a capped column, and the content box and the scale are those of the nodes. */
  ghost predicate CappedDrawing(v: View) {
    && Bounds(v.nodes, v.contentW, v.contentH) && v.fitK == FitK(v.contentW, v.contentH)
    && AllCapped(v.nodes)
  }

  lemma GraphIsCapped(env: Env, scope: Scope, rows: seq<Span>, v: View)
    requires IsGraph(env, scope, rows, v)
    ensures CappedDrawing(v)
  {
    var p := PartsOf(env, scope, MembersOf(env, scope, rows), rows);
    var c, order :| IsDrawing(p, c, order, v);
    EveryNodeIsCapped(p, c, order, v);
  }

  lemma ColumnsAreCapped(apexes: set<string>, c: Columns)
    ensures AllCapped(AllColumns(apexes, c))
  {
    var names, addrs := ColumnNodes(apexes, Capped(NameIds(c))), ColumnNodes(apexes, Capped(AddrIds(c)));
    ColumnIsCapped(apexes, NameIds(c));
    ColumnIsCapped(apexes, AddrIds(c));
    ColumnIsCapped(apexes, SvcIds(c));
    AllCappedConcat(names, addrs);
    AllCappedConcat(names + addrs, ColumnNodes(apexes, Capped(SvcIds(c))));
  }

  lemma EveryNodeIsCapped(p: Parts, c: Columns, order: seq<Edge>, v: View)
    requires IsDrawing(p, c, order, v)
    ensures CappedDrawing(v)
  {
    ColumnsAreCapped(ApexesOf(p.names), c);
  }

  /** For every estate and every scope the scaled drawing is no larger than the viewport, at the largest
      scale of its grain for which it is not, and its scale keeps a label of 11 units at 7 or more. */
  lemma DrawingFitsAndStaysLegible(env: Env, scope: Scope, rows: seq<Span>, v: View)
    requires IsGraph(env, scope, rows, v)
    ensures v.fitK * v.contentW <= VIEW_W * UNIT && v.fitK * v.contentH <= VIEW_H * UNIT
    ensures LargestThatFits(v.contentW, v.contentH, v.fitK)
    ensures v.fitK >= LABEL_MIN_K && LABEL_PX * v.fitK >= LABEL_MIN_PX * UNIT
  {
    GraphIsCapped(env, scope, rows, v);
    CappedDrawingFits(v.nodes, v.contentW, v.contentH, v.fitK);
  }

  lemma CappedDrawingFits(nodes: seq<Node>, w: nat, h: nat, k: nat)
    requires Bounds(nodes, w, h) && k == FitK(w, h) && AllCapped(nodes)
    ensures k * w <= VIEW_W * UNIT && k * h <= VIEW_H * UNIT
    ensures LargestThatFits(w, h, k)
    ensures k >= LABEL_MIN_K && LABEL_PX * k >= LABEL_MIN_PX * UNIT
  {
    CappedColumnsStayLegible(nodes, w, h);
    ScaledContentFits(w, h);
  }

  /** An offset rounded to a tenth is within half a tenth of the middle. */
  lemma OffsetNearMiddle(view: nat, content: nat, k: nat)
    requires content * k <= view * UNIT
    ensures 0 <= FitOffset(view, content, k)
    ensures 10 * (view * UNIT - content * k) - UNIT < 2 * UNIT * FitOffset(view, content, k)
    ensures 2 * UNIT * FitOffset(view, content, k) <= 10 * (view * UNIT - content * k) + UNIT
  {
  }

  lemma InsideAfterOffset(view: nat, content: nat, k: nat, reach: int)
    requires content * k <= view * UNIT
    requires LABEL_MIN_K <= k
    requires 0 <= reach && reach + PAD <= content
    ensures 0 <= FitOffset(view, content, k) * (UNIT / 10) + reach * k <= view * UNIT
  {
    OffsetNearMiddle(view, content, k);
    MulMono(reach + PAD, content, k);
    assert (reach + PAD) * k == reach * k + PAD * k;
  }

  /** And every node's circle lies inside the viewport once scaled and moved by the rounded offsets. */
  lemma EveryNodeInsideViewport(env: Env, scope: Scope, rows: seq<Span>, v: View, i: nat)
    requires IsGraph(env, scope, rows, v) && i < |v.nodes|
    ensures InsideViewport(v, v.nodes[i])
  {
    GraphIsCapped(env, scope, rows, v);
    NodeInsideViewport(v, i);
  }

  ghost predicate InsideViewport(v: View, n: Node) {
    var fitX, fitY := FitOffset(VIEW_W, v.contentW, v.fitK), FitOffset(VIEW_H, v.contentH, v.fitK);
    && 0 <= fitX * (UNIT / 10) + (n.x - n.radius) * v.fitK
    && fitX * (UNIT / 10) + (n.x + n.radius) * v.fitK <= VIEW_W * UNIT
    && 0 <= fitY * (UNIT / 10) + (n.y - n.radius) * v.fitK
    && fitY * (UNIT / 10) + (n.y + n.radius) * v.fitK <= VIEW_H * UNIT
  }

  lemma NodeInsideViewport(v: View, i: nat)
    requires CappedDrawing(v) && i < |v.nodes|
    ensures InsideViewport(v, v.nodes[i])
  {
    var n := v.nodes[i];
    CappedColumnsStayLegible(v.nodes, v.contentW, v.contentH);
    ScaledContentFits(v.contentW, v.contentH);
    assert CappedNode(n);
    InsideAfterOffset(VIEW_W, v.contentW, v.fitK, n.x + n.radius);
    InsideAfterOffset(VIEW_W, v.contentW, v.fitK, n.x - n.radius);
    InsideAfterOffset(VIEW_H, v.contentH, v.fitK, n.y + n.radius);
    InsideAfterOffset(VIEW_H, v.contentH, v.fitK, n.y - n.radius);
  }

  ghost predicate Apart(a: Node, b: Node) {
    var reach := a.radius + b.radius;
    a.x - b.x > reach || b.x - a.x > reach || a.y - b.y > reach || b.y - a.y > reach
  }

  ghost predicate AllApart(nodes: seq<Node>) {
    forall i, j :: 0 <= i < j < |nodes| ==> Apart(nodes[i], nodes[j])
  }

  /** Every node stands between two columns and is at most 16 wide. */
  ghost predicate Between(nodes: seq<Node>, low: int, high: int) {
    forall i :: 0 <= i < |nodes| ==> low <= nodes[i].x <= high && 0 <= nodes[i].radius <= 16
  }

  lemma ColumnIsApart(apexes: set<string>, ids: seq<NodeId>, x: int)
    requires forall k :: 0 <= k < |ids| ==> ColumnOf(ids[k]) == x
    ensures AllApart(ColumnNodes(apexes, ids)) && Between(ColumnNodes(apexes, ids), x, x)
  {
    ColumnNodesAt(apexes, ids);
  }

  lemma ColumnsApart(a: seq<Node>, b: seq<Node>, low: int, mid: int, high: int)
    requires AllApart(a) && AllApart(b)
    requires Between(a, low, mid) && Between(b, mid + 40, high) && low <= mid <= high
    ensures AllApart(a + b) && Between(a + b, low, high)
  {
  }

  /** No two drawn circles touch. */
  lemma NodesDoNotTouch(env: Env, scope: Scope, rows: seq<Span>, v: View)
    requires IsGraph(env, scope, rows, v)
    ensures AllApart(v.nodes)
  {
    var p := PartsOf(env, scope, MembersOf(env, scope, rows), rows);
    var c, order :| IsDrawing(p, c, order, v);
    DrawingIsApart(ApexesOf(p.names), c);
  }

  lemma DrawingIsApart(apexes: set<string>, c: Columns)
    ensures AllApart(AllColumns(apexes, c))
  {
    var names := ColumnNodes(apexes, Capped(NameIds(c)));
    var addrs := ColumnNodes(apexes, Capped(AddrIds(c)));
    var services := ColumnNodes(apexes, Capped(SvcIds(c)));
    ColumnIsApart(apexes, Capped(NameIds(c)), COL_NAME);
    ColumnIsApart(apexes, Capped(AddrIds(c)), COL_ADDR);
    ColumnIsApart(apexes, Capped(SvcIds(c)), COL_SVC);
    ColumnsApart(names, addrs, COL_NAME, COL_NAME, COL_ADDR);
    ColumnsApart(names + addrs, services, COL_NAME, COL_ADDR, COL_SVC);
  }

  // ---------------------------------------------------------------- edge accounting

  lemma {:induction false} EmittedCount(order: seq<Edge>, pos: Positions)
    requires NoDuplicates(order)
    ensures |Emitted(order, pos)| + |CutOf(ToSet(order), pos)| == |order|
  {
    if order != [] {
      EmittedCount(order[..|order| - 1], pos);
      CutGrows(order, |order| - 1, pos);
      assert order[..|order|] == order;
    } else {
      assert CutOf(ToSet(order), pos) == {};
    }
  }

  lemma {:induction false} PositionKeys(nodes: seq<Node>, id: NodeId)
    ensures id in PositionsOf(nodes) <==> exists i :: 0 <= i < |nodes| && nodes[i].id == id
    ensures id in PositionsOf(nodes) ==>
              exists i :: 0 <= i < |nodes| && nodes[i].id == id && PositionsOf(nodes)[id] == (nodes[i].x, nodes[i].y)
  {
    if nodes != [] {
      var prev, last := nodes[..|nodes| - 1], nodes[|nodes| - 1];
      PositionKeys(prev, id);
      assert forall i :: 0 <= i < |prev| ==> prev[i] == nodes[i];
      if last.id == id {
        assert nodes[|nodes| - 1].id == id;
      }
    }
  }

  ghost predicate SameIds(nodes: seq<Node>, ids: seq<NodeId>) {
    |nodes| == |ids| && forall i :: 0 <= i < |nodes| ==> nodes[i].id == ids[i]
  }

  lemma ColumnIds(apexes: set<string>, ids: seq<NodeId>)
    ensures SameIds(ColumnNodes(apexes, ids), ids)
  {
    ColumnNodesAt(apexes, ids);
  }

  lemma SameIdsConcat(a: seq<Node>, b: seq<Node>, x: seq<NodeId>, y: seq<NodeId>)
    requires SameIds(a, x) && SameIds(b, y)
    ensures SameIds(a + b, x + y)
  {
  }

  lemma DrawingIds(p: Parts, c: Columns, order: seq<Edge>, v: View)
    requires IsDrawing(p, c, order, v)
    ensures SameIds(v.nodes, DrawnIds(c))
  {
    var apexes := ApexesOf(p.names);
    var x, y, z := Capped(NameIds(c)), Capped(AddrIds(c)), Capped(SvcIds(c));
    ColumnIds(apexes, x);
    ColumnIds(apexes, y);
    ColumnIds(apexes, z);
    SameIdsConcat(ColumnNodes(apexes, x), ColumnNodes(apexes, y), x, y);
    SameIdsConcat(ColumnNodes(apexes, x) + ColumnNodes(apexes, y), ColumnNodes(apexes, z), x + y, z);
  }

  /** The ids drawn are the first of each sorted column. */
  lemma NodeIds(p: Parts, c: Columns, order: seq<Edge>, v: View, id: NodeId)
    requires IsDrawing(p, c, order, v)
    ensures id in PositionsOf(v.nodes) <==> id in DrawnIds(c)
  {
    DrawingIds(p, c, order, v);
    PositionKeys(v.nodes, id);
  }

  lemma HeldWhenUncapped(p: Parts, c: Columns, id: NodeId)
    requires SortedListOf(c.names, p.names) && SortedListOf(c.addrs, p.addrs) && SortedListOf(c.services, p.services)
    requires |c.names| <= COLUMN_CAP && |c.addrs| <= COLUMN_CAP && |c.services| <= COLUMN_CAP
    requires match id
             case NameId(k) => k in p.names
             case AddrId(k) => k in p.addrs
             case SvcId(k) => k in p.services
    ensures id in DrawnIds(c)
  {
    match id
    case NameId(k) =>
      var i := IndexIn(c.names, p.names, k);
      assert NameIds(c)[i] == id;
    case AddrId(k) =>
      var i := IndexIn(c.addrs, p.addrs, k);
      assert AddrIds(c)[i] == id;
    case SvcId(k) =>
      var i := IndexIn(c.services, p.services, k);
      assert SvcIds(c)[i] == id;
  }

  lemma IndexIn(s: seq<string>, keys: set<string>, k: string) returns (i: nat)
    requires SortedListOf(s, keys) && k in keys
    ensures i < |s| && s[i] == k
  {
    assert k in ToSet(s);
    i :| 0 <= i < |s| && s[i] == k;
  }

  lemma OrderCount(order: seq<Edge>, edges: set<Edge>)
    requires Lists(order, edges)
    ensures |order| == |edges|
  {
    NoDuplicatesMultiset(order);
    assert |order| == |multiset(order)| == |multiset(ToSet(order))| == |ToSet(order)|;
  }

  // ---------------------------------------------------------------- what is held and what is drawn

  predicate IsHeld(p: Parts, id: NodeId) {
    id.key in SubjectsOf(p, id)
  }

  ghost predicate IsDrawn(v: View, id: NodeId) {
    exists i :: 0 <= i < |v.nodes| && v.nodes[i].id == id
  }

  /** The key stands in its sorted column at a place the cap leaves out. */
  ghost predicate BeyondCap(keys: set<string>, key: string) {
    exists column: seq<string> :: SortedListOf(column, keys) && PastCap(column, key)
  }

  ghost predicate PastCap(column: seq<string>, key: string) {
    exists i :: COLUMN_CAP <= i < |column| && column[i] == key
  }

  lemma DrawnIsInIds(p: Parts, c: Columns, order: seq<Edge>, v: View, id: NodeId)
    requires IsDrawing(p, c, order, v)
    ensures IsDrawn(v, id) <==> id in DrawnIds(c)
  {
    DrawingIds(p, c, order, v);
    var ids := DrawnIds(c);
    if IsDrawn(v, id) {
      var i :| 0 <= i < |v.nodes| && v.nodes[i].id == id;
      assert ids[i] == id;
    }
    if id in ids {
      var i :| 0 <= i < |ids| && ids[i] == id;
      assert v.nodes[i].id == id;
    }
  }

  /** The column of one id, whole. */
  function ColumnFor(c: Columns, id: NodeId): seq<string> {
    match id
    case NameId(_) => c.names
    case AddrId(_) => c.addrs
    case SvcId(_) => c.services
  }

  lemma IdsAt(c: Columns)
    ensures |NameIds(c)| == |c.names| && |AddrIds(c)| == |c.addrs| && |SvcIds(c)| == |c.services|
    ensures forall i :: 0 <= i < |c.names| ==> NameIds(c)[i] == NameId(c.names[i])
    ensures forall i :: 0 <= i < |c.addrs| ==> AddrIds(c)[i] == AddrId(c.addrs[i])
    ensures forall i :: 0 <= i < |c.services| ==> SvcIds(c)[i] == SvcId(c.services[i])
  {
  }

  function WithKey(id: NodeId, key: string): NodeId {
    match id
    case NameId(_) => NameId(key)
    case AddrId(_) => AddrId(key)
    case SvcId(_) => SvcId(key)
  }

  ghost predicate BeforeCap(column: seq<string>, key: string) {
    exists i :: 0 <= i < |column| && i < COLUMN_CAP && column[i] == key
  }

  lemma WrappedBeforeCap(column: seq<string>, ids: seq<NodeId>, id: NodeId)
    requires |ids| == |column| && forall i :: 0 <= i < |ids| ==> ids[i] == WithKey(id, column[i])
    ensures id in Capped(ids) <==> BeforeCap(column, id.key)
  {
    var drawn := Capped(ids);
    if id in drawn {
      var i :| 0 <= i < |drawn| && drawn[i] == id;
      assert column[i] == id.key;
    }
    if BeforeCap(column, id.key) {
      var i :| 0 <= i < |column| && i < COLUMN_CAP && column[i] == id.key;
      assert drawn[i] == id;
    }
  }

  /** An id is drawn when its key stands before the cap in its column. */
  lemma DrawnBeforeCap(c: Columns, id: NodeId)
    ensures id in DrawnIds(c) <==> BeforeCap(ColumnFor(c, id), id.key)
  {
    IdsAt(c);
    var x, y, z := Capped(NameIds(c)), Capped(AddrIds(c)), Capped(SvcIds(c));
    assert id in DrawnIds(c) <==> id in x || id in y || id in z;
    match id
    case NameId(_) => WrappedBeforeCap(c.names, NameIds(c), id);
    case AddrId(_) => WrappedBeforeCap(c.addrs, AddrIds(c), id);
    case SvcId(_) => WrappedBeforeCap(c.services, SvcIds(c), id);
  }

  lemma ListedInOwnColumn(c: Columns, id: NodeId)
    ensures id in NameIds(c) + AddrIds(c) + SvcIds(c) <==> id.key in ColumnFor(c, id)
  {
    IdsAt(c);
    var column := ColumnFor(c, id);
    var own := match id case NameId(_) => NameIds(c) case AddrId(_) => AddrIds(c) case SvcId(_) => SvcIds(c);
    assert id in NameIds(c) + AddrIds(c) + SvcIds(c) <==> id in own;
    if id.key in column {
      var i :| 0 <= i < |column| && column[i] == id.key;
      assert own[i] == id;
    }
    if id in own {
      var i :| 0 <= i < |own| && own[i] == id;
      assert column[i] == id.key;
    }
  }

  lemma HeldIsListed(p: Parts, c: Columns, order: seq<Edge>, v: View, id: NodeId)
    requires IsDrawing(p, c, order, v)
    ensures id in v.held <==> IsHeld(p, id)
    ensures SortedListOf(ColumnFor(c, id), SubjectsOf(p, id))
  {
    ListedInOwnColumn(c, id);
    assert id in v.held <==> id in NameIds(c) + AddrIds(c) + SvcIds(c);
    assert id.key in ToSet(ColumnFor(c, id)) <==> id.key in ColumnFor(c, id);
  }

  lemma BeyondCapIn(column: seq<string>, keys: set<string>, key: string)
    requires SortedListOf(column, keys)
    ensures BeyondCap(keys, key) <==> PastCap(column, key)
  {
    if BeyondCap(keys, key) {
      var other: seq<string> :| SortedListOf(other, keys) && PastCap(other, key);
      SortedListIsUnique(column, other, keys);
    }
  }

  /** An id is held by the view when its subject is; a held subject is drawn or past the cap, not both;
      and nothing else is drawn. */
  ghost predicate HeldOrCut(p: Parts, v: View, id: NodeId) {
    var beyond := BeyondCap(SubjectsOf(p, id), id.key);
    && (id in v.held <==> IsHeld(p, id))
    && (IsHeld(p, id) <==> IsDrawn(v, id) || beyond)
    && !(IsDrawn(v, id) && beyond)
  }

  /** Of the subjects the scope holds, exactly those past the cap in their sorted column are not drawn. */
  lemma HeldIsDrawnOrBeyondCap(env: Env, scope: Scope, rows: seq<Span>, v: View, id: NodeId)
    requires IsGraph(env, scope, rows, v)
    ensures HeldOrCut(PartsOf(env, scope, MembersOf(env, scope, rows), rows), v, id)
  {
    var p := PartsOf(env, scope, MembersOf(env, scope, rows), rows);
    var c, order :| IsDrawing(p, c, order, v);
    HeldIsListed(p, c, order, v, id);
    DrawnIsInIds(p, c, order, v, id);
    DrawnBeforeCap(c, id);
    OneSideOfCap(ColumnFor(c, id), SubjectsOf(p, id), id.key);
  }

  lemma OneSideOfCap(column: seq<string>, keys: set<string>, key: string)
    requires SortedListOf(column, keys)
    ensures key in keys <==> BeforeCap(column, key) || BeyondCap(keys, key)
    ensures !(BeforeCap(column, key) && BeyondCap(keys, key))
  {
    BeyondCapIn(column, keys, key);
    assert key in keys <==> key in ToSet(column);
    if key in column {
      var i :| 0 <= i < |column| && column[i] == key;
      assert i >= COLUMN_CAP ==> PastCap(column, key);
    }
  }

  // ---------------------------------------------------------------- which lines are drawn

  ghost predicate Stands(v: View, id: NodeId, x: int, y: int) {
    exists i :: 0 <= i < |v.nodes| && v.nodes[i].id == id && v.nodes[i].x == x && v.nodes[i].y == y
  }

  /** The line from the centre of the edge's first subject to the centre of its second. */
  ghost predicate LineOf(v: View, e: Edge, line: DrawnEdge) {
    && Stands(v, e.from, line.x1, line.y1)
    && Stands(v, e.to, line.x2, line.y2)
    && (line.toService <==> e.to.SvcId?)
  }

  /** The lines are those of `sources`, which are, each once, the edges in scope with both ends drawn. */
  ghost predicate LinesFor(env: Env, scope: Scope, rows: seq<Span>, v: View, sources: seq<Edge>) {
    && NoDuplicates(sources)
    && (forall e :: e in sources <==> EdgeInScope(env, scope, rows, e) && IsDrawn(v, e.from) && IsDrawn(v, e.to))
    && |v.edges| == |sources|
    && forall k :: 0 <= k < |sources| ==> LineOf(v, sources[k], v.edges[k])
  }

  lemma LineStands(v: View, e: Edge, line: DrawnEdge)
    requires LineBetween(PositionsOf(v.nodes), e, line)
    ensures LineOf(v, e, line)
  {
    PositionKeys(v.nodes, e.from);
    PositionKeys(v.nodes, e.to);
  }

  /** On the graph of any estate and scope every line runs from the centre of one drawn subject to the
      centre of another that the spans join in scope, and every edge in scope with both ends drawn has
      exactly one line. */
  lemma LinesAreTheEdgesInScope(env: Env, scope: Scope, rows: seq<Span>, v: View) returns (sources: seq<Edge>)
    requires IsGraph(env, scope, rows, v)
    ensures LinesFor(env, scope, rows, v, sources)
  {
    var p := PartsOf(env, scope, MembersOf(env, scope, rows), rows);
    var c, order :| IsDrawing(p, c, order, v);
    var pos := PositionsOf(v.nodes);
    sources := DrawnOf(order, pos);
    EmittedAreLines(order, pos);
    forall e: Edge
      ensures e in sources <==> EdgeInScope(env, scope, rows, e) && IsDrawn(v, e.from) && IsDrawn(v, e.to)
    {
      EdgesReadFromSpans(env, scope, rows, e);
      PositionKeys(v.nodes, e.from);
      PositionKeys(v.nodes, e.to);
      assert e in order <==> e in ToSet(order);
    }
    forall k | 0 <= k < |sources|
      ensures LineOf(v, sources[k], v.edges[k])
    {
      LineStands(v, sources[k], v.edges[k]);
    }
  }

  /** The edges in scope that lose an end to the cap. */
  ghost predicate AreCut(env: Env, scope: Scope, rows: seq<Span>, v: View, cut: set<Edge>) {
    forall e :: e in cut <==> EdgeInScope(env, scope, rows, e) && !(IsDrawn(v, e.from) && IsDrawn(v, e.to))
  }

  /** Every distinct edge in scope has its line or is one of those counted as cut, and none is cut
      while no column is longer than the cap. */
  lemma EdgesAreAccountedFor(env: Env, scope: Scope, rows: seq<Span>, v: View)
    requires IsGraph(env, scope, rows, v)
    ensures var p := PartsOf(env, scope, MembersOf(env, scope, rows), rows);
            && |v.edges| + v.cutEdges == |p.edges|
            && (exists sources :: LinesFor(env, scope, rows, v, sources))
            && (exists cut :: AreCut(env, scope, rows, v, cut) && |cut| == v.cutEdges)
            && (|p.names| <= COLUMN_CAP && |p.addrs| <= COLUMN_CAP && |p.services| <= COLUMN_CAP ==> v.cutEdges == 0)
  {
    var m := MembersOf(env, scope, rows);
    var p := PartsOf(env, scope, m, rows);
    var c, order :| IsDrawing(p, c, order, v);
    var pos := PositionsOf(v.nodes);
    EmittedCount(order, pos);
    OrderCount(order, p.edges);
    SortedListCount(c.names, p.names);
    SortedListCount(c.addrs, p.addrs);
    SortedListCount(c.services, p.services);
    if |p.names| <= COLUMN_CAP && |p.addrs| <= COLUMN_CAP && |p.services| <= COLUMN_CAP {
      forall e | e in p.edges
        ensures Drawn(pos, e)
      {
        EdgesJoinHeldSubjects(env, scope, m, rows, e);
        HeldWhenUncapped(p, c, e.from);
        HeldWhenUncapped(p, c, e.to);
        NodeIds(p, c, order, v, e.from);
        NodeIds(p, c, order, v, e.to);
      }
      assert CutOf(p.edges, pos) == {};
    }
    var sources := LinesAreTheEdgesInScope(env, scope, rows, v);
    CutIsCut(env, scope, rows, v);
  }

  lemma CutIsCut(env: Env, scope: Scope, rows: seq<Span>, v: View)
    ensures AreCut(env, scope, rows, v, CutOf(PartsOf(env, scope, MembersOf(env, scope, rows), rows).edges, PositionsOf(v.nodes)))
  {
    forall e: Edge
      ensures Drawn(PositionsOf(v.nodes), e) <==> IsDrawn(v, e.from) && IsDrawn(v, e.to)
    {
      PositionKeys(v.nodes, e.from);
      PositionKeys(v.nodes, e.to);
    }
    forall e: Edge
      ensures e in PartsOf(env, scope, MembersOf(env, scope, rows), rows).edges <==> EdgeInScope(env, scope, rows, e)
    {
      EdgesReadFromSpans(env, scope, rows, e);
    }
  }

  /** A node stands in its kind's column at the row its key has among the subjects in scope, and its
      size tells a domain from the other names, an address and a service. */
  ghost predicate StandsInColumn(p: Parts, n: Node, column: seq<string>, row: nat) {
    && SortedListOf(column, SubjectsOf(p, n.id))
    && row < |column| && row < COLUMN_CAP && column[row] == n.id.key
    && n.y == 44 + 46 * row
    && match n.id
       case NameId(name) => n.x == 130 && n.radius == if IsApex(p.names, name) then 16 else 10
       case AddrId(_) => n.x == 560 && n.radius == 9
       case SvcId(_) => n.x == 1000 && n.radius == 6
  }

  ghost predicate AllStand(p: Parts, nodes: seq<Node>) {
    forall i :: 0 <= i < |nodes| ==> StandsAtItsRow(p, nodes[i])
  }

  ghost predicate StandsAtItsRow(p: Parts, n: Node) {
    exists column, row :: StandsInColumn(p, n, column, row)
  }

  lemma ColumnStands(p: Parts, ids: seq<NodeId>, column: seq<string>, like: NodeId)
    requires |ids| == |column| && SortedListOf(column, SubjectsOf(p, like))
    requires forall i :: 0 <= i < |ids| ==> ids[i] == WithKey(like, column[i])
    ensures AllStand(p, ColumnNodes(ApexesOf(p.names), Capped(ids)))
  {
    var nodes := ColumnNodes(ApexesOf(p.names), Capped(ids));
    ColumnNodesAt(ApexesOf(p.names), Capped(ids));
    forall i | 0 <= i < |nodes|
      ensures StandsAtItsRow(p, nodes[i])
    {
      assert column[i] in ToSet(column);
      assert StandsInColumn(p, nodes[i], column, i);
    }
  }

  lemma AllStandConcat(p: Parts, a: seq<Node>, b: seq<Node>)
    requires AllStand(p, a) && AllStand(p, b)
    ensures AllStand(p, a + b)
  {
  }

  lemma NodesStandInColumns(env: Env, scope: Scope, rows: seq<Span>, v: View)
    requires IsGraph(env, scope, rows, v)
    ensures AllStand(PartsOf(env, scope, MembersOf(env, scope, rows), rows), v.nodes)
  {
    var p := PartsOf(env, scope, MembersOf(env, scope, rows), rows);
    var c, order :| IsDrawing(p, c, order, v);
    ColumnsStand(p, c);
  }

  lemma ColumnsStand(p: Parts, c: Columns)
    requires SortedListOf(c.names, p.names) && SortedListOf(c.addrs, p.addrs) && SortedListOf(c.services, p.services)
    ensures AllStand(p, AllColumns(ApexesOf(p.names), c))
  {
    var apexes := ApexesOf(p.names);
    var names, addrs := ColumnNodes(apexes, Capped(NameIds(c))), ColumnNodes(apexes, Capped(AddrIds(c)));
    NamesStand(p, c);
    AddrsStand(p, c);
    ServicesStand(p, c);
    AllStandConcat(p, names, addrs);
    AllStandConcat(p, names + addrs, ColumnNodes(apexes, Capped(SvcIds(c))));
  }

  lemma NamesStand(p: Parts, c: Columns)
    requires SortedListOf(c.names, p.names)
    ensures AllStand(p, ColumnNodes(ApexesOf(p.names), Capped(NameIds(c))))
  {
    IdsAt(c);
    ColumnStands(p, NameIds(c), c.names, NameId(""));
  }

  lemma AddrsStand(p: Parts, c: Columns)
    requires SortedListOf(c.addrs, p.addrs)
    ensures AllStand(p, ColumnNodes(ApexesOf(p.names), Capped(AddrIds(c))))
  {
    IdsAt(c);
    ColumnStands(p, AddrIds(c), c.addrs, AddrId(""));
  }

  lemma ServicesStand(p: Parts, c: Columns)
    requires SortedListOf(c.services, p.services)
    ensures AllStand(p, ColumnNodes(ApexesOf(p.names), Capped(SvcIds(c))))
  {
    IdsAt(c);
    ColumnStands(p, SvcIds(c), c.services, SvcId(""));
  }

  /** A column's count is shown exactly when some held subject of it is not drawn, and then says how many
      are held and how many drawn. */
  lemma CountsSayWhatIsCut(env: Env, scope: Scope, rows: seq<Span>, v: View, id: NodeId)
    requires IsGraph(env, scope, rows, v)
    ensures var p := PartsOf(env, scope, MembersOf(env, scope, rows), rows);
            && (BeyondCap(SubjectsOf(p, id), id.key) ==> ColumnCount(CaptionOf(id), COLUMN_CAP, |SubjectsOf(p, id)|) in v.capped)
            && forall count :: count in v.capped && count.caption == CaptionOf(id) ==>
                 && count == ColumnCount(CaptionOf(id), COLUMN_CAP, |SubjectsOf(p, id)|)
                 && count.held - count.drawn == |UndrawnKeys(v, p, id)| > 0
  {
    var p := PartsOf(env, scope, MembersOf(env, scope, rows), rows);
    var keys := SubjectsOf(p, id);
    var c, order :| IsDrawing(p, c, order, v);
    HeldIsListed(p, c, order, v, id);
    SortedListCount(ColumnFor(c, id), keys);
    BeyondCapIn(ColumnFor(c, id), keys, id.key);
    CountsOfColumn(p, id);
    if |keys| > COLUMN_CAP {
      UndrawnCount(p, c, order, v, id);
    }
  }

  function CaptionOf(id: NodeId): string {
    match id
    case NameId(_) => "names"
    case AddrId(_) => "addresses"
    case SvcId(_) => "services"
  }

  ghost function UndrawnKeys(v: View, p: Parts, id: NodeId): set<string> {
    set k | k in SubjectsOf(p, id) && !IsDrawn(v, WithKey(id, k))
  }

  lemma CountsOfColumn(p: Parts, id: NodeId)
    ensures var own := ColumnCount(CaptionOf(id), COLUMN_CAP, |SubjectsOf(p, id)|);
            && (|SubjectsOf(p, id)| > COLUMN_CAP ==> own in CappedCounts(p))
            && forall count :: count in CappedCounts(p) && count.caption == CaptionOf(id) ==> count == own && own.held > COLUMN_CAP
  {
    assert "names"[0] != "addresses"[0] && "names"[0] != "services"[0] && "addresses"[0] != "services"[0];
  }

  lemma FrontIsBeforeCap(column: seq<string>, key: string)
    requires |column| > COLUMN_CAP
    ensures key in column[..COLUMN_CAP] <==> BeforeCap(column, key)
  {
    var front := column[..COLUMN_CAP];
    if key in front {
      var i :| 0 <= i < |front| && front[i] == key;
      assert column[i] == key;
    }
    if BeforeCap(column, key) {
      var i :| 0 <= i < |column| && i < COLUMN_CAP && column[i] == key;
      assert front[i] == key;
    }
  }

  lemma DrawnKey(p: Parts, c: Columns, order: seq<Edge>, v: View, id: NodeId, k: string)
    requires IsDrawing(p, c, order, v) && |ColumnFor(c, id)| > COLUMN_CAP
    ensures IsDrawn(v, WithKey(id, k)) <==> k in ColumnFor(c, id)[..COLUMN_CAP]
  {
    DrawnIsInIds(p, c, order, v, WithKey(id, k));
    DrawnBeforeCap(c, WithKey(id, k));
    FrontIsBeforeCap(ColumnFor(c, id), k);
  }

  lemma FrontCount(column: seq<string>, keys: set<string>, n: nat)
    requires SortedListOf(column, keys) && n <= |column|
    ensures ToSet(column[..n]) <= keys && |keys - ToSet(column[..n])| == |keys| - n
  {
    var front := column[..n];
    NoDuplicatesMultiset(front);
    assert |front| == |multiset(front)| == |multiset(ToSet(front))| == |ToSet(front)|;
    assert forall x :: x in ToSet(front) ==> x in ToSet(column);
    assert keys == ToSet(front) + (keys - ToSet(front));
  }

  lemma UndrawnCount(p: Parts, c: Columns, order: seq<Edge>, v: View, id: NodeId)
    requires IsDrawing(p, c, order, v) && |SubjectsOf(p, id)| > COLUMN_CAP
    ensures |UndrawnKeys(v, p, id)| == |SubjectsOf(p, id)| - COLUMN_CAP
  {
    HeldIsListed(p, c, order, v, id);
    var column, keys := ColumnFor(c, id), SubjectsOf(p, id);
    SortedListCount(column, keys);
    forall k | k in keys
      ensures k in UndrawnKeys(v, p, id) <==> k !in column[..COLUMN_CAP]
    {
      DrawnKey(p, c, order, v, id, k);
    }
    LeftOutCount(column, keys, UndrawnKeys(v, p, id));
  }

  lemma LeftOutCount(column: seq<string>, keys: set<string>, out: set<string>)
    requires SortedListOf(column, keys) && |column| > COLUMN_CAP && out <= keys
    requires forall k :: k in keys ==> (k in out <==> k !in column[..COLUMN_CAP])
    ensures |out| == |keys| - COLUMN_CAP
  {
    FrontCount(column, keys, COLUMN_CAP);
    assert out == keys - ToSet(column[..COLUMN_CAP]);
  }
}
