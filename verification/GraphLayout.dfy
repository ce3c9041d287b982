/**
  Placing a topology drawing (cmd/web/graph.go): the column cap, the rows of a column, the content box and
  the fit of the drawing to the viewport. Scale factors are whole ten-thousandths.
*/
module GraphLayout {
  import opened GraphScope

  const VIEW_W := 1200
  const VIEW_H := 640
  const COL_NAME := 130
  const COL_ADDR := 560
  const COL_SVC := 1000
  const ROW_TOP := 44
  const ROW_STEP := 46
  const PAD := 44
  const RADIUS_SUBDOMAIN := 10
  const LABEL_PX := 11
  const LABEL_MIN_PX := 7
  const UNIT := 10_000

  /** As many rows as keep a label legible when the drawing is fitted to the viewport's height. */
  const COLUMN_CAP: nat := (VIEW_H * LABEL_PX / LABEL_MIN_PX - 2 * PAD - RADIUS_SUBDOMAIN) / ROW_STEP + 1

  /** The smallest legible scale, rounded up. */
  const LABEL_MIN_K: nat := (LABEL_MIN_PX * UNIT + LABEL_PX - 1) / LABEL_PX

  // ---------------------------------------------------------------- placement

  datatype Node = Node(id: NodeId, x: int, y: int, radius: int)

  function Radius(apexes: set<string>, id: NodeId): int {
    match id
    case NameId(key) => if key in apexes then 16 else RADIUS_SUBDOMAIN
    case AddrId(_) => 9
    case SvcId(_) => 6
  }

  function ColumnOf(id: NodeId): int {
    match id
    case NameId(_) => COL_NAME
    case AddrId(_) => COL_ADDR
    case SvcId(_) => COL_SVC
  }

  function Capped<T>(keys: seq<T>): seq<T> {
    if |keys| <= COLUMN_CAP then keys else keys[..COLUMN_CAP]
  }

  /** The drawn subjects of one column, from the top. */
  function ColumnNodes(apexes: set<string>, ids: seq<NodeId>): seq<Node> {
    if ids == [] then []
    else
      var n := |ids| - 1;
      ColumnNodes(apexes, ids[..n])
      + [Node(ids[n], ColumnOf(ids[n]), ROW_TOP + n * ROW_STEP, Radius(apexes, ids[n]))]
  }

  lemma {:induction false} ColumnNodesAt(apexes: set<string>, ids: seq<NodeId>)
    ensures |ColumnNodes(apexes, ids)| == |ids|
    ensures forall i :: 0 <= i < |ids| ==>
              ColumnNodes(apexes, ids)[i] == Node(ids[i], ColumnOf(ids[i]), ROW_TOP + i * ROW_STEP, Radius(apexes, ids[i]))
  {
    if ids != [] {
      ColumnNodesAt(apexes, ids[..|ids| - 1]);
    }
  }

  method PlaceColumn(apexes: set<string>, ids: seq<NodeId>) returns (nodes: seq<Node>)
    ensures nodes == ColumnNodes(apexes, Capped(ids))
  {
    var drawn := ids;
    if |ids| > COLUMN_CAP {
      drawn := ids[..COLUMN_CAP];
    }
    nodes := [];
    for i := 0 to |drawn|
      invariant nodes == ColumnNodes(apexes, drawn[..i])
    {
      assert drawn[..i + 1][..i] == drawn[..i];
      var x := ColumnOf(drawn[i]);
      var y := ROW_TOP + i * ROW_STEP;
      nodes := nodes + [Node(drawn[i], x, y, Radius(apexes, drawn[i]))];
    }
    assert drawn[..|drawn|] == drawn;
  }

  function Ids(wrap: string -> NodeId, keys: seq<string>): seq<NodeId> {
    seq(|keys|, i requires 0 <= i < |keys| => wrap(keys[i]))
  }

  // ---------------------------------------------------------------- fit

  /** The content box: at least the viewport, and past every node by its radius and the pad. */
  ghost predicate Bounds(nodes: seq<Node>, w: int, h: int) {
    && VIEW_W <= w && VIEW_H <= h
    && (forall i :: 0 <= i < |nodes| ==> nodes[i].x + nodes[i].radius + PAD <= w && nodes[i].y + nodes[i].radius + PAD <= h)
    && (w == VIEW_W || exists i :: 0 <= i < |nodes| && w == nodes[i].x + nodes[i].radius + PAD)
    && (h == VIEW_H || exists i :: 0 <= i < |nodes| && h == nodes[i].y + nodes[i].radius + PAD)
  }

  method GraphContentBounds(nodes: seq<Node>) returns (w: int, h: int)
    ensures Bounds(nodes, w, h)
  {
    w, h := VIEW_W, VIEW_H;
    for i := 0 to |nodes|
      invariant Bounds(nodes[..i], w, h)
    {
      assert nodes[..i + 1] == nodes[..i] + [nodes[i]];
      var right := nodes[i].x + nodes[i].radius + PAD;
      if right > w {
        w := right;
      }
      var bottom := nodes[i].y + nodes[i].radius + PAD;
      if bottom > h {
        h := bottom;
      }
      assert nodes[..i + 1][i] == nodes[i];
    }
    assert nodes[..|nodes|] == nodes;
  }

  function Min(a: nat, b: nat): nat {
    if a < b then a else b
  }

  /** The scale in ten-thousandths, rounded down: the smaller of the two ratios. */
  function FitK(w: nat, h: nat): nat
    requires w > 0 && h > 0
  {
    Min(VIEW_W * UNIT / w, VIEW_H * UNIT / h)
  }

  /** An offset in tenths, rounded half up: half of what the scaled content leaves of the viewport. */
  function FitOffset(view: nat, content: nat, k: nat): int {
    (10 * (view * UNIT - content * k) + UNIT) / (2 * UNIT)
  }

  lemma DivBound(a: nat, b: nat, k: nat)
    requires b > 0 && k <= a / b
    ensures k * b <= a
  {
    var q := a / b;
    assert a == q * b + a % b;
    MulLeq(k, q, b);
  }

  lemma MulLeq(a: nat, b: nat, c: nat)
    requires a <= b
    ensures a * c <= b * c
  {
  }

  lemma MulMono(a: int, b: int, c: nat)
    requires a <= b
    ensures a * c <= b * c
  {
  }

  /** At the next larger scale the content passes the viewport. */
  ghost predicate LargestThatFits(w: nat, h: nat, k: nat) {
    (k + 1) * w > VIEW_W * UNIT || (k + 1) * h > VIEW_H * UNIT
  }

  /** The scaled content fits the viewport both ways, and at the next larger scale it does not. */
  lemma ScaledContentFits(w: nat, h: nat)
    requires w > 0 && h > 0
    ensures FitK(w, h) * w <= VIEW_W * UNIT
    ensures FitK(w, h) * h <= VIEW_H * UNIT
    ensures LargestThatFits(w, h, FitK(w, h))
  {
    DivBound(VIEW_W * UNIT, w, FitK(w, h));
    DivBound(VIEW_H * UNIT, h, FitK(w, h));
    DivIsLargest(VIEW_W * UNIT, w);
    DivIsLargest(VIEW_H * UNIT, h);
  }

  lemma DivIsLargest(a: nat, b: nat)
    requires b > 0
    ensures (a / b + 1) * b > a
  {
    var q := a / b;
    assert a == q * b + a % b;
    assert (q + 1) * b == q * b + b;
  }

  /** At the cap the content is at most 978 units high, so its scale stays above the label minimum. */
  lemma CappedColumnsStayLegible(nodes: seq<Node>, w: nat, h: nat)
    requires Bounds(nodes, w, h)
    requires forall i :: 0 <= i < |nodes| ==> CappedNode(nodes[i])
    ensures w == VIEW_W && h <= 978
    ensures FitK(w, h) >= LABEL_MIN_K
    ensures LABEL_PX * FitK(w, h) >= LABEL_MIN_PX * UNIT
    ensures UNIT / 10 < FitK(w, h) <= UNIT
  {
    assert COLUMN_CAP == 20 && LABEL_MIN_K == 6364;
    HeightBound(h);
    DivAtLeast(VIEW_H * UNIT, h, 6364);
  }

  lemma HeightBound(h: nat)
    requires 0 < h <= 978
    ensures 6364 * h <= VIEW_H * UNIT
  {
  }

  lemma DivAtLeast(a: nat, b: nat, k: nat)
    requires b > 0 && k * b <= a
    ensures k <= a / b
  {
    var q := a / b;
    if q < k {
      MulLeq(q + 1, k, b);
    }
  }

  ghost predicate CappedNode(n: Node) {
    && n.x in {COL_NAME, COL_ADDR, COL_SVC}
    && 0 <= n.radius <= 16 && (n.x == COL_SVC ==> n.radius == 6)
    && exists row :: 0 <= row < COLUMN_CAP && AtRow(n, row)
  }

  predicate AtRow(n: Node, row: int) {
    n.y == ROW_TOP + row * ROW_STEP
  }
}
