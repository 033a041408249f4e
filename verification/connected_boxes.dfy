/** `MainActivity2.findConnectedBoxes`: a breadth-first flood fill over the
    non-zero cells of a detector mask, eight-connected, that reports the
    bounding box of every component whose box area reaches `minArea`. */
module ConnectedBoxes {
  import opened Outcomes

  /** A mask as Java's `byte[][]`: rows of cell values, any non-zero value set. */
  type Mask = seq<seq<int>>

  datatype Cell = Cell(y: int, x: int)

  /** `MainActivity2.Box`, in mask coordinates, both bounds inclusive. */
  datatype Box = Box(xMin: int, yMin: int, xMax: int, yMax: int)

  /** All rows as long as the first, as for any `new byte[h][w]`. */
  predicate Rectangular(mask: Mask) {
    forall y :: 0 <= y < |mask| ==> |mask[y]| == |mask[0]|
  }

  predicate InGrid(mask: Mask, c: Cell) {
    0 <= c.y < |mask| && 0 <= c.x < |mask[c.y]|
  }

  predicate Lit(mask: Mask, c: Cell) {
    InGrid(mask, c) && mask[c.y][c.x] != 0
  }

  ghost function LitCells(mask: Mask): set<Cell> {
    set y, x | 0 <= y < |mask| && 0 <= x < |mask[y]| && mask[y][x] != 0 :: Cell(y, x)
  }

  /** Eight-neighbourhood: distinct cells at most one step apart on each axis. */
  predicate Adjacent(a: Cell, b: Cell) {
    a != b && -1 <= a.y - b.y <= 1 && -1 <= a.x - b.x <= 1
  }

  /** The `neighbors` table of the source, as (dy, dx) pairs. */
  const Offsets: seq<(int, int)> := [(-1, -1), (-1, 0), (-1, 1), (0, -1), (0, 1), (1, -1), (1, 0), (1, 1)]

  function Shift(c: Cell, k: int): Cell
    requires 0 <= k < |Offsets|
  {
    Cell(c.y + Offsets[k].0, c.x + Offsets[k].1)
  }

  /** The offset table lists exactly the eight neighbours. */
  lemma AdjacentIsShift(a: Cell, b: Cell) returns (k: int)
    requires Adjacent(a, b)
    ensures 0 <= k < |Offsets| && b == Shift(a, k)
  {
    var dy, dx := b.y - a.y, b.x - a.x;
    k := if dy == -1 then 1 + dx else if dy == 0 then (if dx == -1 then 3 else 4) else 6 + dx;
  }

  // ---------------------------------------------------------------- components

  ghost function Elems(q: seq<Cell>): set<Cell> {
    set i | 0 <= i < |q| :: q[i]
  }

  lemma ElemsAppend(q: seq<Cell>, c: Cell)
    ensures Elems(q + [c]) == Elems(q) + {c}
  {
    var q' := q + [c];
    forall d | d in Elems(q')
      ensures d in Elems(q) + {c}
    {
      var i :| 0 <= i < |q'| && q'[i] == d;
      if i < |q| {
        assert q[i] == d;
      }
    }
    forall d | d in Elems(q)
      ensures d in Elems(q')
    {
      var i :| 0 <= i < |q| && q[i] == d;
      assert q'[i] == d;
    }
    assert q'[|q|] == c;
  }

  ghost predicate Distinct(q: seq<Cell>) {
    forall i, j :: 0 <= i < j < |q| ==> q[i] != q[j]
  }

  /** No lit neighbour of a cell of S lies outside S. */
  ghost predicate Closed(mask: Mask, s: set<Cell>) {
    forall a, b :: a in s && Adjacent(a, b) && Lit(mask, b) ==> b in s
  }

  /** Every lit neighbour of c is in s. */
  ghost predicate Settled(mask: Mask, c: Cell, s: set<Cell>) {
    forall b :: Adjacent(c, b) && Lit(mask, b) ==> b in s
  }

  /** A walk through s from one cell to an adjacent one, step by step. */
  ghost predicate Walk(s: set<Cell>, p: seq<Cell>) {
    && |p| > 0
    && (forall i :: 0 <= i < |p| ==> p[i] in s)
    && (forall i :: 0 <= i < |p| - 1 ==> Adjacent(p[i], p[i + 1]))
  }

  ghost predicate Reaches(s: set<Cell>, a: Cell, b: Cell) {
    exists p :: Walk(s, p) && p[0] == a && p[|p| - 1] == b
  }

  /** An eight-connected component of the lit cells: non-empty, lit, closed
      under lit neighbours and connected from one of its cells. */
  ghost predicate IsComponent(mask: Mask, s: set<Cell>) {
    && s != {}
    && (forall c :: c in s ==> Lit(mask, c))
    && Closed(mask, s)
    && exists seed :: seed in s && forall c {:trigger Reaches(s, seed, c)} :: c in s ==> Reaches(s, seed, c)
  }

  /** A BFS tree: every cell after the first was discovered from an earlier one. */
  ghost predicate Tree(q: seq<Cell>, parent: seq<int>) {
    && |parent| == |q|
    && forall i :: 0 < i < |q| ==> 0 <= parent[i] < i && Adjacent(q[parent[i]], q[i])
  }

  /** Every cell of a BFS tree is reached from its root inside the tree. */
  lemma {:induction false} TreeWalk(q: seq<Cell>, parent: seq<int>, i: int) returns (p: seq<Cell>)
    requires Tree(q, parent) && 0 <= i < |q|
    ensures Walk(Elems(q), p) && p[0] == q[0] && p[|p| - 1] == q[i]
    decreases i
  {
    if i == 0 {
      p := [q[0]];
    } else {
      var p' := TreeWalk(q, parent, parent[i]);
      p := p' + [q[i]];
      assert forall j :: 0 <= j < |p'| ==> p[j] == p'[j];
    }
  }

  lemma {:induction false} DistinctCard(q: seq<Cell>)
    requires Distinct(q)
    ensures |Elems(q)| == |q|
    decreases |q|
  {
    if |q| > 0 {
      var q' := q[..|q| - 1];
      DistinctCard(q');
      assert Elems(q) == Elems(q') + {q[|q| - 1]};
    }
  }

  lemma SubsetCard(a: set<Cell>, b: set<Cell>)
    requires a <= b
    ensures |a| <= |b|
  {
    assert b == a + (b - a);
  }

  lemma LitIsLitCell(mask: Mask, c: Cell)
    ensures Lit(mask, c) <==> c in LitCells(mask)
  {
    if Lit(mask, c) {
      assert c == Cell(c.y, c.x);
    }
  }

  // ---------------------------------------------------------------- one flood fill

  /** The state of one flood fill: `queue` holds every cell enqueued so far,
      in order, and the first `head` of them have been polled and had their
      neighbours examined; `parent` records, for the proof, which polled cell
      discovered each one. */
  ghost predicate Frontier(mask: Mask, before: set<Cell>, visited: set<Cell>, queue: seq<Cell>,
                           parent: seq<int>, xs: seq<int>, ys: seq<int>, head: int)
  {
    && 0 < |queue| && 0 <= head <= |queue|
    && visited == before + Elems(queue) && before !! Elems(queue)
    && (forall i :: 0 <= i < |queue| ==> Lit(mask, queue[i]))
    && Distinct(queue)
    && Tree(queue, parent)
    && |xs| == |queue| && |ys| == |queue|
    && (forall i :: 0 <= i < |queue| ==> xs[i] == queue[i].x && ys[i] == queue[i].y)
    && (forall i :: 0 <= i < head ==> Settled(mask, queue[i], visited))
  }

  /** Marking a lit, unvisited neighbour of the cell polled last visited and
      adding it to the queue and the coordinate lists. */
  method Enqueue(mask: Mask, ghost before: set<Cell>, visited: set<Cell>, queue: seq<Cell>,
                 ghost parent: seq<int>, xs: seq<int>, ys: seq<int>, head: int, c: Cell)
    returns (visited': set<Cell>, queue': seq<Cell>, ghost parent': seq<int>, xs': seq<int>, ys': seq<int>)
    requires 1 <= head <= |queue| && Frontier(mask, before, visited, queue, parent, xs, ys, head - 1)
    requires Lit(mask, c) && c !in visited && Adjacent(queue[head - 1], c)
    ensures Frontier(mask, before, visited', queue', parent', xs', ys', head - 1)
    ensures visited' == visited + {c} && queue' == queue + [c]
  {
    visited' := visited + {c};
    queue' := queue + [c];
    xs' := xs + [c.x];
    ys' := ys + [c.y];
    parent' := parent + [head - 1];
    ElemsAppend(queue, c);
  }

  /** The inner `for (int[] offset : neighbors)` loop for the cell polled
      last: every lit, unvisited neighbour is marked visited and enqueued,
      and its coordinates are recorded. */
  method VisitNeighbours(mask: Mask, ghost before: set<Cell>, visited: set<Cell>, queue: seq<Cell>,
                         ghost parent: seq<int>, xs: seq<int>, ys: seq<int>, head: int)
    returns (visited': set<Cell>, queue': seq<Cell>, ghost parent': seq<int>, xs': seq<int>, ys': seq<int>)
    requires Rectangular(mask) && |mask| > 0
    requires 1 <= head <= |queue| && Frontier(mask, before, visited, queue, parent, xs, ys, head - 1)
    ensures Frontier(mask, before, visited', queue', parent', xs', ys', head)
    ensures |queue'| >= |queue| && queue'[..|queue|] == queue
  {
    var h, w := |mask|, |mask[0]|;
    var pos := queue[head - 1];
    visited', queue', parent', xs', ys' := visited, queue, parent, xs, ys;
    for k := 0 to |Offsets|
      invariant Frontier(mask, before, visited', queue', parent', xs', ys', head - 1)
      invariant |queue'| >= |queue| && queue'[..|queue|] == queue
      invariant forall j :: 0 <= j < k && Lit(mask, Shift(pos, j)) ==> Shift(pos, j) in visited'
    {
      var ny := pos.y + Offsets[k].0;
      var nx := pos.x + Offsets[k].1;
      if ny >= 0 && ny < h && nx >= 0 && nx < w {
        if mask[ny][nx] != 0 && Cell(ny, nx) !in visited' {
          ghost var q0 := queue';
          visited', queue', parent', xs', ys' := Enqueue(mask, before, visited', queue', parent', xs', ys', head, Cell(ny, nx));
          assert queue'[..|queue|] == q0[..|queue|];
        }
      }
    }
    forall b | Adjacent(pos, b) && Lit(mask, b)
      ensures b in visited'
    {
      var k := AdjacentIsShift(pos, b);
    }
  }

  /** One flood fill from `seed`, as the `while (!queue.isEmpty())` loop.
      Polling is advancing `head`; the polled cells stay in `queue` so that
      it also plays the role of the source's coordinate lists. */
  method Explore(mask: Mask, before: set<Cell>, seed: Cell)
    returns (visited: set<Cell>, queue: seq<Cell>, xs: seq<int>, ys: seq<int>)
    requires Rectangular(mask) && |mask| > 0
    requires Lit(mask, seed) && seed !in before
    requires forall c :: c in before ==> Lit(mask, c)
    requires Closed(mask, before)
    ensures |queue| > 0 && queue[0] == seed && Distinct(queue)
    ensures visited == before + Elems(queue) && before !! Elems(queue)
    ensures IsComponent(mask, Elems(queue))
    ensures |xs| == |queue| && |ys| == |queue|
    ensures forall i :: 0 <= i < |queue| ==> xs[i] == queue[i].x && ys[i] == queue[i].y
  {
    queue := [seed];
    visited := before + {seed};
    xs := [seed.x];
    ys := [seed.y];
    ghost var parent := [0];
    var head := 0;
    ElemsAppend([], seed);
    LitIsLitCell(mask, seed);
    while head < |queue|
      invariant Frontier(mask, before, visited, queue, parent, xs, ys, head) && queue[0] == seed
      invariant |queue| <= |LitCells(mask)|
      decreases |LitCells(mask)| - head
    {
      head := head + 1;
      ghost var q0 := queue;
      visited, queue, parent, xs, ys := VisitNeighbours(mask, before, visited, queue, parent, xs, ys, head);
      assert queue[0] == q0[0];
      forall c | c in Elems(queue)
        ensures c in LitCells(mask)
      {
        LitIsLitCell(mask, c);
      }
      DistinctCard(queue);
      SubsetCard(Elems(queue), LitCells(mask));
    }
    var comp := Elems(queue);
    forall a, b | a in comp && Adjacent(a, b) && Lit(mask, b)
      ensures b in comp
    {
      var i :| 0 <= i < |queue| && queue[i] == a;
      assert Settled(mask, queue[i], visited);
      assert b !in before by {
        assert Adjacent(b, a) && Lit(mask, a);
      }
    }
    forall c | c in comp
      ensures Reaches(comp, seed, c)
    {
      var i :| 0 <= i < |queue| && queue[i] == c;
      var p := TreeWalk(queue, parent, i);
    }
    assert seed in comp;
  }

  // ---------------------------------------------------------------- boxes

  /** `Collections.min`. */
  function SeqMin(s: seq<int>): (m: int)
    requires |s| > 0
    ensures m in s && forall i :: 0 <= i < |s| ==> m <= s[i]
  {
    if |s| == 1 then s[0]
    else
      var rest := SeqMin(s[1..]);
      if s[0] <= rest then s[0] else rest
  }

  /** `Collections.max`. */
  function SeqMax(s: seq<int>): (m: int)
    requires |s| > 0
    ensures m in s && forall i :: 0 <= i < |s| ==> s[i] <= m
  {
    if |s| == 1 then s[0]
    else
      var rest := SeqMax(s[1..]);
      if s[0] >= rest then s[0] else rest
  }

  /** b is the smallest box holding every cell of s. */
  ghost predicate Bounds(b: Box, s: set<Cell>) {
    && (forall c :: c in s ==> b.xMin <= c.x <= b.xMax && b.yMin <= c.y <= b.yMax)
    && (exists c :: c in s && c.x == b.xMin)
    && (exists c :: c in s && c.x == b.xMax)
    && (exists c :: c in s && c.y == b.yMin)
    && (exists c :: c in s && c.y == b.yMax)
  }

  /** `(xMax - xMin + 1) * (yMax - yMin + 1)`. */
  function Area(b: Box): int {
    (b.xMax - b.xMin + 1) * (b.yMax - b.yMin + 1)
  }

  /** The boxes of `bs` whose area reaches `minArea`, in order. */
  function Kept(bs: seq<Box>, minArea: int): (r: seq<Box>)
    ensures forall b :: b in r ==> b in bs && Area(b) >= minArea
    ensures forall i :: 0 <= i < |bs| && Area(bs[i]) >= minArea ==> bs[i] in r
  {
    if |bs| == 0 then []
    else
      var last := bs[|bs| - 1];
      Kept(bs[..|bs| - 1], minArea) + (if Area(last) >= minArea then [last] else [])
  }

  lemma KeptAppend(bs: seq<Box>, b: Box, minArea: int)
    ensures Kept(bs + [b], minArea) == Kept(bs, minArea) + (if Area(b) >= minArea then [b] else [])
  {
    assert (bs + [b])[..|bs|] == bs;
  }

  /** The box built from the coordinate lists of a flood fill bounds its cells. */
  lemma BoxOfQueue(queue: seq<Cell>, xs: seq<int>, ys: seq<int>)
    requires |queue| > 0 && |xs| == |queue| && |ys| == |queue|
    requires forall i :: 0 <= i < |queue| ==> xs[i] == queue[i].x && ys[i] == queue[i].y
    ensures Bounds(Box(SeqMin(xs), SeqMin(ys), SeqMax(xs), SeqMax(ys)), Elems(queue))
  {
    var b := Box(SeqMin(xs), SeqMin(ys), SeqMax(xs), SeqMax(ys));
    forall c | c in Elems(queue)
      ensures b.xMin <= c.x <= b.xMax && b.yMin <= c.y <= b.yMax
    {
      var i :| 0 <= i < |queue| && queue[i] == c;
      assert xs[i] == c.x && ys[i] == c.y;
    }
    var i :| 0 <= i < |xs| && xs[i] == b.xMin;
    assert queue[i] in Elems(queue);
    i :| 0 <= i < |xs| && xs[i] == b.xMax;
    assert queue[i] in Elems(queue);
    i :| 0 <= i < |ys| && ys[i] == b.yMin;
    assert queue[i] in Elems(queue);
    i :| 0 <= i < |ys| && ys[i] == b.yMax;
    assert queue[i] in Elems(queue);
  }

  // ---------------------------------------------------------------- the scan

  ghost function Union(comps: seq<set<Cell>>): set<Cell> {
    if |comps| == 0 then {} else Union(comps[..|comps| - 1]) + comps[|comps| - 1]
  }

  lemma {:induction false} UnionContains(comps: seq<set<Cell>>, i: int)
    requires 0 <= i < |comps|
    ensures comps[i] <= Union(comps)
    decreases |comps|
  {
    if i < |comps| - 1 {
      UnionContains(comps[..|comps| - 1], i);
    }
  }

  lemma ElemsConcat(p: seq<Cell>, q: seq<Cell>)
    ensures Elems(p + q) == Elems(p) + Elems(q)
  {
    var pq := p + q;
    forall d | d in Elems(pq)
      ensures d in Elems(p) + Elems(q)
    {
      var i :| 0 <= i < |pq| && pq[i] == d;
      if i < |p| {
        assert p[i] == d;
      } else {
        assert q[i - |p|] == d;
      }
    }
    forall d | d in Elems(p) + Elems(q)
      ensures d in Elems(pq)
    {
      if d in Elems(p) {
        var i :| 0 <= i < |p| && p[i] == d;
        assert pq[i] == d;
      } else {
        var i :| 0 <= i < |q| && q[i] == d;
        assert pq[|p| + i] == d;
      }
    }
  }

  /** What the scan has established once it has found the components in
      `comps`: they partition the visited cells, each is a whole component,
      `found` holds their bounding boxes and `boxes` the large enough ones. */
  ghost predicate Scanned(mask: Mask, minArea: int, visited: set<Cell>, comps: seq<set<Cell>>,
                          found: seq<Box>, enqueued: seq<Cell>, boxes: seq<Box>)
  {
    && visited == Union(comps) && visited == Elems(enqueued) && Distinct(enqueued)
    && (forall c :: c in visited ==> Lit(mask, c))
    && Closed(mask, visited)
    && (forall i, j :: 0 <= i < j < |comps| ==> comps[i] !! comps[j])
    && (forall i :: 0 <= i < |comps| ==> IsComponent(mask, comps[i]))
    && |found| == |comps|
    && (forall i :: 0 <= i < |comps| ==> Bounds(found[i], comps[i]))
    && boxes == Kept(found, minArea)
  }

  /** Adding the component one flood fill found keeps the scan's facts. */
  lemma AddComponent(mask: Mask, minArea: int, visited: set<Cell>, comps: seq<set<Cell>>,
                     found: seq<Box>, enqueued: seq<Cell>, boxes: seq<Box>,
                     queue: seq<Cell>, box: Box,
                     visited': set<Cell>, comps': seq<set<Cell>>, found': seq<Box>,
                     enqueued': seq<Cell>, boxes': seq<Box>)
    requires Scanned(mask, minArea, visited, comps, found, enqueued, boxes)
    requires |queue| > 0 && Distinct(queue) && visited !! Elems(queue)
    requires IsComponent(mask, Elems(queue)) && Bounds(box, Elems(queue))
    requires visited' == visited + Elems(queue) && comps' == comps + [Elems(queue)]
    requires found' == found + [box] && enqueued' == enqueued + queue
    requires boxes' == boxes + (if Area(box) >= minArea then [box] else [])
    ensures Scanned(mask, minArea, visited', comps', found', enqueued', boxes')
  {
    var comp := Elems(queue);
    assert comps'[..|comps|] == comps;
    assert found'[..|found|] == found;
    ElemsConcat(enqueued, queue);
    DistinctConcat(enqueued, queue);
    ClosedUnion(mask, visited, comp);
    AppendDisjoint(comps, comp);
    AppendComponent(mask, comps, comp);
    AppendBounds(comps, found, comp, box);
    KeptAppend(found, box, minArea);
  }

  lemma DistinctConcat(p: seq<Cell>, q: seq<Cell>)
    requires Distinct(p) && Distinct(q) && Elems(p) !! Elems(q)
    ensures Distinct(p + q)
  {
    var e := p + q;
    forall i, j | 0 <= i < j < |e|
      ensures e[i] != e[j]
    {
      if j < |p| {
        assert e[i] == p[i] && e[j] == p[j];
      } else if i >= |p| {
        assert e[i] == q[i - |p|] && e[j] == q[j - |p|];
      } else {
        assert e[i] == p[i] && p[i] in Elems(p);
        assert e[j] == q[j - |p|] && q[j - |p|] in Elems(q);
      }
    }
  }

  lemma ClosedUnion(mask: Mask, a: set<Cell>, b: set<Cell>)
    requires Closed(mask, a) && Closed(mask, b)
    ensures Closed(mask, a + b)
  {
  }

  lemma AppendDisjoint(comps: seq<set<Cell>>, comp: set<Cell>)
    requires forall i, j :: 0 <= i < j < |comps| ==> comps[i] !! comps[j]
    requires Union(comps) !! comp
    ensures forall i, j :: 0 <= i < j < |comps + [comp]| ==> (comps + [comp])[i] !! (comps + [comp])[j]
  {
    var comps' := comps + [comp];
    forall i, j | 0 <= i < j < |comps'|
      ensures comps'[i] !! comps'[j]
    {
      UnionContains(comps, i);
      if j < |comps| {
        assert comps'[i] == comps[i] && comps'[j] == comps[j];
      } else {
        assert comps'[i] == comps[i];
      }
    }
  }

  lemma AppendComponent(mask: Mask, comps: seq<set<Cell>>, comp: set<Cell>)
    requires forall i :: 0 <= i < |comps| ==> IsComponent(mask, comps[i])
    requires IsComponent(mask, comp)
    ensures forall i :: 0 <= i < |comps + [comp]| ==> IsComponent(mask, (comps + [comp])[i])
  {
    var comps' := comps + [comp];
    forall i | 0 <= i < |comps'|
      ensures IsComponent(mask, comps'[i])
    {
      if i < |comps| {
        assert comps'[i] == comps[i];
      }
    }
  }

  lemma AppendBounds(comps: seq<set<Cell>>, found: seq<Box>, comp: set<Cell>, box: Box)
    requires |found| == |comps| && forall i :: 0 <= i < |comps| ==> Bounds(found[i], comps[i])
    requires Bounds(box, comp)
    ensures forall i :: 0 <= i < |comps| + 1 ==> Bounds((found + [box])[i], (comps + [comp])[i])
  {
    forall i | 0 <= i < |comps| + 1
      ensures Bounds((found + [box])[i], (comps + [comp])[i])
    {
      if i < |comps| {
        assert (found + [box])[i] == found[i] && (comps + [comp])[i] == comps[i];
      }
    }
  }

  predicate InsideGrid(b: Box, h: int, w: int) {
    0 <= b.xMin <= b.xMax < w && 0 <= b.yMin <= b.yMax < h
  }

  /** The bounding box of a set of lit cells lies inside the grid. */
  lemma BoundsInGrid(mask: Mask, b: Box, s: set<Cell>)
    requires Rectangular(mask) && |mask| > 0
    requires s != {} && (forall c :: c in s ==> Lit(mask, c)) && Bounds(b, s)
    ensures InsideGrid(b, |mask|, |mask[0]|)
  {
    var c :| c in s;
    assert b.xMin <= c.x <= b.xMax;
  }

  // ---------------------------------------------------------------- scan order

  /** Row-major order, the order of the two nested scan loops: `a` comes before `b`. */
  predicate Before(a: Cell, b: Cell) {
    a.y < b.y || (a.y == b.y && a.x < b.x)
  }

  /** `c` is the cell of `s` the scan meets first. */
  ghost predicate FirstOf(c: Cell, s: set<Cell>) {
    c in s && forall d :: d in s ==> !Before(d, c)
  }

  /** Components in the order the scan discovers them: `seeds[i]` is the
      first cell of `comps[i]`, and the seeds come in strictly increasing
      row-major order. */
  ghost predicate DiscoveryOrder(comps: seq<set<Cell>>, seeds: seq<Cell>) {
    && |seeds| == |comps|
    && (forall i :: 0 <= i < |comps| ==> FirstOf(seeds[i], comps[i]))
    && (forall i, j :: 0 <= i < j < |seeds| ==> Before(seeds[i], seeds[j]))
  }

  /** The scan has reached position `p`: every lit cell before it is visited,
      and every component so far was started before it. */
  ghost predicate ScannedUpTo(mask: Mask, visited: set<Cell>, seeds: seq<Cell>, p: Cell) {
    && (forall c :: Lit(mask, c) && Before(c, p) ==> c in visited)
    && (forall i :: 0 <= i < |seeds| ==> Before(seeds[i], p))
  }

  /** A fill started at an unvisited cell that every earlier lit cell
      precedes into the visited set begins at the first cell of its component. */
  lemma SeedIsFirst(mask: Mask, visited: set<Cell>, seeds: seq<Cell>, seed: Cell, comp: set<Cell>)
    requires ScannedUpTo(mask, visited, seeds, seed)
    requires seed in comp && visited !! comp && forall c :: c in comp ==> Lit(mask, c)
    ensures FirstOf(seed, comp)
  {
  }

  /** Appending a component whose seed comes after every earlier seed keeps
      the discovery order. */
  lemma AppendInOrder(comps: seq<set<Cell>>, seeds: seq<Cell>, comp: set<Cell>, seed: Cell)
    requires DiscoveryOrder(comps, seeds) && FirstOf(seed, comp)
    requires forall i :: 0 <= i < |seeds| ==> Before(seeds[i], seed)
    ensures DiscoveryOrder(comps + [comp], seeds + [seed])
  {
    var comps', seeds' := comps + [comp], seeds + [seed];
    forall i | 0 <= i < |comps'|
      ensures FirstOf(seeds'[i], comps'[i])
    {
      if i < |comps| {
        assert seeds'[i] == seeds[i] && comps'[i] == comps[i];
      }
    }
    forall i, j | 0 <= i < j < |seeds'|
      ensures Before(seeds'[i], seeds'[j])
    {
      assert seeds'[i] == seeds[i];
    }
  }

  /** The body of the inner loop for cell (y, x): a lit cell not yet visited
      starts a flood fill, and the bounding box of what it finds is kept if
      its area reaches `minArea`. */
  method ScanCell(mask: Mask, minArea: int, y: int, x: int, visited: set<Cell>, boxes: seq<Box>,
                  ghost comps: seq<set<Cell>>, ghost found: seq<Box>, ghost enqueued: seq<Cell>, ghost seeds: seq<Cell>)
    returns (visited': set<Cell>, boxes': seq<Box>,
             ghost comps': seq<set<Cell>>, ghost found': seq<Box>, ghost enqueued': seq<Cell>, ghost seeds': seq<Cell>)
    requires Rectangular(mask) && 0 <= y < |mask| && 0 <= x < |mask[0]|
    requires Scanned(mask, minArea, visited, comps, found, enqueued, boxes)
    requires DiscoveryOrder(comps, seeds) && ScannedUpTo(mask, visited, seeds, Cell(y, x))
    ensures Scanned(mask, minArea, visited', comps', found', enqueued', boxes')
    ensures DiscoveryOrder(comps', seeds') && ScannedUpTo(mask, visited', seeds', Cell(y, x + 1))
    ensures visited <= visited'
  {
    visited', boxes', comps', found', enqueued', seeds' := visited, boxes, comps, found, enqueued, seeds;
    if mask[y][x] != 0 && Cell(y, x) !in visited {
      var filled, queue, xs, ys := Explore(mask, visited, Cell(y, x));
      var xMin, xMax := SeqMin(xs), SeqMax(xs);
      var yMin, yMax := SeqMin(ys), SeqMax(ys);
      var box := Box(xMin, yMin, xMax, yMax);
      BoxOfQueue(queue, xs, ys);
      var area := Area(box);
      if area >= minArea {
        boxes' := boxes + [box];
      }
      visited' := filled;
      comps' := comps + [Elems(queue)];
      found' := found + [box];
      enqueued' := enqueued + queue;
      seeds' := seeds + [Cell(y, x)];
      AddComponent(mask, minArea, visited, comps, found, enqueued, boxes, queue, box,
                   visited', comps', found', enqueued', boxes');
      assert Cell(y, x) in Elems(queue) by {
        assert queue[0] == Cell(y, x);
      }
      SeedIsFirst(mask, visited, seeds, Cell(y, x), Elems(queue));
      AppendInOrder(comps, seeds, Elems(queue), Cell(y, x));
    }
    ScanStep(mask, y, x, visited, seeds, visited', seeds');
  }

  /** Dealing with cell (y, x) moves the scan position one cell on. */
  lemma ScanStep(mask: Mask, y: int, x: int, visited: set<Cell>, seeds: seq<Cell>,
                 visited': set<Cell>, seeds': seq<Cell>)
    requires ScannedUpTo(mask, visited, seeds, Cell(y, x))
    requires visited <= visited' && (Lit(mask, Cell(y, x)) ==> Cell(y, x) in visited')
    requires seeds' == seeds || seeds' == seeds + [Cell(y, x)]
    ensures ScannedUpTo(mask, visited', seeds', Cell(y, x + 1))
  {
    forall i | 0 <= i < |seeds'|
      ensures Before(seeds'[i], Cell(y, x + 1))
    {
      if i < |seeds| {
        assert seeds'[i] == seeds[i];
      }
    }
  }

  /** The inner `for (int x ...)` loop over row y. */
  method ScanRow(mask: Mask, minArea: int, y: int, visited: set<Cell>, boxes: seq<Box>,
                 ghost comps: seq<set<Cell>>, ghost found: seq<Box>, ghost enqueued: seq<Cell>, ghost seeds: seq<Cell>)
    returns (visited': set<Cell>, boxes': seq<Box>,
             ghost comps': seq<set<Cell>>, ghost found': seq<Box>, ghost enqueued': seq<Cell>, ghost seeds': seq<Cell>)
    requires Rectangular(mask) && 0 <= y < |mask|
    requires Scanned(mask, minArea, visited, comps, found, enqueued, boxes)
    requires DiscoveryOrder(comps, seeds) && ScannedUpTo(mask, visited, seeds, Cell(y, 0))
    ensures Scanned(mask, minArea, visited', comps', found', enqueued', boxes')
    ensures DiscoveryOrder(comps', seeds') && ScannedUpTo(mask, visited', seeds', Cell(y + 1, 0))
    ensures visited <= visited'
  {
    visited', boxes', comps', found', enqueued', seeds' := visited, boxes, comps, found, enqueued, seeds;
    for x := 0 to |mask[0]|
      invariant Scanned(mask, minArea, visited', comps', found', enqueued', boxes')
      invariant DiscoveryOrder(comps', seeds') && ScannedUpTo(mask, visited', seeds', Cell(y, x))
      invariant visited <= visited'
    {
      visited', boxes', comps', found', enqueued', seeds' :=
        ScanCell(mask, minArea, y, x, visited', boxes', comps', found', enqueued', seeds');
    }
    RowEnd(mask, y, visited', seeds');
  }

  /** The end of row y is the start of row y + 1. */
  lemma RowEnd(mask: Mask, y: int, visited: set<Cell>, seeds: seq<Cell>)
    requires Rectangular(mask) && 0 <= y < |mask|
    requires ScannedUpTo(mask, visited, seeds, Cell(y, |mask[0]|))
    ensures ScannedUpTo(mask, visited, seeds, Cell(y + 1, 0))
  {
  }

  /** Once the scan has passed the last row, the visited set is exactly the lit cells. */
  lemma ScanCoversLit(mask: Mask, visited: set<Cell>, seeds: seq<Cell>)
    requires forall c :: c in visited ==> Lit(mask, c)
    requires ScannedUpTo(mask, visited, seeds, Cell(|mask|, 0))
    ensures visited == LitCells(mask)
  {
    forall c | c in LitCells(mask)
      ensures c in visited
    {
      LitIsLitCell(mask, c);
    }
    forall c | c in visited
      ensures c in LitCells(mask)
    {
      LitIsLitCell(mask, c);
    }
  }

  /** Every kept box lies inside the grid and reaches the minimum area. */
  lemma KeptBoxesInGrid(mask: Mask, minArea: int, comps: seq<set<Cell>>, found: seq<Box>)
    requires Rectangular(mask) && |mask| > 0
    requires forall i :: 0 <= i < |comps| ==> IsComponent(mask, comps[i])
    requires |found| == |comps| && forall i :: 0 <= i < |comps| ==> Bounds(found[i], comps[i])
    ensures forall b :: b in Kept(found, minArea) ==> InsideGrid(b, |mask|, |mask[0]|) && Area(b) >= minArea
  {
    forall b | b in Kept(found, minArea)
      ensures InsideGrid(b, |mask|, |mask[0]|)
    {
      var k :| 0 <= k < |found| && found[k] == b;
      BoundsInGrid(mask, found[k], comps[k]);
    }
  }

  /** With no lit cell there is no component, so no box. */
  lemma NoLitNoBoxes(mask: Mask, minArea: int, comps: seq<set<Cell>>, found: seq<Box>)
    requires Union(comps) == {} && |found| == |comps|
    requires forall i :: 0 <= i < |comps| ==> comps[i] != {}
    ensures Kept(found, minArea) == []
  {
    if |comps| > 0 {
      UnionContains(comps, 0);
    }
  }

  /** `findConnectedBoxes(mask, minArea)`.  Cells are scanned row by row;
      each lit cell not yet visited starts a flood fill whose bounding box
      is kept if its area reaches `minArea`.  `comps` and `found` are, for
      the proof, every component in discovery order and its bounding box,
      `seeds` the cell that started each fill, and `enqueued` every cell in
      the order it entered a queue. */
  method FindConnectedBoxes(mask: Mask, minArea: int)
    returns (r: Result<seq<Box>>, ghost comps: seq<set<Cell>>, ghost found: seq<Box>,
             ghost enqueued: seq<Cell>, ghost seeds: seq<Cell>)
    requires Rectangular(mask)
    ensures r.Err? <==> |mask| == 0
    ensures r.Err? ==> r.error == IndexOutOfBounds
    ensures r.Ok? ==> forall i :: 0 <= i < |r.value| ==>
      InsideGrid(r.value[i], |mask|, |mask[0]|) && Area(r.value[i]) >= minArea
    ensures r.Ok? && LitCells(mask) == {} ==> r.value == []
    ensures r.Ok? ==> Distinct(enqueued) && Elems(enqueued) == LitCells(mask)
    ensures r.Ok? ==> Union(comps) == LitCells(mask)
    ensures r.Ok? ==> forall i, j :: 0 <= i < j < |comps| ==> comps[i] !! comps[j]
    ensures r.Ok? ==> forall i :: 0 <= i < |comps| ==> IsComponent(mask, comps[i])
    ensures r.Ok? ==> DiscoveryOrder(comps, seeds)
    ensures r.Ok? ==> |found| == |comps| && (forall i :: 0 <= i < |comps| ==> Bounds(found[i], comps[i]))
    ensures r.Ok? ==> r.value == Kept(found, minArea)
  {
    comps, found, enqueued, seeds := [], [], [], [];
    if |mask| == 0 {
      return Err(IndexOutOfBounds), comps, found, enqueued, seeds;
    }
    var h := |mask|;
    var visited: set<Cell> := {};
    var boxes: seq<Box> := [];
    for y := 0 to h
      invariant Scanned(mask, minArea, visited, comps, found, enqueued, boxes)
      invariant DiscoveryOrder(comps, seeds) && ScannedUpTo(mask, visited, seeds, Cell(y, 0))
    {
      visited, boxes, comps, found, enqueued, seeds := ScanRow(mask, minArea, y, visited, boxes, comps, found, enqueued, seeds);
    }
    ScanCoversLit(mask, visited, seeds);
    KeptBoxesInGrid(mask, minArea, comps, found);
    if LitCells(mask) == {} {
      NoLitNoBoxes(mask, minArea, comps, found);
    }
    r := Ok(boxes);
  }
}
