/** `MainActivity2.postprocessScoreLink`: the detector's text-score and
    link-score maps become one binary mask, a cell being set when either
    score clears its threshold after the logistic function; and the
    detection step of `processImage` that feeds that mask to the flood fill. */
module ScoreLinkMask {
  import opened Outcomes
  import ConnectedBoxes

  /** `float[][][][]` indexed [batch][y][x][channel]; channel 0 is the text
      logit, channel 1 the link logit. */
  type Maps = seq<seq<seq<seq<real>>>>

  /** `sigmoid(v) > threshold` for one threshold, as a test on the logit. */
  type Test = real -> bool

  /** The minimum box area `processImage` passes to `findConnectedBoxes`. */
  const MinBoxArea := 10

  /** The accesses the two loops make never leave the arrays: a first batch
      with at least one row, every row at least as long as the first, and two
      channels in every cell the loops read. */
  predicate InBounds(maps: Maps) {
    && |maps| > 0 && |maps[0]| > 0
    && (forall y :: 0 <= y < |maps[0]| ==> |maps[0][y]| >= |maps[0][0]|)
    && (forall y, x :: 0 <= y < |maps[0]| && 0 <= x < |maps[0][0]| ==> |maps[0][y][x]| >= 2)
  }

  function Bit(b: bool): bv8 {
    if b then 1 else 0
  }

  /** `(byte) (textMask | linkMask)`. */
  function Combine(text: bool, link: bool): (v: int)
    ensures v == 1 <==> text || link
    ensures v == 0 <==> !text && !link
  {
    (Bit(text) | Bit(link)) as int
  }

  /** Cell (y, x) of the mask the source builds. */
  function CellValue(maps: Maps, textHit: Test, linkHit: Test, y: int, x: int): int
    requires InBounds(maps) && 0 <= y < |maps[0]| && 0 <= x < |maps[0][0]|
  {
    Combine(textHit(maps[0][y][x][0]), linkHit(maps[0][y][x][1]))
  }

  /** `postprocessScoreLink`: an H-by-W mask, H the number of rows of the
      first batch and W the length of its first row. */
  method PostprocessScoreLink(maps: Maps, textHit: Test, linkHit: Test) returns (r: Result<ConnectedBoxes.Mask>)
    ensures r.Ok? <==> InBounds(maps)
    ensures r.Err? ==> r.error == IndexOutOfBounds
    ensures r.Ok? ==>
      && |r.value| == |maps[0]| && ConnectedBoxes.Rectangular(r.value) && |r.value[0]| == |maps[0][0]|
      && forall y, x :: 0 <= y < |maps[0]| && 0 <= x < |maps[0][0]| ==>
           (r.value[y][x] == 1 <==> textHit(maps[0][y][x][0]) || linkHit(maps[0][y][x][1]))
           && (r.value[y][x] == 0 <==> !textHit(maps[0][y][x][0]) && !linkHit(maps[0][y][x][1]))
  {
    if |maps| == 0 || |maps[0]| == 0 {
      return Err(IndexOutOfBounds);
    }
    var h, w := |maps[0]|, |maps[0][0]|;
    var mask: seq<seq<int>> := [];
    for y := 0 to h
      invariant |mask| == y
      invariant forall yy :: 0 <= yy < y ==> |maps[0][yy]| >= w && |mask[yy]| == w
      invariant forall yy, xx :: 0 <= yy < y && 0 <= xx < w ==> |maps[0][yy][xx]| >= 2
      invariant forall yy, xx :: 0 <= yy < y && 0 <= xx < w ==>
        mask[yy][xx] == Combine(textHit(maps[0][yy][xx][0]), linkHit(maps[0][yy][xx][1]))
    {
      var row :- MaskRow(maps[0][y], w, textHit, linkHit);
      mask := mask + [row];
    }
    return Ok(mask);
  }

  /** One pass of the inner `for (int x ...)` loop over row `cells`. */
  method MaskRow(cells: seq<seq<real>>, w: int, textHit: Test, linkHit: Test) returns (r: Result<seq<int>>)
    requires w >= 0
    ensures r.Ok? <==> |cells| >= w && forall x :: 0 <= x < w ==> |cells[x]| >= 2
    ensures r.Err? ==> r.error == IndexOutOfBounds
    ensures r.Ok? ==> |r.value| == w
    ensures r.Ok? ==> forall x :: 0 <= x < w ==> r.value[x] == Combine(textHit(cells[x][0]), linkHit(cells[x][1]))
  {
    var row: seq<int> := [];
    for x := 0 to w
      invariant |row| == x <= |cells|
      invariant forall xx :: 0 <= xx < x ==> |cells[xx]| >= 2
      invariant forall xx :: 0 <= xx < x ==> row[xx] == Combine(textHit(cells[xx][0]), linkHit(cells[xx][1]))
    {
      if x >= |cells| || |cells[x]| < 2 {
        return Err(IndexOutOfBounds);
      }
      row := row + [Combine(textHit(cells[x][0]), linkHit(cells[x][1]))];
    }
    return Ok(row);
  }

  /** The set cells of the mask are exactly the cells where the text test or
      the link test passes. */
  lemma LitIffHit(maps: Maps, textHit: Test, linkHit: Test, mask: ConnectedBoxes.Mask)
    requires InBounds(maps) && |mask| == |maps[0]| && ConnectedBoxes.Rectangular(mask) && |mask[0]| == |maps[0][0]|
    requires forall y, x :: 0 <= y < |maps[0]| && 0 <= x < |maps[0][0]| ==> mask[y][x] == CellValue(maps, textHit, linkHit, y, x)
    ensures ConnectedBoxes.LitCells(mask) == Hits(maps, textHit, linkHit)
  {
    forall c | c in ConnectedBoxes.LitCells(mask)
      ensures c in Hits(maps, textHit, linkHit)
    {
      assert mask[c.y][c.x] == CellValue(maps, textHit, linkHit, c.y, c.x);
    }
    forall c | c in Hits(maps, textHit, linkHit)
      ensures c in ConnectedBoxes.LitCells(mask)
    {
      assert mask[c.y][c.x] == CellValue(maps, textHit, linkHit, c.y, c.x);
    }
  }

  /** The cells of the H-by-W grid where either test passes. */
  ghost function Hits(maps: Maps, textHit: Test, linkHit: Test): set<ConnectedBoxes.Cell>
    requires InBounds(maps)
  {
    set y, x | 0 <= y < |maps[0]| && 0 <= x < |maps[0][0]| && (textHit(maps[0][y][x][0]) || linkHit(maps[0][y][x][1]))
      :: ConnectedBoxes.Cell(y, x)
  }

  /** The detection step of `processImage`: threshold the maps, then report
      the bounding boxes of the eight-connected groups of cells where a test
      passes, in the order the scan discovers them, keeping those of area at
      least ten.  `mask` is the thresholded mask, and `comps`, `found` and
      `seeds` are the components, their boxes and their first cells. */
  method DetectTextRegions(maps: Maps, textHit: Test, linkHit: Test)
    returns (r: Result<seq<ConnectedBoxes.Box>>, ghost mask: ConnectedBoxes.Mask,
             ghost comps: seq<set<ConnectedBoxes.Cell>>, ghost found: seq<ConnectedBoxes.Box>,
             ghost seeds: seq<ConnectedBoxes.Cell>)
    ensures r.Ok? <==> InBounds(maps)
    ensures r.Err? ==> r.error == IndexOutOfBounds
    ensures r.Ok? ==>
      && ConnectedBoxes.LitCells(mask) == Hits(maps, textHit, linkHit)
      && ConnectedBoxes.Union(comps) == Hits(maps, textHit, linkHit)
      && (forall i, j :: 0 <= i < j < |comps| ==> comps[i] !! comps[j])
      && (forall i :: 0 <= i < |comps| ==> ConnectedBoxes.IsComponent(mask, comps[i]))
      && ConnectedBoxes.DiscoveryOrder(comps, seeds)
      && |found| == |comps|
      && (forall i :: 0 <= i < |comps| ==> ConnectedBoxes.Bounds(found[i], comps[i]))
      && r.value == ConnectedBoxes.Kept(found, MinBoxArea)
      && (forall i :: 0 <= i < |r.value| ==>
            ConnectedBoxes.InsideGrid(r.value[i], |maps[0]|, |maps[0][0]|) && ConnectedBoxes.Area(r.value[i]) >= MinBoxArea)
  {
    mask, comps, found, seeds := [], [], [], [];
    var m :- PostprocessScoreLink(maps, textHit, linkHit);
    mask := m;
    LitIffHit(maps, textHit, linkHit, m);
    var boxes;
    ghost var enqueued;
    boxes, comps, found, enqueued, seeds := ConnectedBoxes.FindConnectedBoxes(m, MinBoxArea);
    r := boxes;
  }
}
