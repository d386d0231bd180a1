/**
 * The tile resolver of `RasterAPIHandler` (bearmap/server/handler/impl/RasterAPIHandler.java):
 * choose a depth from the query's longitude per pixel, clip the query box to the
 * world extent, and list the covering tiles row by row. Coordinates are exact reals.
 */
module Raster {
  import opened Wrappers
  import opened RasterMath
  import opened Decimal

  /** The deepest level of pre-rendered tiles. */
  const MaxDepth: nat := 7

  /** The world extent and the pixel width of one tile (`ROOT_ULLON`, `ROOT_ULLAT`, `ROOT_LRLON`, `ROOT_LRLAT`, `TILE_SIZE`). */
  datatype World = World(ullon: real, ullat: real, lrlon: real, lrlat: real, tileSize: real)

  /** North-up extent with a positive tile size. */
  predicate ValidWorld(world: World)
  {
    world.ullon < world.lrlon && world.lrlat < world.ullat && world.tileSize > 0.0
  }

  /** The request parameters `ullon`, `ullat`, `lrlon`, `lrlat`, `w`, `h`. */
  datatype Query = Query(ullon: real, ullat: real, lrlon: real, lrlat: real, w: real, h: real)

  /** The resolved bounding box. */
  datatype Box = Box(ulLon: real, ulLat: real, lrLon: real, lrLat: real)

  /** The result map: `render_grid` (absent on failure), the resolved box, `depth`, `query_success`. */
  datatype Raster = Raster(
    renderGrid: Option<array2<string>>,
    rasterUlLon: real, rasterUlLat: real, rasterLrLon: real, rasterLrLat: real,
    depth: nat, querySuccess: bool)

  /** `queryFail()`: no grid, zero box and depth, `query_success` false. */
  const QueryFail := Raster(None, 0.0, 0.0, 0.0, 0.0, 0, false)

  /** Longitude per pixel the query asks for. */
  function DesiredLonDPP(q: Query): real
    requires q.w > 0.0
  {
    (q.lrlon - q.ullon) / q.w
  }

  /** Longitude per pixel of the depth-0 tile. */
  function LargestLonDPP(world: World): real
    requires ValidWorld(world)
  {
    (world.lrlon - world.ullon) / world.tileSize
  }

  /** Tiles of depth `d` have no more longitude per pixel than `desired`. */
  predicate FineEnough(largest: real, desired: real, d: nat)
  {
    largest / Pow2(d) as real <= desired
  }

  /** `ceil(log2(mul))`, searched upwards from `d`: the least `r >= d` with `mul <= 2^r`. */
  function CeilLog2(mul: real, d: nat): (r: nat)
    requires d <= MaxDepth && mul <= Pow2(MaxDepth) as real
    ensures d <= r <= MaxDepth && mul <= Pow2(r) as real
    ensures forall e: nat :: d <= e < r ==> Pow2(e) as real < mul
    decreases MaxDepth - d
  {
    if mul <= Pow2(d) as real then d else CeilLog2(mul, d + 1)
  }

  /** The depth-0 tile has a positive longitude per pixel. */
  lemma LargestPositive(world: World)
    requires ValidWorld(world)
    ensures LargestLonDPP(world) > 0.0
  {
    assert world.lrlon - world.ullon > 0.0;
  }

  /** For a positive `desired`, depth `e` is fine enough exactly when `largest / desired <= 2^e`. */
  lemma FineEnoughRatio(largest: real, desired: real)
    requires largest > 0.0 && desired > 0.0
    ensures forall e: nat :: FineEnough(largest, desired, e) <==> largest / desired <= Pow2(e) as real
  {
    forall e: nat
      ensures FineEnough(largest, desired, e) <==> largest / desired <= Pow2(e) as real
    {
      DivSwap(largest, desired, Pow2(e) as real);
    }
  }

  /** When `desired` lies below every depth's longitude per pixel, no depth is fine enough. */
  lemma NoneFineEnough(largest: real, desired: real)
    requires largest > 0.0 && desired < largest / Pow2(MaxDepth) as real
    ensures forall e: nat :: e <= MaxDepth ==> !FineEnough(largest, desired, e)
  {
    forall e: nat | e <= MaxDepth
      ensures !FineEnough(largest, desired, e)
    {
      Pow2Monotone(e, MaxDepth);
      DivAntitone(largest, Pow2(e) as real, Pow2(MaxDepth) as real);
    }
  }

  /** Between the finest and the coarsest tiles, `largest / desired` lies in `1 .. 2^7`. */
  lemma RatioRange(largest: real, desired: real)
    requires largest > 0.0 && largest / Pow2(MaxDepth) as real <= desired <= largest
    ensures desired > 0.0 && 1.0 <= largest / desired <= Pow2(MaxDepth) as real
  {
    DivSwap(largest, desired, Pow2(MaxDepth) as real);
    RatioAtLeastOne(largest, desired);
  }

  /**
   * The depth rule of `getDepth` on the two longitudes per pixel: 0 when `desired`
   * exceeds `largest`, 7 when it is below `largest / 2^7`, otherwise
   * `ceil(log2(largest / desired))`. This is the least depth whose tiles are fine
   * enough, and 7 when no depth is.
   */
  function DepthFor(largest: real, desired: real): (depth: nat)
    requires largest > 0.0
    ensures depth <= MaxDepth
    ensures depth < MaxDepth ==> FineEnough(largest, desired, depth)
    ensures forall e: nat :: e < depth ==> !FineEnough(largest, desired, e)
    ensures desired > largest ==> depth == 0
    ensures desired < largest / Pow2(MaxDepth) as real ==> depth == MaxDepth
  {
    var smallest := largest / Pow2(MaxDepth) as real;
    if desired > largest then
      0
    else if desired < smallest then
      NoneFineEnough(largest, desired);
      MaxDepth
    else
      RatioRange(largest, desired);
      FineEnoughRatio(largest, desired);
      CeilLog2(largest / desired, 0)
  }

  /** `getDepth(requestParams)`: the depth rule applied to the query and the world extent. */
  function GetDepth(world: World, q: Query): (depth: nat)
    requires ValidWorld(world) && q.w > 0.0
    ensures depth <= MaxDepth
    ensures depth < MaxDepth ==> FineEnough(LargestLonDPP(world), DesiredLonDPP(q), depth)
    ensures forall e: nat :: e < depth ==> !FineEnough(LargestLonDPP(world), DesiredLonDPP(q), e)
  {
    LargestPositive(world);
    DepthFor(LargestLonDPP(world), DesiredLonDPP(q))
  }

  /** A finer query never gets a shallower depth. */
  lemma DepthMonotone(world: World, q1: Query, q2: Query)
    requires ValidWorld(world) && q1.w > 0.0 && q2.w > 0.0
    requires DesiredLonDPP(q1) <= DesiredLonDPP(q2)
    ensures GetDepth(world, q1) >= GetDepth(world, q2)
  {
    var d1 := GetDepth(world, q1);
    if d1 < GetDepth(world, q2) {
      assert FineEnough(LargestLonDPP(world), DesiredLonDPP(q2), d1);
    }
  }

  /** Width in longitude of one depth-`d` tile (`interval_long`). */
  function IntervalLon(world: World, d: nat): real
    requires ValidWorld(world)
  {
    (world.lrlon - world.ullon) / Pow2(d) as real
  }

  /** Height in latitude of one depth-`d` tile (`interval_lat`). */
  function IntervalLat(world: World, d: nat): real
    requires ValidWorld(world)
  {
    (world.ullat - world.lrlat) / Pow2(d) as real
  }

  /** Longitude of the left edge of tile column `x` at depth `d`. */
  function ColumnLon(world: World, d: nat, x: int): real
    requires ValidWorld(world)
  {
    world.ullon + x as real * IntervalLon(world, d)
  }

  /** Latitude of the top edge of tile row `y` at depth `d`. */
  function RowLat(world: World, d: nat, y: int): real
    requires ValidWorld(world)
  {
    world.ullat - y as real * IntervalLat(world, d)
  }

  /** Longitude of the right edge of column `2^d - 1` is the world's right edge, and likewise for latitude. */
  lemma LastEdges(world: World, d: nat)
    requires ValidWorld(world)
    ensures ColumnLon(world, d, Pow2(d)) == world.lrlon
    ensures RowLat(world, d, Pow2(d)) == world.lrlat
  {
    WholeSpan(world.lrlon - world.ullon, d);
    WholeSpan(world.ullat - world.lrlat, d);
  }

  /** The interval of width `span / n` from `origin` that holds `v`, and where it falls. */
  lemma EdgeIndex(origin: real, v: real, span: real, n: nat)
    requires span > 0.0 && n > 0
    ensures var iv := span / n as real;
            var f := ((v - origin) / iv).Floor;
            origin + f as real * iv <= v < origin + (f + 1) as real * iv &&
            (origin <= v <= origin + span ==> 0 <= f <= n) &&
            (origin <= v < origin + span ==> f < n)
  {
    var iv := span / n as real;
    var f := FloorIndex(v - origin, iv);
    if origin <= v <= origin + span {
      PartIndex(v - origin, span, n);
    }
  }

  /** The same, measured downwards from `origin` as latitudes are. */
  lemma EdgeIndexDown(origin: real, v: real, span: real, n: nat)
    requires span > 0.0 && n > 0
    ensures var iv := span / n as real;
            var f := ((origin - v) / iv).Floor;
            origin - (f + 1) as real * iv < v <= origin - f as real * iv &&
            (origin - span <= v <= origin ==> 0 <= f <= n) &&
            (origin - span < v <= origin ==> f < n)
  {
    var iv := span / n as real;
    var f := FloorIndex(origin - v, iv);
    if origin - span <= v <= origin {
      PartIndex(origin - v, span, n);
    }
  }

  /** `getULX`: the column holding the query's west edge, or 0 when that edge lies west of the world. */
  function GetULX(world: World, q: Query, d: nat): (x: int)
    requires ValidWorld(world)
    ensures q.ullon < world.ullon ==> x == 0
    ensures world.ullon <= q.ullon ==> ColumnLon(world, d, x) <= q.ullon < ColumnLon(world, d, x + 1)
    ensures world.ullon <= q.ullon <= world.lrlon ==> 0 <= x <= Pow2(d)
    ensures world.ullon <= q.ullon < world.lrlon ==> x < Pow2(d)
    ensures q.ullon == world.lrlon ==> x == Pow2(d)
  {
    var interval := IntervalLon(world, d);
    if q.ullon < world.ullon then
      0
    else
      EdgeIndex(world.ullon, q.ullon, world.lrlon - world.ullon, Pow2(d));
      WholeSpan(world.lrlon - world.ullon, d);
      ((q.ullon - world.ullon) / interval).Floor
  }

  /** `getULY`: the row holding the query's north edge, or 0 when that edge lies north of the world. */
  function GetULY(world: World, q: Query, d: nat): (y: int)
    requires ValidWorld(world)
    ensures q.ullat > world.ullat ==> y == 0
    ensures q.ullat <= world.ullat ==> RowLat(world, d, y + 1) < q.ullat <= RowLat(world, d, y)
    ensures world.lrlat <= q.ullat <= world.ullat ==> 0 <= y <= Pow2(d)
    ensures world.lrlat < q.ullat <= world.ullat ==> y < Pow2(d)
    ensures q.ullat == world.lrlat ==> y == Pow2(d)
  {
    var interval := IntervalLat(world, d);
    if q.ullat > world.ullat then
      0
    else
      EdgeIndexDown(world.ullat, q.ullat, world.ullat - world.lrlat, Pow2(d));
      WholeSpan(world.ullat - world.lrlat, d);
      ((world.ullat - q.ullat) / interval).Floor
  }

  /**
   * `getLRX` as written: the last column, `floor(width / interval) - 1`, only when the
   * query's east edge lies strictly east of the world; otherwise the column holding it.
   */
  function GetLRXAsWritten(world: World, q: Query, d: nat): (x: int)
    requires ValidWorld(world)
    ensures q.lrlon > world.lrlon ==> x == Pow2(d) - 1
    ensures q.lrlon <= world.lrlon ==> ColumnLon(world, d, x) <= q.lrlon < ColumnLon(world, d, x + 1)
    ensures world.ullon <= q.lrlon < world.lrlon ==> 0 <= x < Pow2(d)
  {
    var interval := IntervalLon(world, d);
    if q.lrlon > world.lrlon then
      WholeSpan(world.lrlon - world.ullon, d);
      ((world.lrlon - world.ullon) / interval).Floor - 1
    else
      EdgeIndex(world.ullon, q.lrlon, world.lrlon - world.ullon, Pow2(d));
      ((q.lrlon - world.ullon) / interval).Floor
  }

  /** An east edge exactly on the world's east edge gets column `2^d`, one past the last tile. */
  lemma LRXOnEastEdge(world: World, q: Query, d: nat)
    requires ValidWorld(world) && q.lrlon == world.lrlon
    ensures GetLRXAsWritten(world, q, d) == Pow2(d)
  {
    WholeSpan(world.lrlon - world.ullon, d);
  }

  /** `getLRY` as written: the last row only when the query's south edge lies strictly south of the world. */
  function GetLRYAsWritten(world: World, q: Query, d: nat): (y: int)
    requires ValidWorld(world)
    ensures q.lrlat < world.lrlat ==> y == Pow2(d) - 1
    ensures q.lrlat >= world.lrlat ==> RowLat(world, d, y + 1) < q.lrlat <= RowLat(world, d, y)
    ensures world.lrlat < q.lrlat <= world.ullat ==> 0 <= y < Pow2(d)
  {
    var interval := IntervalLat(world, d);
    if q.lrlat < world.lrlat then
      WholeSpan(world.ullat - world.lrlat, d);
      ((world.ullat - world.lrlat) / interval).Floor - 1
    else
      EdgeIndexDown(world.ullat, q.lrlat, world.ullat - world.lrlat, Pow2(d));
      ((world.ullat - q.lrlat) / interval).Floor
  }

  /** A south edge exactly on the world's south edge gets row `2^d`, one past the last tile. */
  lemma LRYOnSouthEdge(world: World, q: Query, d: nat)
    requires ValidWorld(world) && q.lrlat == world.lrlat
    ensures GetLRYAsWritten(world, q, d) == Pow2(d)
  {
    WholeSpan(world.ullat - world.lrlat, d);
  }

  /** `getLRX` with the clamp taken on the world's east edge as well: the column is always a tile. */
  function GetLRX(world: World, q: Query, d: nat): (x: int)
    requires ValidWorld(world)
    ensures q.lrlon >= world.lrlon ==> x == Pow2(d) - 1
    ensures q.lrlon < world.lrlon ==> ColumnLon(world, d, x) <= q.lrlon < ColumnLon(world, d, x + 1)
    ensures world.ullon <= q.lrlon ==> 0 <= x < Pow2(d)
  {
    var interval := IntervalLon(world, d);
    if q.lrlon >= world.lrlon then
      WholeSpan(world.lrlon - world.ullon, d);
      ((world.lrlon - world.ullon) / interval).Floor - 1
    else
      EdgeIndex(world.ullon, q.lrlon, world.lrlon - world.ullon, Pow2(d));
      ((q.lrlon - world.ullon) / interval).Floor
  }

  /** `getLRY` with the clamp taken on the world's south edge as well: the row is always a tile. */
  function GetLRY(world: World, q: Query, d: nat): (y: int)
    requires ValidWorld(world)
    ensures q.lrlat <= world.lrlat ==> y == Pow2(d) - 1
    ensures q.lrlat > world.lrlat ==> RowLat(world, d, y + 1) < q.lrlat <= RowLat(world, d, y)
    ensures q.lrlat <= world.ullat ==> 0 <= y < Pow2(d)
  {
    var interval := IntervalLat(world, d);
    if q.lrlat <= world.lrlat then
      WholeSpan(world.ullat - world.lrlat, d);
      ((world.ullat - world.lrlat) / interval).Floor - 1
    else
      EdgeIndexDown(world.ullat, q.lrlat, world.ullat - world.lrlat, Pow2(d));
      ((world.ullat - q.lrlat) / interval).Floor
  }

  function Max(a: real, b: real): real { if a < b then b else a }
  function Min(a: real, b: real): real { if a < b then a else b }

  /**
   * `outOfBox`: the query lies wholly east, south, west or north of the world. For a
   * query whose corners are in order this is exactly "the two boxes do not meet".
   */
  function OutOfBox(world: World, q: Query): (out: bool)
    ensures ValidWorld(world) && q.ullon <= q.lrlon && q.lrlat <= q.ullat ==>
      (out <==> !(Max(q.ullon, world.ullon) <= Min(q.lrlon, world.lrlon) &&
                  Max(q.lrlat, world.lrlat) <= Min(q.ullat, world.ullat)))
  {
    if q.ullon > world.lrlon then true
    else if q.ullat < world.lrlat then true
    else if q.lrlon < world.ullon then true
    else if q.lrlat > world.ullat then true
    else false
  }

  /** The query is answered: its west edge is not east of its east edge and it meets the world. */
  predicate Succeeds(world: World, q: Query)
  {
    !(q.ullon > q.lrlon) && !OutOfBox(world, q)
  }

  /** The box spanned by tile columns `ulx .. lrx` and rows `uly .. lry`, snapped to tile edges. */
  function ResolvedBox(world: World, d: nat, ulx: int, uly: int, lrx: int, lry: int): Box
    requires ValidWorld(world)
  {
    Box(ColumnLon(world, d, ulx), RowLat(world, d, uly), ColumnLon(world, d, lrx + 1), RowLat(world, d, lry + 1))
  }

  /** Columns and rows `0 .. 2^d - 1` reproduce the world extent exactly, at every depth. */
  lemma WholeWorld(world: World, d: nat)
    requires ValidWorld(world)
    ensures ResolvedBox(world, d, 0, 0, Pow2(d) - 1, Pow2(d) - 1) == Box(world.ullon, world.ullat, world.lrlon, world.lrlat)
  {
    LastEdges(world, d);
  }

  /**
   * For a query that succeeds, the indices `processRequest` computes at depth `d`: never
   * a negative number of columns, every index in `0 .. 2^d`, and `2^d`, one past the last
   * tile, exactly for an edge lying on the world's east or south edge. The snapped box
   * contains the query box clipped to the world.
   */
  lemma ResolvedBoxCovers(world: World, q: Query, d: nat)
    requires ValidWorld(world) && Succeeds(world, q)
    ensures var ulx, uly, lrx, lry := GetULX(world, q, d), GetULY(world, q, d), GetLRXAsWritten(world, q, d), GetLRYAsWritten(world, q, d);
            var box := ResolvedBox(world, d, ulx, uly, lrx, lry);
            0 <= ulx <= lrx + 1 && 0 <= uly &&
            ulx <= Pow2(d) && uly <= Pow2(d) && 0 <= lrx <= Pow2(d) && 0 <= lry <= Pow2(d) &&
            (ulx == Pow2(d) <==> q.ullon == world.lrlon) && (uly == Pow2(d) <==> q.ullat == world.lrlat) &&
            (lrx == Pow2(d) <==> q.lrlon == world.lrlon) && (lry == Pow2(d) <==> q.lrlat == world.lrlat) &&
            box.ulLon <= Max(q.ullon, world.ullon) && box.lrLon >= Min(q.lrlon, world.lrlon) &&
            box.ulLat >= Min(q.ullat, world.ullat) && box.lrLat <= Max(q.lrlat, world.lrlat)
  {
    LastEdges(world, d);
    var ulx, lrx := GetULX(world, q, d), GetLRXAsWritten(world, q, d);
    if q.lrlon == world.lrlon {
      LRXOnEastEdge(world, q, d);
    }
    if q.lrlat == world.lrlat {
      LRYOnSouthEdge(world, q, d);
    }
    if world.ullon <= q.ullon && q.lrlon < world.lrlon {
      // both edges inside: the east edge's column is at least the west edge's
      assert ColumnLon(world, d, ulx) <= q.ullon <= q.lrlon < ColumnLon(world, d, lrx + 1);
      ColumnsOrdered(world, d, ulx, lrx + 1);
    }
  }

  /**
   * A query whose west edge lies exactly on the world's east edge passes `outOfBox`,
   * gets `UL_x = 2^d`, and so either no column at all or one column of tiles `x = 2^d`,
   * which do not exist.
   */
  lemma WestEdgeOnEastEdge(world: World, q: Query, d: nat)
    requires ValidWorld(world) && q.ullon == world.lrlon <= q.lrlon
    requires world.lrlat <= q.ullat && q.lrlat <= world.ullat
    ensures Succeeds(world, q) && GetULX(world, q, d) == Pow2(d)
    ensures GetLRXAsWritten(world, q, d) - GetULX(world, q, d) + 1 == if q.lrlon == world.lrlon then 1 else 0
  {
    if q.lrlon == world.lrlon {
      LRXOnEastEdge(world, q, d);
    }
  }

  /** The same for rows: a north edge exactly on the world's south edge gets `UL_y = 2^d`. */
  lemma NorthEdgeOnSouthEdge(world: World, q: Query, d: nat)
    requires ValidWorld(world) && q.lrlat <= q.ullat == world.lrlat
    requires q.ullon <= q.lrlon && q.ullon <= world.lrlon && world.ullon <= q.lrlon
    ensures Succeeds(world, q) && GetULY(world, q, d) == Pow2(d)
    ensures GetLRYAsWritten(world, q, d) - GetULY(world, q, d) + 1 == if q.lrlat == world.lrlat then 1 else 0
  {
    if q.lrlat == world.lrlat {
      LRYOnSouthEdge(world, q, d);
    }
  }

  /**
   * `outOfBox` with the tests closed: a query that only touches the world along an edge
   * misses it too. It differs from `outOfBox` on such touching queries alone.
   */
  function MissesWorld(world: World, q: Query): (out: bool)
    ensures OutOfBox(world, q) ==> out
    ensures out && !OutOfBox(world, q) ==>
      q.ullon == world.lrlon || q.ullat == world.lrlat || q.lrlon == world.ullon || q.lrlat == world.ullat
  {
    q.ullon >= world.lrlon || q.ullat <= world.lrlat || q.lrlon <= world.ullon || q.lrlat >= world.ullat
  }

  /**
   * With the closed tests and the corrected clamps, a query whose west edge is not east of
   * its east edge gets only real tiles, at least one column, and at least one row unless
   * its latitudes are inverted.
   */
  lemma CorrectedTilesInRange(world: World, q: Query, d: nat)
    requires ValidWorld(world) && q.ullon <= q.lrlon && !MissesWorld(world, q)
    ensures var ulx, uly, lrx, lry := GetULX(world, q, d), GetULY(world, q, d), GetLRX(world, q, d), GetLRY(world, q, d);
            0 <= ulx <= lrx < Pow2(d) && 0 <= uly < Pow2(d) && 0 <= lry < Pow2(d) &&
            (q.lrlat <= q.ullat ==> uly <= lry)
  {
    var ulx, uly, lrx, lry := GetULX(world, q, d), GetULY(world, q, d), GetLRX(world, q, d), GetLRY(world, q, d);
    if world.ullon <= q.ullon && q.lrlon < world.lrlon {
      assert ColumnLon(world, d, ulx) <= q.ullon <= q.lrlon < ColumnLon(world, d, lrx + 1);
      ColumnsOrdered(world, d, ulx, lrx + 1);
    }
    if q.lrlat <= q.ullat && q.ullat <= world.ullat && world.lrlat < q.lrlat {
      assert RowLat(world, d, lry + 1) < q.lrlat <= q.ullat <= RowLat(world, d, uly);
      RowsOrdered(world, d, uly, lry + 1);
    }
  }

  /** For a query that succeeds, the grid has a negative size only through its row count. */
  lemma SucceedingGridRows(world: World, q: Query, d: nat)
    requires ValidWorld(world) && Succeeds(world, q)
    ensures var ulx, uly, lrx, lry := GetULX(world, q, d), GetULY(world, q, d), GetLRXAsWritten(world, q, d), GetLRYAsWritten(world, q, d);
            (lry - uly + 1 < 0 || lrx - ulx + 1 < 0) <==> uly > lry + 1
  {
    ResolvedBoxCovers(world, q, d);
  }

  /**
   * A query whose west edge lies two columns or more east of its east edge, both inside
   * the world, gets a negative column count, so building its grid throws although the
   * query is reported as failed.
   */
  lemma InvertedColumnsNegative(world: World, q: Query, d: nat)
    requires ValidWorld(world) && world.ullon <= q.lrlon
    requires q.lrlon + 2.0 * IntervalLon(world, d) <= q.ullon < world.lrlon
    ensures !Succeeds(world, q)
    ensures GetLRXAsWritten(world, q, d) - GetULX(world, q, d) + 1 < 0
  {
    var ulx, lrx := GetULX(world, q, d), GetLRXAsWritten(world, q, d);
    var iv := IntervalLon(world, d);
    assert ColumnLon(world, d, lrx + 2) == ColumnLon(world, d, lrx) + 2.0 * iv;
    ColumnsOrdered(world, d, lrx + 2, ulx + 1);
  }

  /** Column edges increase from west to east. */
  lemma ColumnsOrdered(world: World, d: nat, a: int, b: int)
    requires ValidWorld(world) && ColumnLon(world, d, a) < ColumnLon(world, d, b)
    ensures a < b
  {
    var iv := IntervalLon(world, d);
    assert iv > 0.0;
    if b <= a {
      MulLe(b as real, a as real, iv);
    }
  }

  /** Row edges decrease from north to south. */
  lemma RowsOrdered(world: World, d: nat, a: int, b: int)
    requires ValidWorld(world) && RowLat(world, d, b) < RowLat(world, d, a)
    ensures a < b
  {
    var iv := IntervalLat(world, d);
    assert iv > 0.0;
    if b <= a {
      MulLe(b as real, a as real, iv);
    }
  }

  /**
   * A query that succeeds gets a negative number of rows only when its north edge lies
   * south of its south edge, the one inversion `processRequest` does not reject.
   */
  lemma NegativeRowsNeedInvertedLatitude(world: World, q: Query, d: nat)
    requires ValidWorld(world) && Succeeds(world, q)
    requires GetULY(world, q, d) > GetLRYAsWritten(world, q, d) + 1
    ensures q.ullat < q.lrlat
  {
    var uly, lry := GetULY(world, q, d), GetLRYAsWritten(world, q, d);
    if q.lrlat <= q.ullat {
      if q.lrlat == world.lrlat {
        LRYOnSouthEdge(world, q, d);
      } else if q.lrlat > world.lrlat && q.ullat <= world.ullat {
        assert RowLat(world, d, lry + 1) < q.lrlat <= q.ullat <= RowLat(world, d, uly);
        RowsOrdered(world, d, uly, lry + 1);
      }
    }
  }

  /** `"d" + depth + "_x" + x + "_y" + y + ".png"`: the file of tile `(depth, x, y)`. */
  function TileName(depth: nat, x: int, y: int): string
  {
    Concat(["d", IntToString(depth), "_x", IntToString(x), "_y", IntToString(y), ".png"])
  }

  /** The parts joined in order, as Java's chain of `+` on strings. */
  function Concat(parts: seq<string>): string
  {
    if parts == [] then "" else parts[0] + Concat(parts[1..])
  }

  /**
   * The grid-filling loops of `processRequest`: `LR_y - UL_y + 1` rows and
   * `LR_x - UL_x + 1` columns; cell `[i, j]` names tile `(depth, UL_x + j, UL_y + i)`.
   */
  method BuildGrid(depth: nat, ulx: int, uly: int, lrx: int, lry: int) returns (grid: array2<string>)
    requires ulx <= lrx + 1 && uly <= lry + 1
    ensures fresh(grid)
    ensures grid.Length0 == lry - uly + 1 && grid.Length1 == lrx - ulx + 1
    ensures forall i, j :: 0 <= i < grid.Length0 && 0 <= j < grid.Length1 ==>
      grid[i, j] == TileName(depth, ulx + j, uly + i)
  {
    grid := new string[lry - uly + 1, lrx - ulx + 1];
    var i := 0;
    while i < lry - uly + 1
      invariant 0 <= i <= grid.Length0
      invariant forall i', j :: 0 <= i' < i && 0 <= j < grid.Length1 ==>
        grid[i', j] == TileName(depth, ulx + j, uly + i')
    {
      FillRow(grid, depth, ulx, uly, i);
      i := i + 1;
    }
  }

  /** The inner loop of the grid filling: row `i` gets the tiles of row `UL_y + i`, columns from `UL_x`. */
  method FillRow(grid: array2<string>, depth: nat, ulx: int, uly: int, i: nat)
    requires i < grid.Length0
    modifies grid
    ensures forall j :: 0 <= j < grid.Length1 ==> grid[i, j] == TileName(depth, ulx + j, uly + i)
    ensures forall i', j :: 0 <= i' < grid.Length0 && i' != i && 0 <= j < grid.Length1 ==>
      grid[i', j] == old(grid[i', j])
  {
    var j := 0;
    while j < grid.Length1
      invariant 0 <= j <= grid.Length1
      invariant forall j' :: 0 <= j' < j ==> grid[i, j'] == TileName(depth, ulx + j', uly + i)
      invariant forall i', j' :: 0 <= i' < grid.Length0 && i' != i && 0 <= j' < grid.Length1 ==>
        grid[i', j'] == old(grid[i', j'])
    {
      var num1 := ulx + j;
      var num2 := uly + i;
      grid[i, j] := TileName(depth, num1, num2);
      j := j + 1;
    }
  }

  /**
   * `processRequest`: the depth, the four indices, the snapped box and the grid are computed
   * for every query; `query_success` records whether the west edge is not east of the east
   * edge and the box meets the world. `None` stands for the `NegativeArraySizeException`
   * raised when the grid would have a negative number of rows or columns.
   */
  method ProcessRequest(world: World, q: Query) returns (r: Option<Raster>)
    requires ValidWorld(world) && q.w > 0.0
    ensures var d := GetDepth(world, q);
      var ulx, uly, lrx, lry := GetULX(world, q, d), GetULY(world, q, d), GetLRXAsWritten(world, q, d), GetLRYAsWritten(world, q, d);
      var box := ResolvedBox(world, d, ulx, uly, lrx, lry);
      (r.None? <==> lry - uly + 1 < 0 || lrx - ulx + 1 < 0) &&
      (r.Some? ==>
        r.value.querySuccess == Succeeds(world, q) && r.value.depth == d &&
        r.value.rasterUlLon == box.ulLon && r.value.rasterUlLat == box.ulLat &&
        r.value.rasterLrLon == box.lrLon && r.value.rasterLrLat == box.lrLat &&
        r.value.renderGrid.Some? &&
        var grid := r.value.renderGrid.value;
        grid.Length0 == lry - uly + 1 && grid.Length1 == lrx - ulx + 1 &&
        forall i, j :: 0 <= i < grid.Length0 && 0 <= j < grid.Length1 ==>
          grid[i, j] == TileName(d, ulx + j, uly + i))
    ensures r.Some? && r.value.renderGrid.Some? ==> fresh(r.value.renderGrid.value)
  {
    var depth := GetDepth(world, q);
    var success := true;
    if q.ullon > q.lrlon {
      success := false;
    } else if OutOfBox(world, q) {
      success := false;
    }
    var ulx := GetULX(world, q, depth);
    var uly := GetULY(world, q, depth);
    var lrx := GetLRXAsWritten(world, q, depth);
    var lry := GetLRYAsWritten(world, q, depth);
    var box := ResolvedBox(world, depth, ulx, uly, lrx, lry);
    if lry - uly + 1 < 0 || lrx - ulx + 1 < 0 {
      return None;
    }
    var grid := BuildGrid(depth, ulx, uly, lrx, lry);
    r := Some(Raster(Some(grid), box.ulLon, box.ulLat, box.lrLon, box.lrLat, depth, success));
  }
}
