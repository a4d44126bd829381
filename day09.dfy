/** Day 9: rectangles between red tiles and the rectilinear loop they form.

    Tiles are unit squares of the grid; the loop through them is turned into
    exact corner points on the grid lines, and those into the vertical and
    horizontal edges of the boundary.  The second part keeps only the
    rectangles whose interior no boundary edge crosses. */
module Day09 {

  datatype Tile = Tile(x: int, y: int)
  datatype Point = Point(x: int, y: int)
  datatype Rect = Rect(left: int, right: int, bottom: int, top: int)
  /** North is towards smaller `y`, West towards smaller `x`. */
  datatype Direction = North | South | East | West
  datatype Edge = Edge(p1: Point, p2: Point)

  function Min(a: int, b: int): int {
    if a <= b then a else b
  }

  function Max(a: int, b: int): int {
    if a <= b then b else a
  }

  function Abs(a: int): nat {
    if a < 0 then -a else a
  }

  // ---------------------------------------------------------------------
  // Rectangles

  /** The smallest rectangle of grid lines covering both tiles. */
  function FromTiles(t1: Tile, t2: Tile): (r: Rect)
    ensures r.left < r.right && r.bottom < r.top
    ensures r.left <= t1.x < r.right && r.left <= t2.x < r.right
    ensures r.bottom <= t1.y < r.top && r.bottom <= t2.y < r.top
    ensures r.right - r.left == Abs(t1.x - t2.x) + 1
    ensures r.top - r.bottom == Abs(t1.y - t2.y) + 1
  {
    Rect(Min(t1.x, t2.x), Max(t1.x, t2.x) + 1, Min(t1.y, t2.y), Max(t1.y, t2.y) + 1)
  }

  lemma FromTilesSymmetric(t1: Tile, t2: Tile)
    ensures FromTiles(t1, t2) == FromTiles(t2, t1)
  {
  }

  function Area(r: Rect): int {
    (r.right - r.left) * (r.top - r.bottom)
  }

  /** A rectangle spanned by two tiles counts both tiles' rows and columns. */
  lemma TileArea(t1: Tile, t2: Tile)
    ensures Area(FromTiles(t1, t2)) == (Abs(t1.x - t2.x) + 1) * (Abs(t1.y - t2.y) + 1)
    ensures Area(FromTiles(t1, t2)) > 0
  {
    var r := FromTiles(t1, t2);
    assert (r.right - r.left) * (r.top - r.bottom) >= 1 * 1;
  }

  // ---------------------------------------------------------------------
  // Directions and corners

  /** Two tiles in the same row or the same column, but not the same tile. */
  predicate Aligned(t1: Tile, t2: Tile) {
    (t1.x == t2.x) != (t1.y == t2.y)
  }

  /** The direction of travel from `t1` to `t2`. */
  function DirectionOf(t1: Tile, t2: Tile): (d: Direction)
    requires Aligned(t1, t2)
    ensures d == West <==> t2.x < t1.x
    ensures d == East <==> t2.x > t1.x
    ensures d == North <==> t2.y < t1.y
    ensures d == South <==> t2.y > t1.y
  {
    var dx := t2.x - t1.x;
    var dy := t2.y - t1.y;
    if dx < 0 then West
    else if dx > 0 then East
    else if dy < 0 then North
    else South
  }

  function Opposite(d: Direction): Direction {
    match d
    case North => South
    case South => North
    case East => West
    case West => East
  }

  lemma DirectionReversed(t1: Tile, t2: Tile)
    requires Aligned(t1, t2)
    ensures DirectionOf(t2, t1) == Opposite(DirectionOf(t1, t2))
  {
  }

  predicate Horizontal(d: Direction) {
    d == East || d == West
  }

  /** A quarter turn: one direction horizontal, the other vertical. */
  predicate Turn(d0: Direction, d2: Direction) {
    Horizontal(d0) != Horizontal(d2)
  }

  /** The corner of `tile`'s square at which the boundary turns from `d0` to
      `d2`: on its right side exactly when one of them is South, on its lower
      side exactly when one of them is West. */
  function GetCorner(d0: Direction, tile: Tile, d2: Direction): (p: Point)
    requires Turn(d0, d2)
    ensures p.x == tile.x + (if d0 == South || d2 == South then 1 else 0)
    ensures p.y == tile.y + (if d0 == West || d2 == West then 1 else 0)
  {
    var x, y := tile.x, tile.y;
    match (d0, d2)
    // convex corners
    case (North, East) => Point(x, y)
    case (East, South) => Point(x + 1, y)
    case (South, West) => Point(x + 1, y + 1)
    case (West, North) => Point(x, y + 1)
    // concave corners
    case (South, East) => Point(x + 1, y)
    case (East, North) => Point(x, y)
    case (North, West) => Point(x, y + 1)
    case (West, South) => Point(x + 1, y + 1)
  }

  /** The corner does not depend on which way the boundary is traversed. */
  lemma CornerSymmetric(d0: Direction, tile: Tile, d2: Direction)
    requires Turn(d0, d2)
    ensures GetCorner(d0, tile, d2) == GetCorner(d2, tile, d0)
  {
  }

  // ---------------------------------------------------------------------
  // The loop of tiles

  function Next(n: nat, i: nat): nat
    requires i < n
  {
    if i + 1 == n then 0 else i + 1
  }

  function Prev(n: nat, i: nat): nat
    requires i < n
  {
    if i == 0 then n - 1 else i - 1
  }

  /** Consecutive tiles (cyclically) are aligned, and the boundary makes a
      quarter turn at every tile: what the direction and corner computations
      need in order not to panic. */
  ghost predicate ValidLoop(tiles: seq<Tile>) {
    && (forall i :: 0 <= i < |tiles| ==> Aligned(tiles[i], tiles[Next(|tiles|, i)]))
    && (forall i :: 0 <= i < |tiles| ==> Turn(Leg(tiles, Prev(|tiles|, i)), Leg(tiles, i)))
  }

  /** The direction of the boundary leg from tile `i` to the next tile. */
  ghost function Leg(tiles: seq<Tile>, i: nat): Direction
    requires i < |tiles|
    requires forall k :: 0 <= k < |tiles| ==> Aligned(tiles[k], tiles[Next(|tiles|, k)])
  {
    DirectionOf(tiles[i], tiles[Next(|tiles|, i)])
  }

  ghost function CornerAt(tiles: seq<Tile>, i: nat): Point
    requires ValidLoop(tiles) && i < |tiles|
  {
    GetCorner(Leg(tiles, Prev(|tiles|, i)), tiles[i], Leg(tiles, i))
  }

  /** The source's cyclic indices `(i + n - 1) % n` and `(i + 1) % n`. */
  lemma CyclicIndices(n: nat, i: nat)
    requires i < n
    ensures (i + n - 1) % n == Prev(n, i) && (i + 1) % n == Next(n, i)
  {
    if i + 1 < n {
      ModOfLess(i + 1, n);
    } else {
      ModSelf(n);
    }
    if i == 0 {
      ModOfLess(n - 1, n);
    } else {
      ModShift(i - 1, n);
    }
  }

  /** One corner per tile, from the legs before and after it. */
  method ComputeCorners(tiles: seq<Tile>) returns (corners: seq<Point>)
    requires ValidLoop(tiles)
    ensures |corners| == |tiles|
    ensures forall i :: 0 <= i < |tiles| ==> corners[i] == CornerAt(tiles, i)
  {
    var n := |tiles|;
    corners := [];
    for i := 0 to n
      invariant |corners| == i
      invariant forall k :: 0 <= k < i ==> corners[k] == CornerAt(tiles, k)
    {
      CyclicIndices(n, i);
      var p0 := tiles[(i + n - 1) % n];
      var p1 := tiles[i];
      var p2 := tiles[(i + 1) % n];
      var d0 := DirectionOf(p0, p1);
      var d2 := DirectionOf(p1, p2);
      assert d0 == Leg(tiles, Prev(n, i)) && d2 == Leg(tiles, i);
      corners := corners + [GetCorner(d0, p1, d2)];
    }
  }

  /** Along the loop the legs alternate between horizontal and vertical. */
  lemma {:induction false} LegsAlternate(tiles: seq<Tile>, i: nat)
    requires ValidLoop(tiles) && i < |tiles|
    ensures Horizontal(Leg(tiles, i)) == (Horizontal(Leg(tiles, 0)) == (i % 2 == 0))
  {
    if i > 0 {
      LegsAlternate(tiles, i - 1);
      assert Turn(Leg(tiles, Prev(|tiles|, i)), Leg(tiles, i));
    }
  }

  /** A loop with a quarter turn at every tile has an even number of tiles. */
  lemma LoopIsEven(tiles: seq<Tile>)
    requires ValidLoop(tiles)
    ensures |tiles| % 2 == 0
  {
    var n := |tiles|;
    if n > 0 {
      LegsAlternate(tiles, n - 1);
      assert Turn(Leg(tiles, Prev(n, 0)), Leg(tiles, 0));
    }
  }

  /** Consecutive corners lie on one grid line, vertical or horizontal like
      the leg between their tiles. */
  lemma CornersAligned(tiles: seq<Tile>, i: nat)
    requires ValidLoop(tiles) && i < |tiles|
    ensures var j := Next(|tiles|, i);
      if Horizontal(Leg(tiles, i)) then CornerAt(tiles, i).y == CornerAt(tiles, j).y
      else CornerAt(tiles, i).x == CornerAt(tiles, j).x
  {
    var n := |tiles|;
    var j := Next(n, i);
    assert Prev(n, j) == i;
    assert Turn(Leg(tiles, Prev(n, i)), Leg(tiles, i));
    assert Turn(Leg(tiles, i), Leg(tiles, j));
  }

  // ---------------------------------------------------------------------
  // Edges

  /** The legs `2i -> 2i+1`, taken as the vertical edges. */
  function VerticalEdges(c: seq<Point>): (es: seq<Edge>)
    ensures |es| == |c| / 2
  {
    seq(|c| / 2, i requires 0 <= i < |c| / 2 => Edge(c[2 * i], c[2 * i + 1]))
  }

  /** The legs `2i-1 -> 2i` (cyclically), taken as the horizontal edges. */
  function HorizontalEdges(c: seq<Point>): (es: seq<Edge>)
    ensures |es| == |c| / 2
  {
    seq(|c| / 2, i requires 0 <= i < |c| / 2 => Edge(c[2 * i], c[if 2 * i == 0 then |c| - 1 else 2 * i - 1]))
  }

  /** Splits the corner cycle into the even legs and the odd legs. */
  method ExtractEdges(corners: seq<Point>) returns (verticals: seq<Edge>, horizontals: seq<Edge>)
    ensures verticals == VerticalEdges(corners)
    ensures horizontals == HorizontalEdges(corners)
  {
    var n := |corners|;
    verticals, horizontals := [], [];
    for i := 0 to n / 2
      invariant verticals == VerticalEdges(corners)[..i]
      invariant horizontals == HorizontalEdges(corners)[..i]
    {
      verticals := verticals + [Edge(corners[2 * i], corners[2 * i + 1])];
      var prevIdx := if 2 * i == 0 then n - 1 else 2 * i - 1;
      horizontals := horizontals + [Edge(corners[2 * i], corners[prevIdx])];
    }
  }

  /** Every leg of the boundary is one of the extracted edges: leg `k` is the
      vertical edge `k/2` when `k` is even, and otherwise the horizontal edge
      `(k+1)/2` (cyclically), with its ends swapped. */
  lemma EdgesCoverBoundary(c: seq<Point>, k: nat)
    requires |c| % 2 == 0 && k < |c|
    ensures k % 2 == 0 ==> VerticalEdges(c)[k / 2] == Edge(c[k], c[Next(|c|, k)])
    ensures k % 2 == 1 ==> HorizontalEdges(c)[(k + 1) / 2 % (|c| / 2)] == Edge(c[Next(|c|, k)], c[k])
  {
    if k % 2 == 0 {
      EvenLeg(c, k / 2);
    } else {
      OddLeg(c, (k + 1) / 2);
    }
  }

  /** Leg `2m` is vertical edge `m`. */
  lemma EvenLeg(c: seq<Point>, m: nat)
    requires |c| % 2 == 0 && 2 * m < |c|
    ensures VerticalEdges(c)[m] == Edge(c[2 * m], c[Next(|c|, 2 * m)])
  {
    assert 2 * (|c| / 2) == |c|;
  }

  /** Leg `2m - 1` is horizontal edge `m` (edge 0 when `2m` is the length),
      ends swapped. */
  lemma OddLeg(c: seq<Point>, m: nat)
    requires |c| % 2 == 0 && 0 < m && 2 * m - 1 < |c|
    ensures HorizontalEdges(c)[m % (|c| / 2)] == Edge(c[Next(|c|, 2 * m - 1)], c[2 * m - 1])
  {
    var h := |c| / 2;
    assert 2 * h == |c|;
    if m == h {
      ModSelf(h);
      WrapLeg(c);
      assert Next(|c|, 2 * m - 1) == 0;
    } else {
      ModOfLess(m, h);
      InnerLeg(c, m);
      assert Next(|c|, 2 * m - 1) == 2 * m;
    }
  }

  lemma InnerLeg(c: seq<Point>, m: nat)
    requires |c| % 2 == 0 && 0 < m && 2 * m < |c|
    ensures HorizontalEdges(c)[m] == Edge(c[2 * m], c[2 * m - 1])
  {
  }

  lemma ModSelf(h: nat)
    requires h > 0
    ensures h % h == 0
  {
  }

  lemma ModShift(m: nat, h: nat)
    requires m < h
    ensures (m + h) % h == m
  {
  }

  lemma ModOfLess(m: nat, h: nat)
    requires m < h
    ensures m % h == m
  {
  }

  lemma WrapLeg(c: seq<Point>)
    requires |c| >= 2
    ensures HorizontalEdges(c)[0] == Edge(c[0], c[|c| - 1])
  {
  }

  /** When the first leg is vertical, the vertical edges are vertical and the
      horizontal edges horizontal. */
  lemma EdgesAxisAligned(tiles: seq<Tile>, c: seq<Point>)
    requires ValidLoop(tiles) && |c| == |tiles| >= 2
    requires forall i :: 0 <= i < |tiles| ==> c[i] == CornerAt(tiles, i)
    requires tiles[0].x == tiles[1].x
    ensures forall k :: 0 <= k < |c| / 2 ==> VerticalEdges(c)[k].p1.x == VerticalEdges(c)[k].p2.x
    ensures forall k :: 0 <= k < |c| / 2 ==> HorizontalEdges(c)[k].p1.y == HorizontalEdges(c)[k].p2.y
  {
    var n := |c|;
    LoopIsEven(tiles);
    assert !Horizontal(Leg(tiles, 0));
    forall k | 0 <= k < n / 2 ensures VerticalEdges(c)[k].p1.x == VerticalEdges(c)[k].p2.x {
      LegsAlternate(tiles, 2 * k);
      CornersAligned(tiles, 2 * k);
    }
    forall k | 0 <= k < n / 2 ensures HorizontalEdges(c)[k].p1.y == HorizontalEdges(c)[k].p2.y {
      var m := if k == 0 then n - 1 else 2 * k - 1;
      LegsAlternate(tiles, m);
      CornersAligned(tiles, m);
      assert Next(n, m) == 2 * k;
    }
  }

  // ---------------------------------------------------------------------
  // Rectangles against edges

  /** `y` lies strictly between `lo` and `hi`. */
  predicate InOpen(y: real, lo: int, hi: int) {
    lo as real < y < hi as real
  }

  /** Whether the edge, taken as vertical at `x = e.p1.x`, passes through the
      open interior of `r`: its line is strictly inside, and the open spans
      overlap in some (possibly half-integer) point. */
  function TouchVertical(r: Rect, e: Edge): (b: bool)
    ensures b <==> (r.left < e.p1.x < r.right &&
                    exists y: real :: InOpen(y, r.bottom, r.top) && InOpen(y, Min(e.p1.y, e.p2.y), Max(e.p1.y, e.p2.y)))
  {
    var x := e.p1.x;
    var y1, y2 := Min(e.p1.y, e.p2.y), Max(e.p1.y, e.p2.y);
    if !(r.left < x < r.right) then false
    else
      var lo, hi := Max(r.bottom, y1), Min(r.top, y2);
      var mid := (lo as real + hi as real) / 2.0;
      assert lo < hi ==> InOpen(mid, r.bottom, r.top) && InOpen(mid, y1, y2);
      lo < hi
  }

  /** Whether the edge, taken as horizontal at `y = e.p1.y`, passes through
      the open interior of `r`. */
  function TouchHorizontal(r: Rect, e: Edge): (b: bool)
    ensures b <==> (r.bottom < e.p1.y < r.top &&
                    exists x: real :: InOpen(x, r.left, r.right) && InOpen(x, Min(e.p1.x, e.p2.x), Max(e.p1.x, e.p2.x)))
  {
    var y := e.p1.y;
    var x1, x2 := Min(e.p1.x, e.p2.x), Max(e.p1.x, e.p2.x);
    if !(r.bottom < y < r.top) then false
    else
      var lo, hi := Max(r.left, x1), Min(r.right, x2);
      var mid := (lo as real + hi as real) / 2.0;
      assert lo < hi ==> InOpen(mid, r.left, r.right) && InOpen(mid, x1, x2);
      lo < hi
  }

  /** For a genuinely vertical (horizontal) edge the test does not depend on
      the order of its ends. */
  lemma TouchIgnoresOrder(r: Rect, e: Edge)
    ensures e.p1.x == e.p2.x ==> TouchVertical(r, e) == TouchVertical(r, Edge(e.p2, e.p1))
    ensures e.p1.y == e.p2.y ==> TouchHorizontal(r, e) == TouchHorizontal(r, Edge(e.p2, e.p1))
  {
  }

  function AnyTouchVertical(r: Rect, es: seq<Edge>): (b: bool)
    ensures b <==> exists k :: 0 <= k < |es| && TouchVertical(r, es[k])
  {
    if es == [] then false
    else TouchVertical(r, es[0]) || (assert forall k :: 0 <= k < |es| - 1 ==> es[1..][k] == es[k + 1]; AnyTouchVertical(r, es[1..]))
  }

  function AnyTouchHorizontal(r: Rect, es: seq<Edge>): (b: bool)
    ensures b <==> exists k :: 0 <= k < |es| && TouchHorizontal(r, es[k])
  {
    if es == [] then false
    else TouchHorizontal(r, es[0]) || (assert forall k :: 0 <= k < |es| - 1 ==> es[1..][k] == es[k + 1]; AnyTouchHorizontal(r, es[1..]))
  }

  /** No vertical edge and no horizontal edge crosses the interior of `r`. */
  ghost predicate Clear(r: Rect, vs: seq<Edge>, hs: seq<Edge>) {
    && (forall k :: 0 <= k < |vs| ==> !TouchVertical(r, vs[k]))
    && (forall k :: 0 <= k < |hs| ==> !TouchHorizontal(r, hs[k]))
  }

  // ---------------------------------------------------------------------
  // The two searches

  ghost predicate ClearPair(tiles: seq<Tile>, vs: seq<Edge>, hs: seq<Edge>, i: nat, j: nat)
    requires i < |tiles| && j < |tiles|
  {
    Clear(FromTiles(tiles[i], tiles[j]), vs, hs)
  }

  ghost function PairArea(tiles: seq<Tile>, i: nat, j: nat): int
    requires i < |tiles| && j < |tiles|
  {
    Area(FromTiles(tiles[i], tiles[j]))
  }

  /** `m` is the largest area over pairs of tiles, or 0 without pairs. */
  ghost predicate IsMaxArea(tiles: seq<Tile>, m: int) {
    && (forall i, j :: 0 <= i < j < |tiles| ==> PairArea(tiles, i, j) <= m)
    && (m == 0 || exists i, j :: 0 <= i < j < |tiles| && m == PairArea(tiles, i, j))
  }

  /** `m` is the largest area over pairs of tiles whose rectangle is clear of
      the edges, or 0 without such pairs. */
  ghost predicate IsMaxClearArea(tiles: seq<Tile>, vs: seq<Edge>, hs: seq<Edge>, m: int) {
    && (forall i, j :: 0 <= i < j < |tiles| && ClearPair(tiles, vs, hs, i, j) ==> PairArea(tiles, i, j) <= m)
    && (m == 0 || exists i, j :: 0 <= i < j < |tiles| && ClearPair(tiles, vs, hs, i, j) && m == PairArea(tiles, i, j))
  }

  method SolvePart1(tiles: seq<Tile>) returns (maxArea: int)
    ensures IsMaxArea(tiles, maxArea)
    ensures |tiles| >= 2 <==> maxArea > 0
  {
    var n := |tiles|;
    maxArea := 0;
    for i := 0 to n
      invariant forall a, b :: 0 <= a < b < n && a < i ==> PairArea(tiles, a, b) <= maxArea
      invariant maxArea == 0 || exists a, b :: 0 <= a < b < n && maxArea == PairArea(tiles, a, b)
      invariant maxArea >= 0
    {
      for j := i + 1 to n
        invariant forall a, b :: 0 <= a < b < n && (a < i || (a == i && b < j)) ==> PairArea(tiles, a, b) <= maxArea
        invariant maxArea == 0 || exists a, b :: 0 <= a < b < n && maxArea == PairArea(tiles, a, b)
        invariant maxArea >= 0
      {
        var rect := FromTiles(tiles[i], tiles[j]);
        assert Area(rect) == PairArea(tiles, i, j);
        maxArea := Max(maxArea, Area(rect));
      }
    }
    if n >= 2 {
      TileArea(tiles[0], tiles[1]);
      assert PairArea(tiles, 0, 1) > 0;
    }
  }

  method SolvePart2(tiles: seq<Tile>) returns (maxArea: int)
    requires ValidLoop(tiles)
    ensures var c := Corners(tiles);
      IsMaxClearArea(tiles, VerticalEdges(c), HorizontalEdges(c), maxArea)
  {
    var corners := ComputeCorners(tiles);
    assert corners == Corners(tiles);
    var verticals, horizontals := ExtractEdges(corners);
    var n := |tiles|;
    maxArea := 0;
    for i := 0 to n
      invariant ClearBest(tiles, verticals, horizontals, i, i + 1, maxArea)
    {
      for j := i + 1 to n
        invariant ClearBest(tiles, verticals, horizontals, i, j, maxArea)
      {
        var rect := FromTiles(tiles[i], tiles[j]);
        var intersects := AnyTouchVertical(rect, verticals) || AnyTouchHorizontal(rect, horizontals);
        assert !intersects <==> ClearPair(tiles, verticals, horizontals, i, j);
        ClearBestStep(tiles, verticals, horizontals, i, j, maxArea);
        if !intersects {
          maxArea := Max(maxArea, Area(rect));
        }
      }
      ClearBestRow(tiles, verticals, horizontals, i, maxArea);
    }
  }

  /** `m` is the largest clear area among the pairs before `(i, j)` in the
      search order, or 0 without such pairs. */
  ghost predicate ClearBest(tiles: seq<Tile>, vs: seq<Edge>, hs: seq<Edge>, i: nat, j: nat, m: int) {
    && (forall a, b :: 0 <= a < b < |tiles| && (a < i || (a == i && b < j)) && ClearPair(tiles, vs, hs, a, b) ==>
          PairArea(tiles, a, b) <= m)
    && (m == 0 || exists a, b :: 0 <= a < b < |tiles| && ClearPair(tiles, vs, hs, a, b) && m == PairArea(tiles, a, b))
  }

  /** Trying the pair `(i, j)` moves the search on by one pair. */
  lemma ClearBestStep(tiles: seq<Tile>, vs: seq<Edge>, hs: seq<Edge>, i: nat, j: nat, m: int)
    requires i < j < |tiles| && ClearBest(tiles, vs, hs, i, j, m)
    ensures ClearBest(tiles, vs, hs, i, j + 1,
      if ClearPair(tiles, vs, hs, i, j) then Max(m, PairArea(tiles, i, j)) else m)
  {
  }

  /** Finishing the pairs that start at `i` starts the pairs at `i + 1`. */
  lemma ClearBestRow(tiles: seq<Tile>, vs: seq<Edge>, hs: seq<Edge>, i: nat, m: int)
    requires i < |tiles| && ClearBest(tiles, vs, hs, i, |tiles|, m)
    ensures ClearBest(tiles, vs, hs, i + 1, i + 2, m)
  {
  }

  /** The corners of the whole loop. */
  ghost function Corners(tiles: seq<Tile>): (c: seq<Point>)
    requires ValidLoop(tiles)
    ensures |c| == |tiles| && forall i :: 0 <= i < |tiles| ==> c[i] == CornerAt(tiles, i)
  {
    seq(|tiles|, i requires 0 <= i < |tiles| => CornerAt(tiles, i))
  }

  /** The second search ranges over a subset of the pairs of the first. */
  lemma ClearAtMostAll(tiles: seq<Tile>, vs: seq<Edge>, hs: seq<Edge>, all: int, clear: int)
    requires IsMaxArea(tiles, all) && IsMaxClearArea(tiles, vs, hs, clear)
    ensures clear <= all
  {
    if clear != 0 {
      var i, j :| 0 <= i < j < |tiles| && ClearPair(tiles, vs, hs, i, j) && clear == PairArea(tiles, i, j);
    } else if all != 0 {
      var i, j :| 0 <= i < j < |tiles| && all == PairArea(tiles, i, j);
      TileArea(tiles[i], tiles[j]);
    }
  }
}
