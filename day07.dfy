/** Day 7: the scanner that reads the beam-splitter manifold.  It keeps the
    non-empty lines, takes the height from their number and the width from
    the first of them, and scans every character in row-major order,
    recording the start cell `S` and the set of splitters `^`. */
module Day07 {

  datatype Point = Point(row: nat, col: nat)

  datatype Grid = Grid(width: nat, height: nat, start: Point, splitters: set<Point>)

  /** The lines that are not empty, in order. */
  function NonEmpty(lines: seq<string>): (r: seq<string>)
    ensures |r| <= |lines|
    ensures forall k :: 0 <= k < |r| ==> r[k] != []
  {
    if lines == [] then []
    else
      var rest := NonEmpty(lines[..|lines| - 1]);
      var last := lines[|lines| - 1];
      if last == [] then rest else rest + [last]
  }

  /** `p` holds character `ch` in `ls`. */
  predicate At(ls: seq<string>, p: Point, ch: char) {
    p.row < |ls| && p.col < |ls[p.row]| && ls[p.row][p.col] == ch
  }

  /** `p` comes before `(i, j)` in row-major order. */
  predicate Before(p: Point, i: nat, j: nat) {
    p.row < i || (p.row == i && p.col < j)
  }

  /** `p` does not come after `q` in row-major order. */
  predicate NotAfter(p: Point, q: Point) {
    p.row < q.row || (p.row == q.row && p.col <= q.col)
  }

  /** The cells holding `ch` that come before `(i, j)`. */
  ghost function Cells(ls: seq<string>, ch: char, i: nat, j: nat): set<Point> {
    set r: nat, c: nat | r < |ls| && c < |ls[r]| && Before(Point(r, c), i, j) && ls[r][c] == ch :: Point(r, c)
  }

  /** Every cell holding `ch`. */
  ghost function AllCells(ls: seq<string>, ch: char): set<Point> {
    set r: nat, c: nat | r < |ls| && c < |ls[r]| && ls[r][c] == ch :: Point(r, c)
  }

  /** `start` is the last `S` among `found`, or the origin when there is none. */
  ghost predicate LastStart(found: set<Point>, start: Point) {
    && (found == {} ==> start == Point(0, 0))
    && (found != {} ==> start in found && forall q :: q in found ==> NotAfter(q, start))
  }

  lemma CellsStep(ls: seq<string>, ch: char, i: nat, j: nat)
    requires i < |ls| && j < |ls[i]|
    ensures Cells(ls, ch, i, j + 1) == Cells(ls, ch, i, j) + (if ls[i][j] == ch then {Point(i, j)} else {})
  {
  }

  lemma CellsRow(ls: seq<string>, ch: char, i: nat)
    requires i < |ls|
    ensures Cells(ls, ch, i + 1, 0) == Cells(ls, ch, i, |ls[i]|)
  {
  }

  lemma CellsAll(ls: seq<string>, ch: char)
    ensures Cells(ls, ch, |ls|, 0) == AllCells(ls, ch)
  {
  }

  /** The scan of one line: `S` moves the start, `^` adds a splitter. */
  method ScanLine(ls: seq<string>, row: nat, start0: Point, splitters0: set<Point>)
    returns (start: Point, splitters: set<Point>)
    requires row < |ls|
    requires LastStart(Cells(ls, 'S', row, 0), start0)
    requires splitters0 == Cells(ls, '^', row, 0)
    ensures LastStart(Cells(ls, 'S', row + 1, 0), start)
    ensures splitters == Cells(ls, '^', row + 1, 0)
  {
    start, splitters := start0, splitters0;
    var line := ls[row];
    for col := 0 to |line|
      invariant LastStart(Cells(ls, 'S', row, col), start)
      invariant splitters == Cells(ls, '^', row, col)
    {
      CellsStep(ls, 'S', row, col);
      CellsStep(ls, '^', row, col);
      match line[col] {
        case 'S' => start := Point(row, col);
        case '^' => splitters := splitters + {Point(row, col)};
        case _ =>
      }
    }
    CellsRow(ls, 'S', row);
    CellsRow(ls, '^', row);
  }

  /** Reads the manifold from its lines. */
  method ParseInput(lines: seq<string>) returns (g: Grid)
    ensures g.height == |NonEmpty(lines)|
    ensures g.width == if NonEmpty(lines) == [] then 0 else |NonEmpty(lines)[0]|
    ensures g.splitters == AllCells(NonEmpty(lines), '^')
    ensures LastStart(AllCells(NonEmpty(lines), 'S'), g.start)
  {
    var ls := NonEmpty(lines);
    var height := |ls|;
    var width := if ls == [] then 0 else |ls[0]|;
    var start := Point(0, 0);
    var splitters: set<Point> := {};
    assert Cells(ls, 'S', 0, 0) == {};
    assert Cells(ls, '^', 0, 0) == {};
    for row := 0 to |ls|
      invariant LastStart(Cells(ls, 'S', row, 0), start)
      invariant splitters == Cells(ls, '^', row, 0)
    {
      start, splitters := ScanLine(ls, row, start, splitters);
    }
    CellsAll(ls, 'S');
    CellsAll(ls, '^');
    g := Grid(width, height, start, splitters);
  }

  /** Every splitter lies on one of the counted rows, and holds `^`. */
  lemma SplittersInGrid(lines: seq<string>, p: Point)
    requires p in AllCells(NonEmpty(lines), '^')
    ensures p.row < |NonEmpty(lines)|
    ensures At(NonEmpty(lines), p, '^')
  {
  }

  /** A cell holding `^` is a splitter. */
  lemma CaretIsSplitter(lines: seq<string>, p: Point)
    requires At(NonEmpty(lines), p, '^')
    ensures p in AllCells(NonEmpty(lines), '^')
  {
  }

  /** With at least one `S`, the start holds `S` and no `S` comes after it. */
  lemma StartIsLastS(lines: seq<string>, start: Point)
    requires LastStart(AllCells(NonEmpty(lines), 'S'), start)
    requires exists q :: At(NonEmpty(lines), q, 'S')
    ensures At(NonEmpty(lines), start, 'S')
    ensures forall q :: At(NonEmpty(lines), q, 'S') ==> NotAfter(q, start)
  {
    var ls := NonEmpty(lines);
    var q :| At(ls, q, 'S');
    assert q in AllCells(ls, 'S');
    forall q' | At(ls, q', 'S') ensures NotAfter(q', start) {
      assert q' in AllCells(ls, 'S');
    }
  }
}
