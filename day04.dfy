/** Day 4: a grid of paper rolls.  A roll is accessible when fewer than four
    of its eight surrounding cells hold rolls; part one counts the
    accessible rolls.  `Neighbors` is the bounded eight-neighbourhood, and
    the count is related to the set of accessible cells. */
module Day04 {

  datatype Cell = Empty | PaperRoll

  predicate IsPaperRoll(c: Cell) {
    c.PaperRoll?
  }

  type Grid = seq<seq<Cell>>

  /** The number of rows. */
  function Rows(grid: Grid): nat {
    |grid|
  }

  /** The number of columns, taken from the first row (0 for no rows). */
  function Cols(grid: Grid): nat {
    if grid == [] then 0 else |grid[0]|
  }

  /** Every row is as long as the first. */
  predicate Rectangular(grid: Grid) {
    forall r :: 0 <= r < |grid| ==> |grid[r]| == Cols(grid)
  }

  predicate InBounds(grid: Grid, r: int, c: int) {
    0 <= r < Rows(grid) && 0 <= c < Cols(grid)
  }

  /** `(r, c)` is one of the eight cells around `(row, col)`. */
  predicate Adjacent(row: int, col: int, r: int, c: int) {
    && (r, c) != (row, col)
    && -1 <= r - row <= 1
    && -1 <= c - col <= 1
  }

  /** `(row, col)` is not on the border, so all eight cells around it exist. */
  predicate Interior(grid: Grid, row: int, col: int) {
    0 < row && row + 1 < Rows(grid) && 0 < col && col + 1 < Cols(grid)
  }

  /** The eight offsets, in the order the source tries them. */
  const Directions: seq<(int, int)> :=
    [(-1, -1), (-1, 0), (-1, 1), (0, -1), (0, 1), (1, -1), (1, 0), (1, 1)]

  /** The offsets are the eight non-zero steps of at most one, each once. */
  lemma DirectionsAdjacent(d: nat)
    requires d < |Directions|
    ensures Adjacent(0, 0, Directions[d].0, Directions[d].1)
  {
  }

  lemma DirectionsDistinct()
    ensures forall d, e :: 0 <= d < e < |Directions| ==> Directions[d] != Directions[e]
  {
  }

  lemma DirectionsComplete(dr: int, dc: int)
    requires Adjacent(0, 0, dr, dc)
    ensures exists d :: 0 <= d < |Directions| && Directions[d] == (dr, dc)
  {
    if dr == -1 {
      assert Directions[if dc == -1 then 0 else if dc == 0 then 1 else 2] == (dr, dc);
    } else if dr == 0 {
      assert Directions[if dc == -1 then 3 else 4] == (dr, dc);
    } else {
      assert Directions[if dc == -1 then 5 else if dc == 0 then 6 else 7] == (dr, dc);
    }
  }

  /** The cell offset `d` leads to from `(row, col)`. */
  function Shift(row: int, col: int, d: nat): (int, int)
    requires d < |Directions|
  {
    (row + Directions[d].0, col + Directions[d].1)
  }

  /** Different offsets lead to different cells. */
  lemma ShiftInjective(row: int, col: int, d: nat, e: nat)
    requires d < e < |Directions|
    ensures Shift(row, col, d) != Shift(row, col, e)
  {
    DirectionsDistinct();
  }

  /** The in-bounds cells around `(row, col)`, each once. */
  method Neighbors(grid: Grid, row: nat, col: nat) returns (result: seq<(nat, nat)>)
    ensures forall k :: 0 <= k < |result| ==>
      InBounds(grid, result[k].0, result[k].1) && Adjacent(row, col, result[k].0, result[k].1)
    ensures forall r: nat, c: nat :: InBounds(grid, r, c) && Adjacent(row, col, r, c) ==> (r, c) in result
    ensures forall a, b :: 0 <= a < b < |result| ==> result[a] != result[b]
    ensures |result| <= 8
    ensures Interior(grid, row, col) ==> |result| == 8
  {
    ghost var from;
    result, from := ScanDirections(grid, row, col);
    forall k | 0 <= k < |result| ensures Adjacent(row, col, result[k].0, result[k].1) {
      DirectionsAdjacent(from[k]);
    }
    forall r: nat, c: nat | InBounds(grid, r, c) && Adjacent(row, col, r, c) ensures (r, c) in result {
      DirectionsComplete(r - row, c - col);
      var d :| 0 <= d < |Directions| && Directions[d] == (r - row, c - col);
      assert Shift(row, col, d) == (r, c);
    }
  }

  /** After trying the first `k` offsets, `result` holds the in-bounds cells
      they lead to, each once, and `from[a]` is the offset that gave
      `result[a]`. */
  ghost predicate Scanned(grid: Grid, row: nat, col: nat, k: nat, result: seq<(nat, nat)>, from: seq<nat>) {
    && |result| == |from| <= k <= 8
    && (Interior(grid, row, col) ==> |result| == k)
    && (forall a :: 0 <= a < |from| ==> from[a] < k)
    && (forall a, b :: 0 <= a < b < |from| ==> from[a] < from[b])
    && (forall a :: 0 <= a < |result| ==> result[a] == Shift(row, col, from[a]))
    && (forall a :: 0 <= a < |result| ==> InBounds(grid, result[a].0, result[a].1))
    && (forall a, b :: 0 <= a < b < |result| ==> result[a] != result[b])
    && (forall d :: 0 <= d < k && InBounds(grid, Shift(row, col, d).0, Shift(row, col, d).1) ==>
          Shift(row, col, d) in result)
  }

  /** An offset leading off the grid adds nothing. */
  lemma ScanSkip(grid: Grid, row: nat, col: nat, k: nat, result: seq<(nat, nat)>, from: seq<nat>)
    requires k < 8 && Scanned(grid, row, col, k, result, from)
    requires !InBounds(grid, Shift(row, col, k).0, Shift(row, col, k).1)
    ensures Scanned(grid, row, col, k + 1, result, from)
  {
    DirectionsAdjacent(k);
  }

  /** An offset leading onto the grid adds its cell, which is new. */
  lemma ScanTake(grid: Grid, row: nat, col: nat, k: nat, result: seq<(nat, nat)>, from: seq<nat>, cell: (nat, nat))
    requires k < 8 && Scanned(grid, row, col, k, result, from)
    requires cell == Shift(row, col, k) && InBounds(grid, cell.0, cell.1)
    ensures Scanned(grid, row, col, k + 1, result + [cell], from + [k])
  {
    forall a | 0 <= a < |result| ensures result[a] != cell {
      ShiftInjective(row, col, from[a], k);
    }
  }

  /** The source's loop over the offsets: `from[a]` is the offset that gave
      `result[a]`. */
  method ScanDirections(grid: Grid, row: nat, col: nat) returns (result: seq<(nat, nat)>, ghost from: seq<nat>)
    ensures |result| == |from| <= 8
    ensures Interior(grid, row, col) ==> |result| == 8
    ensures forall a :: 0 <= a < |result| ==> from[a] < 8 && result[a] == Shift(row, col, from[a])
    ensures forall a, b :: 0 <= a < b < |from| ==> from[a] < from[b]
    ensures forall a :: 0 <= a < |result| ==> InBounds(grid, result[a].0, result[a].1)
    ensures forall a, b :: 0 <= a < b < |result| ==> result[a] != result[b]
    ensures forall d :: 0 <= d < 8 && InBounds(grid, Shift(row, col, d).0, Shift(row, col, d).1) ==>
      Shift(row, col, d) in result
  {
    var rows, cols := Rows(grid), Cols(grid);
    result, from := [], [];
    for k := 0 to 8
      invariant Scanned(grid, row, col, k, result, from)
    {
      var (dr, dc) := Directions[k];
      var newRow, newCol := row + dr, col + dc;
      if newRow >= 0 && newRow < rows && newCol >= 0 && newCol < cols {
        ScanTake(grid, row, col, k, result, from, (newRow as nat, newCol as nat));
        result := result + [(newRow as nat, newCol as nat)];
        from := from + [k];
      } else {
        ScanSkip(grid, row, col, k, result, from);
      }
    }
  }

  // ---------------------------------------------------------------------
  // Counting rolls

  /** The number of positions of `ps` holding a roll. */
  function RollCount(grid: Grid, ps: seq<(nat, nat)>): (n: nat)
    requires Rectangular(grid) && forall k :: 0 <= k < |ps| ==> InBounds(grid, ps[k].0, ps[k].1)
    ensures n <= |ps|
  {
    if ps == [] then 0
    else
      var p := ps[|ps| - 1];
      assert InBounds(grid, p.0, p.1);
      RollCount(grid, ps[..|ps| - 1]) + (if IsPaperRoll(grid[p.0][p.1]) then 1 else 0)
  }

  /** The roll positions among `ps`. */
  ghost function RollsAmong(grid: Grid, ps: seq<(nat, nat)>): set<(nat, nat)>
    requires Rectangular(grid) && forall k :: 0 <= k < |ps| ==> InBounds(grid, ps[k].0, ps[k].1)
  {
    set k | 0 <= k < |ps| && InBounds(grid, ps[k].0, ps[k].1) && IsPaperRoll(grid[ps[k].0][ps[k].1]) :: ps[k]
  }

  /** Counting along a list without repeats counts the set of its rolls. */
  lemma {:induction false} RollCountIsCard(grid: Grid, ps: seq<(nat, nat)>)
    requires Rectangular(grid) && forall k :: 0 <= k < |ps| ==> InBounds(grid, ps[k].0, ps[k].1)
    requires forall a, b :: 0 <= a < b < |ps| ==> ps[a] != ps[b]
    ensures RollCount(grid, ps) == |RollsAmong(grid, ps)|
  {
    if ps != [] {
      var ps', p := ps[..|ps| - 1], ps[|ps| - 1];
      RollCountIsCard(grid, ps');
      assert p !in RollsAmong(grid, ps');
      RollsAmongLast(grid, ps);
    }
  }

  lemma RollsAmongLast(grid: Grid, ps: seq<(nat, nat)>)
    requires Rectangular(grid) && forall k :: 0 <= k < |ps| ==> InBounds(grid, ps[k].0, ps[k].1)
    requires ps != []
    ensures var p := ps[|ps| - 1];
      RollsAmong(grid, ps) == RollsAmong(grid, ps[..|ps| - 1]) + if IsPaperRoll(grid[p.0][p.1]) then {p} else {}
  {
  }

  /** The cells around `(i, j)` that hold a roll. */
  ghost function RollNeighbours(grid: Grid, i: nat, j: nat): set<(nat, nat)>
    requires Rectangular(grid)
  {
    set r: nat, c: nat | r < Rows(grid) && c < Cols(grid) && Adjacent(i, j, r, c) && IsPaperRoll(grid[r][c]) :: (r, c)
  }

  /** A roll is accessible when fewer than four rolls surround it. */
  ghost predicate Accessible(grid: Grid, i: nat, j: nat)
    requires Rectangular(grid) && i < Rows(grid) && j < Cols(grid)
  {
    IsPaperRoll(grid[i][j]) && |RollNeighbours(grid, i, j)| < 4
  }

  /** The accessible rolls in the rows before `i` and in row `i` before
      column `j`. */
  ghost function AccessibleBefore(grid: Grid, i: nat, j: nat): set<(nat, nat)>
    requires Rectangular(grid)
  {
    set r: nat, c: nat | r < Rows(grid) && c < Cols(grid) && (r < i || (r == i && c < j)) && Accessible(grid, r, c) :: (r, c)
  }

  /** Every accessible roll in the grid. */
  ghost function AccessibleRolls(grid: Grid): set<(nat, nat)>
    requires Rectangular(grid)
  {
    set r: nat, c: nat | r < Rows(grid) && c < Cols(grid) && Accessible(grid, r, c) :: (r, c)
  }

  /** Every roll in the grid. */
  ghost function AllRolls(grid: Grid): set<(nat, nat)>
    requires Rectangular(grid)
  {
    set r: nat, c: nat | r < Rows(grid) && c < Cols(grid) && IsPaperRoll(grid[r][c]) :: (r, c)
  }

  /** The number of rolls among the neighbours found for `(i, j)` is the
      number of rolls around it. */
  method NeighbourRolls(grid: Grid, i: nat, j: nat) returns (n: nat)
    requires Rectangular(grid) && i < Rows(grid) && j < Cols(grid)
    ensures n == |RollNeighbours(grid, i, j)|
  {
    var ns := Neighbors(grid, i, j);
    n := RollCount(grid, ns);
    RollCountIsCard(grid, ns);
    assert RollsAmong(grid, ns) == RollNeighbours(grid, i, j) by {
      forall p | p in RollNeighbours(grid, i, j) ensures p in RollsAmong(grid, ns) {
        var k :| 0 <= k < |ns| && ns[k] == p;
      }
    }
  }

  /** Moving one cell on in row-major order adds that cell when it is an
      accessible roll. */
  lemma BeforeStep(grid: Grid, i: nat, j: nat)
    requires Rectangular(grid) && i < Rows(grid) && j < Cols(grid)
    ensures AccessibleBefore(grid, i, j + 1)
      == AccessibleBefore(grid, i, j) + (if Accessible(grid, i, j) then {(i, j)} else {})
  {
  }

  /** The end of a row is the start of the next. */
  lemma BeforeRow(grid: Grid, i: nat)
    requires Rectangular(grid)
    ensures AccessibleBefore(grid, i + 1, 0) == AccessibleBefore(grid, i, Cols(grid))
  {
  }

  /** Past the last row, every accessible roll has been seen. */
  lemma BeforeAll(grid: Grid)
    requires Rectangular(grid)
    ensures AccessibleBefore(grid, Rows(grid), 0) == AccessibleRolls(grid)
  {
  }

  /** Part one: the number of accessible rolls. */
  method Part1(grid: Grid) returns (count: nat)
    requires Rectangular(grid)
    ensures count == |AccessibleRolls(grid)|
  {
    var rows, cols := Rows(grid), Cols(grid);
    count := 0;
    for i := 0 to rows
      invariant count == |AccessibleBefore(grid, i, 0)|
    {
      for j := 0 to cols
        invariant count == |AccessibleBefore(grid, i, j)|
      {
        var numNeighbourRolls := NeighbourRolls(grid, i, j);
        BeforeStep(grid, i, j);
        if numNeighbourRolls < 4 && IsPaperRoll(grid[i][j]) {
          count := count + 1;
        }
      }
      BeforeRow(grid, i);
    }
    BeforeAll(grid);
  }

  /** The accessible rolls are among the rolls. */
  lemma AccessibleAtMostRolls(grid: Grid)
    requires Rectangular(grid)
    ensures AccessibleRolls(grid) <= AllRolls(grid)
    ensures |AccessibleRolls(grid)| <= |AllRolls(grid)|
  {
    SubsetCard(AccessibleRolls(grid), AllRolls(grid));
  }

  lemma {:induction false} SubsetCard<T>(a: set<T>, b: set<T>)
    requires a <= b
    ensures |a| <= |b|
    decreases |b|
  {
    if a != {} {
      var x :| x in a;
      SubsetCard(a - {x}, b - {x});
    }
  }
}
