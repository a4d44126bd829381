/** Day 6: a worksheet of number rows ends in a row of operators; each
    operator labels one column of numbers.  The input is regrouped from
    rows into columns, and part one adds up, over all columns, the column's
    sum or product.  The text parsers of single rows are not modelled: each
    line arrives as what those parsers make of it. */
module Day06 {

  import opened Sums

  datatype Operator = Add | Multiply

  /** A line of the worksheet as the row parsers see it: blank, a row of
      numbers, a row of operators, or text that neither parser accepts. */
  datatype Line = Blank | Numbers(numbers: seq<nat>) | Operators(operators: seq<Operator>) | Other

  datatype Column = Column(numbers: seq<nat>, operator: Operator)

  /** Why the worksheet could not be read. */
  datatype Failure = NoLines | BadNumberRow(index: nat) | BadOperatorRow

  datatype Result = Ok(columns: seq<Column>) | Err(failure: Failure)

  /** The lines that are not blank, in order. */
  function NonBlank(lines: seq<Line>): (r: seq<Line>)
    ensures |r| <= |lines|
    ensures forall k :: 0 <= k < |r| ==> !r[k].Blank? && r[k] in lines
  {
    if lines == [] then []
    else
      var rest := NonBlank(lines[..|lines| - 1]);
      var last := lines[|lines| - 1];
      assert forall k :: 0 <= k < |rest| ==> rest[k] in lines[..|lines| - 1];
      if last.Blank? then rest else rest + [last]
  }

  lemma {:induction false} NonBlankAppend(a: seq<Line>, b: seq<Line>)
    ensures NonBlank(a + b) == NonBlank(a) + NonBlank(b)
    decreases |b|
  {
    if b == [] {
      assert a + b == a;
    } else {
      var b', x := b[..|b| - 1], b[|b| - 1];
      assert (a + b)[..|a + b| - 1] == a + b';
      NonBlankAppend(a, b');
    }
  }

  /** Blank lines anywhere in the worksheet make no difference. */
  lemma BlankIgnored(a: seq<Line>, b: seq<Line>)
    ensures NonBlank(a + [Blank] + b) == NonBlank(a + b)
  {
    NonBlankAppend(a + [Blank], b);
    NonBlankAppend(a, [Blank]);
    assert NonBlank([Blank]) == [];
    NonBlankAppend(a, b);
  }

  /** Column `k`: the `k`-th number of every row that has one, in row order. */
  function ColumnOf(rows: seq<seq<nat>>, k: nat): (c: seq<nat>)
    ensures |c| <= |rows|
  {
    if rows == [] then []
    else
      var last := rows[|rows| - 1];
      ColumnOf(rows[..|rows| - 1], k) + (if k < |last| then [last[k]] else [])
  }

  /** When every row is long enough, column `k` holds exactly one number of
      each row. */
  lemma {:induction false} ColumnOfFull(rows: seq<seq<nat>>, k: nat)
    requires forall r :: 0 <= r < |rows| ==> k < |rows[r]|
    ensures |ColumnOf(rows, k)| == |rows|
    ensures forall r :: 0 <= r < |rows| ==> ColumnOf(rows, k)[r] == rows[r][k]
  {
    if rows != [] {
      ColumnOfFull(rows[..|rows| - 1], k);
    }
  }

  /** Rows too short for column `k` contribute nothing to it. */
  lemma ColumnOfShort(rows: seq<seq<nat>>, row: seq<nat>, k: nat)
    requires |row| <= k
    ensures ColumnOf(rows + [row], k) == ColumnOf(rows, k)
  {
    assert (rows + [row])[..|rows|] == rows;
  }

  /** The number rows: every non-blank line but the last. */
  predicate WellFormed(nb: seq<Line>) {
    && |nb| > 0
    && (forall i :: 0 <= i < |nb| - 1 ==> nb[i].Numbers?)
    && nb[|nb| - 1].Operators?
  }

  function NumberRows(nb: seq<Line>): (rows: seq<seq<nat>>)
    requires forall i :: 0 <= i < |nb| - 1 ==> nb[i].Numbers?
    ensures |rows| == if nb == [] then 0 else |nb| - 1
  {
    if nb == [] then [] else seq(|nb| - 1, i requires 0 <= i < |nb| - 1 => nb[i].numbers)
  }

  /** The source's grouping loops: one column per operator. */
  method GroupColumns(rows: seq<seq<nat>>, operators: seq<Operator>) returns (columns: seq<Column>)
    ensures |columns| == |operators|
    ensures forall k :: 0 <= k < |columns| ==>
      columns[k].operator == operators[k] && columns[k].numbers == ColumnOf(rows, k)
  {
    columns := [];
    for colIdx := 0 to |operators|
      invariant |columns| == colIdx
      invariant forall k :: 0 <= k < colIdx ==>
        columns[k].operator == operators[k] && columns[k].numbers == ColumnOf(rows, k)
    {
      var numbers := [];
      for r := 0 to |rows|
        invariant numbers == ColumnOf(rows[..r], colIdx)
      {
        assert rows[..r + 1][..r] == rows[..r];
        if colIdx < |rows[r]| {
          numbers := numbers + [rows[r][colIdx]];
        }
      }
      assert rows[..|rows|] == rows;
      columns := columns + [Column(numbers, operators[colIdx])];
    }
  }

  /** Reads the worksheet: the non-blank lines but the last must be number
      rows, the last an operator row.  With no non-blank line the source
      fails on `lines.len() - 1`. */
  method ParseInput(lines: seq<Line>) returns (r: Result)
    ensures r.Err? <==> !WellFormed(NonBlank(lines))
    ensures r.Err? && NonBlank(lines) == [] ==> r.failure == NoLines
    ensures r.Ok? ==> (
      var nb := NonBlank(lines);
      var operators := nb[|nb| - 1].operators;
      && |r.columns| == |operators|
      && forall k :: 0 <= k < |operators| ==>
        r.columns[k] == Column(ColumnOf(NumberRows(nb), k), operators[k]))
  {
    var nb := NonBlank(lines);
    if |nb| == 0 {
      return Err(NoLines);
    }
    var allRows: seq<seq<nat>> := [];
    for i := 0 to |nb| - 1
      invariant |allRows| == i
      invariant forall j :: 0 <= j < i ==> nb[j].Numbers? && allRows[j] == nb[j].numbers
    {
      if !nb[i].Numbers? {
        return Err(BadNumberRow(i));
      }
      allRows := allRows + [nb[i].numbers];
    }
    if !nb[|nb| - 1].Operators? {
      return Err(BadOperatorRow);
    }
    var operators := nb[|nb| - 1].operators;
    assert allRows == NumberRows(nb);
    var columns := GroupColumns(allRows, operators);
    r := Ok(columns);
  }

  // ---------------------------------------------------------------------
  // Part one

  /** What a column contributes: its sum or its product. */
  function Value(c: Column): nat {
    match c.operator
    case Add => Sum(c.numbers)
    case Multiply => Product(c.numbers)
  }

  /** The grand total over all columns. */
  function GrandTotal(columns: seq<Column>): nat {
    if columns == [] then 0 else GrandTotal(columns[..|columns| - 1]) + Value(columns[|columns| - 1])
  }

  /** The source's loop adding up the columns. */
  method Part1(columns: seq<Column>) returns (sum: nat)
    ensures sum == GrandTotal(columns)
  {
    sum := 0;
    for i := 0 to |columns|
      invariant sum == GrandTotal(columns[..i])
    {
      assert columns[..i + 1][..i] == columns[..i];
      var result := match columns[i].operator
        case Add => Sum(columns[i].numbers)
        case Multiply => Product(columns[i].numbers);
      sum := sum + result;
    }
    assert columns[..|columns|] == columns;
  }

  /** The grand total of two worksheets side by side is the sum of theirs. */
  lemma {:induction false} GrandTotalAppend(a: seq<Column>, b: seq<Column>)
    ensures GrandTotal(a + b) == GrandTotal(a) + GrandTotal(b)
    decreases |b|
  {
    if b == [] {
      assert a + b == a;
    } else {
      assert (a + b)[..|a + b| - 1] == a + b[..|b| - 1];
      GrandTotalAppend(a, b[..|b| - 1]);
    }
  }

  /** The worked example: columns (123, 45, 6) by *, (328, 64, 98) by +,
      (51, 387, 215) by * and (64, 23, 314) by + total 4277556. */
  lemma SampleTotal()
    ensures GrandTotal([
      Column([123, 45, 6], Multiply), Column([328, 64, 98], Add),
      Column([51, 387, 215], Multiply), Column([64, 23, 314], Add)]) == 4277556
  {
    Sum3(328, 64, 98);
    Sum3(64, 23, 314);
    Product3(123, 45, 6);
    Product3(51, 387, 215);
    var cs := [
      Column([123, 45, 6], Multiply), Column([328, 64, 98], Add),
      Column([51, 387, 215], Multiply), Column([64, 23, 314], Add)];
    assert cs[..1][..0] == [];
    assert GrandTotal(cs[..1]) == 33210;
    assert cs[..2][..1] == cs[..1];
    assert GrandTotal(cs[..2]) == 33210 + 490;
    assert cs[..3][..2] == cs[..2];
    assert GrandTotal(cs[..3]) == 33210 + 490 + 4243455;
    assert cs[..4][..3] == cs[..3] && cs[..4] == cs;
  }

  lemma Sum3(a: nat, b: nat, c: nat)
    ensures Sum([a, b, c]) == a + b + c
  {
    assert [a][..0] == [];
    assert Sum([a]) == a;
    assert [a, b][..1] == [a];
    assert Sum([a, b]) == a + b;
    assert [a, b, c][..2] == [a, b];
  }

  lemma Product3(a: nat, b: nat, c: nat)
    ensures Product([a, b, c]) == a * b * c
  {
    assert [a][..0] == [];
    assert Product([a]) == a;
    assert [a, b][..1] == [a];
    assert Product([a, b]) == a * b;
    assert [a, b, c][..2] == [a, b];
  }
}
