/**
 * Header check and row/column parity checks over the 5x5 matrix
 * (validate_header, validate_row, validate_column, validate_data,
 * validate_sequence).  C's int results 1 and 0 are modelled as true and
 * false.
 */
module Validator {
  import opened Layout

  /** C's `a % 2`: division truncates toward zero, so the remainder takes the sign of a */
  function CParity(a: int): (r: int)
    ensures a >= 0 ==> r == 0 || r == 1
    ensures a < 0 ==> r == 0 || r == -1
    ensures (a - r) % 2 == 0
  {
    if a >= 0 then a % 2 else -((-a) % 2)
  }

  function Sum(s: seq<int>): int
  {
    if |s| == 0 then 0 else Sum(s[..|s| - 1]) + s[|s| - 1]
  }

  /** The four payload cells of row r */
  function Row(g: Grid, r: nat): seq<int>
    requires r < Rows
  {
    g[r][..Columns - 1]
  }

  /** The four payload cells of column c */
  function Column(g: Grid, c: nat): seq<int>
    requires c < Columns
  {
    seq(Rows - 1, k requires 0 <= k < Rows - 1 => g[k][c])
  }

  /** Row r's last cell is the C parity of its other four */
  predicate RowParityOk(g: Grid, r: nat)
    requires r < Rows
  {
    CParity(Sum(Row(g, r))) == g[r][Columns - 1]
  }

  /** Column c's last cell is the C parity of its other four */
  predicate ColumnParityOk(g: Grid, c: nat)
    requires c < Columns
  {
    CParity(Sum(Column(g, c))) == g[Rows - 1][c]
  }

  /** What validate_data accepts: the corner is 0 and row 0 and column 0 check out */
  predicate DataValidAsWritten(g: Grid)
  {
    g[Rows - 1][Columns - 1] == 0 && RowParityOk(g, 0) && ColumnParityOk(g, 0)
  }

  /** The full two-dimensional parity check: the corner is 0 and rows and columns 0-3 all check out */
  predicate DataValidFull(g: Grid)
  {
    g[Rows - 1][Columns - 1] == 0 &&
    forall k :: 0 <= k < Rows - 1 ==> RowParityOk(g, k) && ColumnParityOk(g, k)
  }

  predicate HeaderValid(s: seq<int>)
    requires |s| >= HeaderLen
  {
    forall i :: 0 <= i < HeaderLen ==> s[i] == 1
  }

  lemma {:induction false} SumFour(s: seq<int>)
    requires |s| == 4
    ensures Sum(s) == s[0] + s[1] + s[2] + s[3]
  {
    SumStep(s, 3);
    SumStep(s, 2);
    SumStep(s, 1);
    SumStep(s, 0);
    assert s[..4] == s;
  }

  lemma SumStep(s: seq<int>, i: nat)
    requires i < |s|
    ensures Sum(s[..i + 1]) == Sum(s[..i]) + s[i]
  {
    assert s[..i + 1][..i] == s[..i];
  }

  /** Changing one element shifts the sum by the difference */
  lemma {:induction false} SumUpdate(s: seq<int>, i: nat, v: int)
    requires i < |s|
    ensures Sum(s[i := v]) == Sum(s) - s[i] + v
  {
    var t := s[i := v];
    if i == |s| - 1 {
      assert t[..|t| - 1] == s[..|s| - 1];
    } else {
      SumUpdate(s[..|s| - 1], i, v);
      assert t[..|t| - 1] == s[..|s| - 1][i := v];
    }
  }

  /** The row parity written out cell by cell, as validate_row adds it up */
  lemma RowParityExplicit(g: Grid, r: nat)
    requires r < Rows
    ensures RowParityOk(g, r) <==> CParity(g[r][0] + g[r][1] + g[r][2] + g[r][3]) == g[r][4]
  {
    SumFour(Row(g, r));
  }

  /** The column parity written out cell by cell, as validate_column adds it up */
  lemma ColumnParityExplicit(g: Grid, c: nat)
    requires c < Columns
    ensures ColumnParityOk(g, c) <==> CParity(g[0][c] + g[1][c] + g[2][c] + g[3][c]) == g[4][c]
  {
    SumFour(Column(g, c));
  }

  /** validate_row */
  method ValidateRow(data: array2<int>, row: nat) returns (ok: bool)
    requires data.Length0 == Rows && data.Length1 == Columns && row < Rows
    ensures ok <==> RowParityOk(GridOf(data), row)
    ensures ok <==> CParity(data[row, 0] + data[row, 1] + data[row, 2] + data[row, 3]) == data[row, 4]
  {
    ghost var g := GridOf(data);
    var sum := 0;
    for i := 0 to Columns - 1
      invariant sum == Sum(g[row][..i])
    {
      SumStep(g[row], i);
      sum := sum + data[row, i];
    }
    var calculatedParity := CParity(sum);
    ok := data[row, Columns - 1] == calculatedParity;
    RowParityExplicit(g, row);
  }

  /** validate_column */
  method ValidateColumn(data: array2<int>, column: nat) returns (ok: bool)
    requires data.Length0 == Rows && data.Length1 == Columns && column < Columns
    ensures ok <==> ColumnParityOk(GridOf(data), column)
    ensures ok <==> CParity(data[0, column] + data[1, column] + data[2, column] + data[3, column]) == data[4, column]
  {
    ghost var g := GridOf(data);
    ghost var col := Column(g, column);
    var sum := 0;
    for i := 0 to Rows - 1
      invariant sum == Sum(col[..i])
    {
      SumStep(col, i);
      sum := sum + data[i, column];
    }
    var calculatedParity := CParity(sum);
    ok := data[Rows - 1, column] == calculatedParity;
    assert col[..Rows - 1] == col;
    ColumnParityExplicit(g, column);
  }

  /** validate_header: the first nine record cells must all be 1 */
  method ValidateHeader(sequence: array<int>) returns (ok: bool)
    requires sequence.Length >= HeaderLen
    ensures ok <==> HeaderValid(sequence[..])
    ensures !ok <==> exists i :: 0 <= i < HeaderLen && sequence[i] != 1
  {
    for i := 0 to HeaderLen
      invariant forall j :: 0 <= j < i ==> sequence[j] == 1
    {
      if sequence[i] != 1 {
        return false;
      }
    }
    return true;
  }

  /**
   * validate_data as written: after the corner check its loop returns in
   * its first iteration, so only row 0 and column 0 are ever examined.
   */
  method ValidateData(data: array2<int>) returns (ok: bool)
    requires data.Length0 == Rows && data.Length1 == Columns
    ensures ok <==> DataValidAsWritten(GridOf(data))
    ensures data[Rows - 1, Columns - 1] != 0 ==> !ok
  {
    if data[Rows - 1, Columns - 1] != 0 {
      return false;
    }
    for i := 0 to Rows - 1
      invariant i == 0
    {
      var rowOk := ValidateRow(data, i);
      var columnOk := ValidateColumn(data, i);
      return rowOk && columnOk;
    }
    assert false;
  }

  /** validate_data as evidently intended: every row and column pair 0-3 must pass */
  method ValidateDataFull(data: array2<int>) returns (ok: bool)
    requires data.Length0 == Rows && data.Length1 == Columns
    ensures ok <==> DataValidFull(GridOf(data))
  {
    if data[Rows - 1, Columns - 1] != 0 {
      return false;
    }
    for i := 0 to Rows - 1
      invariant forall k :: 0 <= k < i ==> RowParityOk(GridOf(data), k) && ColumnParityOk(GridOf(data), k)
    {
      var rowOk := ValidateRow(data, i);
      var columnOk := ValidateColumn(data, i);
      if !(rowOk && columnOk) {
        return false;
      }
    }
    return true;
  }

  /** validate_sequence: the header check, then (short-circuit) the data check */
  method ValidateSequence(sequence: array<int>, data: array2<int>) returns (ok: bool)
    requires sequence.Length >= HeaderLen
    requires data.Length0 == Rows && data.Length1 == Columns
    ensures ok <==> HeaderValid(sequence[..]) && DataValidAsWritten(GridOf(data))
    ensures (exists i :: 0 <= i < HeaderLen && sequence[i] != 1) ==> !ok
  {
    var headerOk := ValidateHeader(sequence);
    if headerOk {
      ok := ValidateData(data);
    } else {
      ok := false;
    }
  }

  /** validate_sequence with the corrected data check */
  method ValidateSequenceFull(sequence: array<int>, data: array2<int>) returns (ok: bool)
    requires sequence.Length >= HeaderLen
    requires data.Length0 == Rows && data.Length1 == Columns
    ensures ok <==> HeaderValid(sequence[..]) && DataValidFull(GridOf(data))
  {
    var headerOk := ValidateHeader(sequence);
    if headerOk {
      ok := ValidateDataFull(data);
    } else {
      ok := false;
    }
  }

  /** validate_data's verdict depends on the corner, row 0 and column 0 only */
  lemma AsWrittenIgnoresOtherCells(g1: Grid, g2: Grid)
    requires g1[Rows - 1][Columns - 1] == g2[Rows - 1][Columns - 1]
    requires g1[0] == g2[0]
    requires forall r :: 0 <= r < Rows ==> g1[r][0] == g2[r][0]
    ensures DataValidAsWritten(g1) <==> DataValidAsWritten(g2)
  {
    assert Row(g1, 0) == Row(g2, 0);
    assert Column(g1, 0) == Column(g2, 0);
  }

  /** Every matrix the full check accepts is accepted by validate_data as written */
  lemma FullImpliesAsWritten(g: Grid)
    requires DataValidFull(g)
    ensures DataValidAsWritten(g)
  {
  }

  /** Every payload cell is 0 or 1 */
  predicate PayloadIsBits(g: Grid)
  {
    forall r, c :: 0 <= r < Rows - 1 && 0 <= c < Columns - 1 ==> g[r][c] == 0 || g[r][c] == 1
  }

  /** The matrix with payload bit [r][c] inverted and nothing else changed */
  function Flip(g: Grid, r: nat, c: nat): (f: Grid)
    requires r < Rows - 1 && c < Columns - 1
    ensures f[r][c] == 1 - g[r][c]
    ensures forall i, j :: 0 <= i < Rows && 0 <= j < Columns && (i, j) != (r, c) ==> f[i][j] == g[i][j]
  {
    g[r := g[r][c := 1 - g[r][c]]]
  }

  lemma SumOfBitsBounds(s: seq<int>)
    requires forall k :: 0 <= k < |s| ==> s[k] == 0 || s[k] == 1
    ensures 0 <= Sum(s) <= |s|
  {
  }

  /** Under the full check, inverting any single payload bit is detected */
  lemma FullCheckDetectsPayloadFlip(g: Grid, r: nat, c: nat)
    requires DataValidFull(g) && PayloadIsBits(g)
    requires r < Rows - 1 && c < Columns - 1
    ensures !DataValidFull(Flip(g, r, c))
  {
    var f := Flip(g, r, c);
    assert Row(f, r) == Row(g, r)[c := 1 - g[r][c]];
    SumUpdate(Row(g, r), c, 1 - g[r][c]);
    SumOfBitsBounds(Row(g, r));
    SumOfBitsBounds(Row(f, r));
    assert RowParityOk(g, r);
    assert f[r][Columns - 1] == g[r][Columns - 1];
    assert !RowParityOk(f, r);
  }

  /** The all-zero matrix: valid, identifier 0 */
  function ZeroGrid(): (g: Grid)
    ensures forall r, c :: 0 <= r < Rows && 0 <= c < Columns ==> g[r][c] == 0
  {
    seq(Rows, _ => seq(Columns, _ => 0))
  }

  /**
   * validate_data as written lets an inverted inner bit through: the
   * all-zero matrix with bit [1][1] inverted fails the full check on row 1,
   * but validate_data still accepts it.
   */
  lemma AsWrittenMissesInnerFlip()
    ensures DataValidFull(ZeroGrid())
    ensures DataValidAsWritten(Flip(ZeroGrid(), 1, 1))
    ensures !DataValidFull(Flip(ZeroGrid(), 1, 1))
  {
    var z := ZeroGrid();
    forall k | 0 <= k < Rows - 1
      ensures RowParityOk(z, k) && ColumnParityOk(z, k)
    {
      RowParityExplicit(z, k);
      ColumnParityExplicit(z, k);
    }
    var f := Flip(z, 1, 1);
    RowParityExplicit(f, 0);
    ColumnParityExplicit(f, 0);
    RowParityExplicit(f, 1);
  }
}
