/**
 * Fixed geometry of one RFID tag record: 34 integers, of which the first
 * 9 are the header and the remaining 25 fill a 5x5 parity matrix row by
 * row.  Rows 0-3 and columns 0-3 of the matrix hold the 16 payload bits,
 * column 4 the row parities, row 4 the column parities and cell [4][4]
 * the corner.
 */
module Layout {

  const MaxSequence: nat := 34
  const HeaderLen: nat := 9
  const DataLen: nat := 25
  const Rows: nat := 5
  const Columns: nat := 5
  /** Capacity of the colour label buffer, not counting its terminator */
  const ColorsChar: nat := 10
  /** Number of payload bits folded into an identifier */
  const IdBits: nat := 16

  /** A 5x5 matrix of C ints, as a value */
  predicate IsGrid(g: seq<seq<int>>)
  {
    |g| == Rows && forall r :: 0 <= r < |g| ==> |g[r]| == Columns
  }

  type Grid = g: seq<seq<int>> | IsGrid(g) witness seq(5, _ => seq(5, _ => 0))

  /** The contents of a 5x5 array as a Grid value */
  function GridOf(data: array2<int>): (g: Grid)
    reads data
    requires data.Length0 == Rows && data.Length1 == Columns
    ensures forall r, c :: 0 <= r < Rows && 0 <= c < Columns ==> g[r][c] == data[r, c]
  {
    seq(Rows, r requires 0 <= r < Rows reads data =>
      seq(Columns, c requires 0 <= c < Columns reads data => data[r, c]))
  }
}
