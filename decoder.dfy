/**
 * Splitting a 34-integer record into its header and its 5x5 data matrix
 * (create_header and create_data), with the value-level partition the two
 * methods are proved against.
 */
module Decoder {
  import opened Layout

  /** The matrix that the data region of a record fills, row-major */
  function DataGrid(s: seq<int>): (g: Grid)
    requires |s| >= MaxSequence
    ensures forall r, c :: 0 <= r < Rows && 0 <= c < Columns ==> g[r][c] == s[HeaderLen + Columns * r + c]
  {
    seq(Rows, r requires 0 <= r < Rows =>
      seq(Columns, c requires 0 <= c < Columns => s[HeaderLen + Columns * r + c]))
  }

  /** The cells of a matrix, row after row */
  function Flatten(g: seq<seq<int>>): seq<int>
  {
    if |g| == 0 then [] else g[0] + Flatten(g[1..])
  }

  /** Flattening rows of width Columns puts cell [k / Columns][k % Columns] at offset k */
  lemma {:induction false} FlattenAt(g: seq<seq<int>>, k: nat)
    requires forall r :: 0 <= r < |g| ==> |g[r]| == Columns
    requires k < Columns * |g|
    ensures |Flatten(g)| == Columns * |g|
    ensures Flatten(g)[k] == g[k / Columns][k % Columns]
  {
    FlattenLength(g);
    if k >= Columns {
      FlattenAt(g[1..], k - Columns);
      assert (k - Columns) / Columns == k / Columns - 1;
      assert (k - Columns) % Columns == k % Columns;
    }
  }

  lemma {:induction false} FlattenLength(g: seq<seq<int>>)
    requires forall r :: 0 <= r < |g| ==> |g[r]| == Columns
    ensures |Flatten(g)| == Columns * |g|
  {
    if |g| > 0 {
      FlattenLength(g[1..]);
    }
  }

  /** The data cell that record index i (9 <= i < 34) is copied into */
  lemma CellOfIndex(i: int)
    requires HeaderLen <= i < MaxSequence
    ensures 0 <= (i - HeaderLen) / Columns < Rows && 0 <= (i - HeaderLen) % Columns < Columns
    ensures HeaderLen + Columns * ((i - HeaderLen) / Columns) + (i - HeaderLen) % Columns == i
  {
  }

  /** Header and matrix together hold exactly the record: nothing is lost or reordered */
  lemma PartitionIsLossless(s: seq<int>)
    requires |s| == MaxSequence
    ensures s[..HeaderLen] + Flatten(DataGrid(s)) == s
  {
    var g := DataGrid(s);
    FlattenLength(g);
    forall k | 0 <= k < DataLen
      ensures Flatten(g)[k] == s[HeaderLen + k]
    {
      FlattenAt(g, k);
    }
  }

  /** Any header and matrix are recovered from the record they make up */
  lemma AssembleThenPartition(h: seq<int>, g: Grid)
    requires |h| == HeaderLen
    ensures |h + Flatten(g)| == MaxSequence
    ensures (h + Flatten(g))[..HeaderLen] == h
    ensures DataGrid(h + Flatten(g)) == g
  {
    FlattenLength(g);
    var s := h + Flatten(g);
    forall r, c | 0 <= r < Rows && 0 <= c < Columns
      ensures DataGrid(s)[r][c] == g[r][c]
    {
      FlattenAt(g, Columns * r + c);
      assert (Columns * r + c) / Columns == r;
      assert (Columns * r + c) % Columns == c;
    }
    assert forall r :: 0 <= r < Rows ==> DataGrid(s)[r] == g[r];
  }

  /** create_header: a fresh 9-element copy of the record's first nine cells */
  method CreateHeader(sequence: array<int>) returns (header: array<int>)
    requires sequence.Length >= HeaderLen
    ensures fresh(header) && header.Length == HeaderLen
    ensures forall i :: 0 <= i < HeaderLen ==> header[i] == sequence[i]
  {
    header := new int[HeaderLen](_ => 0);
    for i := 0 to HeaderLen
      invariant forall j :: 0 <= j < i ==> header[j] == sequence[j]
    {
      header[i] := sequence[i];
    }
  }

  /** create_data: a fresh 5x5 matrix filled row-major from record cells 9..33 */
  method CreateData(sequence: array<int>) returns (data: array2<int>)
    requires sequence.Length >= MaxSequence
    ensures fresh(data) && data.Length0 == Rows && data.Length1 == Columns
    ensures forall i :: HeaderLen <= i < MaxSequence ==>
      data[(i - HeaderLen) / Columns, (i - HeaderLen) % Columns] == sequence[i]
    ensures GridOf(data) == DataGrid(sequence[..])
  {
    data := new int[Rows, Columns]((_, _) => 0);
    for i := HeaderLen to MaxSequence
      invariant forall r, c :: 0 <= r < Rows && 0 <= c < Columns && Columns * r + c < i - HeaderLen ==>
        data[r, c] == sequence[HeaderLen + Columns * r + c]
    {
      CellOfIndex(i);
      var row := (i - HeaderLen) / Columns;
      var col := (i - HeaderLen) % Columns;
      data[row, col] := sequence[i];
    }
    forall i | HeaderLen <= i < MaxSequence
      ensures data[(i - HeaderLen) / Columns, (i - HeaderLen) % Columns] == sequence[i]
    {
      CellOfIndex(i);
    }
    assert forall r :: 0 <= r < Rows ==> GridOf(data)[r] == DataGrid(sequence[..])[r];
  }
}
