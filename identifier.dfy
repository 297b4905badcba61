/**
 * Folding the 4x4 payload into an identifier (compute_id), the encoder
 * that loads a 16-bit value into a matrix with its parity bits, and the
 * round trips between the two.
 */
module Identifier {
  import opened Layout
  import opened Validator

  const Invalid: int := -1

  function Pow2(p: nat): (r: nat)
    ensures r >= 1
  {
    if p == 0 then 1 else 2 * Pow2(p - 1)
  }

  /** Payload cell number i (0..15) in row-major order, with width 4 */
  function PayloadCell(g: Grid, i: nat): int
    requires i < IdBits
  {
    g[i / 4][i % 4]
  }

  /** The 16 payload cells, most significant first */
  function PayloadBits(g: Grid): (bs: seq<int>)
    ensures |bs| == IdBits
    ensures forall r, c :: 0 <= r < Rows - 1 && 0 <= c < Columns - 1 ==> bs[4 * r + c] == g[r][c]
  {
    seq(IdBits, i requires 0 <= i < IdBits => PayloadCell(g, i))
  }

  /** The first k terms of compute_id's sum: cell i weighs 2^(15 - i) */
  function WeightedSum(g: Grid, k: nat): int
    requires k <= IdBits
  {
    if k == 0 then 0 else WeightedSum(g, k - 1) + PayloadCell(g, k - 1) * Pow2(IdBits - k)
  }

  function PayloadValue(g: Grid): int
  {
    WeightedSum(g, IdBits)
  }

  /** compute_id: the big-endian payload value of a valid record, -1 otherwise */
  method ComputeId(data: array2<int>, valid: bool) returns (id: int)
    requires data.Length0 == Rows && data.Length1 == Columns
    ensures !valid ==> id == Invalid
    ensures valid ==> id == PayloadValue(GridOf(data))
    ensures valid && PayloadIsBits(GridOf(data)) ==> 0 <= id < Pow2(IdBits) && Pow2(IdBits) == 65536
  {
    if valid {
      ghost var g := GridOf(data);
      id := 0;
      for i := 0 to IdBits
        invariant id == WeightedSum(g, i)
      {
        var row := i / 4;
        var col := i % 4;
        var p := IdBits - 1 - i;
        id := id + data[row, col] * Pow2(p);
      }
      if PayloadIsBits(g) {
        PayloadValueRange(g);
      }
    } else {
      id := Invalid;
    }
  }

  /** The low k bits of n, most significant first */
  function Bits(n: nat, k: nat): (bs: seq<int>)
    ensures |bs| == k
    ensures forall i :: 0 <= i < k ==> bs[i] == 0 || bs[i] == 1
  {
    if k == 0 then [] else Bits(n / 2, k - 1) + [n % 2]
  }

  /** A big-endian bit string read as a number */
  function FromBits(bs: seq<int>): int
  {
    if |bs| == 0 then 0 else 2 * FromBits(bs[..|bs| - 1]) + bs[|bs| - 1]
  }

  lemma {:induction false} FromBitsOfBits(n: nat, k: nat)
    requires n < Pow2(k)
    ensures FromBits(Bits(n, k)) == n
  {
    if k > 0 {
      var bs := Bits(n, k);
      assert bs[..k - 1] == Bits(n / 2, k - 1);
      FromBitsOfBits(n / 2, k - 1);
    }
  }

  lemma {:induction false} BitsOfFromBits(bs: seq<int>)
    requires forall i :: 0 <= i < |bs| ==> bs[i] == 0 || bs[i] == 1
    ensures 0 <= FromBits(bs) < Pow2(|bs|)
    ensures Bits(FromBits(bs), |bs|) == bs
  {
    if |bs| > 0 {
      var front := bs[..|bs| - 1];
      BitsOfFromBits(front);
      var n := FromBits(bs);
      assert n / 2 == FromBits(front) && n % 2 == bs[|bs| - 1];
      assert bs == front + [bs[|bs| - 1]];
    }
  }

  /** Kept apart so that the solver does this product step without the recursive definitions in scope */
  lemma Distribute(f: int, b: int, p: int)
    ensures f * (2 * p) + b * p == (2 * f + b) * p
  {
  }

  /** compute_id's weighted sum is the Horner reading of the payload bits, shifted */
  lemma {:induction false} WeightedSumIsHorner(g: Grid, k: nat)
    requires k <= IdBits
    ensures WeightedSum(g, k) == FromBits(PayloadBits(g)[..k]) * Pow2(IdBits - k)
  {
    if k > 0 {
      WeightedSumIsHorner(g, k - 1);
      var bs := PayloadBits(g);
      var f := FromBits(bs[..k - 1]);
      var b := bs[k - 1];
      var p := Pow2(IdBits - k);
      assert Pow2(IdBits - (k - 1)) == 2 * p;
      assert bs[..k][..k - 1] == bs[..k - 1];
      assert FromBits(bs[..k]) == 2 * f + b;
      assert WeightedSum(g, k) == f * (2 * p) + b * p;
      Distribute(f, b, p);
    }
  }

  lemma PayloadValueIsFromBits(g: Grid)
    ensures PayloadValue(g) == FromBits(PayloadBits(g))
  {
    WeightedSumIsHorner(g, IdBits);
    assert PayloadBits(g)[..IdBits] == PayloadBits(g);
  }

  lemma Pow2Of16()
    ensures Pow2(IdBits) == 65536
  {
    assert Pow2(4) == 16;
    assert Pow2(8) == 256;
    assert Pow2(12) == 4096;
  }

  /** A payload of 0/1 cells folds to a value in [0, 65535] */
  lemma PayloadValueRange(g: Grid)
    requires PayloadIsBits(g)
    ensures 0 <= PayloadValue(g) < Pow2(IdBits)
    ensures Pow2(IdBits) == 65536
  {
    PayloadValueIsFromBits(g);
    PayloadBitsAreBits(g);
    BitsOfFromBits(PayloadBits(g));
    Pow2Of16();
  }

  /** The matrix whose payload holds bs (row-major) and whose parity bits are zero */
  function LoadPayload(bs: seq<int>): (g: Grid)
    requires |bs| == IdBits
    ensures PayloadBits(g) == bs
  {
    var g := seq(Rows, r requires 0 <= r < Rows =>
      seq(Columns, c requires 0 <= c < Columns =>
        if r < Rows - 1 && c < Columns - 1 then bs[4 * r + c] else 0));
    assert forall i :: 0 <= i < IdBits ==> PayloadBits(g)[i] == g[i / 4][i % 4];
    g
  }

  /** The same payload with every parity cell recomputed and the corner cleared */
  function WithParity(g: Grid): (e: Grid)
  {
    seq(Rows, r requires 0 <= r < Rows =>
      seq(Columns, c requires 0 <= c < Columns =>
        if r < Rows - 1 && c < Columns - 1 then g[r][c]
        else if r < Rows - 1 && c == Columns - 1 then CParity(Sum(Row(g, r)))
        else if r == Rows - 1 && c < Columns - 1 then CParity(Sum(Column(g, c)))
        else 0))
  }

  /** Recomputing the parity bits keeps the payload and satisfies the full check */
  lemma WithParityIsValid(g: Grid)
    ensures PayloadBits(WithParity(g)) == PayloadBits(g)
    ensures DataValidFull(WithParity(g))
  {
    var e := WithParity(g);
    forall k | 0 <= k < Rows - 1
      ensures RowParityOk(e, k) && ColumnParityOk(e, k)
    {
      assert Row(e, k) == Row(g, k);
      assert Column(e, k) == Column(g, k);
    }
  }

  /** A fully valid matrix is determined by its payload: its parity bits are those WithParity computes */
  lemma ValidIsWithParity(g: Grid)
    requires DataValidFull(g)
    ensures WithParity(g) == g
  {
    var e := WithParity(g);
    forall r | 0 <= r < Rows
      ensures e[r] == g[r]
    {
      forall c | 0 <= c < Columns
        ensures e[r][c] == g[r][c]
      {
        if r < Rows - 1 && c == Columns - 1 {
          assert RowParityOk(g, r);
        } else if r == Rows - 1 && c < Columns - 1 {
          assert ColumnParityOk(g, c);
        }
      }
    }
  }

  /** The tag matrix that carries identifier n: its bits big-endian, with parity */
  function EncodeGrid(n: nat): (g: Grid)
    requires n < Pow2(IdBits)
  {
    WithParity(LoadPayload(Bits(n, IdBits)))
  }

  /** Round trip: encoding n and folding the payload gives back n, and the matrix passes every check */
  lemma EncodeThenFold(n: nat)
    requires n < Pow2(IdBits)
    ensures PayloadValue(EncodeGrid(n)) == n
    ensures PayloadIsBits(EncodeGrid(n))
    ensures DataValidFull(EncodeGrid(n)) && DataValidAsWritten(EncodeGrid(n))
  {
    var bs := Bits(n, IdBits);
    var g := EncodeGrid(n);
    WithParityIsValid(LoadPayload(bs));
    assert PayloadBits(g) == bs;
    PayloadValueIsFromBits(g);
    FromBitsOfBits(n, IdBits);
    FullImpliesAsWritten(g);
    forall r, c | 0 <= r < Rows - 1 && 0 <= c < Columns - 1
      ensures g[r][c] == 0 || g[r][c] == 1
    {
      assert g[r][c] == PayloadBits(g)[4 * r + c];
    }
  }

  /** Two matrices with the same payload cells */
  predicate SamePayload(l: Grid, g: Grid)
  {
    forall r, c :: 0 <= r < Rows - 1 && 0 <= c < Columns - 1 ==> l[r][c] == g[r][c]
  }

  lemma SamePayloadBits(l: Grid, g: Grid)
    requires PayloadBits(l) == PayloadBits(g)
    ensures SamePayload(l, g)
  {
  }

  lemma SamePayloadSameSums(l: Grid, g: Grid, k: nat)
    requires SamePayload(l, g) && k < Rows - 1
    ensures Row(l, k) == Row(g, k) && Column(l, k) == Column(g, k)
  {
  }

  /** WithParity looks at the payload only */
  lemma WithParityOfPayload(l: Grid, g: Grid)
    requires SamePayload(l, g)
    ensures WithParity(l) == WithParity(g)
  {
    var el, eg := WithParity(l), WithParity(g);
    forall r | 0 <= r < Rows
      ensures el[r] == eg[r]
    {
      forall c | 0 <= c < Columns
        ensures el[r][c] == eg[r][c]
      {
        if r < Rows - 1 {
          SamePayloadSameSums(l, g, r);
        }
        if c < Columns - 1 {
          SamePayloadSameSums(l, g, c);
        }
      }
    }
  }

  lemma PayloadBitsAreBits(g: Grid)
    requires PayloadIsBits(g)
    ensures forall i :: 0 <= i < IdBits ==> PayloadBits(g)[i] == 0 || PayloadBits(g)[i] == 1
  {
  }

  /** Round trip the other way: a fully valid 0/1 matrix is the encoding of its identifier */
  lemma FoldThenEncode(g: Grid)
    requires DataValidFull(g) && PayloadIsBits(g)
    ensures 0 <= PayloadValue(g) < Pow2(IdBits)
    ensures EncodeGrid(PayloadValue(g)) == g
  {
    PayloadValueRange(g);
    PayloadValueIsFromBits(g);
    var bs := PayloadBits(g);
    PayloadBitsAreBits(g);
    BitsOfFromBits(bs);
    SamePayloadBits(LoadPayload(bs), g);
    WithParityOfPayload(LoadPayload(bs), g);
    ValidIsWithParity(g);
  }
}
