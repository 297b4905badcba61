/**
 * One record through the per-line stages of main: partition, validate,
 * fold the identifier, resolve the colour.  Reading the record from the
 * input file and writing the report are not part of this model.
 */
module Pipeline {
  import opened Layout
  import opened Decoder
  import opened Validator
  import opened Identifier
  import opened Colors

  /** The stages main runs on each parsed record, as written */
  method DecodeRecord(sequence: array<int>)
      returns (header: array<int>, data: array2<int>, valid: bool, id: int, color: string)
    requires sequence.Length == MaxSequence
    ensures fresh(header) && fresh(data)
    ensures header[..] == sequence[..HeaderLen]
    ensures data.Length0 == Rows && data.Length1 == Columns
    ensures GridOf(data) == DataGrid(sequence[..])
    ensures valid <==> HeaderValid(sequence[..]) && DataValidAsWritten(DataGrid(sequence[..]))
    ensures id == if valid then PayloadValue(DataGrid(sequence[..])) else Invalid
    ensures color == GetColor(id)
  {
    header := CreateHeader(sequence);
    data := CreateData(sequence);
    valid := ValidateSequence(sequence, data);
    id := ComputeId(data, valid);
    color := GetColor(id);
  }

  /** The same stages with the full parity check and the restored break */
  method DecodeRecordIntended(sequence: array<int>)
      returns (header: array<int>, data: array2<int>, valid: bool, id: int, color: string)
    requires sequence.Length == MaxSequence
    ensures fresh(header) && fresh(data)
    ensures header[..] == sequence[..HeaderLen]
    ensures data.Length0 == Rows && data.Length1 == Columns
    ensures GridOf(data) == DataGrid(sequence[..])
    ensures valid <==> HeaderValid(sequence[..]) && DataValidFull(DataGrid(sequence[..]))
    ensures id == if valid then PayloadValue(DataGrid(sequence[..])) else Invalid
    ensures color == GetColorIntended(id)
  {
    header := CreateHeader(sequence);
    data := CreateData(sequence);
    valid := ValidateSequenceFull(sequence, data);
    id := ComputeId(data, valid);
    color := GetColorIntended(id);
  }

  /** The record a tag carrying identifier n sends: nine 1s, then its matrix row by row */
  function TagRecord(n: nat): (s: seq<int>)
    requires n < Pow2(IdBits)
    ensures |s| == MaxSequence
  {
    FlattenLength(EncodeGrid(n));
    seq(HeaderLen, _ => 1) + Flatten(EncodeGrid(n))
  }

  /** Every 16-bit identifier survives the whole pipeline, under either data check */
  lemma TagRecordDecodes(n: nat)
    requires n < Pow2(IdBits)
    ensures HeaderValid(TagRecord(n))
    ensures DataValidAsWritten(DataGrid(TagRecord(n))) && DataValidFull(DataGrid(TagRecord(n)))
    ensures PayloadValue(DataGrid(TagRecord(n))) == n
  {
    AssembleThenPartition(seq(HeaderLen, _ => 1), EncodeGrid(n));
    EncodeThenFold(n);
  }

  /** The tag carrying 3072 (0xC00) decodes to "White" */
  lemma WhiteTagDecodes()
    ensures 3072 < Pow2(IdBits)
    ensures HeaderValid(TagRecord(3072)) && DataValidAsWritten(DataGrid(TagRecord(3072)))
    ensures GetColor(PayloadValue(DataGrid(TagRecord(3072)))) == "White"
  {
    Pow2Of16();
    TagRecordDecodes(3072);
  }

  /** Nine 1s followed by 25 zeros */
  function BlankRecord(): (s: seq<int>)
    ensures |s| == MaxSequence
  {
    seq(HeaderLen, _ => 1) + seq(DataLen, _ => 0)
  }

  lemma BlankRecordGrid()
    ensures DataGrid(BlankRecord()) == ZeroGrid()
  {
    var s := BlankRecord();
    var g := DataGrid(s);
    forall r | 0 <= r < Rows
      ensures g[r] == ZeroGrid()[r]
    {
      assert forall c :: 0 <= c < Columns ==> g[r][c] == s[HeaderLen + Columns * r + c] == 0;
    }
  }

  /** The blank tag is a valid record with identifier 0, which has no colour */
  lemma BlankTagDecodes()
    ensures HeaderValid(BlankRecord())
    ensures DataValidAsWritten(DataGrid(BlankRecord())) && DataValidFull(DataGrid(BlankRecord()))
    ensures PayloadValue(DataGrid(BlankRecord())) == 0
    ensures GetColor(0) == "Invalid"
  {
    BlankRecordGrid();
    AsWrittenMissesInnerFlip();
    FullImpliesAsWritten(ZeroGrid());
    ZeroWeightedSum(IdBits);
  }

  lemma {:induction false} ZeroWeightedSum(k: nat)
    requires k <= IdBits
    ensures forall j :: 0 <= j <= k ==> WeightedSum(ZeroGrid(), j) == 0
  {
    if k > 0 {
      ZeroWeightedSum(k - 1);
    }
  }
}
