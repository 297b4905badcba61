# RFID tag record decoder — Dafny model

This project models the core of a small C program that decodes RFID tag readings.
Each reading is one record of 34 integers:

- a 9-cell header, which must be all 1s;
- a 5x5 matrix filled row-major from the remaining 25 cells.

In the matrix, rows 0-3 × columns 0-3 hold 16 payload bits. Column 4 holds one parity bit per row, and row 4 holds one parity bit per column. Cell [4][4] is the corner and must be 0.

A record is valid when its header is all 1s and its data passes the parity check. The payload of a valid record is read as a big-endian 16-bit identifier. An invalid record gets the sentinel -1. Finally, `get_color`'s switch maps the identifier to a colour label.

The model follows the source's own form:

- The stages that fill or scan buffers in loops are Dafny methods over arrays. `create_header`, `create_data`, `validate_header`, `validate_row`, `validate_column`, `validate_data` and `compute_id` take `array<int>` for the record and `array2<int>` for the 5x5 matrix, and keep the source's loops with their invariants.
- Each method is proved against value-level specification functions over `seq`. The partition, parity and identifier properties are lemmas about those functions.
- `get_color` is a function. It interprets the switch's arms in order: each arm copies a label and then either breaks or falls through to the next arm. This is how the missing `break` shows up in the model.
- C's `int` results 1/0 of the validators are modelled as `true`/`false`.
- C's `sum % 2` truncates toward zero, so its result takes the sign of the sum. `Validator.CParity` models this explicitly, so a negative odd sum has parity -1, as in C.

Modules: `Layout` (constants, the `Grid` value type, `GridOf`), `Decoder`, `Validator`, `Identifier`, `Colors` and `Pipeline` (one record through the stages `main` runs per line).

Both defects are modelled as written. The faithful members (`ValidateData`, `ValidateSequence`, `GetColor`, `DecodeRecord`) reproduce the source's behaviour. Corrected members sit beside them (`ValidateDataFull`, `ValidateSequenceFull`, `GetColorIntended`, `DecodeRecordIntended`): this pipeline checks every row and column pair and maps 3087 to "Purple". See "## Findings".

## Model

| member | source | states |
|---|---|---|
| Decoder.CreateHeader | src_file.c:118-133 | returns a fresh 9-element array with header[i] == sequence[i] for i in 0..8; the record is not modified |
| Decoder.CreateData | src_file.c:134-160 | returns a fresh 5x5 array with data[(i-9)/5][(i-9)%5] == sequence[i] for every i in 9..33, i.e. exactly the row-major grid of the data region |
| Decoder.CellOfIndex | src_file.c:155-157 | each record index 9..33 maps to an in-range cell, and that cell maps back to the same index, so no two indices share a cell |
| Decoder.PartitionIsLossless | src_file.c:118-160 | the header followed by the matrix read row by row is the original record |
| Decoder.AssembleThenPartition | src_file.c:134-160 | any 9-cell header and 5x5 matrix put into a record come back unchanged from the partition |
| Validator.CParity | src_file.c:208 | C's truncating sum % 2: 0 or 1 for a non-negative sum, 0 or -1 for a negative one, and always congruent to the sum mod 2 |
| Validator.ValidateRow | src_file.c:201-213 | true exactly when C's (data[r][0]+…+data[r][3]) % 2 equals data[r][4] |
| Validator.ValidateColumn | src_file.c:214-227 | true exactly when C's (data[0][c]+…+data[3][c]) % 2 equals data[4][c] |
| Validator.RowParityExplicit | src_file.c:204-209 | the row parity predicate is the four-cell sum reduced with C's % 2 compared with the parity cell |
| Validator.ColumnParityExplicit | src_file.c:218-223 | the column parity predicate is the four-cell sum reduced with C's % 2 compared with the parity cell |
| Validator.ValidateHeader | src_file.c:170-181 | true exactly when record cells 0..8 are all 1; false exactly when some cell among them is not 1 |
| Validator.ValidateData | src_file.c:182-199 | false whenever data[4][4] != 0; otherwise exactly row 0's parity and column 0's parity (the loop returns during its first iteration) |
| Validator.ValidateDataFull | src_file.c:191-197 | corrected check: true exactly when the corner is 0 and all four rows and all four columns pass their parity |
| Validator.ValidateSequence | src_file.c:162-168 | true exactly when the header is all 1s and validate_data accepts; any header cell other than 1 forces false whatever the data holds |
| Validator.ValidateSequenceFull | src_file.c:162-168 | the same conjunction with the corrected full-matrix data check |
| Validator.AsWrittenIgnoresOtherCells | src_file.c:191-197 | two matrices that agree on the corner, row 0 and column 0 get the same verdict from validate_data: rows and columns 1-3 have no effect |
| Validator.FullImpliesAsWritten | src_file.c:185-197 | every matrix the full check accepts is also accepted as written |
| Validator.FullCheckDetectsPayloadFlip | src_file.c:201-227 | under the full check, inverting any single payload bit of a valid 0/1 matrix makes it invalid |
| Validator.AsWrittenMissesInnerFlip | src_file.c:191-197 | the all-zero matrix is valid, and with bit [1][1] inverted the full check rejects it while validate_data as written still accepts it |
| Identifier.ComputeId | src_file.c:229-248 | -1 when the record is invalid; otherwise the sum of payload cell i times 2^(15-i) over i = 0..15, which lies in [0, 65535] when every payload cell is 0 or 1 |
| Identifier.WeightedSumIsHorner | src_file.c:234-241 | the first k terms of compute_id's weighted sum equal the big-endian value of the first k payload bits shifted left by 16-k |
| Identifier.PayloadValueIsFromBits | src_file.c:234-241 | compute_id's sum is the big-endian reading of the 16 payload bits |
| Identifier.PayloadValueRange | src_file.c:233-242 | a payload of 0/1 cells folds to a value in [0, 65535] |
| Identifier.WithParityIsValid | src_file.c:201-227 | recomputing the parity cells of any matrix keeps its payload and makes it pass every row and column check |
| Identifier.ValidIsWithParity | src_file.c:201-227 | a matrix that passes the full check is determined by its payload: its parity cells are the computed ones and its corner is 0 |
| Identifier.EncodeThenFold | src_file.c:229-248 | loading any n in [0, 65535] big-endian into the payload, with parity, gives a 0/1 matrix accepted by both checks whose identifier is n |
| Identifier.FoldThenEncode | src_file.c:229-248 | a fully valid 0/1 matrix is exactly the encoding of its identifier, so the identifier determines the matrix |
| Colors.ColorSwitchOutcome | src_file.c:260-285 | the switch as written yields White, Green, Yellow, Red, Blue for 3072, 3076, 3083, 3085, 3086, "Black" for both 3087 and 3123, and "Invalid" for everything else |
| Colors.ColorSwitchFixedOutcome | src_file.c:260-285 | with the break restored after "Purple", 3087 yields "Purple" and every other id is unchanged |
| Colors.GetColor | src_file.c:250-287 | each label is returned exactly for its ids (3087 and 3123 both give "Black"); "Invalid" exactly for ids outside the table, -1 included; every label fits in COLORS_CHAR (10) characters |
| Colors.GetColorIntended | src_file.c:277-281 | 3087 gives "Purple", 3123 gives "Black", every other id gives get_color's label; labels fit in 10 characters |
| Colors.FallthroughHidesPurple | src_file.c:277-280 | as written, 3087 and 3123 give the same label and no id ever gives "Purple" |
| Colors.IntendedLabelsAreDistinct | src_file.c:260-285 | with the break restored, distinct table ids have distinct labels |
| Pipeline.DecodeRecord | src_file.c:56-64 | one record through create_header, create_data, validate_sequence, compute_id and get_color: fresh header and matrix holding the partition, validity as written, id -1 when invalid and the payload value otherwise, and that id's label |
| Pipeline.DecodeRecordIntended | src_file.c:56-64 | the same stages with the full parity check and the corrected colour switch |
| Pipeline.TagRecordDecodes | src_file.c:59-64 | the record that nine 1s and the encoding of any n in [0, 65535] make up has a valid header, passes both data checks and folds back to n |
| Pipeline.WhiteTagDecodes | src_file.c:262-264 | the tag carrying 3072 (0xC00) decodes as valid and resolves to "White" |
| Pipeline.BlankTagDecodes | src_file.c:59-64 | nine 1s followed by 25 zeros is a valid record with identifier 0, whose label is "Invalid" |

## Left out

- `main`'s argument check, file opening and closing, the `feof` loop, the report file name `rfid_data_1.out` and the exit codes 1-3: I/O plumbing. `Pipeline.DecodeRecord` models only the per-record stages `main` runs (lines 59-64).
- `create_sequence`: it relies on `fgets`, `strtok` and `atoi`, which are foreign library calls. The model takes the 34-cell record array as its input. This also leaves out two source behaviours: writing past the 34 cells when a line has more tokens, and reading an uninitialised buffer when `fgets` fails at end of file.
- `output_sequence`, `output_header`, `output_data`, `output_id` and `output_color`: text formatting into a file.
- `free_data` and `free_arrays`: memory management only. The loop in `free_data` never runs, but nothing observable depends on it.
- The `calloc` failure paths that call `exit(4)`: allocation always succeeds in Dafny.
- `compute_id` computes `pow(2, p)` in floating point and converts the sum back to `int`. The model uses the exact integer power of two. The two agree whenever the payload cells are 0 or 1.
- 32-bit `int` overflow: cells are unbounded integers. In C, the four-cell parity sums and `compute_id`'s sum could overflow only for cell values far outside 0/1 (undefined behaviour). The model does not reproduce that.
- `get_color`'s heap buffer: it is modelled as the string left in it, starting empty as `calloc` leaves it. Its size is covered by every label having at most `COLORS_CHAR` characters.
- Validator.ValidateHeader: states the result only. It does not state that the loop stops at the first cell that is not 1, because a caller cannot observe where it stopped.

## Findings

| source | as written | input that shows it | evidently intended | confidence | as-written member | corrected member |
|---|---|---|---|---|---|---|
| src_file.c:191-197 | the loop over rows/columns 0-3 returns during its first iteration, so only row 0 and column 0 are checked | nine 1s, then the data `0 0 0 0 0  0 1 0 0 0  0 0 0 0 0  0 0 0 0 0  0 0 0 0 0`: row 1's parity is wrong, yet the record is accepted | every row and column pair 0-3 must pass | high, not executed | Validator.ValidateData (counterexample: Validator.AsWrittenMissesInnerFlip) | Validator.ValidateDataFull (detects every single-bit flip: Validator.FullCheckDetectsPayloadFlip) |
| src_file.c:277-280 | no `break` after copying "Purple", so the 3087 arm falls through into the 3123 arm | id 3087 resolves to "Black" | 3087 resolves to "Purple" | high, not executed | Colors.GetColor (Colors.FallthroughHidesPurple) | Colors.GetColorIntended (Colors.IntendedLabelsAreDistinct) |
