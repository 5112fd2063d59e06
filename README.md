# Darwin-WGA host logic in Dafny

Darwin-WGA is a whole-genome aligner. Its filtering stage (banded
Smith-Waterman, BSW) and its extension stage (GACT-X) run on FPGA units.
This project models the host code that feeds those units and reads their
results. The OpenCL calls are replaced by their inputs and outputs: the
words a unit writes back are parameters of the operations that read them.

The model has four modules, one file each:

- `common.dfy` (`Common`): the C conversions the host code performs.
  - `Int32Of` stores a `size_t` into an `int` modulo 2^32.
  - `U16` truncates to `ushort`; `U32` converts to `uint32_t`.
  - `TracebackWords` gives the traceback word count `16 * summary[5]`.
  - The module also holds sequence reversal and the 4-word record slice.
- `processor.dfy` (`Processor`), for `src/host/WGA/Processor.cpp`.
  - `Nt2Int` is a function.
  - `BuildBatchRecords` stages a batch into id and parameter records. It is a loop over arrays.
  - `UnitPool` is a class. It holds the free-unit list `available_k` as a `seq` and the `start_op` and `num_executing` arrays. Each method is one atomic step of `SendBatchRequest`.
  - The composite `SendBatchRequest` chains those steps.
  - `FilterOutput` is a loop specified by the function `Filtered`.
  - `GactxRequest` is the `tb_pointers` push loop.
- `traceback.dfy` (`Traceback`), for `src/host/GACTX/main.cpp`.
  - The decoder writes into two character arrays in place and reverses them in place. It is specified by `Row`, `Steps` and `Emitted`: the row a walk over the direction codes emits, and the number of codes that move a side or emit a column.
  - The module also models the reversal of the inputs before upload.
- `bsw.dfy` (`Bsw`), for `src/host/BSW/main.cpp`: the round-up, the parse loop's field-to-slot mapping, the cyclic padding loop, the 33-fill and the stride-16 result read.

Facts of the code that the model relies on:

- **Unit choice.** Acquisition sorts the free-unit list, reverses it and takes `back()`, so it returns the smallest free unit (`Processor.cpp:503-508`). After one request the unit is back at the end of the list and the others are in descending order.
- **Release order.** A unit is pushed back on `available_k` only after its results are read back and its in-flight count is decremented (`Processor.cpp:582-588`). A unit in `available_k` therefore always has `num_executing == 0`, and the wait at `Processor.cpp:516` never spins in the sequential model. `UnitPool.Valid` states this.
- **Example words.** The word `0x36` holds, low bit pair first, the codes D (2), I (1) and M (3), then thirteen Z codes. `ExampleDeleteInsertMatch` decodes it.
- **Traceback count.** `GACTXRequest` does not check the count `16 * summary[5]` against its 256-word buffer, and the harness does not check it against `max_tb`. The model makes both bounds preconditions.
- **Fatal asserts.** The tile-length `assert`s (`Processor.cpp:489-490`, `622-623`) are preconditions of the operations that contain them.

## Model

| member | source | states |
|---|---|---|
| Common.Int32Of | src/host/WGA/Processor.cpp:484-487 | a `size_t` stored in an `int` is congruent to it modulo 2^32 and unchanged below 2^31 |
| Common.U16 | src/host/WGA/Processor.cpp:594-597 | the `ushort` tile id is the id word modulo 2^16, and unchanged when already in range |
| Common.U32 | src/host/WGA/Processor.cpp:596-601 | a `uint32_t` offset is the word modulo 2^32, and unchanged when non-negative |
| Common.TracebackWords | src/host/WGA/Processor.cpp:690-695 | the number of traceback words is a multiple of 16, zero exactly when the count word is not positive, and otherwise 16 times it |
| Processor.IdRecord | src/host/WGA/Processor.cpp:477-481 | the identifier record of slot b has four words: b, then three zeros |
| Processor.Nt2Int | src/host/WGA/Processor.cpp:74-99 | result in 0..4; 4 exactly for characters outside A/C/G/T in either case; otherwise the base's index, or 3 minus it when complemented |
| Processor.Nt2IntComplement | src/host/WGA/Processor.cpp:74-99 | any non-zero `complement` gives 3 minus the plain code for a base and leaves 4 (N or other) unchanged |
| Processor.BatchSize | src/host/WGA/Processor.cpp:462-467 | batch size is a multiple of 16, at least the tile count and less than 16 above it, and equal to it when it is already a multiple |
| Processor.BatchSizeIsLeast | src/host/WGA/Processor.cpp:462-467 | no multiple of 16 that covers the tiles is smaller than the batch size |
| Processor.ParamRecord | src/host/WGA/Processor.cpp:484-490 | a parameter record has four `int` words holding the offsets (exact below 2^31) and the lengths (exact up to 512) |
| Processor.ParamWord | src/host/WGA/Processor.cpp:477-491 | a parameter word is an `int`; a real slot holds its own tile's record, and a slot past the last tile holds the last tile's record |
| Processor.WriteRecord | src/host/WGA/Processor.cpp:480-487 | writing one 4-word slot changes exactly those four words |
| Processor.BuildBatchRecords | src/host/WGA/Processor.cpp:477-491 | both buffers hold 4 words per slot; slot b's id record is [b,0,0,0]; real slots carry their own tile, and padded slots repeat the last tile |
| Processor.DecodeSlot | src/host/WGA/Processor.cpp:594-601 | a decoded slot carries the `ushort` id, the score word unchanged and both offsets as `uint32_t` |
| Processor.Kept | src/host/WGA/Processor.cpp:593-605 | a kept slot decodes to an id below the tile count and a score at least the threshold |
| Processor.Filtered | src/host/WGA/Processor.cpp:593-607 | every filtered result has id below the tile count and score at least the threshold, and there are no more results than slots |
| Processor.FilteredMembers | src/host/WGA/Processor.cpp:593-607 | a result is in the filtered list exactly when it is the decoding of a slot that passes both tests |
| Processor.FilteredInSlotOrder | src/host/WGA/Processor.cpp:593-607 | the filtered list is a subsequence of all decoded slots in slot order |
| Processor.FilteredMonotone | src/host/WGA/Processor.cpp:602-605 | raising the threshold gives a subsequence of the lower threshold's result, never longer |
| Processor.FilterOutput | src/host/WGA/Processor.cpp:590-607 | the push loop returns exactly `Filtered`, whose members are sound and are exactly the kept slots |
| Processor.UnitsFrom | src/host/WGA/Processor.cpp:503 | the units from `lo` up that occur in the list, in ascending order |
| Processor.SortUnits | src/host/WGA/Processor.cpp:503 | sorting the free-unit list gives an ascending permutation of it |
| Processor.SortUnitsElements | src/host/WGA/Processor.cpp:503 | sorting keeps the length and the members |
| Processor.ReversePop | src/host/WGA/Processor.cpp:504-508 | after reversing the sorted list, the back is the minimum, and the rest is descending and holds every other member |
| Processor.TakeSmallest | src/host/WGA/Processor.cpp:503-508 | sort, reverse, `back()` and `pop_back()` return the smallest free unit and leave exactly the others, in descending order |
| Processor.UnitPool.Valid | src/host/WGA/Processor.cpp:499-511 | in a valid pool every unit 0..3 is either held or free, never both |
| Processor.UnitPool.constructor | src/host/WGA/Processor.cpp:284-288 | all four units free in order 0..3, every cursor 0 and every in-flight count 0 |
| Processor.UnitPool.TryAcquire | src/host/WGA/Processor.cpp:499-511 | succeeds exactly when a unit is free; takes the smallest, removes only it, returns its old cursor and advances that cursor mod 4, leaving the other cursors; otherwise nothing changes |
| Processor.UnitPool.TryBeginSubmit | src/host/WGA/Processor.cpp:516-517 | the in-flight count of the held unit goes up by one exactly when it is below 4; the other counts are unchanged |
| Processor.UnitPool.EndSubmit | src/host/WGA/Processor.cpp:584 | the held unit's in-flight count goes down by one; the other counts are unchanged |
| Processor.UnitPool.Release | src/host/WGA/Processor.cpp:586-588 | the idle held unit is appended to the free list and is no longer held; free and held units still partition 0..3 without duplicates |
| Processor.SendBatchRequest | src/host/WGA/Processor.cpp:459-614 | uses the smallest free unit and its old output-buffer cursor, advances only that cursor, returns the unit to the back of the free list ahead of the others in descending order, with counts unchanged, and returns exactly the filtered slots |
| Processor.GactxRequest | src/host/WGA/Processor.cpp:616-698 | end offsets are summary words 1 and 2 as `uint32_t`; `tb_pointers` is exactly the first `16 * summary[5]` buffer words, a multiple of 16 and at most 256 |
| Traceback.DirCode | src/host/GACTX/main.cpp:72-76 | direction codes Z, I, D, M are the 2-bit values 0..3 and decode back to themselves |
| Traceback.UnpackPack | src/host/GACTX/main.cpp:483-486 | splitting a word packed from 16 codes, with code j at bit 2j, gives the same codes back |
| Traceback.CodeAt | src/host/GACTX/main.cpp:486 | code j of a word is its bit pair `(w >> 2j) & 3` |
| Traceback.WordCodes | src/host/GACTX/main.cpp:485-486 | a word holds 16 codes, code j being bit pair j |
| Traceback.Codes | src/host/GACTX/main.cpp:483-486 | the walk has 16 codes per word |
| Traceback.CodesAt | src/host/GACTX/main.cpp:483-486 | code 16i+j of the walk is `(words[i] >> 2j) & 3`: low bit pair first, words in array order |
| Traceback.CountBounds | src/host/GACTX/main.cpp:487-509 | each side moves at most once per emitted column, and at most one column is emitted per code |
| Traceback.Row | src/host/GACTX/main.cpp:487-509 | each emitted row has one character per non-Z code |
| Traceback.RowAppend | src/host/GACTX/main.cpp:483-511 | walking two code runs is walking the first, then the second from where the first stopped |
| Traceback.RowOne | src/host/GACTX/main.cpp:487-509 | one code: Z emits nothing, a consuming code emits the character at the position, the other kind emits a gap |
| Traceback.PaddingIsSilent | src/host/GACTX/main.cpp:488-489 | a run of Z codes emits nothing and moves neither position |
| Traceback.RowWindow | src/host/GACTX/main.cpp:490-508 | without its gaps a row is the window of consumed characters below the start position, read downwards |
| Traceback.NoGapColumn | src/host/GACTX/main.cpp:490-508 | the two rows have equal length and no column is a gap on both sides |
| Traceback.WalkStep | src/host/GACTX/main.cpp:486-509 | one more code adds its column to both rows and its steps to both positions, and a consuming code reads inside its sequence |
| Traceback.ApplyCode | src/host/GACTX/main.cpp:487-509 | the `switch` writes this code's column at `tb_pos` and moves `tb_pos`, `rp` and `qp` as the code says |
| Traceback.DecodeCode | src/host/GACTX/main.cpp:485-509 | after code j of word i the buffers hold the rows of the codes so far, and the positions and `tb_pos` match their step and column counts |
| Traceback.DecodeWord | src/host/GACTX/main.cpp:483-511 | the inner loop over one word's 16 codes extends that state by the word's codes |
| Traceback.AlignedRef | src/host/GACTX/main.cpp:513-517 | the returned reference string has one character per non-Z code and is the reference row reversed |
| Traceback.AlignedQuery | src/host/GACTX/main.cpp:513-517 | the returned query string has one character per non-Z code and is the query row reversed |
| Traceback.ReverseInPlace | src/host/GACTX/main.cpp:516-517 | reversing a string in place leaves its mirror image |
| Traceback.ReversedPrefix | src/host/GACTX/main.cpp:513-517 | the returned string is the first `tb_pos` buffer characters reversed |
| Traceback.AlignedShape | src/host/GACTX/main.cpp:479-517 | equal lengths equal to the non-Z count, at most 16 per word; without gaps each string is the consumed window in original order; no gap-gap column |
| Traceback.DecodeTraceback | src/host/GACTX/main.cpp:476-517 | returns the reversed rows of the walk, with final positions start minus the steps of each side, and the shape properties above |
| Traceback.DecodeTile | src/host/GACTX/main.cpp:467-470 | decoding starts at summary words 1 and 2 and reads `16 * summary[5]` words of the `max_tb`-word buffer; both results fit in `ref_len + query_len` |
| Traceback.MaxTb | src/host/GACTX/main.cpp:375 | `max_tb` is the largest number of 16-code words that fits `ref_len + query_len` codes |
| Traceback.ReverseForUpload | src/host/GACTX/main.cpp:310-317 | the uploaded sequence is the input read back to front, and reversing it gives the input |
| Traceback.ExampleSingleMatch | src/host/GACTX/main.cpp:483-517 | word 0x3 from position 3 of ACGT against ACGT aligns T with T |
| Traceback.ExampleDeleteInsertMatch | src/host/GACTX/main.cpp:483-517 | word 0x36 (D, I, M) from positions 2, 2 of ACG against ACG gives C-G and CG- |
| Bsw.BswBatchSize | src/host/BSW/main.cpp:101-106 | batch size is a multiple of 16, at least n and less than 16 above it, and equal to n when n is a multiple |
| Bsw.BatchSizesAgree | src/host/BSW/main.cpp:101-106 | the harness's round-up equals the library's |
| Bsw.BswBatchSizeIsLeast | src/host/BSW/main.cpp:101-106 | no multiple of 16 that covers n is smaller than the batch size |
| Bsw.FieldsRecord | src/host/BSW/main.cpp:365-376 | a parameter line is stored as four `int` words: ref offset, query offset, ref length, query length |
| Bsw.LineWord | src/host/BSW/main.cpp:383-396 | a staged parameter word is an `int`, and a real slot holds its own line's record |
| Bsw.LineWordPeriodic | src/host/BSW/main.cpp:383-396 | the staged parameter words repeat with a period of n records |
| Bsw.SameRecordLayout | src/host/BSW/main.cpp:365-376 | the file's field order, once placed, is the library's record layout (ref offset, query offset, ref length, query length) |
| Bsw.ParseRecords | src/host/BSW/main.cpp:361-379 | record i gets id [i,0,0,0]; its fields land at words 4i+2, 4i+3, 4i, 4i+1 |
| Bsw.PadCyclic | src/host/BSW/main.cpp:383-396 | each padded slot copies the slot n places earlier, which is real slot i mod n |
| Bsw.StagedSlots | src/host/BSW/main.cpp:383-396 | every staged slot c holds id [c,0,0,0] and the record of line c mod n |
| Bsw.StageBatch | src/host/BSW/main.cpp:361-396 | real slots hold their own line; padded slot c equals slot c-n and line c mod n; both buffers hold 4 words per slot |
| Bsw.PrefilledOutput | src/host/BSW/main.cpp:398-400 | all 16 words per slot are 33 |
| Bsw.ReadResults | src/host/BSW/main.cpp:490-495 | row i reads words 16i, 16i+2, 16i+3 and 16i+4, the layout the library decodes |
| Bsw.PaddingPolicies | src/host/BSW/main.cpp:383-396 | on the same tiles, padded slot c holds the last tile in the library and tile c mod n in the harness, and both hold the same record when c+1 is a multiple of n |
| Bsw.PoliciesDiffer | src/host/BSW/main.cpp:390-393 | with two distinct tiles, padded slot 2 holds the second tile in the library but the first in the harness |
| Bsw.SingleRecordPadding | src/host/BSW/main.cpp:383-396 | with one tile both policies stage its record in every padded slot |

## Left out

- Platform, device, program and kernel setup and buffer allocation (`InitializeProcessor` and the set-up half of both harnesses): OpenCL runtime plumbing.
- Every `clEnqueueWriteBuffer`, `clEnqueueReadBuffer`, `clSetKernelArg`, `clEnqueueTask`, `clFinish` and `clWaitForEvents` call. These are foreign device calls. The words the device returns are inputs, and the kernel arguments (band size, alignment fields, scoring matrix) are not modelled.
- The locks `rw_lock`, `fpga_lock` and `gactx_lock`, and the atomicity of `num_executing`. The model is sequential.
- The two spin-waits (`Processor.cpp:499-511`, `516`), modelled as `Try` steps. Each step reports whether the loop would leave. `SendBatchRequest` requires a free unit, because no second caller exists to return one.
- `load_file_to_memory`, reading FASTA files and `parameters.txt`, configuration lookups, and `stoi`/`stol`: file I/O and parsing. Their results are inputs.
- The harness's `while (!infile.eof())` loop is modelled as parsing exactly `n` lines, and `n` is a `nat`. What a short or long file or a negative `argv[2]` does is not modelled.
- `SendRefWriteRequest`, `SendQueryWriteRequest`, the stub `SendRequest` and `ShutdownProcessor`: device I/O and resource release.
- The function-pointer globals, `printf` output, and the `new[]`/`free` mismatch: dispatch, console output and memory management.
- The GACT-X harness's pre-fill of its summary and traceback buffers (`GACTX/main.cpp:381-387`). Those buffers are device inputs, and what the device leaves in them is a parameter of the decoder.
- Processor.BuildBatchRecords: a tile longer than 512 is excluded by a precondition. That stands for the source's fatal `assert`, not for a staged value.
- Processor.GactxRequest: requires `16 * summary[5]` to be at most 256. The source reads past its buffer otherwise.
- Traceback.DecodeTile: requires the traceback word count to fit in `max_tb`, and both walks to stay inside their sequences. Otherwise the source reads before the start or past the end of the string, or reads the terminating NUL at a position equal to the length.
