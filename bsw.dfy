/**
 * The host logic of the stand-alone banded Smith-Waterman harness
 * (src/host/BSW/main.cpp): the batch size is rounded up to a multiple of
 * 16, the records of `parameters.txt` are staged into 4-word identifier and
 * parameter slots, the slots past the real records are filled cyclically
 * with copies of earlier slots, the output buffer is pre-filled with 33,
 * and each result slot is read at a stride of 16 words.
 */
module Bsw {
  import opened Common
  import Processor

  const MinBatchSize: nat := 16
  /** The word every output slot holds before the unit writes it. */
  const OutputFill: int := 33

  /**
   * The batch size of the harness: the requested count when it is a
   * multiple of 16, else the next multiple of 16 above it.
   */
  function BswBatchSize(n: nat): (r: nat)
    ensures r % MinBatchSize == 0
    ensures n <= r < n + MinBatchSize
    ensures n % MinBatchSize == 0 ==> r == n
  {
    if n % MinBatchSize != 0 then (n / MinBatchSize) * MinBatchSize + MinBatchSize else n
  }

  /** The harness and the library round the same way. */
  lemma BatchSizesAgree(n: nat)
    ensures BswBatchSize(n) == Processor.BatchSize(n)
  {
    Processor.BatchSizeIsLeast(n, BswBatchSize(n));
    BswBatchSizeIsLeast(n, Processor.BatchSize(n));
  }

  lemma BswBatchSizeIsLeast(n: nat, m: nat)
    requires m % MinBatchSize == 0 && n <= m
    ensures BswBatchSize(n) <= m
  {
    var r := BswBatchSize(n);
    var a, c := m / MinBatchSize, r / MinBatchSize;
    assert m == MinBatchSize * a && r == MinBatchSize * c;
    assert c < a + 1;
  }

  /** One line of `parameters.txt`, fields in file order. */
  datatype ParamLine = ParamLine(refLen: Int32, queryLen: Int32, refOffset: Int32, queryOffset: Int32)

  /** The parameter record a line is stored as: offsets first, then lengths. */
  function FieldsRecord(line: ParamLine): (r: seq<int>)
    ensures |r| == 4
    ensures r[0] == line.refOffset && r[1] == line.queryOffset
    ensures r[2] == line.refLen && r[3] == line.queryLen
    ensures forall j :: 0 <= j < |r| ==> -TwoTo31 <= r[j] < TwoTo31
  {
    [line.refOffset, line.queryOffset, line.refLen, line.queryLen]
  }

  /**
   * The record layout of the harness is the library's: a tile whose fields
   * fit an `int` and a line carrying the same four values give the same
   * parameter record.
   */
  lemma SameRecordLayout(t: Processor.FilterTile, line: ParamLine)
    requires t.refOffset < TwoTo31 && t.queryOffset < TwoTo31
    requires Processor.Stageable(t)
    requires line == ParamLine(t.refLength, t.queryLength, t.refOffset, t.queryOffset)
    ensures FieldsRecord(line) == Processor.ParamRecord(t)
  {
  }

  lemma {:induction false} MulAtLeast(m: int, d: int)
    requires m > 0 && d >= 1
    ensures m * d >= m
    decreases d
  {
    if d > 1 {
      MulAtLeast(m, d - 1);
      assert m * d == m * (d - 1) + m;
    }
  }

  /** Division with remainder has one answer. */
  lemma ModUnique(x: int, m: int, q: int, r: int)
    requires m > 0 && 0 <= r < m && x == m * q + r
    ensures x % m == r
  {
    var q2, r2 := x / m, x % m;
    assert x == m * q2 + r2;
    assert m * (q - q2) == r2 - r;
    if q > q2 {
      MulAtLeast(m, q - q2);
    } else if q < q2 {
      MulAtLeast(m, q2 - q);
    }
  }

  lemma ModSmall(x: int, m: int)
    requires 0 <= x < m
    ensures x % m == x
  {
    ModUnique(x, m, 0, x);
  }

  lemma ModMinus(x: int, m: int)
    requires 0 < m <= x
    ensures (x - m) % m == x % m
  {
    var q, r := (x - m) / m, (x - m) % m;
    assert x == m * (q + 1) + r;
    ModUnique(x, m, q + 1, r);
  }

  /** Word `k` of the parameter buffer once staging is done: slot `c` repeats line `c mod n`. */
  function LineWord(lines: seq<ParamLine>, k: nat): (r: int)
    ensures -TwoTo31 <= r < TwoTo31
    ensures k / 4 < |lines| ==> r == FieldsRecord(lines[k / 4])[k % 4]
  {
    if lines == [] then 0
    else
      LineSlot(|lines|, k);
      FieldsRecord(lines[(k / 4) % |lines|])[k % 4]
  }

  /** Real slots map to themselves. */
  lemma LineSlot(n: nat, k: nat)
    requires n > 0
    ensures k / 4 < n ==> (k / 4) % n == k / 4
  {
    if k / 4 < n {
      ModSmall(k / 4, n);
    }
  }

  /** The padded buffer repeats with a period of `n` records: word `k + 4n` is word `k`. */
  lemma LineWordPeriodic(lines: seq<ParamLine>, k: nat)
    ensures LineWord(lines, k + 4 * |lines|) == LineWord(lines, k)
  {
    var n := |lines|;
    if n > 0 {
      assert (k + 4 * n) / 4 == k / 4 + n && (k + 4 * n) % 4 == k % 4;
      ModMinus(k / 4 + n, n);
    }
  }

  lemma SlotIndex(c: nat)
    ensures forall k :: 4 * c <= k < 4 * c + 4 ==> k / 4 == c && k % 4 == k - 4 * c
  {
  }

  /** The record padded slot `i` copies, from slot `i - n`, is the one `LineWord` gives slot `i`. */
  lemma PadSlot(lines: seq<ParamLine>, params: seq<int>, i: nat)
    requires 0 < |lines| <= i && 4 * i <= |params|
    requires forall k :: 0 <= k < 4 * i ==> params[k] == LineWord(lines, k)
    ensures var src := params[4 * (i - |lines|) .. 4 * (i - |lines|) + 4];
            forall k :: 4 * i <= k < 4 * i + 4 ==> src[k - 4 * i] == LineWord(lines, k)
  {
    forall k | 4 * i <= k < 4 * i + 4
      ensures params[k - 4 * |lines|] == LineWord(lines, k)
    {
      LineWordPeriodic(lines, k - 4 * |lines|);
    }
  }

  /** Words `0 .. 4 * upTo` of the buffers hold the records of slots `0 .. upTo`. */
  ghost predicate Staged(ids: seq<int>, params: seq<int>, lines: seq<ParamLine>, upTo: nat)
  {
    && 4 * upTo <= |ids| && 4 * upTo <= |params|
    && (forall k :: 0 <= k < 4 * upTo ==> ids[k] == Processor.IdWord(k))
    && (forall k :: 0 <= k < 4 * upTo ==> params[k] == LineWord(lines, k))
  }

  /**
   * The parse loop: line `i` gets the identifier record `[i, 0, 0, 0]`, and
   * its fields, read in the order ref_len, query_len, ref_offset,
   * query_offset, are stored at words 2, 3, 0 and 1 of its parameter record.
   */
  method ParseRecords(lines: seq<ParamLine>, ids: array<int>, params: array<int>)
    requires ids != params && 4 * |lines| <= ids.Length && 4 * |lines| <= params.Length
    modifies ids, params
    ensures Staged(ids[..], params[..], lines, |lines|)
  {
    var n := |lines|;
    var i := 0;
    while i < n
      invariant 0 <= i <= n
      invariant forall k :: 0 <= k < 4 * i ==> ids[k] == Processor.IdWord(k)
      invariant forall k :: 0 <= k < 4 * i ==> params[k] == LineWord(lines, k)
    {
      SlotIndex(i);
      ModSmall(i, n);
      var line := lines[i];
      Processor.WriteRecord(ids, i, [i, 0, 0, 0]);
      Processor.WriteRecord(params, i, [line.refOffset, line.queryOffset, line.refLen, line.queryLen]);
      i := i + 1;
    }
  }

  /**
   * The padding loop: when `n` is not a multiple of 16, each slot `i` from
   * `n` up to the batch size gets the identifier record `[i, 0, 0, 0]` and
   * a copy of the parameter record of slot `i - n`, so it repeats line
   * `i mod n`.
   */
  method PadCyclic(lines: seq<ParamLine>, batchSize: nat, ids: array<int>, params: array<int>)
    requires ids != params && 4 * batchSize <= ids.Length && 4 * batchSize <= params.Length
    requires batchSize == BswBatchSize(|lines|)
    requires Staged(ids[..], params[..], lines, |lines|)
    modifies ids, params
    ensures Staged(ids[..], params[..], lines, batchSize)
  {
    var n := |lines|;
    if n % MinBatchSize != 0 {
      var i := n;
      while i < batchSize
        invariant n <= i <= batchSize
        invariant forall k :: 0 <= k < 4 * i ==> ids[k] == Processor.IdWord(k)
        invariant forall k :: 0 <= k < 4 * i ==> params[k] == LineWord(lines, k)
      {
        SlotIndex(i);
        PadSlot(lines, params[..], i);
        var src := params[4 * (i - n) .. 4 * (i - n) + 4];
        Processor.WriteRecord(ids, i, [i, 0, 0, 0]);
        Processor.WriteRecord(params, i, src);
        i := i + 1;
      }
    }
  }

  /** Staged buffers, read slot by slot. */
  lemma StagedSlots(ids: seq<int>, params: seq<int>, lines: seq<ParamLine>, upTo: nat)
    requires Staged(ids, params, lines, upTo) && lines != []
    ensures forall c :: 0 <= c < upTo ==> Record4(ids, c) == Processor.IdRecord(c)
    ensures forall c :: 0 <= c < upTo ==> Record4(params, c) == FieldsRecord(lines[c % |lines|])
  {
    forall c | 0 <= c < upTo
      ensures Record4(ids, c) == Processor.IdRecord(c)
      ensures Record4(params, c) == FieldsRecord(lines[c % |lines|])
    {
      SlotIndex(c);
      Processor.RecordFromWords(ids, c, Processor.IdRecord(c));
      Processor.RecordFromWords(params, c, FieldsRecord(lines[c % |lines|]));
    }
  }

  /**
   * Stages a batch of the `n` lines of `parameters.txt` into buffers of
   * `4 * BswBatchSize(n)` words: the real records first, then the padding.
   * The real slots hold the lines in order, and each padded slot `c` copies
   * slot `c - n`, so it repeats line `c mod n`; nothing is padded when `n`
   * is a multiple of 16.
   */
  method StageBatch(n: nat, lines: seq<ParamLine>) returns (batchId: seq<int>, batchParams: seq<int>)
    requires |lines| == n
    ensures |batchId| == 4 * BswBatchSize(n) && |batchParams| == 4 * BswBatchSize(n)
    ensures forall c :: 0 <= c < BswBatchSize(n) ==> Record4(batchId, c) == Processor.IdRecord(c)
    ensures forall c :: 0 <= c < n ==> Record4(batchParams, c) == FieldsRecord(lines[c])
    ensures forall c :: n <= c < BswBatchSize(n) ==> Record4(batchParams, c) == Record4(batchParams, c - n)
    ensures forall c :: n <= c < BswBatchSize(n) ==> Record4(batchParams, c) == FieldsRecord(lines[c % n])
  {
    var batchSize := BswBatchSize(n);
    var numBatchSize := 4 * batchSize;
    var ids := new int[numBatchSize];
    var params := new int[numBatchSize];
    ParseRecords(lines, ids, params);
    PadCyclic(lines, batchSize, ids, params);
    batchId, batchParams := ids[..], params[..];
    if n > 0 {
      StagedSlots(batchId, batchParams, lines, batchSize);
      forall c | 0 <= c < n
        ensures c % n == c
      {
        ModSmall(c, n);
      }
      forall c | n <= c < batchSize
        ensures (c - n) % n == c % n
      {
        ModMinus(c, n);
      }
    }
  }

  /** The output buffer before upload: `16 * batchSize` words, all 33. */
  method PrefilledOutput(batchSize: nat) returns (out: seq<int>)
    ensures |out| == 16 * batchSize
    ensures forall k :: 0 <= k < |out| ==> out[k] == OutputFill
  {
    var numBatchSize := 4 * batchSize;
    var a := new int[4 * numBatchSize];
    var i := 0;
    while i < numBatchSize * 4
      invariant 0 <= i <= numBatchSize * 4
      invariant forall k :: 0 <= k < i ==> a[k] == OutputFill
    {
      a[i] := OutputFill;
      i := i + 1;
    }
    out := a[..];
  }

  /** The four words the harness reports for one result slot. */
  datatype ResultRow = ResultRow(tileId: int, tileScore: int, tileRef: int, tileQuery: int)

  /** Reads the id, score and end positions of every result slot at a stride of 16 words. */
  method ReadResults(out: seq<Int32>, batchSize: nat) returns (rows: seq<ResultRow>)
    requires |out| == 16 * batchSize
    ensures |rows| == batchSize
    ensures forall i :: 0 <= i < batchSize ==>
              rows[i] == ResultRow(out[16 * i], out[16 * i + 2], out[16 * i + 3], out[16 * i + 4])
    ensures forall i :: 0 <= i < batchSize ==> SameSlot(rows[i], Processor.DecodeSlot(out, i))
  {
    rows := [];
    var i := 0;
    while i < batchSize
      invariant 0 <= i <= batchSize && |rows| == i
      invariant forall j :: 0 <= j < i ==>
                  rows[j] == ResultRow(out[16 * j], out[16 * j + 2], out[16 * j + 3], out[16 * j + 4])
    {
      var tileId := out[i * 16];
      var tileScore := out[i * 16 + 2];
      var tileRef := out[i * 16 + 3];
      var tileQuery := out[i * 16 + 4];
      rows := rows + [ResultRow(tileId, tileScore, tileRef, tileQuery)];
      i := i + 1;
    }
  }

  /**
   * A harness row and a library result describe the same slot: the library
   * reads the id as `ushort` and the end positions as `uint32_t`, the
   * harness reads all four as `int`.
   */
  predicate SameSlot(row: ResultRow, op: Processor.TileOutput)
  {
    && op.batchId == U16(row.tileId)
    && op.tileScore == row.tileScore
    && op.maxRefOffset == U32(row.tileRef)
    && op.maxQueryOffset == U32(row.tileQuery)
  }

  /** A harness line carrying the same four values as a stageable library tile. */
  predicate LineOf(t: Processor.FilterTile, line: ParamLine)
  {
    && t.refOffset < TwoTo31 && t.queryOffset < TwoTo31 && Processor.Stageable(t)
    && line == ParamLine(t.refLength, t.queryLength, t.refOffset, t.queryOffset)
  }

  /** Which real slot feeds padded slot `c` under each policy, and when the two coincide. */
  lemma PaddingSources(n: nat, c: nat)
    requires 0 < n <= c
    ensures Min(c, n - 1) == n - 1
    ensures c % n == n - 1 <==> (c + 1) % n == 0
  {
    var q, r := c / n, c % n;
    assert c + 1 == n * q + (r + 1);
    if r == n - 1 {
      ModUnique(c + 1, n, q + 1, 0);
    } else {
      ModUnique(c + 1, n, q, r + 1);
    }
  }

  /**
   * The two padding policies on the same tiles: in padded slot `c` the
   * library stages the last tile, the harness stages tile `c mod n`; they
   * stage the same record when `c + 1` is a multiple of `n`.
   */
  lemma PaddingPolicies(tiles: seq<Processor.FilterTile>, lines: seq<ParamLine>, c: nat)
    requires |tiles| == |lines| && tiles != []
    requires forall k :: 0 <= k < |tiles| ==> LineOf(tiles[k], lines[k])
    requires |tiles| <= c
    ensures Processor.ParamRecord(tiles[Min(c, |tiles| - 1)]) == Processor.ParamRecord(tiles[|tiles| - 1])
    ensures FieldsRecord(lines[c % |lines|]) == Processor.ParamRecord(tiles[c % |tiles|])
    ensures (c + 1) % |tiles| == 0 ==>
              FieldsRecord(lines[c % |lines|]) == Processor.ParamRecord(tiles[Min(c, |tiles| - 1)])
  {
    var n := |tiles|;
    PaddingSources(n, c);
    SameRecordLayout(tiles[c % n], lines[c % n]);
  }

  /**
   * The policies differ: with two distinct tiles, padded slot 2 holds the
   * second tile in the library and the first in the harness.
   */
  lemma PoliciesDiffer(t0: Processor.FilterTile, t1: Processor.FilterTile, l0: ParamLine, l1: ParamLine)
    requires LineOf(t0, l0) && LineOf(t1, l1)
    requires Processor.ParamRecord(t0) != Processor.ParamRecord(t1)
    ensures Processor.ParamRecord([t0, t1][Min(2, 1)]) == Processor.ParamRecord(t1)
    ensures FieldsRecord([l0, l1][2 % 2]) == Processor.ParamRecord(t0)
    ensures Processor.ParamRecord([t0, t1][Min(2, 1)]) != FieldsRecord([l0, l1][2 % 2])
  {
    SameRecordLayout(t0, l0);
  }

  /** With a single record both policies repeat it in every padded slot. */
  lemma SingleRecordPadding(t: Processor.FilterTile, line: ParamLine, c: nat)
    requires LineOf(t, line)
    ensures Processor.ParamRecord([t][Min(c, 0)]) == FieldsRecord([line][c % 1])
  {
    ModUnique(c, 1, c, 0);
    SameRecordLayout(t, line);
  }
}
