/**
 * The host side of the whole-genome aligner's accelerator interface
 * (src/host/WGA/Processor.cpp): nucleotide encoding, the staging of a batch
 * of filter tiles into 4-word device records, the pool of four banded
 * Smith-Waterman units shared by concurrent callers, the filtering of the
 * 16-word result slots a unit writes back, and the unpacking of one
 * extension (GACT-X) result.
 *
 * OpenCL buffers, kernel arguments, events and locks are not modelled: the
 * words the device writes are parameters of the operations that read them.
 */
module Processor {
  import opened Common

  const NumKernels: nat := 4
  /** Output buffers per unit; consecutive requests to a unit rotate through them. */
  const OutputsPerUnit: nat := 4
  /** The spin gate `num_executing[k] == 4` of a unit. */
  const MaxInFlight: nat := 4
  const MaxBandedTileSize: nat := 512
  const MaxGactxTileSize: nat := 2048
  /** `MAX_GACTX_TB_BYTES / 4` 32-bit traceback words. */
  const MaxGactxTbWords: nat := 256
  const MinBatchSize: nat := 16
  const IntsPerTileIn: nat := 4
  const IntsPerTileOut: nat := 16

  /** Inputs of one banded filter job; offsets and lengths are `size_t`. */
  datatype FilterTile = FilterTile(refOffset: nat, queryOffset: nat, refLength: nat,
                                   queryLength: nat, queryTileStart: nat)

  /** One filter result that passed the score threshold. */
  datatype TileOutput = TileOutput(batchId: int, tileScore: int, maxRefOffset: nat, maxQueryOffset: nat)

  /** Inputs of one extension job. */
  datatype ExtendTile = ExtendTile(refOffset: nat, queryOffset: nat, refLength: nat, queryLength: nat)

  /** Result of one extension job: the best-scoring end cell and the traceback words. */
  datatype ExtendOutput = ExtendOutput(maxRefOffset: nat, maxQueryOffset: nat, tbPointers: seq<bv32>)

  // ---------------------------------------------------------------------
  // Nucleotide encoding

  const A_Nt: int := 0
  const C_Nt: int := 1
  const G_Nt: int := 2
  const T_Nt: int := 3
  const N_Nt: int := 4

  /**
   * The 2-bit code of a nucleotide, of its Watson-Crick complement when
   * `complement` is non-zero; everything that is not a base, `N`/`n`
   * included, codes as `N_Nt`.
   */
  function Nt2Int(nt: char, complement: int): (r: int)
    ensures A_Nt <= r <= N_Nt
    ensures r == N_Nt <==> nt !in "ACGTacgt"
    ensures r < N_Nt ==>
      (var base := if complement == 0 then r else T_Nt - r;
       nt == "ACGT"[base] || nt == "acgt"[base])
  {
    match nt
    case 'a' | 'A' => if complement != 0 then T_Nt else A_Nt
    case 'c' | 'C' => if complement != 0 then G_Nt else C_Nt
    case 'g' | 'G' => if complement != 0 then C_Nt else G_Nt
    case 't' | 'T' => if complement != 0 then A_Nt else T_Nt
    case _ => N_Nt
  }

  /** Complementing maps code `c` of a base to `3 - c` and keeps `N_Nt`. */
  lemma Nt2IntComplement(nt: char, complement: int)
    requires complement != 0
    ensures Nt2Int(nt, complement) == if Nt2Int(nt, 0) == N_Nt then N_Nt else T_Nt - Nt2Int(nt, 0)
  {
  }

  // ---------------------------------------------------------------------
  // Batch staging

  /** The tile count rounded up to a multiple of the minimum batch size. */
  function BatchSize(numTiles: nat): (r: nat)
    ensures r % MinBatchSize == 0
    ensures numTiles <= r < numTiles + MinBatchSize
    ensures numTiles % MinBatchSize == 0 ==> r == numTiles
  {
    var extra := numTiles % MinBatchSize;
    var extra := if extra != 0 then MinBatchSize - extra else extra;
    numTiles + extra
  }

  /** No smaller multiple of 16 holds all the tiles. */
  lemma BatchSizeIsLeast(numTiles: nat, m: nat)
    requires m % MinBatchSize == 0 && numTiles <= m
    ensures BatchSize(numTiles) <= m
  {
    var r := BatchSize(numTiles);
    var a, c := m / MinBatchSize, r / MinBatchSize;
    assert m == MinBatchSize * a && r == MinBatchSize * c;
    assert c < a + 1;
  }

  /** The identifier record of slot `b`: its index followed by three zero words. */
  function IdRecord(b: int): (r: seq<int>)
    ensures |r| == IntsPerTileIn && r[0] == b
    ensures forall j :: 1 <= j < |r| ==> r[j] == 0
  {
    [b, 0, 0, 0]
  }

  /**
   * The parameter record of a tile: its four `size_t` fields stored into
   * `int` words.  Lengths within the banded limit survive unchanged.
   */
  function ParamRecord(t: FilterTile): (r: seq<int>)
    ensures |r| == IntsPerTileIn
    ensures forall j :: 0 <= j < |r| ==> -TwoTo31 <= r[j] < TwoTo31
    ensures t.refOffset < TwoTo31 ==> r[0] == t.refOffset
    ensures t.queryOffset < TwoTo31 ==> r[1] == t.queryOffset
    ensures t.refLength <= MaxBandedTileSize ==> r[2] == t.refLength
    ensures t.queryLength <= MaxBandedTileSize ==> r[3] == t.queryLength
  {
    [Int32Of(t.refOffset), Int32Of(t.queryOffset), Int32Of(t.refLength), Int32Of(t.queryLength)]
  }

  predicate Stageable(t: FilterTile)
  {
    t.refLength <= MaxBandedTileSize && t.queryLength <= MaxBandedTileSize
  }

  /** Word `k` of the identifier buffer. */
  function IdWord(k: nat): int
  {
    IdRecord(k / IntsPerTileIn)[k % IntsPerTileIn]
  }

  /** Word `k` of the parameter buffer: slots past the last tile repeat it. */
  function ParamWord(tiles: seq<FilterTile>, k: nat): (r: int)
    ensures -TwoTo31 <= r < TwoTo31
    ensures k / IntsPerTileIn < |tiles| ==> r == ParamRecord(tiles[k / IntsPerTileIn])[k % IntsPerTileIn]
    ensures tiles != [] && k / IntsPerTileIn >= |tiles| ==>
              r == ParamRecord(tiles[|tiles| - 1])[k % IntsPerTileIn]
  {
    if tiles == [] then 0 else ParamRecord(tiles[Min(k / IntsPerTileIn, |tiles| - 1)])[k % IntsPerTileIn]
  }

  /** The four words of slot `b` of the identifier and parameter buffers. */
  lemma SlotWords(tiles: seq<FilterTile>, b: nat)
    requires tiles != []
    ensures forall k :: 4 * b <= k < 4 * b + 4 ==> IdWord(k) == IdRecord(b)[k - 4 * b]
    ensures forall k :: 4 * b <= k < 4 * b + 4 ==>
              ParamWord(tiles, k) == ParamRecord(tiles[Min(b, |tiles| - 1)])[k - 4 * b]
  {
    forall k | 4 * b <= k < 4 * b + 4
      ensures k / IntsPerTileIn == b && k % IntsPerTileIn == k - 4 * b
    {
    }
  }

  /** A buffer whose words match a 4-word record at slot `b` holds that record. */
  lemma RecordFromWords(s: seq<int>, b: nat, rec: seq<int>)
    requires |rec| == 4 && 4 * b + 4 <= |s|
    requires forall k :: 4 * b <= k < 4 * b + 4 ==> s[k] == rec[k - 4 * b]
    ensures Record4(s, b) == rec
  {
    assert s[4 * b .. 4 * b + 4] == [s[4 * b], s[4 * b + 1], s[4 * b + 2], s[4 * b + 3]];
  }

  /** Stores a 4-word record into slot `b` of a buffer, leaving the other words alone. */
  method WriteRecord(a: array<int>, b: nat, rec: seq<int>)
    requires |rec| == 4 && 4 * b + 4 <= a.Length
    modifies a
    ensures forall k :: 0 <= k < a.Length ==> a[k] == if 4 * b <= k < 4 * b + 4 then rec[k - 4 * b] else old(a[k])
  {
    a[4 * b] := rec[0];
    a[4 * b + 1] := rec[1];
    a[4 * b + 2] := rec[2];
    a[4 * b + 3] := rec[3];
  }

  /**
   * Fills the identifier and parameter buffers of a batch: one record per
   * slot, the batch padded to `BatchSize` slots with copies of the last tile.
   * The tile lengths must be within the banded limit.
   */
  method BuildBatchRecords(tiles: seq<FilterTile>) returns (batchId: seq<int>, batchParams: seq<int>)
    requires forall k :: 0 <= k < |tiles| ==> Stageable(tiles[k])
    ensures |batchId| == 4 * BatchSize(|tiles|) && |batchParams| == 4 * BatchSize(|tiles|)
    ensures forall b :: 0 <= b < BatchSize(|tiles|) ==> Record4(batchId, b) == IdRecord(b)
    ensures forall b :: 0 <= b < |tiles| ==> Record4(batchParams, b) == ParamRecord(tiles[b])
    ensures forall b :: |tiles| <= b < BatchSize(|tiles|) ==>
              Record4(batchParams, b) == ParamRecord(tiles[|tiles| - 1])
  {
    var numTiles := |tiles|;
    var batchSize := BatchSize(numTiles);
    var ids := new int[4 * batchSize];
    var params := new int[4 * batchSize];
    var b := 0;
    while b < batchSize
      invariant 0 <= b <= batchSize
      invariant forall k :: 0 <= k < 4 * b ==> ids[k] == IdWord(k)
      invariant forall k :: 0 <= k < 4 * b ==> params[k] == ParamWord(tiles, k)
    {
      var idx := Min(b, numTiles - 1);
      var tile := tiles[idx];
      SlotWords(tiles, b);
      WriteRecord(ids, b, [b, 0, 0, 0]);
      WriteRecord(params, b, [Int32Of(tile.refOffset), Int32Of(tile.queryOffset),
                              Int32Of(tile.refLength), Int32Of(tile.queryLength)]);
      b := b + 1;
    }
    batchId, batchParams := ids[..], params[..];
    forall c | 0 <= c < batchSize
      ensures Record4(batchId, c) == IdRecord(c)
      ensures Record4(batchParams, c) == ParamRecord(tiles[Min(c, numTiles - 1)])
    {
      SlotWords(tiles, c);
      RecordFromWords(batchId, c, IdRecord(c));
      RecordFromWords(batchParams, c, ParamRecord(tiles[Min(c, numTiles - 1)]));
    }
  }

  // ---------------------------------------------------------------------
  // Result slots

  /** The result slot `b` of a unit's output buffer, as the host reads it. */
  function DecodeSlot(out: seq<Int32>, b: nat): (op: TileOutput)
    requires IntsPerTileOut * b + IntsPerTileOut <= |out|
    ensures 0 <= op.batchId < TwoTo16
    ensures op.tileScore == out[IntsPerTileOut * b + 2]
    ensures op.maxRefOffset < TwoTo32 && op.maxQueryOffset < TwoTo32
  {
    var w := IntsPerTileOut * b;
    TileOutput(U16(out[w]), out[w + 2], U32(out[w + 3]), U32(out[w + 4]))
  }

  /** A slot is reported when its (16-bit) id names a real tile and its score reaches `thresh`. */
  predicate Kept(out: seq<Int32>, numTiles: nat, thresh: int, b: nat)
    requires IntsPerTileOut * b + IntsPerTileOut <= |out|
    ensures Kept(out, numTiles, thresh, b) ==>
              DecodeSlot(out, b).batchId < numTiles && DecodeSlot(out, b).tileScore >= thresh
  {
    U16(out[IntsPerTileOut * b]) < numTiles && out[IntsPerTileOut * b + 2] >= thresh
  }

  /**
   * The results of the first `m` slots, in slot order, that the host reports:
   * each names a real tile and reaches the threshold, at most one per slot.
   */
  function Filtered(out: seq<Int32>, numTiles: nat, thresh: int, m: nat): (r: seq<TileOutput>)
    requires IntsPerTileOut * m <= |out|
    ensures |r| <= m
    ensures forall x :: x in r ==> x.batchId < numTiles && x.tileScore >= thresh
  {
    if m == 0 then []
    else Filtered(out, numTiles, thresh, m - 1)
         + (if Kept(out, numTiles, thresh, m - 1) then [DecodeSlot(out, m - 1)] else [])
  }

  /** Every result of the first `m` slots, in slot order. */
  function AllSlots(out: seq<Int32>, m: nat): seq<TileOutput>
    requires IntsPerTileOut * m <= |out|
  {
    if m == 0 then [] else AllSlots(out, m - 1) + [DecodeSlot(out, m - 1)]
  }

  /** `a` is `b` with some elements left out, order kept. */
  ghost predicate IsSubsequence<T>(a: seq<T>, b: seq<T>)
    decreases |b|
  {
    if a == [] then true
    else if b == [] then false
    else (a[|a| - 1] == b[|b| - 1] && IsSubsequence(a[..|a| - 1], b[..|b| - 1]))
         || IsSubsequence(a, b[..|b| - 1])
  }

  lemma SubsequenceSnocBoth<T>(a: seq<T>, b: seq<T>, x: T)
    requires IsSubsequence(a, b)
    ensures IsSubsequence(a + [x], b + [x])
  {
    assert (a + [x])[..|a|] == a;
    assert (b + [x])[..|b|] == b;
  }

  lemma SubsequenceSnocRight<T>(a: seq<T>, b: seq<T>, x: T)
    requires IsSubsequence(a, b)
    ensures IsSubsequence(a, b + [x])
  {
    assert (b + [x])[..|b|] == b;
  }

  lemma {:induction false} SubsequenceLength<T>(a: seq<T>, b: seq<T>)
    requires IsSubsequence(a, b)
    ensures |a| <= |b|
    decreases |b|
  {
    if a != [] {
      if a[|a| - 1] == b[|b| - 1] && IsSubsequence(a[..|a| - 1], b[..|b| - 1]) {
        SubsequenceLength(a[..|a| - 1], b[..|b| - 1]);
      } else {
        SubsequenceLength(a, b[..|b| - 1]);
      }
    }
  }

  /** A result is reported exactly when some slot among the first `m` is kept and decodes to it. */
  lemma {:induction false} FilteredMembers(out: seq<Int32>, numTiles: nat, thresh: int, m: nat)
    requires IntsPerTileOut * m <= |out|
    ensures forall x :: x in Filtered(out, numTiles, thresh, m) <==>
              exists b :: 0 <= b < m && Kept(out, numTiles, thresh, b) && x == DecodeSlot(out, b)
  {
    if m > 0 {
      FilteredMembers(out, numTiles, thresh, m - 1);
    }
  }

  /** The reported results keep slot order: they are a subsequence of all decoded slots. */
  lemma {:induction false} FilteredInSlotOrder(out: seq<Int32>, numTiles: nat, thresh: int, m: nat)
    requires IntsPerTileOut * m <= |out|
    ensures IsSubsequence(Filtered(out, numTiles, thresh, m), AllSlots(out, m))
  {
    if m > 0 {
      FilteredInSlotOrder(out, numTiles, thresh, m - 1);
      var f, a := Filtered(out, numTiles, thresh, m - 1), AllSlots(out, m - 1);
      if Kept(out, numTiles, thresh, m - 1) {
        SubsequenceSnocBoth(f, a, DecodeSlot(out, m - 1));
      } else {
        assert Filtered(out, numTiles, thresh, m) == f;
        SubsequenceSnocRight(f, a, DecodeSlot(out, m - 1));
      }
    }
  }

  /** Raising the threshold only drops results. */
  lemma FilteredMonotone(out: seq<Int32>, numTiles: nat, lo: int, hi: int, m: nat)
    requires IntsPerTileOut * m <= |out| && lo <= hi
    ensures IsSubsequence(Filtered(out, numTiles, hi, m), Filtered(out, numTiles, lo, m))
    ensures |Filtered(out, numTiles, hi, m)| <= |Filtered(out, numTiles, lo, m)|
  {
    FilteredSubsequence(out, numTiles, lo, hi, m);
    SubsequenceLength(Filtered(out, numTiles, hi, m), Filtered(out, numTiles, lo, m));
  }

  /** The inductive half of `FilteredMonotone`, one slot at a time. */
  lemma {:induction false} FilteredSubsequence(out: seq<Int32>, numTiles: nat, lo: int, hi: int, m: nat)
    requires IntsPerTileOut * m <= |out| && lo <= hi
    ensures IsSubsequence(Filtered(out, numTiles, hi, m), Filtered(out, numTiles, lo, m))
  {
    if m > 0 {
      FilteredSubsequence(out, numTiles, lo, hi, m - 1);
      var fh, fl := Filtered(out, numTiles, hi, m - 1), Filtered(out, numTiles, lo, m - 1);
      var x := DecodeSlot(out, m - 1);
      if Kept(out, numTiles, hi, m - 1) {
        assert Filtered(out, numTiles, hi, m) == fh + [x];
        assert Filtered(out, numTiles, lo, m) == fl + [x];
        SubsequenceSnocBoth(fh, fl, x);
      } else if Kept(out, numTiles, lo, m - 1) {
        assert Filtered(out, numTiles, hi, m) == fh;
        assert Filtered(out, numTiles, lo, m) == fl + [x];
        SubsequenceSnocRight(fh, fl, x);
      } else {
        assert Filtered(out, numTiles, hi, m) == fh;
        assert Filtered(out, numTiles, lo, m) == fl;
      }
    }
  }

  /**
   * Reads the result slots of a batch back: the 16-bit tile id, the score
   * and the two end offsets of each slot, keeping the slots whose id names
   * a real tile and whose score reaches `thresh`.
   */
  method FilterOutput(out: seq<Int32>, numTiles: nat, batchSize: nat, thresh: int) returns (filtered: seq<TileOutput>)
    requires |out| == IntsPerTileOut * batchSize
    ensures filtered == Filtered(out, numTiles, thresh, batchSize)
    ensures forall x :: x in filtered ==> x.batchId < numTiles && x.tileScore >= thresh
    ensures forall x :: x in filtered <==>
              exists b :: 0 <= b < batchSize && Kept(out, numTiles, thresh, b) && x == DecodeSlot(out, b)
  {
    filtered := [];
    var b := 0;
    while b < batchSize
      invariant 0 <= b <= batchSize
      invariant filtered == Filtered(out, numTiles, thresh, b)
    {
      var tileId := U16(out[b * IntsPerTileOut]);
      if tileId < numTiles {
        var tileScore := out[b * IntsPerTileOut + 2];
        var ro := U32(out[b * IntsPerTileOut + 3]);
        var qo := U32(out[b * IntsPerTileOut + 4]);
        if tileScore >= thresh {
          filtered := filtered + [TileOutput(tileId, tileScore, ro, qo)];
        }
      }
      b := b + 1;
    }
    FilteredMembers(out, numTiles, thresh, batchSize);
  }

  // ---------------------------------------------------------------------
  // The pool of banded units

  predicate IsUnit(k: int)
  {
    0 <= k < NumKernels
  }

  predicate NoDuplicates(s: seq<int>)
  {
    forall i, j :: 0 <= i < j < |s| ==> s[i] != s[j]
  }

  predicate Ascending(s: seq<int>)
  {
    forall i, j :: 0 <= i < j < |s| ==> s[i] < s[j]
  }

  predicate Descending(s: seq<int>)
  {
    forall i, j :: 0 <= i < j < |s| ==> s[i] > s[j]
  }

  /** The units from `lo` upwards that occur in `s`, in increasing order. */
  function UnitsFrom(lo: nat, s: seq<int>): (r: seq<int>)
    ensures forall i :: 0 <= i < |r| ==> lo <= r[i] < NumKernels
    ensures Ascending(r)
    ensures forall x :: x in r <==> lo <= x < NumKernels && x in s
    decreases NumKernels - lo
  {
    if lo >= NumKernels then []
    else (if lo in s then [lo] else []) + UnitsFrom(lo + 1, s)
  }

  /** A sequence without duplicates holds each of its elements once. */
  lemma {:induction false} DuplicateFreeMultiset(s: seq<int>)
    requires NoDuplicates(s)
    ensures forall x :: multiset(s)[x] == if x in s then 1 else 0
  {
    if s != [] {
      assert s == [s[0]] + s[1..];
      assert NoDuplicates(s[1..]) by {
        forall i, j | 0 <= i < j < |s[1..]| ensures s[1..][i] != s[1..][j] {
          assert s[1..][i] == s[i + 1] && s[1..][j] == s[j + 1];
        }
      }
      DuplicateFreeMultiset(s[1..]);
      assert s[0] !in s[1..];
    }
  }

  /** Two duplicate-free sequences with the same elements are permutations of each other. */
  lemma SameElementsPermutation(r: seq<int>, s: seq<int>)
    requires NoDuplicates(r) && NoDuplicates(s)
    requires forall x :: x in r <==> x in s
    ensures multiset(r) == multiset(s)
  {
    DuplicateFreeMultiset(r);
    DuplicateFreeMultiset(s);
    assert forall x :: multiset(r)[x] == multiset(s)[x];
  }

  /**
   * `std::sort` of the list of free units: on a duplicate-free list of
   * units, the same units in increasing order.
   */
  function SortUnits(s: seq<int>): (r: seq<int>)
    requires NoDuplicates(s) && forall u :: u in s ==> IsUnit(u)
    ensures Ascending(r) && multiset(r) == multiset(s)
  {
    var r := UnitsFrom(0, s);
    assert forall x :: x in s ==> IsUnit(x) && x in r;
    SameElementsPermutation(r, s);
    r
  }

  /** Sorting keeps the length and the elements. */
  lemma SortUnitsElements(s: seq<int>)
    requires NoDuplicates(s) && forall u :: u in s ==> IsUnit(u)
    ensures |SortUnits(s)| == |s|
    ensures forall u :: u in SortUnits(s) <==> u in s
  {
    var sorted := SortUnits(s);
    assert |multiset(sorted)| == |multiset(s)|;
    forall u
      ensures u in sorted <==> u in s
    {
      assert u in sorted <==> u in multiset(sorted);
      assert u in s <==> u in multiset(s);
    }
  }

  /**
   * Reversing an increasing sequence and taking its last element yields
   * its smallest element; what remains is the other elements in decreasing
   * order.
   */
  lemma ReversePop(sorted: seq<int>)
    requires Ascending(sorted) && sorted != []
    ensures |Reverse(sorted)| == |sorted|
    ensures Reverse(sorted)[|sorted| - 1] == sorted[0]
    ensures forall u :: u in sorted ==> sorted[0] <= u
    ensures Descending(Reverse(sorted)[..|sorted| - 1])
    ensures forall u :: u in Reverse(sorted)[..|sorted| - 1] <==> u in sorted && u != sorted[0]
  {
    var r := Reverse(sorted);
    var n := |sorted|;
    ReverseLength(sorted);
    forall i | 0 <= i < n
      ensures r[i] == sorted[n - 1 - i]
    {
      ReverseAt(sorted, i);
    }
    var rest := r[..n - 1];
    forall u
      ensures u in rest <==> u in sorted && u != sorted[0]
    {
      if u in sorted && u != sorted[0] {
        var j :| 0 <= j < n && sorted[j] == u;
        assert rest[n - 1 - j] == u;
      }
    }
  }

  /**
   * The free-list manipulation of the acquisition loop: sort the list,
   * reverse it, take the last element and pop it.  On a duplicate-free list
   * of units this is the smallest unit, and the rest of the list holds the
   * other units in decreasing order.
   */
  method TakeSmallest(free: seq<int>) returns (k: int, rest: seq<int>)
    requires NoDuplicates(free) && (forall u :: u in free ==> IsUnit(u)) && free != []
    ensures k in free && forall u :: u in free ==> k <= u
    ensures |rest| == |free| - 1 && Descending(rest)
    ensures forall u :: u in rest <==> u in free && u != k
  {
    var sorted := SortUnits(free);
    SortUnitsElements(free);
    ReversePop(sorted);
    var reversed := Reverse(sorted);
    k := reversed[|reversed| - 1];
    rest := reversed[..|reversed| - 1];
  }

  /**
   * The four banded units, shared by every caller of `SendBatchRequest`.
   * `available` is the list of free units, `startOp[k]` selects which of
   * unit `k`'s four output buffers its next request writes to, and
   * `numExecuting[k]` counts the requests submitted to unit `k` and not yet
   * read back.  `held` is the set of units some request has taken from the
   * pool and not yet returned.
   */
  class UnitPool {
    var available: seq<int>
    const startOp: array<int>
    const numExecuting: array<int>
    ghost var held: set<int>

    ghost predicate Valid()
      reads this, startOp, numExecuting
      ensures Valid() ==> forall k :: IsUnit(k) ==> (k in held <==> k !in available)
    {
      && startOp.Length == NumKernels && numExecuting.Length == NumKernels
      && startOp != numExecuting
      && NoDuplicates(available)
      && (forall u :: u in available ==> IsUnit(u) && numExecuting[u] == 0)
      && (forall k :: k in held ==> IsUnit(k) && k !in available)
      && (forall k :: IsUnit(k) ==> k in held || k in available)
      && (forall k :: 0 <= k < NumKernels ==> 0 <= startOp[k] < OutputsPerUnit)
      && (forall k :: 0 <= k < NumKernels ==> 0 <= numExecuting[k] <= MaxInFlight)
    }

    /** Every unit free, idle and writing to its first output buffer. */
    constructor ()
      ensures Valid() && fresh(startOp) && fresh(numExecuting)
      ensures available == [0, 1, 2, 3] && held == {}
      ensures startOp[..] == [0, 0, 0, 0] && numExecuting[..] == [0, 0, 0, 0]
    {
      startOp := new int[NumKernels];
      numExecuting := new int[NumKernels];
      available := [];
      held := {};
      new;
      var k := 0;
      while k < NumKernels
        invariant 0 <= k <= NumKernels
        invariant available == seq(k, i => i) && held == {}
        invariant forall i :: 0 <= i < k ==> startOp[i] == 0 && numExecuting[i] == 0
      {
        startOp[k] := 0;
        numExecuting[k] := 0;
        available := available + [k];
        k := k + 1;
      }
      assert available == [0, 1, 2, 3];
    }

    /**
     * One pass of the acquisition loop: when some unit is free, take the
     * smallest free unit, remember its output-buffer cursor and advance the
     * cursor; the remaining free units are left in decreasing order.  When
     * none is free nothing changes and the caller tries again.
     */
    method TryAcquire() returns (acquired: bool, k: int, sOp: int)
      requires Valid()
      modifies this, startOp
      ensures Valid()
      ensures acquired <==> old(available) != []
      ensures !acquired ==> k == -1 && available == old(available) && held == old(held)
                            && startOp[..] == old(startOp[..])
      ensures acquired ==> k in old(available) && (forall u :: u in old(available) ==> k <= u)
      ensures acquired ==> held == old(held) + {k}
      ensures acquired ==> |available| == |old(available)| - 1 && Descending(available)
                           && (forall u :: u in available <==> u in old(available) && u != k)
      ensures acquired ==> IsUnit(k) && sOp == old(startOp[k]) && startOp[k] == (sOp + 1) % OutputsPerUnit
      ensures acquired ==> forall u :: 0 <= u < NumKernels && u != k ==> startOp[u] == old(startOp[u])
    {
      acquired, k, sOp := false, -1, 0;
      var s := |available|;
      if s > 0 {
        var rest;
        k, rest := TakeSmallest(available);
        sOp := startOp[k];
        startOp[k] := (startOp[k] + 1) % OutputsPerUnit;
        available := rest;
        held := held + {k};
        acquired := true;
      }
    }

    /**
     * One pass of the submission gate: a held unit with fewer than four
     * requests in flight takes one more; a unit at the limit is left alone
     * and the caller spins.
     */
    method TryBeginSubmit(k: int) returns (started: bool)
      requires Valid() && k in held
      modifies numExecuting
      ensures Valid()
      ensures started <==> old(numExecuting[k]) < MaxInFlight
      ensures numExecuting[k] == old(numExecuting[k]) + (if started then 1 else 0)
      ensures forall u :: 0 <= u < NumKernels && u != k ==> numExecuting[u] == old(numExecuting[u])
    {
      started := numExecuting[k] != MaxInFlight;
      if started {
        numExecuting[k] := numExecuting[k] + 1;
      }
    }

    /** The results of one submission to unit `k` have been read back. */
    method EndSubmit(k: int)
      requires Valid() && k in held && numExecuting[k] > 0
      modifies numExecuting
      ensures Valid()
      ensures numExecuting[k] == old(numExecuting[k]) - 1
      ensures forall u :: 0 <= u < NumKernels && u != k ==> numExecuting[u] == old(numExecuting[u])
    {
      numExecuting[k] := numExecuting[k] - 1;
    }

    /** An idle held unit goes back to the end of the free list. */
    method Release(k: int)
      requires Valid() && k in held && numExecuting[k] == 0
      modifies this
      ensures Valid()
      ensures available == old(available) + [k] && held == old(held) - {k}
    {
      available := available + [k];
      held := held - {k};
    }
  }

  /**
   * One banded filter request: stage the batch, take a unit from the pool,
   * submit, read the unit's `deviceOut` words back from the output buffer
   * the cursor selected, return the unit, and filter the slots.
   * `deviceOut` stands for what the unit wrote.  The pool must have a free
   * unit, since this model has no second caller that could return one
   * (`unit` and `buffer` record which unit and output buffer were used).
   */
  method SendBatchRequest(pool: UnitPool, tiles: seq<FilterTile>, thresh: int, deviceOut: seq<Int32>)
    returns (filtered: seq<TileOutput>, ghost unit: int, ghost buffer: int)
    requires pool.Valid() && pool.available != []
    requires forall k :: 0 <= k < |tiles| ==> Stageable(tiles[k])
    requires |deviceOut| == IntsPerTileOut * BatchSize(|tiles|)
    modifies pool, pool.startOp, pool.numExecuting
    ensures pool.Valid()
    ensures filtered == Filtered(deviceOut, |tiles|, thresh, BatchSize(|tiles|))
    ensures forall x :: x in filtered ==> x.batchId < |tiles| && x.tileScore >= thresh
    ensures unit in old(pool.available) && forall u :: u in old(pool.available) ==> unit <= u
    ensures buffer == old(pool.startOp[unit]) && pool.startOp[unit] == (buffer + 1) % OutputsPerUnit
    ensures forall u :: 0 <= u < NumKernels && u != unit ==> pool.startOp[u] == old(pool.startOp[u])
    ensures pool.numExecuting[..] == old(pool.numExecuting[..]) && pool.held == old(pool.held)
    ensures |pool.available| == |old(pool.available)| && pool.available[|pool.available| - 1] == unit
    ensures Descending(pool.available[..|pool.available| - 1])
    ensures forall u :: u in pool.available <==> u in old(pool.available)
  {
    var numTiles := |tiles|;
    var batchSize := BatchSize(numTiles);
    var batchId, batchParams := BuildBatchRecords(tiles);
    var acquired, k, sOp := pool.TryAcquire();
    assert old(pool.numExecuting[k]) == 0;
    var started := pool.TryBeginSubmit(k);
    pool.EndSubmit(k);
    pool.Release(k);
    unit, buffer := k, sOp % OutputsPerUnit;
    filtered := FilterOutput(deviceOut, numTiles, batchSize, thresh);
  }

  // ---------------------------------------------------------------------
  // Extension results

  /**
   * Unpacks one extension result from the 16-word summary and the 256-word
   * traceback buffer the extension unit wrote: the end offsets as
   * `uint32_t`, and the first `16 * summary[5]` traceback words.  The tile
   * lengths must be within the extension limit, and the traceback count
   * within the buffer.
   */
  method GactxRequest(tile: ExtendTile, summary: seq<Int32>, tbOutput: seq<bv32>) returns (op: ExtendOutput)
    requires tile.refLength <= MaxGactxTileSize && tile.queryLength <= MaxGactxTileSize
    requires |summary| == 16 && |tbOutput| == MaxGactxTbWords
    requires TracebackWords(summary[5]) <= MaxGactxTbWords
    ensures op.maxRefOffset == U32(summary[1]) && op.maxQueryOffset == U32(summary[2])
    ensures op.tbPointers == tbOutput[..TracebackWords(summary[5])]
    ensures |op.tbPointers| % 16 == 0 && |op.tbPointers| <= MaxGactxTbWords
  {
    var numTb := TracebackWords(summary[5]);
    var tbPointers: seq<bv32> := [];
    var i := 0;
    while i < numTb
      invariant 0 <= i <= numTb
      invariant tbPointers == tbOutput[..i]
    {
      tbPointers := tbPointers + [tbOutput[i]];
      i := i + 1;
    }
    op := ExtendOutput(U32(summary[1]), U32(summary[2]), tbPointers);
  }
}
