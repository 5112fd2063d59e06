/**
 * The traceback decoder of the stand-alone extension harness
 * (src/host/GACTX/main.cpp): the hardware returns the optimal alignment path
 * as 32-bit words of sixteen 2-bit direction codes, read from the end of the
 * alignment towards its start.  The host walks a reference position and a
 * query position downwards, emits one aligned column per non-padding code,
 * and reverses the two emitted rows at the end.  The module also models the
 * reversal of both input sequences before they are uploaded, and the sizing
 * of the traceback buffer.
 */
module Traceback {
  import opened Common

  /** Direction codes Z, I, D, M = 0, 1, 2, 3. */
  datatype Dir = Z | I | D | M

  const TbMask: bv32 := 3
  const CodesPerWord: nat := 16
  const Gap: char := '-'

  function DirOf(c: bv32): Dir
    requires c <= TbMask
  {
    if c == 0 then Z else if c == 1 then I else if c == 2 then D else M
  }

  function DirCode(d: Dir): (c: bv32)
    ensures c <= TbMask && DirOf(c) == d
  {
    match d
    case Z => 0
    case I => 1
    case D => 2
    case M => 3
  }

  /** Code `j` of a word sits at bit offset `2 * j`. */
  function CodeAt(w: bv32, j: nat): (d: Dir)
    requires j < CodesPerWord
    ensures DirCode(d) == (w >> (2 * j)) & TbMask
  {
    DirOf((w >> (2 * j)) & TbMask)
  }

  /** The sixteen codes of one word, low bit pair first. */
  function WordCodes(w: bv32): (cs: seq<Dir>)
    ensures |cs| == CodesPerWord
    ensures forall j :: 0 <= j < CodesPerWord ==> DirCode(cs[j]) == (w >> (2 * j)) & TbMask
  {
    seq(CodesPerWord, j requires 0 <= j < CodesPerWord => CodeAt(w, j))
  }

  /** The codes of a word sequence, word after word in array order. */
  function Codes(words: seq<bv32>): (cs: seq<Dir>)
    ensures |cs| == CodesPerWord * |words|
  {
    if words == [] then [] else WordCodes(words[0]) + Codes(words[1..])
  }

  /**
   * The packing the hardware uses, written out as the inverse of `WordCodes`:
   * code `j` shifted to bit offset `2 * j`.
   */
  function PackWord(cs: seq<Dir>): bv32
    requires |cs| == CodesPerWord
  {
    PackBits(seq(CodesPerWord, j requires 0 <= j < CodesPerWord => DirCode(cs[j])))
  }

  function PackBits(c: seq<bv32>): bv32
    requires |c| == CodesPerWord
  {
    c[0] | (c[1] << 2) | (c[2] << 4) | (c[3] << 6) | (c[4] << 8) | (c[5] << 10) | (c[6] << 12) | (c[7] << 14)
    | (c[8] << 16) | (c[9] << 18) | (c[10] << 20) | (c[11] << 22) | (c[12] << 24) | (c[13] << 26) | (c[14] << 28) | (c[15] << 30)
  }

  lemma PackBitsAt(c: seq<bv32>)
    requires |c| == CodesPerWord && forall j :: 0 <= j < CodesPerWord ==> c[j] <= TbMask
    ensures forall j :: 0 <= j < CodesPerWord ==> (PackBits(c) >> (2 * j)) & TbMask == c[j]
  {
  }

  /** Unpacking a packed word gives back the sixteen codes: no code is lost or reordered. */
  lemma UnpackPack(cs: seq<Dir>)
    requires |cs| == CodesPerWord
    ensures WordCodes(PackWord(cs)) == cs
  {
    var c := seq(CodesPerWord, j requires 0 <= j < CodesPerWord => DirCode(cs[j]));
    PackBitsAt(c);
    forall j | 0 <= j < CodesPerWord
      ensures WordCodes(PackWord(cs))[j] == cs[j]
    {
      assert DirOf(c[j]) == cs[j];
    }
  }

  lemma {:induction false} CodesAppend(a: seq<bv32>, b: seq<bv32>)
    ensures Codes(a + b) == Codes(a) + Codes(b)
  {
    if a != [] {
      assert (a + b)[1..] == a[1..] + b;
      CodesAppend(a[1..], b);
    } else {
      assert a + b == b;
    }
  }

  /** Code `j` of word `i` is the code at position `16 * i + j` of the walk. */
  lemma CodesAt(words: seq<bv32>, i: nat, j: nat)
    requires i < |words| && j < CodesPerWord
    ensures |Codes(words)| == CodesPerWord * |words|
    ensures Codes(words)[CodesPerWord * i + j] == CodeAt(words[i], j)
  {
    assert words == words[..i] + words[i..];
    CodesAppend(words[..i], words[i..]);
    assert Codes(words[i..]) == WordCodes(words[i]) + Codes(words[i + 1..]);
    WordCodesAt(words[i], j);
  }

  lemma WordCodesAt(w: bv32, j: nat)
    requires j < CodesPerWord
    ensures |WordCodes(w)| == CodesPerWord && WordCodes(w)[j] == CodeAt(w, j)
  {
  }

  /** Which side of the alignment a row belongs to. */
  datatype Side = RefSide | QuerySide

  /** D and M consume a reference character; I and M consume a query character. */
  predicate Consumes(side: Side, d: Dir)
  {
    match side
    case RefSide => d == D || d == M
    case QuerySide => d == I || d == M
  }

  /** The number of codes that move the position of `side`. */
  function Steps(cs: seq<Dir>, side: Side): nat
  {
    if cs == [] then 0 else (if Consumes(side, cs[0]) then 1 else 0) + Steps(cs[1..], side)
  }

  /** The number of codes that emit a column (all but Z). */
  function Emitted(cs: seq<Dir>): nat
  {
    if cs == [] then 0 else (if cs[0] == Z then 0 else 1) + Emitted(cs[1..])
  }

  /** `s[p]`, or a gap outside `s` (never reached under the decoder's requires). */
  function At(s: seq<char>, p: int): char
  {
    if 0 <= p < |s| then s[p] else Gap
  }

  /**
   * One row of the alignment in emission order, walking from position `p`
   * of `s` downwards; the decoder returns it reversed.
   */
  function Row(s: seq<char>, p: int, cs: seq<Dir>, side: Side): (r: seq<char>)
    ensures |r| == Emitted(cs)
    decreases cs
  {
    if cs == [] then []
    else if cs[0] == Z then Row(s, p, cs[1..], side)
    else if Consumes(side, cs[0]) then [At(s, p)] + Row(s, p - 1, cs[1..], side)
    else [Gap] + Row(s, p, cs[1..], side)
  }

  /**
   * Every character the walk reads lies in `s`: either nothing is read, or
   * the walk starts inside `s` and takes at most `p + 1` steps.  Outside
   * this window the source reads before the start or past the end of the
   * string, or reads the terminating NUL at a position equal to the length.
   */
  predicate InWindow(len: nat, p: int, steps: nat)
  {
    steps == 0 || (p < len && steps <= p + 1)
  }

  function RemoveGaps(s: seq<char>): seq<char>
  {
    if s == [] then [] else (if s[0] == Gap then [] else [s[0]]) + RemoveGaps(s[1..])
  }

  /** The aligned reference string the decoder returns. */
  function AlignedRef(ref: seq<char>, refPos: int, words: seq<bv32>): (r: seq<char>)
    ensures |r| == Emitted(Codes(words))
    ensures Reverse(r) == Row(ref, refPos, Codes(words), RefSide)
  {
    var row := Row(ref, refPos, Codes(words), RefSide);
    ReverseLength(row);
    ReverseInvolution(row);
    Reverse(row)
  }

  /** The aligned query string the decoder returns. */
  function AlignedQuery(query: seq<char>, queryPos: int, words: seq<bv32>): (r: seq<char>)
    ensures |r| == Emitted(Codes(words))
    ensures Reverse(r) == Row(query, queryPos, Codes(words), QuerySide)
  {
    var row := Row(query, queryPos, Codes(words), QuerySide);
    ReverseLength(row);
    ReverseInvolution(row);
    Reverse(row)
  }

  lemma {:induction false} StepsAppend(a: seq<Dir>, b: seq<Dir>, side: Side)
    ensures Steps(a + b, side) == Steps(a, side) + Steps(b, side)
  {
    if a != [] {
      assert (a + b)[1..] == a[1..] + b;
      StepsAppend(a[1..], b, side);
    } else {
      assert a + b == b;
    }
  }

  lemma {:induction false} EmittedAppend(a: seq<Dir>, b: seq<Dir>)
    ensures Emitted(a + b) == Emitted(a) + Emitted(b)
  {
    if a != [] {
      assert (a + b)[1..] == a[1..] + b;
      EmittedAppend(a[1..], b);
    } else {
      assert a + b == b;
    }
  }

  /** A side moves at most once per emitted column, and a column is emitted at most once per code. */
  lemma {:induction false} CountBounds(cs: seq<Dir>, side: Side)
    ensures Steps(cs, side) <= Emitted(cs) <= |cs|
  {
    if cs != [] {
      CountBounds(cs[1..], side);
    }
  }

  /** Walking `a` then `b` is walking `a`, then walking `b` from where `a` stopped. */
  lemma {:induction false} RowAppend(s: seq<char>, p: int, a: seq<Dir>, b: seq<Dir>, side: Side)
    ensures Row(s, p, a + b, side) == Row(s, p, a, side) + Row(s, p - Steps(a, side), b, side)
    decreases a
  {
    if a != [] {
      assert (a + b)[0] == a[0] && (a + b)[1..] == a[1..] + b;
      if a[0] == Z {
        assert Row(s, p, a + b, side) == Row(s, p, a[1..] + b, side) && Steps(a, side) == Steps(a[1..], side);
        RowAppend(s, p, a[1..], b, side);
      } else if !Consumes(side, a[0]) {
        assert Row(s, p, a + b, side) == [Gap] + Row(s, p, a[1..] + b, side) && Steps(a, side) == Steps(a[1..], side);
        RowAppend(s, p, a[1..], b, side);
      } else {
        assert Row(s, p, a + b, side) == [At(s, p)] + Row(s, p - 1, a[1..] + b, side);
        RowAppend(s, p - 1, a[1..], b, side);
      }
    } else {
      assert a + b == b;
    }
  }

  lemma RemoveGapsCons(c: char, r: seq<char>)
    ensures RemoveGaps([c] + r) == (if c == Gap then [] else [c]) + RemoveGaps(r)
  {
    assert ([c] + r)[0] == c && ([c] + r)[1..] == r;
  }

  lemma {:induction false} RemoveGapsAppend(a: seq<char>, b: seq<char>)
    ensures RemoveGaps(a + b) == RemoveGaps(a) + RemoveGaps(b)
  {
    if a != [] {
      assert (a + b)[1..] == a[1..] + b;
      RemoveGapsAppend(a[1..], b);
    } else {
      assert a + b == b;
    }
  }

  lemma {:induction false} RemoveGapsReverse(s: seq<char>)
    ensures RemoveGaps(Reverse(s)) == Reverse(RemoveGaps(s))
  {
    if s != [] {
      RemoveGapsReverse(s[1..]);
      RemoveGapsAppend(Reverse(s[1..]), [s[0]]);
      assert RemoveGaps([s[0]]) == (if s[0] == Gap then [] else [s[0]]);
      if s[0] != Gap {
        ReverseSnoc(RemoveGaps(s[1..]), s[0]);
        assert RemoveGaps(s) == [s[0]] + RemoveGaps(s[1..]);
      } else {
        assert RemoveGaps(s) == RemoveGaps(s[1..]);
      }
    }
  }

  /**
   * Removing the gaps from a row gives the characters the walk consumed:
   * the contiguous window of `s` ending at `p`, read downwards.
   */
  lemma {:induction false} RowWindow(s: seq<char>, p: int, cs: seq<Dir>, side: Side)
    requires Gap !in s
    requires InWindow(|s|, p, Steps(cs, side))
    ensures Steps(cs, side) > 0 ==> 0 <= p - Steps(cs, side) + 1 && p < |s|
    ensures RemoveGaps(Row(s, p, cs, side))
         == if Steps(cs, side) == 0 then [] else Reverse(s[p - Steps(cs, side) + 1 .. p + 1])
  {
    RowGapsDown(s, p, cs, side);
    DownWindow(s, p, Steps(cs, side));
  }

  /** The `n` characters of `s` from position `p` downwards. */
  function Down(s: seq<char>, p: int, n: nat): seq<char>
    decreases n
  {
    if n == 0 then [] else [At(s, p)] + Down(s, p - 1, n - 1)
  }

  lemma {:induction false} RowGapsDown(s: seq<char>, p: int, cs: seq<Dir>, side: Side)
    requires Gap !in s
    requires InWindow(|s|, p, Steps(cs, side))
    ensures RemoveGaps(Row(s, p, cs, side)) == Down(s, p, Steps(cs, side))
    decreases cs
  {
    if cs != [] {
      var rest := cs[1..];
      if cs[0] == Z {
        RowGapsDown(s, p, rest, side);
      } else if !Consumes(side, cs[0]) {
        RowGapsDown(s, p, rest, side);
        RemoveGapsCons(Gap, Row(s, p, rest, side));
      } else {
        RowGapsDown(s, p - 1, rest, side);
        assert s[p] in s;
        RemoveGapsCons(At(s, p), Row(s, p - 1, rest, side));
      }
    }
  }

  lemma {:induction false} DownWindow(s: seq<char>, p: int, n: nat)
    requires n > 0 ==> 0 <= p - n + 1 && p < |s|
    ensures Down(s, p, n) == if n == 0 then [] else Reverse(s[p - n + 1 .. p + 1])
  {
    if n > 0 {
      DownWindow(s, p - 1, n - 1);
      WindowSnoc(s, p, n - 1, Down(s, p - 1, n - 1));
    }
  }

  /** Putting `s[p]` in front of the window below `p`, read downwards, extends the window by one. */
  lemma WindowSnoc(s: seq<char>, p: int, n: nat, below: seq<char>)
    requires 0 <= p - n && p < |s|
    requires below == if n == 0 then [] else Reverse(s[p - n .. p])
    ensures [s[p]] + below == Reverse(s[p - n .. p + 1])
  {
    assert s[p - n .. p + 1] == s[p - n .. p] + [s[p]];
    ReverseSnoc(s[p - n .. p], s[p]);
    if n == 0 {
      assert s[p - n .. p] == [];
    }
  }

  /**
   * No column pairs a gap with a gap: every emitted column consumes a
   * character on at least one side.
   */
  lemma {:induction false} NoGapColumn(ref: seq<char>, query: seq<char>, rp: int, qp: int, cs: seq<Dir>, k: nat)
    requires Gap !in ref && Gap !in query
    requires InWindow(|ref|, rp, Steps(cs, RefSide))
    requires InWindow(|query|, qp, Steps(cs, QuerySide))
    requires k < Emitted(cs)
    ensures |Row(ref, rp, cs, RefSide)| == |Row(query, qp, cs, QuerySide)| == Emitted(cs)
    ensures Row(ref, rp, cs, RefSide)[k] != Gap || Row(query, qp, cs, QuerySide)[k] != Gap
    decreases cs
  {
    var rest := cs[1..];
    var rp' := if Consumes(RefSide, cs[0]) then rp - 1 else rp;
    var qp' := if Consumes(QuerySide, cs[0]) then qp - 1 else qp;
    if cs[0] == Z {
      NoGapColumn(ref, query, rp, qp, rest, k);
    } else if k > 0 {
      NoGapColumn(ref, query, rp', qp', rest, k - 1);
    }
  }

  /** In-place reversal of a character buffer (`std::reverse`). */
  method ReverseInPlace(a: array<char>)
    modifies a
    ensures a[..] == Reverse(old(a[..]))
  {
    var lo, hi := 0, a.Length;
    while lo + 1 < hi
      invariant 0 <= lo && hi == a.Length - lo && lo <= hi + 1
      invariant forall k :: 0 <= k < lo ==> a[k] == old(a[a.Length - 1 - k]) && a[a.Length - 1 - k] == old(a[k])
      invariant forall k :: lo <= k < hi ==> a[k] == old(a[k])
    {
      a[lo], a[hi - 1] := a[hi - 1], a[lo];
      lo, hi := lo + 1, hi - 1;
    }
    ReverseUnique(old(a[..]), a[..]);
  }

  /** The first `len` characters of `buf`, copied into a fresh string and reversed in place. */
  method ReversedPrefix(buf: array<char>, len: nat) returns (r: seq<char>)
    requires len <= buf.Length
    ensures r == Reverse(buf[..len])
  {
    var str := new char[len](k requires 0 <= k < len reads buf => buf[k]);
    assert str[..] == buf[..len];
    ReverseInPlace(str);
    r := str[..];
  }

  /** What the walk does at code `k`, given that the whole walk stays in its windows. */
  lemma WalkStep(ref: seq<char>, query: seq<char>, refPos: int, queryPos: int, cs: seq<Dir>, k: nat)
    requires k < |cs|
    requires InWindow(|ref|, refPos, Steps(cs, RefSide))
    requires InWindow(|query|, queryPos, Steps(cs, QuerySide))
    ensures Emitted(cs[..k]) <= k
    ensures Emitted(cs[..k + 1]) == Emitted(cs[..k]) + (if cs[k] == Z then 0 else 1)
    ensures Steps(cs[..k + 1], RefSide) == Steps(cs[..k], RefSide) + (if Consumes(RefSide, cs[k]) then 1 else 0)
    ensures Steps(cs[..k + 1], QuerySide) == Steps(cs[..k], QuerySide) + (if Consumes(QuerySide, cs[k]) then 1 else 0)
    ensures Row(ref, refPos, cs[..k + 1], RefSide)
         == Row(ref, refPos, cs[..k], RefSide) + Row(ref, refPos - Steps(cs[..k], RefSide), [cs[k]], RefSide)
    ensures Row(query, queryPos, cs[..k + 1], QuerySide)
         == Row(query, queryPos, cs[..k], QuerySide) + Row(query, queryPos - Steps(cs[..k], QuerySide), [cs[k]], QuerySide)
    ensures Consumes(RefSide, cs[k]) ==> 0 <= refPos - Steps(cs[..k], RefSide) < |ref|
    ensures Consumes(QuerySide, cs[k]) ==> 0 <= queryPos - Steps(cs[..k], QuerySide) < |query|
  {
    var before := cs[..k];
    assert cs[..k + 1] == before + [cs[k]];
    EmittedAppend(before, [cs[k]]);
    CountBounds(before, RefSide);
    SideStep(ref, refPos, cs, k, RefSide);
    SideStep(query, queryPos, cs, k, QuerySide);
  }

  /** `WalkStep` for one side of the alignment. */
  lemma SideStep(s: seq<char>, p: int, cs: seq<Dir>, k: nat, side: Side)
    requires k < |cs|
    requires InWindow(|s|, p, Steps(cs, side))
    ensures Steps(cs[..k + 1], side) == Steps(cs[..k], side) + (if Consumes(side, cs[k]) then 1 else 0)
    ensures Row(s, p, cs[..k + 1], side) == Row(s, p, cs[..k], side) + Row(s, p - Steps(cs[..k], side), [cs[k]], side)
    ensures Consumes(side, cs[k]) ==> 0 <= p - Steps(cs[..k], side) < |s|
  {
    StepsPrefix(cs, k, side);
    RowPrefix(s, p, cs, k, side);
  }

  /** The row of the first `k + 1` codes: that of the first `k`, then code `k`'s column. */
  lemma RowPrefix(s: seq<char>, p: int, cs: seq<Dir>, k: nat, side: Side)
    requires k < |cs|
    ensures Row(s, p, cs[..k + 1], side) == Row(s, p, cs[..k], side) + Row(s, p - Steps(cs[..k], side), [cs[k]], side)
  {
    assert cs[..k + 1] == cs[..k] + [cs[k]];
    RowAppend(s, p, cs[..k], [cs[k]], side);
  }

  /** The steps of the first `k + 1` codes: those of the first `k`, plus code `k`'s, and no more than the whole walk's. */
  lemma StepsPrefix(cs: seq<Dir>, k: nat, side: Side)
    requires k < |cs|
    ensures Steps(cs[..k + 1], side) == Steps(cs[..k], side) + (if Consumes(side, cs[k]) then 1 else 0)
    ensures Steps(cs[..k + 1], side) <= Steps(cs, side)
  {
    assert cs[..k + 1] == cs[..k] + [cs[k]];
    assert cs == cs[..k + 1] + cs[k + 1..];
    StepsAppend(cs[..k + 1], cs[k + 1..], side);
    StepsAppend(cs[..k], [cs[k]], side);
  }

  /**
   * The strings the decoder returns: equal lengths, one column per non-Z
   * code; without their gaps they are the windows of `ref` and `query` the
   * walk consumed, in their original order; and no column is a gap on both
   * sides.
   */
  lemma AlignedShape(ref: seq<char>, query: seq<char>, refPos: int, queryPos: int, words: seq<bv32>)
    requires InWindow(|ref|, refPos, Steps(Codes(words), RefSide))
    requires InWindow(|query|, queryPos, Steps(Codes(words), QuerySide))
    ensures |AlignedRef(ref, refPos, words)| == |AlignedQuery(query, queryPos, words)|
         == Emitted(Codes(words)) <= CodesPerWord * |words|
    ensures Gap !in ref ==>
              (var n := Steps(Codes(words), RefSide);
               RemoveGaps(AlignedRef(ref, refPos, words)) == if n == 0 then [] else ref[refPos - n + 1 .. refPos + 1])
    ensures Gap !in query ==>
              (var n := Steps(Codes(words), QuerySide);
               RemoveGaps(AlignedQuery(query, queryPos, words)) == if n == 0 then [] else query[queryPos - n + 1 .. queryPos + 1])
    ensures Gap !in ref && Gap !in query ==>
              forall k :: 0 <= k < |AlignedRef(ref, refPos, words)| ==>
                AlignedRef(ref, refPos, words)[k] != Gap || AlignedQuery(query, queryPos, words)[k] != Gap
  {
    CountBounds(Codes(words), RefSide);
    if Gap !in ref {
      AlignedRefWindow(ref, refPos, words);
    }
    if Gap !in query {
      AlignedQueryWindow(query, queryPos, words);
    }
    if Gap !in ref && Gap !in query {
      AlignedNoGapColumn(ref, query, refPos, queryPos, words);
    }
  }

  /** The reference half of `AlignedShape`'s window property. */
  lemma AlignedRefWindow(ref: seq<char>, refPos: int, words: seq<bv32>)
    requires Gap !in ref
    requires InWindow(|ref|, refPos, Steps(Codes(words), RefSide))
    ensures var n := Steps(Codes(words), RefSide);
            RemoveGaps(AlignedRef(ref, refPos, words)) == if n == 0 then [] else ref[refPos - n + 1 .. refPos + 1]
  {
    ReversedWindow(ref, refPos, Codes(words), RefSide);
  }

  /** The query half of `AlignedShape`'s window property. */
  lemma AlignedQueryWindow(query: seq<char>, queryPos: int, words: seq<bv32>)
    requires Gap !in query
    requires InWindow(|query|, queryPos, Steps(Codes(words), QuerySide))
    ensures var n := Steps(Codes(words), QuerySide);
            RemoveGaps(AlignedQuery(query, queryPos, words)) == if n == 0 then [] else query[queryPos - n + 1 .. queryPos + 1]
  {
    ReversedWindow(query, queryPos, Codes(words), QuerySide);
  }

  /** `AlignedShape`'s column property: no column of the returned strings is a gap on both sides. */
  lemma AlignedNoGapColumn(ref: seq<char>, query: seq<char>, refPos: int, queryPos: int, words: seq<bv32>)
    requires Gap !in ref && Gap !in query
    requires InWindow(|ref|, refPos, Steps(Codes(words), RefSide))
    requires InWindow(|query|, queryPos, Steps(Codes(words), QuerySide))
    ensures forall k :: 0 <= k < |AlignedRef(ref, refPos, words)| ==>
              AlignedRef(ref, refPos, words)[k] != Gap || AlignedQuery(query, queryPos, words)[k] != Gap
  {
    ReversedNoGapColumn(ref, query, refPos, queryPos, Codes(words));
  }

  /** One side of `AlignedShape`: the returned row without its gaps is the consumed window in order. */
  lemma ReversedWindow(s: seq<char>, p: int, cs: seq<Dir>, side: Side)
    requires Gap !in s
    requires InWindow(|s|, p, Steps(cs, side))
    ensures var n := Steps(cs, side);
            RemoveGaps(Reverse(Row(s, p, cs, side))) == if n == 0 then [] else s[p - n + 1 .. p + 1]
  {
    var n := Steps(cs, side);
    RowWindow(s, p, cs, side);
    RemoveGapsReverse(Row(s, p, cs, side));
    if n != 0 {
      ReverseInvolution(s[p - n + 1 .. p + 1]);
    }
  }

  /** `NoGapColumn` for the reversed rows the decoder returns. */
  lemma ReversedNoGapColumn(ref: seq<char>, query: seq<char>, refPos: int, queryPos: int, cs: seq<Dir>)
    requires Gap !in ref && Gap !in query
    requires InWindow(|ref|, refPos, Steps(cs, RefSide))
    requires InWindow(|query|, queryPos, Steps(cs, QuerySide))
    ensures var refRow, queryRow := Row(ref, refPos, cs, RefSide), Row(query, queryPos, cs, QuerySide);
            |Reverse(refRow)| == |Reverse(queryRow)| &&
            forall k :: 0 <= k < |Reverse(refRow)| ==> Reverse(refRow)[k] != Gap || Reverse(queryRow)[k] != Gap
  {
    var refRow := Row(ref, refPos, cs, RefSide);
    var queryRow := Row(query, queryPos, cs, QuerySide);
    ReverseLength(refRow);
    ReverseLength(queryRow);
    forall k | 0 <= k < |refRow|
      ensures Reverse(refRow)[k] != Gap || Reverse(queryRow)[k] != Gap
    {
      ReverseAt(refRow, k);
      ReverseAt(queryRow, k);
      NoGapColumn(ref, query, refPos, queryPos, cs, |refRow| - 1 - k);
    }
  }

  /** A single code, as a walk of one step. */
  lemma RowOne(s: seq<char>, p: int, d: Dir, side: Side)
    ensures Row(s, p, [d], side) == if d == Z then [] else if Consumes(side, d) then [At(s, p)] else [Gap]
  {
    assert [d][1..] == [];
  }

  /**
   * The `switch` on one direction code: write the column (if any) at
   * `tbPos0` and move the positions of the sides it consumes.
   */
  method ApplyCode(ref: seq<char>, query: seq<char>, dir: Dir,
                   refBuf: array<char>, queryBuf: array<char>, tbPos0: nat, rp0: int, qp0: int)
    returns (tbPos: nat, rp: int, qp: int)
    requires refBuf != queryBuf && refBuf.Length == queryBuf.Length
    requires tbPos0 <= refBuf.Length && (dir != Z ==> tbPos0 < refBuf.Length)
    requires Consumes(RefSide, dir) ==> 0 <= rp0 < |ref|
    requires Consumes(QuerySide, dir) ==> 0 <= qp0 < |query|
    modifies refBuf, queryBuf
    ensures tbPos == tbPos0 + (if dir == Z then 0 else 1)
    ensures rp == rp0 - (if Consumes(RefSide, dir) then 1 else 0)
    ensures qp == qp0 - (if Consumes(QuerySide, dir) then 1 else 0)
    ensures refBuf[..tbPos] == old(refBuf[..tbPos0]) + Row(ref, rp0, [dir], RefSide)
    ensures queryBuf[..tbPos] == old(queryBuf[..tbPos0]) + Row(query, qp0, [dir], QuerySide)
  {
    RowOne(ref, rp0, dir, RefSide);
    RowOne(query, qp0, dir, QuerySide);
    tbPos, rp, qp := tbPos0, rp0, qp0;
    match dir {
      case Z =>
      case D =>
        refBuf[tbPos] := ref[rp];
        queryBuf[tbPos] := Gap;
        tbPos := tbPos + 1;
        rp := rp - 1;
      case I =>
        refBuf[tbPos] := Gap;
        queryBuf[tbPos] := query[qp];
        tbPos := tbPos + 1;
        qp := qp - 1;
      case M =>
        refBuf[tbPos] := ref[rp];
        queryBuf[tbPos] := query[qp];
        tbPos := tbPos + 1;
        rp := rp - 1;
        qp := qp - 1;
    }
  }

  /**
   * The decoder's state after the first `k` codes of the walk: `tbPos`
   * columns emitted, each position moved down by the codes that consume
   * its side, and the buffers holding the two rows so far.
   */
  ghost predicate Decoded(ref: seq<char>, query: seq<char>, refPos: int, queryPos: int, cs: seq<Dir>, k: nat,
                          refRow: seq<char>, queryRow: seq<char>, tbPos: nat, rp: int, qp: int)
    requires k <= |cs|
  {
    && tbPos == Emitted(cs[..k]) <= k
    && rp == refPos - Steps(cs[..k], RefSide)
    && qp == queryPos - Steps(cs[..k], QuerySide)
    && refRow == Row(ref, refPos, cs[..k], RefSide)
    && queryRow == Row(query, queryPos, cs[..k], QuerySide)
  }

  /** Code `j` of word `i`: one step of the walk, taking the decoder from code `k` to code `k + 1`. */
  method DecodeCode(ref: seq<char>, query: seq<char>, refPos: int, queryPos: int, words: seq<bv32>,
                    i: nat, j: nat, ghost cs: seq<Dir>,
                    refBuf: array<char>, queryBuf: array<char>, tbPos0: nat, rp0: int, qp0: int)
    returns (tbPos: nat, rp: int, qp: int)
    requires i < |words| && j < CodesPerWord && cs == Codes(words) && |cs| == CodesPerWord * |words|
    requires refBuf != queryBuf && refBuf.Length == queryBuf.Length == |cs|
    requires InWindow(|ref|, refPos, Steps(cs, RefSide))
    requires InWindow(|query|, queryPos, Steps(cs, QuerySide))
    requires tbPos0 <= refBuf.Length
    requires Decoded(ref, query, refPos, queryPos, cs, CodesPerWord * i + j,
                     refBuf[..tbPos0], queryBuf[..tbPos0], tbPos0, rp0, qp0)
    modifies refBuf, queryBuf
    ensures tbPos <= refBuf.Length
    ensures Decoded(ref, query, refPos, queryPos, cs, CodesPerWord * i + j + 1,
                    refBuf[..tbPos], queryBuf[..tbPos], tbPos, rp, qp)
  {
    ghost var k := CodesPerWord * i + j;
    var dir := CodeAt(words[i], j);
    CodesAt(words, i, j);
    DecodedStep(ref, query, refPos, queryPos, cs, k, refBuf[..tbPos0], queryBuf[..tbPos0], tbPos0, rp0, qp0);
    tbPos, rp, qp := ApplyCode(ref, query, dir, refBuf, queryBuf, tbPos0, rp0, qp0);
  }

  /** `WalkStep` stated over the decoder's state: one code moves `Decoded` from `k` to `k + 1`. */
  lemma DecodedStep(ref: seq<char>, query: seq<char>, refPos: int, queryPos: int, cs: seq<Dir>, k: nat,
                    refRow: seq<char>, queryRow: seq<char>, tbPos: nat, rp: int, qp: int)
    requires k < |cs|
    requires InWindow(|ref|, refPos, Steps(cs, RefSide))
    requires InWindow(|query|, queryPos, Steps(cs, QuerySide))
    requires Decoded(ref, query, refPos, queryPos, cs, k, refRow, queryRow, tbPos, rp, qp)
    ensures cs[k] != Z ==> tbPos < |cs|
    ensures Consumes(RefSide, cs[k]) ==> 0 <= rp < |ref|
    ensures Consumes(QuerySide, cs[k]) ==> 0 <= qp < |query|
    ensures Decoded(ref, query, refPos, queryPos, cs, k + 1,
                    refRow + Row(ref, rp, [cs[k]], RefSide), queryRow + Row(query, qp, [cs[k]], QuerySide),
                    tbPos + (if cs[k] == Z then 0 else 1),
                    rp - (if Consumes(RefSide, cs[k]) then 1 else 0),
                    qp - (if Consumes(QuerySide, cs[k]) then 1 else 0))
  {
    WalkStep(ref, query, refPos, queryPos, cs, k);
  }

  /**
   * The inner loop of the decoder: the sixteen codes of word `i`, low bit
   * pair first, each appending at most one column to the buffers.
   */
  method DecodeWord(ref: seq<char>, query: seq<char>, refPos: int, queryPos: int, words: seq<bv32>, i: nat,
                    ghost cs: seq<Dir>, refBuf: array<char>, queryBuf: array<char>, tbPos0: nat, rp0: int, qp0: int)
    returns (tbPos: nat, rp: int, qp: int)
    requires i < |words| && cs == Codes(words) && |cs| == CodesPerWord * |words|
    requires refBuf != queryBuf && refBuf.Length == queryBuf.Length == |cs|
    requires InWindow(|ref|, refPos, Steps(cs, RefSide))
    requires InWindow(|query|, queryPos, Steps(cs, QuerySide))
    requires tbPos0 <= refBuf.Length
    requires Decoded(ref, query, refPos, queryPos, cs, CodesPerWord * i,
                     refBuf[..tbPos0], queryBuf[..tbPos0], tbPos0, rp0, qp0)
    modifies refBuf, queryBuf
    ensures tbPos <= refBuf.Length
    ensures Decoded(ref, query, refPos, queryPos, cs, CodesPerWord * (i + 1),
                    refBuf[..tbPos], queryBuf[..tbPos], tbPos, rp, qp)
  {
    tbPos, rp, qp := tbPos0, rp0, qp0;
    var j := 0;
    while j < CodesPerWord
      invariant 0 <= j <= CodesPerWord
      invariant tbPos <= refBuf.Length
      invariant Decoded(ref, query, refPos, queryPos, cs, CodesPerWord * i + j,
                        refBuf[..tbPos], queryBuf[..tbPos], tbPos, rp, qp)
    {
      tbPos, rp, qp := DecodeCode(ref, query, refPos, queryPos, words, i, j, cs, refBuf, queryBuf, tbPos, rp, qp);
      j := j + 1;
    }
    assert CodesPerWord * i + CodesPerWord == CodesPerWord * (i + 1);
  }

  /**
   * The decode loop: every code of every word is applied in order, starting
   * at `refPos`/`queryPos` and moving downwards; the emitted buffers are
   * reversed at the end.  Also returns where the walk stopped.
   */
  method DecodeTraceback(ref: seq<char>, query: seq<char>, refPos: int, queryPos: int, words: seq<bv32>)
    returns (alignedRef: seq<char>, alignedQuery: seq<char>, rp: int, qp: int)
    requires InWindow(|ref|, refPos, Steps(Codes(words), RefSide))
    requires InWindow(|query|, queryPos, Steps(Codes(words), QuerySide))
    ensures alignedRef == AlignedRef(ref, refPos, words)
    ensures alignedQuery == AlignedQuery(query, queryPos, words)
    ensures |alignedRef| == |alignedQuery| == Emitted(Codes(words)) <= CodesPerWord * |words|
    ensures rp == refPos - Steps(Codes(words), RefSide)
    ensures qp == queryPos - Steps(Codes(words), QuerySide)
    ensures Gap !in ref ==> RemoveGaps(alignedRef) == if rp == refPos then [] else ref[rp + 1 .. refPos + 1]
    ensures Gap !in query ==> RemoveGaps(alignedQuery) == if qp == queryPos then [] else query[qp + 1 .. queryPos + 1]
    ensures Gap !in ref && Gap !in query ==>
              forall k :: 0 <= k < |alignedRef| ==> alignedRef[k] != Gap || alignedQuery[k] != Gap
  {
    ghost var cs := Codes(words);
    var numTb := |words|;
    var refBuf := new char[CodesPerWord * numTb];
    var queryBuf := new char[CodesPerWord * numTb];
    var tbPos: nat := 0;
    rp, qp := refPos, queryPos;
    var i := 0;
    while i < numTb
      invariant 0 <= i <= numTb
      invariant tbPos <= refBuf.Length
      invariant Decoded(ref, query, refPos, queryPos, cs, CodesPerWord * i,
                        refBuf[..tbPos], queryBuf[..tbPos], tbPos, rp, qp)
    {
      tbPos, rp, qp := DecodeWord(ref, query, refPos, queryPos, words, i, cs, refBuf, queryBuf, tbPos, rp, qp);
      i := i + 1;
    }
    assert cs[..CodesPerWord * numTb] == cs;
    alignedRef := ReversedPrefix(refBuf, tbPos);
    alignedQuery := ReversedPrefix(queryBuf, tbPos);
    AlignedShape(ref, query, refPos, queryPos, words);
  }

  /**
   * The loops that stage both input sequences back to front before they are
   * uploaded: `staged[k] == s[|s| - 1 - k]`.
   */
  method ReverseForUpload(s: seq<char>) returns (staged: seq<char>)
    ensures staged == Reverse(s)
    ensures Reverse(staged) == s
  {
    var len := |s|;
    var buf := new char[len];
    var k := 0;
    while k < len
      invariant 0 <= k <= len
      invariant forall m :: 0 <= m < k ==> buf[m] == s[len - 1 - m]
    {
      buf[k] := s[len - 1 - k];
      k := k + 1;
    }
    staged := buf[..];
    ReverseUnique(s, staged);
    ReverseInvolution(s);
  }

  /**
   * `max_tb`, the size in words of the harness's traceback buffer: room for
   * (ref_len + query_len) codes, rounded down to whole words.
   */
  function MaxTb(refLen: nat, queryLen: nat): (r: nat)
    ensures CodesPerWord * r <= refLen + queryLen < CodesPerWord * (r + 1)
  {
    (refLen + queryLen) * 2 / 32
  }

  /**
   * Decoding one extension result as the harness does: the reference and
   * query positions are summary words 1 and 2, and the first `num_tb` words
   * of the `max_tb`-word traceback buffer are decoded.
   */
  method DecodeTile(ref: seq<char>, query: seq<char>, refLen: nat, queryLen: nat,
                    summary: seq<Int32>, tbOutput: seq<bv32>)
    returns (alignedRef: seq<char>, alignedQuery: seq<char>)
    requires |summary| == 16 && |tbOutput| == MaxTb(refLen, queryLen)
    requires TracebackWords(summary[5]) <= |tbOutput|
    requires InWindow(|ref|, summary[1], Steps(Codes(tbOutput[..TracebackWords(summary[5])]), RefSide))
    requires InWindow(|query|, summary[2], Steps(Codes(tbOutput[..TracebackWords(summary[5])]), QuerySide))
    ensures alignedRef == AlignedRef(ref, summary[1], tbOutput[..TracebackWords(summary[5])])
    ensures alignedQuery == AlignedQuery(query, summary[2], tbOutput[..TracebackWords(summary[5])])
    ensures |alignedRef| == |alignedQuery| <= refLen + queryLen
  {
    var refPos := summary[1];
    var queryPos := summary[2];
    var numTb := TracebackWords(summary[5]);
    var rp, qp;
    alignedRef, alignedQuery, rp, qp := DecodeTraceback(ref, query, refPos, queryPos, tbOutput[..numTb]);
  }

  /** Z codes are padding: a run of them emits nothing and moves neither position. */
  lemma {:induction false} PaddingIsSilent(s: seq<char>, p: int, zs: seq<Dir>, side: Side)
    requires forall k :: 0 <= k < |zs| ==> zs[k] == Z
    ensures Row(s, p, zs, side) == [] && Steps(zs, side) == 0 && Emitted(zs) == 0
    decreases zs
  {
    if zs != [] {
      PaddingIsSilent(s, p, zs[1..], side);
    }
  }

  /** A single M code at the end of "ACGT" against "ACGT" aligns "T" with "T". */
  lemma ExampleSingleMatch()
    ensures AlignedRef("ACGT", 3, [0x3]) == "T"
    ensures AlignedQuery("ACGT", 3, [0x3]) == "T"
  {
    var zs := seq(15, _ => Z);
    var cs := [M] + zs;
    UnpackPack(cs);
    assert PackWord(cs) == 0x3;
    assert Codes([0x3]) == cs + Codes([]);
    assert Codes([0x3]) == cs;
    PaddingIsSilent("ACGT", 2, zs, RefSide);
    PaddingIsSilent("ACGT", 2, zs, QuerySide);
    assert cs[1..] == zs;
    assert Row("ACGT", 3, cs, RefSide) == "T";
    assert Row("ACGT", 3, cs, QuerySide) == "T";
    assert Reverse("T") == "T" by {
      assert "T"[1..] == [];
    }
  }

  /**
   * The codes D, I, M (word 0b11_01_10, low pair first) from positions 2, 2
   * of "ACG" and "ACG" emit (G,-), (-,G), (C,C), returned reversed.
   */
  lemma ExampleDeleteInsertMatch()
    ensures AlignedRef("ACG", 2, [0x36]) == "C-G"
    ensures AlignedQuery("ACG", 2, [0x36]) == "CG-"
  {
    DeleteInsertMatchCodes();
    DeleteInsertMatchRows();
    ReverseUnique("G-C", "C-G");
    ReverseUnique("-GC", "CG-");
  }

  /** The two rows of the walk D, I, M, Z, ..., Z from positions 2, 2 of "ACG". */
  lemma DeleteInsertMatchRows()
    ensures Row("ACG", 2, [D, I, M] + seq(13, _ => Z), RefSide) == "G-C"
    ensures Row("ACG", 2, [D, I, M] + seq(13, _ => Z), QuerySide) == "-GC"
  {
    var zs := seq(13, _ => Z);
    var cs := [D, I, M] + zs;
    PaddingIsSilent("ACG", 0, zs, RefSide);
    PaddingIsSilent("ACG", 0, zs, QuerySide);
    assert cs[1..] == [I, M] + zs && cs[2..] == [M] + zs && cs[3..] == zs;
    assert Row("ACG", 2, cs, RefSide) == "G-C" by {
      assert Row("ACG", 1, cs[2..], RefSide) == "C";
      assert Row("ACG", 1, cs[1..], RefSide) == "-C";
    }
    assert Row("ACG", 2, cs, QuerySide) == "-GC" by {
      assert Row("ACG", 1, cs[2..], QuerySide) == "C";
      assert Row("ACG", 2, cs[1..], QuerySide) == "GC";
    }
  }

  /** The word 0x36 holds the codes D, I, M followed by thirteen Z codes. */
  lemma DeleteInsertMatchCodes()
    ensures Codes([0x36]) == [D, I, M] + seq(13, _ => Z)
  {
    var cs := [D, I, M] + seq(13, _ => Z);
    UnpackPack(cs);
    assert PackWord(cs) == 0x36;
    assert Codes([0x36]) == cs + Codes([]);
  }
}
