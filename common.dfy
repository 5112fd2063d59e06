/**
 * Definitions shared by the host-side models: the C integer conversions the
 * host code performs when it stores values into `int`, `ushort` and
 * `uint32_t` words, sequence reversal, and the 4-word record slices used by
 * the batch input buffers.
 */
module Common {

  const TwoTo16: int := 0x1_0000
  const TwoTo31: int := 0x8000_0000
  const TwoTo32: int := 0x1_0000_0000

  /** A value of the C type `int` (32-bit two's complement). */
  type Int32 = x: int | -0x8000_0000 <= x < 0x8000_0000

  /**
   * Conversion of an unsigned `size_t` (or any integer) to `int`: the value
   * keeps its low 32 bits and is read back as two's complement.
   */
  function Int32Of(x: int): (r: Int32)
    ensures (r - x) % TwoTo32 == 0
    ensures 0 <= x < TwoTo31 ==> r == x
  {
    var m := x % TwoTo32;
    if m < TwoTo31 then m else m - TwoTo32
  }

  /** Conversion of an `int` to `ushort`: the low 16 bits, read unsigned. */
  function U16(x: int): (r: nat)
    ensures r < TwoTo16 && (r - x) % TwoTo16 == 0
    ensures 0 <= x < TwoTo16 ==> r == x
  {
    x % TwoTo16
  }

  /** Conversion of an `int` to `uint32_t`: the low 32 bits, read unsigned. */
  function U32(x: int): (r: nat)
    ensures r < TwoTo32 && (r - x) % TwoTo32 == 0
    ensures 0 <= x < TwoTo32 ==> r == x
  {
    x % TwoTo32
  }

  /** Record `b` of a buffer made of 4-word records. */
  function Record4(s: seq<int>, b: nat): seq<int>
    requires 4 * b + 4 <= |s|
  {
    s[4 * b .. 4 * b + 4]
  }

  /**
   * The number of traceback words an extension result carries: word 5 of
   * its 16-word summary counts blocks of 16 words (`16 * summary[5]`, read
   * by a loop `i < num_tb`, so a non-positive count gives no words).
   */
  function TracebackWords(summary5: int): (r: nat)
    ensures r % 16 == 0
    ensures r == 0 <==> summary5 <= 0
    ensures summary5 > 0 ==> r == 16 * summary5
  {
    if summary5 * 16 <= 0 then 0 else summary5 * 16
  }

  function Min(a: int, b: int): int
  {
    if a <= b then a else b
  }

  /** The sequence read back to front. */
  function Reverse<T>(s: seq<T>): seq<T>
  {
    if s == [] then [] else Reverse(s[1..]) + [s[0]]
  }

  lemma {:induction false} ReverseAt<T>(s: seq<T>, k: nat)
    requires k < |s|
    ensures |Reverse(s)| == |s| && Reverse(s)[k] == s[|s| - 1 - k]
  {
    ReverseLength(s[1..]);
    if k < |s| - 1 {
      ReverseAt(s[1..], k);
    }
  }

  lemma {:induction false} ReverseLength<T>(s: seq<T>)
    ensures |Reverse(s)| == |s|
  {
    if s != [] {
      ReverseLength(s[1..]);
    }
  }

  /** Reversal is characterised pointwise: any sequence that reads `s` back to front is `Reverse(s)`. */
  lemma ReverseUnique<T>(s: seq<T>, r: seq<T>)
    requires |r| == |s|
    requires forall k :: 0 <= k < |s| ==> r[k] == s[|s| - 1 - k]
    ensures r == Reverse(s)
  {
    ReverseLength(s);
    forall k | 0 <= k < |s|
      ensures r[k] == Reverse(s)[k]
    {
      ReverseAt(s, k);
    }
  }

  lemma ReverseSnoc<T>(s: seq<T>, x: T)
    ensures Reverse(s + [x]) == [x] + Reverse(s)
  {
    var t := s + [x];
    ReverseLength(s);
    forall k | 0 <= k < |t|
      ensures ([x] + Reverse(s))[k] == t[|t| - 1 - k]
    {
      if k > 0 {
        ReverseAt(s, k - 1);
      }
    }
    ReverseUnique(t, [x] + Reverse(s));
  }

  lemma ReverseInvolution<T>(s: seq<T>)
    ensures Reverse(Reverse(s)) == s
  {
    var r := Reverse(s);
    ReverseLength(s);
    forall k | 0 <= k < |s|
      ensures s[k] == r[|r| - 1 - k]
    {
      ReverseAt(s, |s| - 1 - k);
    }
    ReverseUnique(r, s);
  }
}
