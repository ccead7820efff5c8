/** The bits that are put out and taken in, with the numbers of the format written out. */
module LzTokens {
  import opened Wrappers
  import opened Slices
  import opened Bits
  import opened NetworkOrder
  import opened LzFormat
  import opened LzUncompress
  import opened LzRoundTrip

  /** The oldest byte that can be copied from when `p` bytes are done. */
  function Oldest(p: nat): nat {
    if p > 4096 then p - 4096 else 0
  }

  /** The `n` bytes at `j` are the next `n` bytes, and near enough, and done, and searched; a byte is left after them. */
  predicate Repeats(input: seq<Byte>, p: nat, j: nat, n: nat) {
    && 2 <= n <= 33 && p + n < |input|
    && Oldest(p) <= j && j + n <= p && j + n <= Oldest(p) + (|input| - p)
    && input[j..j + n] == input[p..p + n]
  }

  /** Equal text is matched to its end, or as far as the search goes. */
  lemma {:induction false} MatchesEqual(input: seq<Byte>, i: nat, windowEnd: nat, p: nat, bufferEnd: nat, n: nat)
    requires i + n <= windowEnd <= |input| && p + n <= bufferEnd <= |input| && input[i..i + n] == input[p..p + n]
    ensures MatchLength(input, i, windowEnd, p, bufferEnd) >= n
    decreases n
  {
    if n > 0 {
      HeadOfSlice(input, i, i + n);
      HeadOfSlice(input, p, p + n);
      Subslice(input, i, i + n, i + 1, i + n);
      Subslice(input, p, p + n, p + 1, p + n);
      MatchesEqual(input, i + 1, windowEnd, p + 1, bufferEnd, n - 1);
    }
  }

  /** A repetition is found, or one that is longer, or one that is as long and stands further back. */
  lemma RepetitionFound(input: seq<Byte>, p: nat, j: nat, n: nat)
    requires p < |input| && Repeats(input, p, j, n)
    ensures var t := NextToken(input, p);
            t.Phrase? && (n < t.length || (n == t.length && Oldest(p) + t.offset <= j))
  {
    var w, e, b := WindowStart(p), WindowEnd(input, p), BufferEnd(input, p);
    MatchesEqual(input, j, e, p, b, n);
    BestIsLongest(input, w, e, e, p, b, j);
  }

  /** A phrase is a repetition. */
  lemma PhraseRepeats(input: seq<Byte>, p: nat)
    requires p < |input| && NextToken(input, p).Phrase?
    ensures var t := NextToken(input, p); Repeats(input, p, Oldest(p) + t.offset, t.length) && t.next == input[p + t.length]
  {
    PhraseInWindow(input, p);
    hide Best;
  }

  lemma FourParts(high: seq<bool>, low: seq<bool>, last: seq<bool>, s: seq<bool>)
    requires |high| == 12 && |low| == 5 && |last| == 8 && s == [true] + (high + low) + last
    ensures s[0] && s[1..13] == high && s[13..18] == low && s[18..26] == last
  {
  }

  /** The bits of a phrase: a set bit, 12 bits of offset, 5 of length less 2, and 8 of the byte that follows. */
  lemma PhraseFields(t: Token)
    requires t.Phrase? && t.offset < 4096 && 2 <= t.length <= 33
    ensures var s := TokenBits(t);
            && |s| == 26 && s[0] && BitsNum(s[1..13]) == t.offset && BitsNum(s[13..18]) == t.length - 2
            && BitsNum(s[18..26]) == t.next
  {
    var n := t.offset * 32 + (t.length - 2);
    PhraseBits(t);
    Pow2Values();
    assert Pow2(12) == 4096;
    hide TokenBits, NumBits, BitsNum, Pow2;
    NumBitsFields(t.offset, t.length - 2, 12, 5);
    var high, low, last := NumBits(t.offset, 12), NumBits(t.length - 2, 5), ByteBits(t.next);
    var s := TokenBits(t);
    FourParts(high, low, last, s);
    BitsNumBits(t.offset, 12);
    BitsNumBits(t.length - 2, 5);
    BitsNumBits(t.next, 8);
  }

  lemma SymbolFields(next: Byte)
    ensures var s := TokenBits(Symbol(next)); |s| == 9 && !s[0] && BitsNum(s[1..9]) == next
  {
    SymbolBits(next);
    Pow2Values();
    hide TokenBits, BitsNum, Pow2;
    assert TokenBits(Symbol(next))[1..9] == ByteBits(next);
    BitsNumBits(next, 8);
  }

  /**
   What is put out at each position: the longest repetition, the one furthest back if there are several, and the byte
   after it; or that byte alone if there is none.
   */
  lemma TokenIsLongest(input: seq<Byte>, p: nat)
    requires p < |input|
    ensures var s := TokenBits(NextToken(input, p));
            if |s| == 26 then
              var from, length := Oldest(p) + BitsNum(s[1..13]), BitsNum(s[13..18]) + 2;
              && s[0] && Repeats(input, p, from, length) && BitsNum(s[18..26]) == input[p + length]
              && (forall j: nat, n: nat :: Repeats(input, p, j, n) ==> n < length || (n == length && from <= j))
            else
              && |s| == 9 && !s[0] && BitsNum(s[1..9]) == input[p]
              && forall j: nat, n: nat :: !Repeats(input, p, j, n)
  {
    hide TokenBits, NextToken, Repeats, BitsNum;
    var t := NextToken(input, p);
    forall j: nat, n: nat | Repeats(input, p, j, n)
      ensures t.Phrase? && (n < t.length || (n == t.length && Oldest(p) + t.offset <= j))
    {
      RepetitionFound(input, p, j, n);
    }
    match t {
      case Phrase(_, _, _) =>
        PhraseRepeats(input, p);
        RepeatsAtMost(input, p, Oldest(p) + t.offset, t.length);
        PhraseFields(t);
      case Symbol(b) =>
        SymbolHere(input, p);
        SymbolFields(b);
    }
  }

  lemma RepeatsAtMost(input: seq<Byte>, p: nat, j: nat, n: nat)
    requires Repeats(input, p, j, n)
    ensures 2 <= n <= 33
  {
  }

  lemma SymbolHere(input: seq<Byte>, p: nat)
    requires p < |input| && NextToken(input, p).Symbol?
    ensures NextToken(input, p) == Symbol(input[p])
  {
    hide Best;
  }

  /** What is made of 26 bits that start with a set bit: a copy from the window, and a byte. */
  lemma PhraseTaken(bits: seq<bool>, i: nat, end: int, memory: seq<Byte>, p: nat)
    requires i + 26 <= |bits| && i != end && bits[i]
    ensures var from, length := Oldest(p) + BitsNum(bits[i + 1..i + 13]), BitsNum(bits[i + 13..i + 18]) + 2;
            && BitsNum(bits[i + 18..i + 26]) < 256
            && Decode(bits, i, end, memory, p)
               == if from + length > |memory| || p + length >= |memory| then None
                  else Decode(bits, i + 26, end,
                              Splice<Byte>(memory, p, memory[from..from + length])[p + length := BitsNum(bits[i + 18..i + 26])],
                              p + length + 1)
  {
    Pow2Values();
    hide Decode, DecodeNext, Splice, BitsNum, Pow2;
    var high, low, n := bits[i + 1..i + 13], bits[i + 13..i + 18], BitsNum(bits[i + 1..i + 18]);
    assert bits[i + 1..i + 18] == high + low;
    BitsNumConcat(high, low);
    TwoFields(BitsNum(high), BitsNum(low));
    assert n / 32 == BitsNum(high) && n % 32 == BitsNum(low);
    LzUncompress.DecodePhrase(bits, i, end, memory, p);
    var from, length := Oldest(p) + BitsNum(high), BitsNum(low) + 2;
    assert from == WindowStart(p) + n / LENGTH_RANGE;
    if from + length <= |memory| && p + length <= |memory| {
      var moved := Splice<Byte>(memory, p, memory[from..from + length]);
      NextTaken(bits, i + 18, end, moved, p + length);
    }
  }

  /** The literal byte that ends every token. */
  lemma NextTaken(bits: seq<bool>, i: nat, end: int, memory: seq<Byte>, p: nat)
    requires i + 8 <= |bits|
    ensures BitsNum(bits[i..i + 8]) < 256
    ensures DecodeNext(bits, i, end, memory, p)
            == if p >= |memory| then None else Decode(bits, i + 8, end, memory[p := BitsNum(bits[i..i + 8])], p + 1)
  {
    Pow2Values();
    hide Decode, BitsNum;
  }

  lemma TwoFields(a: nat, b: nat)
    requires b < 32
    ensures (a * 32 + b) / 32 == a && (a * 32 + b) % 32 == b
  {
  }

  /** What is made of nine bits that start with a clear bit: a byte. */
  lemma SymbolTaken(bits: seq<bool>, i: nat, end: int, memory: seq<Byte>, p: nat)
    requires i + 9 <= |bits| && i != end && !bits[i]
    ensures BitsNum(bits[i + 1..i + 9]) < 256
    ensures Decode(bits, i, end, memory, p)
            == if p >= |memory| then None else Decode(bits, i + 9, end, memory[p := BitsNum(bits[i + 1..i + 9])], p + 1)
  {
    hide Decode, DecodeNext, BitsNum;
    DecodeOnce(bits, i, end, memory, p);
    NextTaken(bits, i + 1, end, memory, p);
  }

  lemma OctetBytes(v: Unsigned32)
    ensures Octets(v) == [v / 0x100_0000, v / 0x1_0000 % 0x100, v / 0x100 % 0x100, v % 0x100]
  {
    var high, low := v / 0x1_0000, v % 0x1_0000;
    assert high / 0x100 == v / 0x100_0000;
    assert low % 0x100 == v % 0x100;
    assert low / 0x100 == v / 0x100 % 0x100 by {
      assert v == 0x1_0000 * high + low;
      assert v / 0x100 == 0x100 * high + low / 0x100;
    }
  }

  /** The header fields byte by byte. */
  lemma HeaderBytes(v: Unsigned32)
    ensures Header(v) == if v <= 252 then [v]
                         else if v <= 65536 then [253, v / 0x100 % 0x100, v % 0x100]
                         else [254, v / 0x100_0000, v / 0x1_0000 % 0x100, v / 0x100 % 0x100, v % 0x100]
  {
    HeaderForm(v);
    OctetBytes(v);
    hide Octets;
  }

  /** The compressed form: the number of bits and the size of the input, then the bits, most significant first in each byte,
      and as few zeros as fill the last byte; one byte of zeros if there are no bits. */
  lemma CompressedLayout(input: seq<Byte>)
    requires Fits(input)
    ensures var bits := BitsFrom(input, 0);
            && 0 <= |bits| <= 9 * |input| < 0x1_0000_0000
            && var front := Header(|bits|) + Header(|input|);
            && Compressed(input)[..|front|] == front
            && var rest := Compressed(input)[|front|..];
            && |rest| == (if bits == [] then 1 else (|bits| + 7) / 8)
            && Stream(rest) == bits + Zeros(8 * |rest| - |bits|)
  {
    hide BitsFrom, Header, Stream, Pack;
    SizeBound(input, 0);
    var bits := BitsFrom(input, 0);
    var front := Header(|bits|) + Header(|input|);
    assert Compressed(input) == front + Packed(bits);
    assert Compressed(input)[|front|..] == Packed(bits);
    PackStream(bits + Zeros(8 * PackedSize(|bits|) - |bits|));
  }
}
