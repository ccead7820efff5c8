/** What uncompressing makes of a compressed form: the input again, but for four unlucky sizes. */
module LzRoundTrip {
  import opened Wrappers
  import opened Slices
  import opened Cells
  import opened Bits
  import opened NetworkOrder
  import opened LzFormat
  import opened LzUncompress

  lemma SymbolBits(next: Byte)
    ensures TokenBits(Symbol(next)) == [false] + ByteBits(next)
  {
    Pow2Values();
    hide Pow2;
    assert 0 * Pow2(8) + next == next;
    NumBitsFields(0, next, 1, 8);
    assert NumBits(0, 1) == [false];
  }

  lemma PhraseBits(t: Token)
    requires t.Phrase? && ValidToken(t)
    ensures var n := t.offset * LENGTH_RANGE + (t.length - MINIMUM_USEFUL_MATCH);
            n < Pow2(17) && TokenBits(t) == [true] + NumBits(n, 17) + ByteBits(t.next)
  {
    Pow2Values();
    hide Pow2;
    var n := t.offset * LENGTH_RANGE + (t.length - MINIMUM_USEFUL_MATCH);
    assert TokenNumber(t) == (1 * 0x2_0000 + n) * 0x100 + t.next;
    NumBitsFields(1 * 0x2_0000 + n, t.next, 18, 8);
    NumBitsFields(1, n, 1, 17);
    assert NumBits(1, 1) == [true];
  }

  lemma DecodeSymbol(bits: seq<bool>, i: nat, end: int, memory: seq<Byte>, p: nat, b: Byte)
    requires i != end && i + SYMBOL_BITS <= |bits| && bits[i..i + SYMBOL_BITS] == TokenBits(Symbol(b))
    requires p < |memory|
    ensures Decode(bits, i, end, memory, p) == Decode(bits, i + SYMBOL_BITS, end, memory[p := b], p + 1)
  {
    hide TokenBits, BitsNum;
    SymbolBits(b);
    var s := bits[i..i + SYMBOL_BITS];
    assert bits[i] == s[0] && bits[i + 1..i + 9] == s[1..] == ByteBits(b);
    ByteOfBits(b, bits[i + 1..i + 9]);
  }

  lemma Parts(a: bool, b: seq<bool>, c: seq<bool>, s: seq<bool>)
    requires s == [a] + b + c
    ensures s[0] == a && s[1..1 + |b|] == b && s[1 + |b|..] == c
  {
  }

  /** The 17 bits after the type bit hold both numbers of a phrase. */
  lemma FieldParts(t: Token)
    requires t.Phrase? && ValidToken(t)
    ensures var n := t.offset * LENGTH_RANGE + (t.length - MINIMUM_USEFUL_MATCH);
            n % LENGTH_RANGE + MINIMUM_USEFUL_MATCH == t.length && n / LENGTH_RANGE == t.offset
  {
  }

  lemma DecodePhrase(bits: seq<bool>, i: nat, end: int, memory: seq<Byte>, p: nat, t: Token)
    requires t.Phrase? && ValidToken(t)
    requires i != end && i + PHRASE_BITS <= |bits| && bits[i..i + PHRASE_BITS] == TokenBits(t)
    requires WindowStart(p) + t.offset + t.length <= p && p + t.length < |memory|
    ensures var from := WindowStart(p) + t.offset;
            Decode(bits, i, end, memory, p) ==
            Decode(bits, i + PHRASE_BITS, end, Splice(memory, p, memory[from..from + t.length])[p + t.length := t.next],
                   p + t.length + 1)
  {
    hide TokenBits, BitsNum, Splice, Pow2, NumBits, ByteBits, WindowStart, DecodeNext;
    PhraseBits(t);
    FieldParts(t);
    var s := bits[i..i + PHRASE_BITS];
    var n := t.offset * LENGTH_RANGE + (t.length - MINIMUM_USEFUL_MATCH);
    Parts(true, NumBits(n, 17), ByteBits(t.next), s);
    Subslice(bits, i, i + 26, i + 1, i + 18);
    Subslice(bits, i, i + 26, i + 18, i + 26);
    assert s[18..26] == s[18..];
    BitsNumBits(n, 17);
    ByteOfBits(t.next, bits[i + 18..i + 26]);
    var from := WindowStart(p) + t.offset;
    var moved := Splice(memory, p, memory[from..from + t.length]);
    assert Decode(bits, i, end, memory, p) == DecodeNext(bits, i + 18, end, moved, p + t.length);
    DecodeLast(bits, i + 18, end, moved, p + t.length, t.next);
  }

  lemma DecodeLast(bits: seq<bool>, i: nat, end: int, memory: seq<Byte>, p: nat, b: Byte)
    requires i + 8 <= |bits| && p < |memory| && BitsNum(bits[i..i + 8]) == b
    ensures DecodeNext(bits, i, end, memory, p) == Decode(bits, i + 8, end, memory[p := b], p + 1)
  {
    hide BitsNum, Decode;
  }

  /** The output buffer when the first `p` bytes are out. */
  function Restored(input: seq<Byte>, p: nat): (m: seq<Byte>)
    requires p <= |input|
    ensures |m| == |input| + 1
  {
    input[..p] + Cleared(|input| + 1 - p)
  }

  lemma PhraseRestored(input: seq<Byte>, p: nat, from: nat, length: nat)
    requires from + length <= p && p + length < |input| && input[from..from + length] == input[p..p + length]
    ensures var m := Restored(input, p);
            Splice(m, p, m[from..from + length])[p + length := input[p + length]] == Restored(input, p + length + 1)
  {
    var m := Restored(input, p);
    assert m[from..from + length] == input[p..p + length];
    assert input[..p] + input[p..p + length] == input[..p + length];
    assert m[p + length..] == Cleared(|input| + 1 - p - length);
  }

  lemma SymbolRestored(input: seq<Byte>, p: nat)
    requires p < |input|
    ensures Restored(input, p)[p := input[p]] == Restored(input, p + 1)
  {
  }

  /** One token of the encoder takes the decoder past the bytes it stands for. */
  lemma DecodeToken(input: seq<Byte>, p: nat, bits: seq<bool>, i: nat, end: nat)
    requires p < |input| && i < end
    requires var t := NextToken(input, p);
             i + |TokenBits(t)| <= |bits| && bits[i..i + |TokenBits(t)|] == TokenBits(t)
    ensures var t := NextToken(input, p);
            Decode(bits, i, end, Restored(input, p), p)
            == Decode(bits, i + |TokenBits(t)|, end, Restored(input, p + Span(t)), p + Span(t))
  {
    hide Decode, Restored, TokenBits, Splice, Best, WindowStart;
    var t := NextToken(input, p);
    match t
    case Symbol(b) =>
      DecodeSymbol(bits, i, end, Restored(input, p), p, b);
      SymbolRestored(input, p);
    case Phrase(offset, length, next) =>
      PhraseInWindow(input, p);
      DecodePhrase(bits, i, end, Restored(input, p), p, t);
      PhraseRestored(input, p, WindowStart(p) + offset, length);
  }

  /** The joint run of encoder and decoder. */
  lemma {:induction false} DecodeTokens(input: seq<Byte>, p: nat, bits: seq<bool>, i: nat, end: nat)
    requires p <= |input| && i <= end <= |bits| && bits[i..end] == BitsFrom(input, p)
    ensures Decode(bits, i, end, Restored(input, p), p) == Some(Restored(input, |input|))
    decreases |input| - p
  {
    hide Decode, Restored, TokenBits, NextToken;
    if p == |input| {
      DecodeNothing(bits, i, Restored(input, p), p);
    } else {
      var t := NextToken(input, p);
      BitsFromHere(input, p);
      var s, n := bits[i..end], |TokenBits(t)|;
      Subslice(bits, i, end, i, i + n);
      Subslice(bits, i, end, i + n, end);
      assert bits[i..i + n] == s[..n] && bits[i + n..end] == s[n..];
      DecodeToken(input, p, bits, i, end);
      DecodeTokens(input, p + Span(t), bits, i + n, end);
    }
  }

  lemma DecodeNothing(bits: seq<bool>, i: nat, memory: seq<Byte>, p: nat)
    ensures Decode(bits, i, i, memory, p) == Some(memory)
  {
  }

  /** An end outside the data is never met. */
  lemma {:induction false} DecodeBeyond(bits: seq<bool>, i: nat, end: int, memory: seq<Byte>, p: nat)
    requires i <= |bits| && (end < i || end > |bits|)
    ensures Decode(bits, i, end, memory, p) == None
    decreases |bits| - i, 1
  {
    if i < |bits| {
      if !bits[i] {
        DecodeNextBeyond(bits, i + 1, end, memory, p);
      } else if i + PHRASE_BITS - 8 <= |bits| {
        var n := BitsNum(bits[i + 1..i + PHRASE_BITS - 8]);
        var length, from := n % LENGTH_RANGE + MINIMUM_USEFUL_MATCH, WindowStart(p) + n / LENGTH_RANGE;
        if from + length <= |memory| && p + length <= |memory| {
          DecodeNextBeyond(bits, i + PHRASE_BITS - 8, end, Splice(memory, p, memory[from..from + length]), p + length);
        }
      }
    }
  }

  lemma {:induction false} DecodeNextBeyond(bits: seq<bool>, i: nat, end: int, memory: seq<Byte>, p: nat)
    requires i <= |bits| && (end < i || end > |bits|)
    ensures DecodeNext(bits, i, end, memory, p) == None
    decreases |bits| - i, 0
  {
    if i + 8 <= |bits| && p < |memory| {
      Pow2Values();
      DecodeBeyond(bits, i + 8, end, memory[p := BitsNum(bits[i..i + 8])], p + 1);
    }
  }

  /** How the decoder reads a header field: 65536 is cut to 0. */
  lemma HeaderDecoded(data: seq<Byte>, at: nat, v: Unsigned32)
    requires v != 252 && v < 0x8000_0000
    requires at + |Header(v)| <= |data| && data[at..at + |Header(v)|] == Header(v)
    ensures DecodeHeader(data, at) == Some(Field(if v == 65536 then 0 else v, at + |Header(v)|))
  {
    hide Stream, BitsNum, Octets, Wrap, Header, DecodeHeader, Spelled, Join;
    HeaderForm(v);
    if v < 252 {
      ShortField(data, at, v);
    } else if v <= 65536 {
      LongField(data, at, 253, Octets(v)[2..]);
      TwoOctets(v);
      assert v % 0x1_0000 == if v == 65536 then 0 else v;
    } else {
      LongField(data, at, 254, Octets(v)[0..]);
      FourOctets(v);
    }
  }

  lemma ShortField(data: seq<Byte>, at: nat, v: Byte)
    requires v < 252 && at < |data| && data[at..at + 1] == [v]
    ensures DecodeHeader(data, at) == Some(Field(v, at + 1))
  {
    assert data[at] == data[at..at + 1][0];
  }

  lemma LongField(data: seq<Byte>, at: nat, id: Byte, field: seq<Byte>)
    requires id >= 252 && |field| == FieldSize(id) && at + 1 + |field| <= |data|
    requires data[at..at + 1 + |field|] == [id] + field
    ensures DecodeHeader(data, at) == Some(Field(Wrap(BitsNum(Stream(field))), at + 1 + |field|))
  {
    hide Stream, BitsNum, Wrap;
    var h := data[at..at + 1 + |field|];
    assert data[at] == h[0];
    assert data[at + 1..at + 1 + |field|] == h[1..] == field;
    StreamSlice(data, at + 1, at + 1 + |field|);
  }

  lemma FourOctets(v: Unsigned32)
    ensures BitsNum(Stream(Octets(v)[0..])) == v
  {
    assert Octets(v)[0..] == Octets(v);
    OctetsSpell(v);
    StreamFour(Octets(v));
  }

  lemma TwoOctets(v: Unsigned32)
    ensures BitsNum(Stream(Octets(v)[2..])) == v % 0x1_0000
  {
    hide Stream, BitsNum, NumBits, Pow2, Octets;
    Pow2Values();
    var two := Octets(v)[2..];
    LowTwo(v);
    StreamTwo(two);
    BitsNumBits(v % 0x1_0000, 16);
  }

  lemma LowTwo(v: Unsigned32)
    ensures var two := Octets(v)[2..]; Join(two[0], two[1]) == v % 0x1_0000
  {
    hide Octets, Join;
    OctetsSpell(v);
    var m := Octets(v);
    JoinParts(m[2], m[3]);
    LowHalf(v, Join(m[0], m[1]), Join(m[2], m[3]));
  }

  lemma LowHalf(v: int, high: int, low: int)
    requires v == high * 0x1_0000 + low && 0 <= low < 0x1_0000
    ensures low == v % 0x1_0000
  {
  }

  /** The parts of a compressed form. */
  lemma Parcel(input: seq<Byte>)
    requires Fits(input)
    ensures |BitsFrom(input, 0)| <= SYMBOL_BITS * |input|
    ensures var data := Compressed(input);
            var bits := BitsFrom(input, 0);
            var first := |Header(|bits|)|;
            var at := first + |Header(|input|)|;
            && |data| == at + PackedSize(|bits|)
            && data[0..first] == Header(|bits|) && data[first..at] == Header(|input|)
            && Stream(data)[8 * at..8 * at + |bits|] == bits
  {
    hide Stream, BitsFrom, Header, Pack;
    SizeBound(input, 0);
    var data, bits := Compressed(input), BitsFrom(input, 0);
    var h1, h2, body := Header(|bits|), Header(|input|), Packed(bits);
    var at := |h1| + |h2|;
    assert data[0..|h1|] == h1;
    assert data[|h1|..at] == h2;
    PackStream(bits + Zeros(8 * PackedSize(|bits|) - |bits|));
    StreamConcat(h1 + h2, body);
    Inside(Stream(h1 + h2), bits, Zeros(8 * PackedSize(|bits|) - |bits|), 8 * at);
  }

  lemma Inside<T>(a: seq<T>, b: seq<T>, c: seq<T>, n: nat)
    requires |a| == n
    ensures (a + (b + c))[n..n + |b|] == b
  {
  }

  /** The sizes whose header fields are read back as written. */
  predicate Kept(v: int) {
    v != 252 && v != 65536
  }

  /** The round trip. */
  lemma UncompressedIsInput(input: seq<Byte>)
    requires Fits(input) && Kept(|input|) && Kept(|BitsFrom(input, 0)|)
    ensures Uncompressed(Compressed(input)) == Some(input)
  {
    hide BitsFrom, Compressed, Header, Stream, DecodeHeader, Decode;
    Parcel(input);
    var data, bits := Compressed(input), BitsFrom(input, 0);
    var first := |Header(|bits|)|;
    var at := first + |Header(|input|)|;
    HeaderDecoded(data, 0, |bits|);
    HeaderDecoded(data, first, |input|);
    assert Restored(input, 0) == Cleared(|input| + 1);
    DecodeTokens(input, 0, Stream(data), 8 * at, 8 * at + |bits|);
    assert Restored(input, |input|)[..|input|] == input;
  }

  /** A size of 252 is written in one byte and read from five: the stream ends before its end is met. */
  lemma Size252(input: seq<Byte>)
    requires Fits(input) && |input| == 252
    ensures Uncompressed(Compressed(input)) == None
  {
    hide BitsFrom, Compressed, Header, Stream, Decode;
    if |BitsFrom(input, 0)| == 252 {
      Stream252(input);
      return;
    }
    Parcel(input);
    HeaderForm(252);
    var data, bits := Compressed(input), BitsFrom(input, 0);
    var first := |Header(|bits|)|;
    HeaderDecoded(data, 0, |bits|);
    assert data[first] == data[first..first + 1][0] == 252;
    match DecodeHeader(data, first)
    case None =>
    case Some(size) =>
      var i := 8 * size.next;
      if size.value >= 0 {
        DecodeBeyond(Stream(data), i, i + |bits|, Cleared(size.value + 1), 0);
      }
  }

  /** A stream of 252 bits is given a length far beyond its end, or below zero. */
  lemma Stream252(input: seq<Byte>)
    requires Fits(input) && |BitsFrom(input, 0)| == 252
    ensures Uncompressed(Compressed(input)) == None
  {
    hide BitsFrom, Compressed, Header, Stream, Decode;
    Parcel(input);
    HeaderForm(252);
    HeaderForm(|input|);
    var data := Compressed(input);
    assert data[0] == data[0..1][0] == 252;
    var top := data[1];
    assert top == data[1..1 + |Header(|input|)|][0];
    assert 28 <= top <= 254;
    var length := DecodeHeader(data, 0).value;
    var field := data[1..5];
    StreamSlice(data, 1, 5);
    StreamFour(field);
    TopByte(field);
    match DecodeHeader(data, length.next)
    case None =>
    case Some(size) =>
      var i := 8 * size.next;
      if size.value >= 0 {
        DecodeBeyond(Stream(data), i, i + length.value, Cleared(size.value + 1), 0);
      }
  }

  lemma TopByte(field: seq<Byte>)
    requires |field| == 4 && 28 <= field[0] <= 254
    ensures var v := Wrap(Spelled(field)); v < -100 || v > 1000
  {
  }

  /** A stream of 65536 bits is not read at all. */
  lemma Stream65536(input: seq<Byte>)
    requires Fits(input) && |BitsFrom(input, 0)| == 65536
    ensures Uncompressed(Compressed(input)) == Some(Cleared(if |input| == 65536 then 0 else |input|))
  {
    hide BitsFrom, Compressed, Header, Stream, Decode, DecodeHeader;
    Parcel(input);
    var data, first := Compressed(input), |Header(65536)|;
    HeaderDecoded(data, 0, 65536);
    HeaderDecoded(data, first, |input|);
    var n := if |input| == 65536 then 0 else |input|;
    DecodeNothing(Stream(data), 8 * (first + |Header(|input|)|), Cleared(n + 1), 0);
    assert Cleared(n + 1)[..n] == Cleared(n);
  }

  lemma EarlySymbol(input: seq<Byte>, p: nat)
    requires p < |input| && (p < 2 || |input| - p < 3)
    ensures NextToken(input, p).Symbol?
  {
  }

  /** With the buffer full, nothing more is decoded. */
  lemma DecodeFull(bits: seq<bool>, i: nat, end: int, memory: seq<Byte>, p: nat)
    requires i != end && p >= |memory|
    ensures Decode(bits, i, end, memory, p) == None
  {
  }

  /** The first two tokens are symbols, so that a buffer of one byte is full before the last of them. */
  lemma DecodeOneByte(input: seq<Byte>, bits: seq<bool>, i: nat, end: nat, memory: seq<Byte>)
    requires |input| >= 2 && i <= end <= |bits| && bits[i..end] == BitsFrom(input, 0) && |memory| == 1
    ensures Decode(bits, i, end, memory, 0) == None
  {
    hide Decode, TokenBits, NextToken, BitsFrom;
    EarlySymbol(input, 0);
    EarlySymbol(input, 1);
    var t := NextToken(input, 0);
    BitsFromHere(input, 0);
    BitsFromHere(input, 1);
    Subslice(bits, i, end, i, i + 9);
    assert bits[i..end][..9] == TokenBits(t);
    DecodeSymbol(bits, i, end, memory, 0, t.next);
    DecodeFull(bits, i + 9, end, memory[0 := t.next], 1);
  }

  /** A size of 65536 is read as 0: nothing is decoded into no room, unless the length of the stream is read as 0 too. */
  lemma Size65536(input: seq<Byte>)
    requires Fits(input) && |input| == 65536
    ensures Uncompressed(Compressed(input)) == if |BitsFrom(input, 0)| == 65536 then Some([]) else None
  {
    hide BitsFrom, Compressed, Header, Stream, Decode, DecodeHeader;
    var data, bits := Compressed(input), BitsFrom(input, 0);
    if |bits| == 65536 {
      Stream65536(input);
    } else if |bits| == 252 {
      Stream252(input);
    } else {
      Parcel(input);
      var first := |Header(|bits|)|;
      var at := first + |Header(|input|)|;
      HeaderDecoded(data, 0, |bits|);
      HeaderDecoded(data, first, |input|);
      DecodeOneByte(input, Stream(data), 8 * at, 8 * at + |bits|, Cleared(1));
    }
  }

  lemma LatePhrase(input: seq<Byte>, p: nat)
    requires 2 <= p <= |input| - 3 && input == Cleared(|input|)
    ensures NextToken(input, p).Phrase?
  {
    var w, e, f := WindowStart(p), WindowEnd(input, p), BufferEnd(input, p);
    assert w + 2 <= e && p + 2 <= f;
    BestIsLongest(input, w, e, e, p, f, w);
    assert MatchLength(input, w, e, p, f) == 1 + MatchLength(input, w + 1, e, p + 1, f);
  }

  /** Phrases and at most two symbols. */
  predicate FewSymbols(n: nat) {
    n % PHRASE_BITS == 0 || n % PHRASE_BITS == SYMBOL_BITS || n % PHRASE_BITS == 2 * SYMBOL_BITS
  }

  lemma OneMorePhrase(n: nat)
    requires FewSymbols(n)
    ensures FewSymbols(PHRASE_BITS + n)
  {
  }

  /** Zeros compress to phrases, but for at most two symbols at the end. */
  lemma {:induction false} ZerosFrom(input: seq<Byte>, p: nat)
    requires 2 <= p <= |input| && input == Cleared(|input|)
    ensures |input| - p < 3 ==> |BitsFrom(input, p)| == SYMBOL_BITS * (|input| - p)
    ensures FewSymbols(|BitsFrom(input, p)|)
    decreases |input| - p
  {
    hide NextToken, TokenBits, BitsFrom;
    if p == |input| {
      BitsFromEnd(input);
    } else {
      BitsFromHere(input, p);
      ZerosFrom(input, p + Span(NextToken(input, p)));
      if |input| - p < 3 {
        EarlySymbol(input, p);
      } else {
        LatePhrase(input, p);
        OneMorePhrase(|BitsFrom(input, p + Span(NextToken(input, p)))|);
      }
    }
  }

  lemma ZerosNot65536(input: seq<Byte>)
    requires input == Cleared(|input|)
    ensures |BitsFrom(input, 0)| != 65536
  {
    hide NextToken, TokenBits;
    if |input| >= 2 {
      EarlySymbol(input, 0);
      BitsFromHere(input, 0);
      EarlySymbol(input, 1);
      BitsFromHere(input, 1);
      ZerosFrom(input, 2);
    } else {
      SizeBound(input, 0);
    }
  }

  /** Exactly the inputs neither of whose sizes, in bytes and in compressed bits, is 252 or 65536 come back. */
  lemma RoundTrip(input: seq<Byte>)
    requires Fits(input)
    ensures Uncompressed(Compressed(input)) == Some(input) <==> Kept(|input|) && Kept(|BitsFrom(input, 0)|)
  {
    hide BitsFrom, Compressed, Uncompressed;
    var n := |BitsFrom(input, 0)|;
    if n == 252 {
      Stream252(input);
    } else if n == 65536 {
      Stream65536(input);
      if input == Cleared(|input|) { ZerosNot65536(input); }
    } else if |input| == 252 {
      Size252(input);
    } else if |input| == 65536 {
      Size65536(input);
    } else {
      UncompressedIsInput(input);
    }
  }

  /** Different bytes compress to symbols. */
  lemma {:induction false} DifferentBytes(input: seq<Byte>, p: nat)
    requires p <= |input| && forall i, j :: 0 <= i < j < |input| ==> input[i] != input[j]
    ensures |BitsFrom(input, p)| == SYMBOL_BITS * (|input| - p)
    decreases |input| - p
  {
    hide NextToken, TokenBits;
    if p < |input| {
      NoMatch(input, p);
      BitsFromHere(input, p);
      DifferentBytes(input, p + 1);
    }
  }

  lemma NotTwice(input: seq<Byte>, from: nat, p: nat, n: nat)
    requires 0 < n && from + n <= p && p + n <= |input|
    requires forall i, j :: 0 <= i < j < |input| ==> input[i] != input[j]
    ensures input[from..from + n] != input[p..p + n]
  {
    assert input[from..from + n][0] == input[from] && input[p..p + n][0] == input[p];
  }

  lemma NoMatch(input: seq<Byte>, p: nat)
    requires p < |input| && forall i, j :: 0 <= i < j < |input| ==> input[i] != input[j]
    ensures NextToken(input, p).Symbol?
  {
    var t := NextToken(input, p);
    if t.Phrase? {
      NotTwice(input, WindowStart(p) + t.offset, p, t.length);
      PhraseInWindow(input, p);
    }
  }

  /** Twenty-eight different bytes make a stream of 252 bits, and are lost. */
  lemma TwentyEightBytesAreLost(input: seq<Byte>)
    requires |input| == 28 && forall i, j :: 0 <= i < j < |input| ==> input[i] != input[j]
    ensures Uncompressed(Compressed(input)) == None
  {
    hide BitsFrom, Compressed, Uncompressed;
    DifferentBytes(input, 0);
    Stream252(input);
  }
}
