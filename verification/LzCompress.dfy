/** The compressor, setting bits in an output buffer as it goes. */
module LzCompress {
  import opened Slices
  import opened Bits
  import opened NetworkOrder
  import opened LzFormat

  /** `ficlLzCompareWindow`. */
  method CompareWindow(input: seq<Byte>, window: nat, buffer: nat, windowSize: nat, bufferSize: nat)
    returns (longest: nat, offset: nat, next: Byte)
    requires bufferSize >= 1 && window + windowSize <= |input| && buffer + bufferSize <= |input|
    ensures Match(offset, longest) ==
            Best(input, window, window + windowSize, window + windowSize, buffer, buffer + bufferSize - 1)
    ensures next == input[buffer + longest]
  {
    longest, offset := 0, 0;
    var bufferFirst := input[buffer];
    next := bufferFirst;
    var windowEnd, bufferEnd := window + windowSize, buffer + bufferSize - 1;
    var windowTrace := window;
    while windowTrace < windowEnd
      invariant window <= windowTrace <= windowEnd
      invariant Match(offset, longest) == Best(input, window, windowTrace, windowEnd, buffer, bufferEnd)
      invariant next == input[buffer + longest]
    {
      if input[windowTrace] == bufferFirst {
        var length := TraceMatch(input, windowTrace, windowEnd, buffer, bufferEnd);
        if length > longest && length >= MINIMUM_USEFUL_MATCH {
          offset := windowTrace - window;
          longest := length;
          next := input[buffer + length];
        }
      }
      windowTrace := windowTrace + 1;
    }
  }

  /** The inner loop of the window search. */
  method TraceMatch(input: seq<Byte>, from: nat, windowEnd: nat, buffer: nat, bufferEnd: nat) returns (length: nat)
    requires from <= windowEnd <= |input| && buffer <= bufferEnd <= |input|
    ensures length == MatchLength(input, from, windowEnd, buffer, bufferEnd)
  {
    var windowTrace, bufferTrace := from, buffer;
    while windowTrace < windowEnd && bufferTrace < bufferEnd && input[windowTrace] == input[bufferTrace]
      invariant from <= windowTrace <= windowEnd && buffer <= bufferTrace <= bufferEnd
      invariant bufferTrace - buffer == windowTrace - from
      invariant windowTrace - from + MatchLength(input, windowTrace, windowEnd, bufferTrace, bufferEnd)
             == MatchLength(input, from, windowEnd, buffer, bufferEnd)
    {
      windowTrace, bufferTrace := windowTrace + 1, bufferTrace + 1;
    }
    length := windowTrace - from;
  }

  /** The bytes of a number in network order, in host memory. */
  method NetworkBytes(host: Host, x: Unsigned32) returns (image: array<Byte>)
    ensures fresh(image) && image.Length == 4 && Stream(image[..]) == NumBits(x, 32)
  {
    var m := Image(host, NetworkUnsigned32(host, x));
    image := new Byte[4](i requires 0 <= i < 4 => m[i]);
    assert image[..] == m;
    NetworkOrderInMemory(host, x);
  }

  lemma LowBits(v: nat, n: nat)
    requires n <= 32 && v < Pow2(n)
    ensures NumBits(v, 32)[32 - n..] == NumBits(v, n)
  {
    hide NumBits, Pow2;
    assert 0 * Pow2(n) + v == v;
    NumBitsFields(0, v, 32 - n, n);
  }

  /** Appends the low bits of `token` to the output. */
  method PutToken(host: Host, compressed: array<Byte>, outputPosition: nat, token: Unsigned32, tokenLength: nat)
    requires tokenLength <= 32 && token < Pow2(tokenLength)
    requires outputPosition + tokenLength <= 8 * compressed.Length
    modifies compressed
    ensures Stream(compressed[..]) ==
            Splice(Stream(old(compressed[..])), outputPosition, NumBits(token, tokenLength))
  {
    hide Stream, NumBits, Splice, Pow2;
    var image := NetworkBytes(host, token);
    BitGetString(compressed, image, 32 - tokenLength, tokenLength, outputPosition + tokenLength);
    LowBits(token, tokenLength);
    assert NumBits(token, 32)[32 - tokenLength..32] == NumBits(token, 32)[32 - tokenLength..];
  }

  /** Writes the low bytes of a number, the most significant first. */
  method PutBytes(host: Host, data: array<Byte>, input: Unsigned32, at: nat, length: nat)
    requires length <= 4 && at + length <= data.Length
    modifies data
    ensures data[..at + length] == old(data[..at]) + Octets(input)[4 - length..]
  {
    hide Stream, NumBits, Octets, Splice, Spelled, Image, NetworkUnsigned32;
    var image := NetworkBytes(host, input);
    ghost var before, low := data[..], Octets(input)[4 - length..];
    BitGetString(data, image, 32 - 8 * length, 8 * length, 8 * (at + length));
    LowOctets(input, length);
    assert NumBits(input, 32)[32 - 8 * length..32] == Stream(low);
    assert Stream(data[..]) == Splice(Stream(before), 8 * at, Stream(low));
    BytesSpliced(before, data[..], at, low);
  }

  /** `ficlLzEncodeHeaderField`. */
  method EncodeHeaderField(host: Host, data: array<Byte>, input: Unsigned32, byteOffset: nat) returns (end: nat)
    requires byteOffset + 5 <= data.Length
    modifies data
    ensures end == byteOffset + |Header(input)| <= data.Length
    ensures data[..end] == old(data[..byteOffset]) + Header(input)
  {
    hide Octets, Header;
    end := byteOffset;
    HeaderForm(input);
    if input <= 252 {
      data[end] := input;
      end := end + 1;
    } else {
      var id, length := 254, 4;
      if input <= 65536 {
        id, length := 253, 2;
      }
      data[end] := id;
      end := end + 1;
      assert data[..end] == old(data[..byteOffset]) + [id];
      PutBytes(host, data, input, end, length);
      end := end + length;
      Associate(old(data[..byteOffset]), [id], Octets(input)[4 - length..]);
    }
  }

  lemma OctetBits(x: Unsigned32)
    ensures Stream(Octets(x)) == NumBits(x, 32)
  {
    OctetsSpell(x);
    StreamFour(Octets(x));
  }

  lemma SplicePrefix(s: seq<bool>, at: nat, t: seq<bool>)
    requires at + |t| <= |s|
    ensures Splice(s, at, t)[..at + |t|] == s[..at] + t
  {
  }

  /** The low bytes of a number are its low bits. */
  lemma LowOctets(x: Unsigned32, length: nat)
    requires length <= 4
    ensures Stream(Octets(x)[4 - length..]) == NumBits(x, 32)[32 - 8 * length..]
  {
    hide NumBits, Stream, Octets;
    OctetBits(x);
    StreamSlice(Octets(x), 4 - length, 4);
    assert Octets(x)[4 - length..4] == Octets(x)[4 - length..];
  }

  /** Splicing in the bits of whole bytes is writing the bytes. */
  lemma BytesSpliced(before: seq<Byte>, after: seq<Byte>, at: nat, low: seq<Byte>)
    requires at + |low| <= |before|
    requires Stream(after) == Splice(Stream(before), 8 * at, Stream(low))
    ensures |after| == |before| && after[..at + |low|] == before[..at] + low
  {
    hide Stream, Splice;
    var n := at + |low|;
    SplicePrefix(Stream(before), 8 * at, Stream(low));
    StreamPrefix(after, n);
    StreamPrefix(before, at);
    StreamConcat(before[..at], low);
    StreamInjective(after[..n], before[..at] + low);
  }

  /** `done` bits are out, and the rest of the buffer is still clear. */
  ghost predicate Written(compressed: seq<Byte>, done: seq<bool>) {
    |done| <= 8 * |compressed| && Stream(compressed) == done + Zeros(8 * |compressed| - |done|)
  }

  lemma WrittenMore(before: seq<Byte>, after: seq<Byte>, done: seq<bool>, bits: seq<bool>)
    requires Written(before, done) && |after| == |before| && |done| + |bits| <= 8 * |before|
    requires Stream(after) == Splice(Stream(before), |done|, bits)
    ensures Written(after, done + bits)
  {
    var n := 8 * |before| - |done|;
    assert Stream(before)[|done| + |bits|..] == Zeros(n)[|bits|..] == Zeros(n - |bits|);
    assert Stream(before)[..|done|] == done;
  }

  lemma WrittenPacked(compressed: seq<Byte>, bits: seq<bool>)
    requires Written(compressed, bits) && PackedSize(|bits|) <= |compressed|
    ensures compressed[..PackedSize(|bits|)] == Packed(bits)
  {
    hide Stream, Pack;
    var n := PackedSize(|bits|);
    StreamPrefix(compressed, n);
    assert Stream(compressed)[..8 * n] == bits + Zeros(8 * n - |bits|);
    PackStream(bits + Zeros(8 * n - |bits|));
    StreamInjective(compressed[..n], Packed(bits));
  }

  /** The numbers the encoder packs into tokens stay within their fields. */
  lemma TokenFits(t: Token)
    requires ValidToken(t)
    ensures TokenNumber(t) < Pow2(if t.Symbol? then SYMBOL_BITS else PHRASE_BITS)
  {
    Pow2Values();
    assert Pow2(9) == 2 * Pow2(8);
    assert Pow2(26) == 4 * Pow2(24);
  }

  /** Puts out the token for the bytes at `buffer`; `length` of them are matched. */
  method PutNext(host: Host, input: seq<Byte>, compressed: array<Byte>, window: nat, windowSize: nat, buffer: nat,
                 outputPosition: nat, ghost done: seq<bool>)
    returns (length: nat, tokenLength: nat)
    requires buffer < |input| && window == WindowStart(buffer) && windowSize == buffer - window
    requires |done| == outputPosition && Written(compressed[..], done)
    requires outputPosition + |BitsFrom(input, buffer)| <= 8 * compressed.Length
    modifies compressed
    ensures var t := NextToken(input, buffer);
            && length + 1 == Span(t) && buffer + Span(t) <= |input|
            && tokenLength == |TokenBits(t)| && Written(compressed[..], done + TokenBits(t))
  {
    hide Written, Best;
    var remaining := |input| - buffer;
    var bufferSize := Min(remaining, BUFFER_SIZE);
    var useWindowSize := Min(remaining, windowSize);
    var offset, next;
    length, offset, next := CompareWindow(input, window, buffer, useWindowSize, bufferSize);
    ghost var t := NextToken(input, buffer);
    assert Match(offset, length) == NextMatch(input, buffer);
    var token;
    if length > 1 {
      token := 0x200_0000 + offset * 0x2000 + (length - MINIMUM_USEFUL_MATCH) * 0x100 + next;
      tokenLength := PHRASE_BITS;
    } else {
      token := next;
      tokenLength := SYMBOL_BITS;
    }
    assert ValidToken(t) && token == TokenNumber(t);
    TokenFits(t);
    assert |TokenBits(t)| <= |BitsFrom(input, buffer)|;
    ghost var before := compressed[..];
    PutToken(host, compressed, outputPosition, token, tokenLength);
    WrittenMore(before, compressed[..], done, TokenBits(t));
  }

  lemma NextBits(input: seq<Byte>, p: nat, done: seq<bool>)
    requires p < |input| && done + BitsFrom(input, p) == BitsFrom(input, 0)
    ensures var t := NextToken(input, p);
            done + TokenBits(t) + BitsFrom(input, p + Span(t)) == BitsFrom(input, 0)
  {
    hide TokenBits, NextToken, Span, BitsFrom;
    BitsFromHere(input, p);
    var t := NextToken(input, p);
    Associate(done, TokenBits(t), BitsFrom(input, p + Span(t)));
  }

  /** `ficlLzCompress`. */
  method Compress(host: Host, input: seq<Byte>) returns (out: array<Byte>)
    requires Fits(input)
    ensures out[..] == Compressed(input)
  {
    hide BitsFrom, NextToken, TokenBits, Compressed;
    var compressed := new Byte[|input| * 5 / 4 + 10](_ => 0);
    StreamOfZeros(compressed[..]);
    var window, buffer, windowSize := 0, 0, 0;
    var outputPosition := 0;
    var remaining := |input|;
    ghost var done := [];
    SizeBound(input, 0);
    while remaining > 0
      invariant remaining >= 0 && buffer + remaining == |input|
      invariant window == WindowStart(buffer) && windowSize == buffer - window
      invariant |done| == outputPosition && done + BitsFrom(input, buffer) == BitsFrom(input, 0)
      invariant Written(compressed[..], done)
    {
      var length, tokenLength := PutNext(host, input, compressed, window, windowSize, buffer, outputPosition, done);
      NextBits(input, buffer, done);
      done := done + TokenBits(NextToken(input, buffer));
      outputPosition := outputPosition + tokenLength;
      length := length + 1;
      buffer := buffer + length;
      if windowSize == WINDOW_SIZE {
        window := window + length;
      } else if windowSize + length < WINDOW_SIZE {
        windowSize := windowSize + length;
      } else {
        window := window + (windowSize + length) - WINDOW_SIZE;
        windowSize := WINDOW_SIZE;
      }
      remaining := remaining - length;
    }
    BitsFromEnd(input);
    out := Assemble(host, input, compressed, outputPosition);
  }

  lemma HeaderSize(v: Unsigned32)
    ensures 1 <= |Header(v)| <= 5
  {
  }

  /** Plugs in the header. */
  method Assemble(host: Host, input: seq<Byte>, compressed: array<Byte>, outputPosition: nat) returns (out: array<Byte>)
    requires Fits(input) && outputPosition == |BitsFrom(input, 0)| && PackedSize(outputPosition) <= compressed.Length
    requires Written(compressed[..], BitsFrom(input, 0))
    ensures out[..] == Compressed(input)
  {
    hide BitsFrom, Written, Header, Packed, Stream;
    SizeBound(input, 0);
    var headerBuffer := new Byte[10](_ => 0);
    var headerLength := EncodeHeaderField(host, headerBuffer, outputPosition, 0);
    HeaderSize(outputPosition);
    headerLength := EncodeHeaderField(host, headerBuffer, |input|, headerLength);
    var compressedSize := if outputPosition == 0 then 1 else (outputPosition - 1) / 8 + 1;
    WrittenPacked(compressed[..], BitsFrom(input, 0));
    var bytes := headerBuffer[..headerLength] + compressed[..compressedSize];
    out := new Byte[|bytes|](i requires 0 <= i < |bytes| => bytes[i]);
    assert out[..] == bytes;
  }
}
