/** The decoder, writing into a cleared buffer of the announced size and one byte. */
module LzUncompress {
  import opened Wrappers
  import opened Slices
  import opened Cells
  import opened Bits
  import opened NetworkOrder
  import opened LzFormat

  /** A field taken from a header, and the place after it. */
  datatype Field = Field(value: int, next: nat)

  function FieldSize(id: Byte): nat {
    if id < 252 then 0 else if id == 253 then 2 else 4
  }

  /** `None`: the field runs past the end of the data. */
  function DecodeHeader(data: seq<Byte>, at: nat): (f: Option<Field>)
    ensures f.Some? ==> at < f.value.next <= |data| && f.value.next <= at + 5
  {
    if at >= |data| then None else
    var n := FieldSize(data[at]);
    var next := at + 1 + n;
    if next > |data| then None
    else if n == 0 then Some(Field(data[at], next))
    else Some(Field(Wrap(BitsNum(Stream(data)[8 * (at + 1)..8 * next])), next))
  }

  /** Reads tokens from bit `i` up to bit `end`; `None`: something outside the data or the output was touched. */
  function Decode(bits: seq<bool>, i: nat, end: int, memory: seq<Byte>, p: nat): (r: Option<seq<Byte>>)
    ensures r.Some? ==> |r.value| == |memory|
    decreases |bits| - i
  {
    if i == end then Some(memory)
    else if i >= |bits| then None
    else if !bits[i] then DecodeNext(bits, i + 1, end, memory, p)
    else if i + PHRASE_BITS - 8 > |bits| then None
    else
      var n := BitsNum(bits[i + 1..i + PHRASE_BITS - 8]);
      var length, from := n % LENGTH_RANGE + MINIMUM_USEFUL_MATCH, WindowStart(p) + n / LENGTH_RANGE;
      if from + length > |memory| || p + length > |memory| then None
      else DecodeNext(bits, i + PHRASE_BITS - 8, end, Splice(memory, p, memory[from..from + length]), p + length)
  }

  /** The literal byte that ends every token. */
  function DecodeNext(bits: seq<bool>, i: nat, end: int, memory: seq<Byte>, p: nat): (r: Option<seq<Byte>>)
    ensures r.Some? ==> |r.value| == |memory|
    decreases |bits| - i
  {
    if i + 8 > |bits| || p >= |memory| then None
    else
      Pow2Values();
      Decode(bits, i + 8, end, memory[p := BitsNum(bits[i..i + 8])], p + 1)
  }

  function Cleared(n: nat): (m: seq<Byte>)
    ensures |m| == n
  {
    seq(n, _ => 0)
  }

  /** The decoded bytes, or `None` when the C code fails to allocate, or strays out of its buffers. */
  function Uncompressed(data: seq<Byte>): Option<seq<Byte>> {
    match DecodeHeader(data, 0)
    case None => None
    case Some(streamLength) =>
      match DecodeHeader(data, streamLength.next)
      case None => None
      case Some(size) =>
        if size.value < 0 then None else
        var i := 8 * size.next;
        match Decode(Stream(data), i, i + streamLength.value, Cleared(size.value + 1), 0)
        case None => None
        case Some(memory) => Some(memory[..size.value])
  }

  lemma {:induction false} LeadingZeros(n: nat, s: seq<bool>)
    ensures BitsNum(Zeros(n) + s) == BitsNum(s)
  {
    BitsNumConcat(Zeros(n), s);
    ZerosNum(n);
  }

  lemma {:induction false} ZerosNum(n: nat)
    ensures BitsNum(Zeros(n)) == 0
  {
    if n > 0 {
      ZerosNum(n - 1);
      assert Zeros(n)[..n - 1] == Zeros(n - 1);
    }
  }

  lemma SpliceLow(s: seq<bool>, t: seq<bool>)
    requires |t| <= |s| && s == Zeros(|s|)
    ensures Splice(s, |s| - |t|, t) == Zeros(|s| - |t|) + t
  {
  }

  /** A number of up to 32 bits, read through a cleared word of host memory. */
  method GetNumber(host: Host, data: array<Byte>, offset: nat, count: nat) returns (v: int)
    requires count <= 32 && offset + count <= 8 * data.Length
    ensures v == Wrap(BitsNum(Stream(data[..])[offset..offset + count]))
  {
    hide Stream, BitsNum, Splice, Zeros, Wrap, NetworkUnsigned32, FromImage, Image;
    var word := new Byte[4](_ => 0);
    StreamOfZeros(word[..]);
    BitGetString(word, data, offset, count, 32);
    ghost var bits := Stream(data[..])[offset..offset + count];
    SpliceLow(Zeros(32), bits);
    LeadingZeros(32 - count, bits);
    NetworkOrderFromMemory(host, word[..]);
    v := Wrap(NetworkUnsigned32(host, FromImage(host, word[..])));
  }

  /** `ficlLzDecodeHeaderField`. */
  method DecodeHeaderField(host: Host, data: array<Byte>, byteOffset: nat) returns (ok: bool, value: int, next: nat)
    ensures ok <==> DecodeHeader(data[..], byteOffset).Some?
    ensures ok ==> DecodeHeader(data[..], byteOffset) == Some(Field(value, next))
  {
    ok, value, next := false, 0, byteOffset;
    if byteOffset < data.Length {
      var id := data[byteOffset];
      next := byteOffset + 1;
      if id < 252 {
        ok, value := true, id;
      } else {
        var length := if id == 253 then 2 else 4;
        if next + length <= data.Length {
          value := GetNumber(host, data, next * 8, length * 8);
          next := next + length;
          ok := true;
        }
      }
    }
  }

  lemma ReplaceByte(b: Byte, t: seq<bool>)
    requires |t| == 8
    ensures Splice(ByteBits(b), 0, t) == t
  {
  }

  lemma ByteOfBits(c: Byte, t: seq<bool>)
    requires ByteBits(c) == t
    ensures BitsNum(t) == c
  {
    Pow2Values();
    BitsNumBits(c, 8);
  }

  /** One byte from any bit position. */
  method GetByte(data: array<Byte>, offset: nat) returns (b: Byte)
    requires offset + 8 <= 8 * data.Length
    ensures b == BitsNum(Stream(data[..])[offset..offset + 8])
  {
    var cell := new Byte[1](_ => 0);
    StreamOne(0);
    assert cell[..] == [0];
    BitGetString(cell, data, offset, 8, 8);
    ghost var bits := Stream(data[..])[offset..offset + 8];
    ReplaceByte(0, bits);
    b := cell[0];
    StreamOne(b);
    assert cell[..] == [b];
    ByteOfBits(b, bits);
  }

  /** `memmove`: the source is read before the destination is written. */
  method Move(memory: array<Byte>, to: nat, from: nat, length: nat)
    requires from + length <= memory.Length && to + length <= memory.Length
    modifies memory
    ensures memory[..] == Splice(old(memory[..]), to, old(memory[from..from + length]))
  {
    var chunk := memory[from..from + length];
    forall k | 0 <= k < length { memory[to + k] := chunk[k]; }
  }

  /** `ficlLzUncompress`. */
  method Uncompress(host: Host, compressed: array<Byte>) returns (ok: bool, uncompressed: array<Byte>, size: nat)
    ensures ok <==> Uncompressed(compressed[..]).Some?
    ensures ok ==> size <= uncompressed.Length && Uncompressed(compressed[..]) == Some(uncompressed[..size])
  {
    hide Decode, Stream, DecodeHeader;
    ok, size := false, 0;
    uncompressed := new Byte[0];
    var ok1, bitstreamLength, inputPosition := DecodeHeaderField(host, compressed, 0);
    if !ok1 { return; }
    var ok2, uncompressedSize, next := DecodeHeaderField(host, compressed, inputPosition);
    if !ok2 || uncompressedSize < 0 { return; }
    size := uncompressedSize;
    uncompressed := new Byte[size + 1](_ => 0);
    assert uncompressed[..] == Cleared(size + 1);
    ok := Expand(host, compressed, 8 * next, 8 * next + bitstreamLength, uncompressed);
  }

  /** The main loop. */
  method Expand(host: Host, compressed: array<Byte>, start: nat, end: int, memory: array<Byte>) returns (ok: bool)
    requires compressed != memory
    modifies memory
    ensures ok <==> Decode(Stream(compressed[..]), start, end, old(memory[..]), 0).Some?
    ensures ok ==> Decode(Stream(compressed[..]), start, end, old(memory[..]), 0) == Some(memory[..])
  {
    hide Stream, Splice, Decode, DecodeNext;
    var inputPosition, window, buffer := start, 0, 0;
    ghost var bits := Stream(compressed[..]);
    ghost var result := Decode(bits, start, end, memory[..], 0);
    while inputPosition != end
      invariant Stream(compressed[..]) == bits
      invariant window == WindowStart(buffer)
      invariant Decode(bits, inputPosition, end, memory[..], buffer) == result
      decreases 8 * compressed.Length - inputPosition
    {
      DecodeOnce(bits, inputPosition, end, memory[..], buffer);
      if inputPosition >= 8 * compressed.Length { return false; }
      var token := BitGet(compressed, inputPosition);
      if token {
        var found, length := CopyPhrase(host, compressed, inputPosition, window, buffer, memory, end);
        if !found { return false; }
        inputPosition := inputPosition + PHRASE_BITS - 8;
        buffer := buffer + length;
      } else {
        inputPosition := inputPosition + 1;
      }
      assert DecodeNext(bits, inputPosition, end, memory[..], buffer) == result;
      DecodeNextOnce(bits, inputPosition, end, memory[..], buffer);
      if inputPosition + 8 > 8 * compressed.Length || buffer >= memory.Length { return false; }
      var next := GetByte(compressed, inputPosition);
      memory[buffer] := next;
      inputPosition := inputPosition + 8;
      buffer := buffer + 1;
      if buffer > WINDOW_SIZE {
        window := buffer - WINDOW_SIZE;
      }
    }
    DecodeOnce(bits, inputPosition, end, memory[..], buffer);
    ok := true;
  }

  /** The phrase of a phrase token. */
  method CopyPhrase(host: Host, compressed: array<Byte>, position: nat, window: nat, buffer: nat, memory: array<Byte>,
                    ghost end: int)
    returns (ok: bool, length: nat)
    requires compressed != memory && window == WindowStart(buffer)
    requires position != end && position < 8 * compressed.Length && Stream(compressed[..])[position]
    modifies memory
    ensures var before := Decode(Stream(compressed[..]), position, end, old(memory[..]), buffer);
            if ok
            then before == DecodeNext(Stream(compressed[..]), position + PHRASE_BITS - 8, end, memory[..], buffer + length)
            else before == None
  {
    hide Stream, Splice, Decode, DecodeNext, WindowStart, Wrap, BitsNum;
    ghost var bits := Stream(compressed[..]);
    DecodePhrase(bits, position, end, memory[..], buffer);
    ok, length := false, 0;
    if position + PHRASE_BITS - 8 > 8 * compressed.Length { return; }
    var field := GetNumber(host, compressed, position + 1, PHRASE_BITS - 9);
    FieldIsSmall(Stream(compressed[..]), position + 1);
    length := field % LENGTH_RANGE + MINIMUM_USEFUL_MATCH;
    var offset := field / LENGTH_RANGE;
    if window + offset + length > memory.Length || buffer + length > memory.Length { return; }
    Move(memory, buffer, window + offset, length);
    ok := true;
  }

  /** Where a token starts, and how a symbol goes on. */
  lemma DecodeOnce(bits: seq<bool>, i: nat, end: int, memory: seq<Byte>, p: nat)
    ensures i == end ==> Decode(bits, i, end, memory, p) == Some(memory)
    ensures i != end && i >= |bits| ==> Decode(bits, i, end, memory, p) == None
    ensures i != end && i < |bits| && !bits[i] ==>
            Decode(bits, i, end, memory, p) == DecodeNext(bits, i + 1, end, memory, p)
  {
  }

  lemma DecodePhrase(bits: seq<bool>, i: nat, end: int, memory: seq<Byte>, p: nat)
    requires i != end && i < |bits| && bits[i]
    ensures if i + PHRASE_BITS - 8 > |bits| then Decode(bits, i, end, memory, p) == None
            else
              var n := BitsNum(bits[i + 1..i + PHRASE_BITS - 8]);
              var length, from := n % LENGTH_RANGE + MINIMUM_USEFUL_MATCH, WindowStart(p) + n / LENGTH_RANGE;
              Decode(bits, i, end, memory, p)
              == if from + length > |memory| || p + length > |memory| then None
                 else DecodeNext(bits, i + PHRASE_BITS - 8, end, Splice(memory, p, memory[from..from + length]), p + length)
  {
    hide Splice, DecodeNext, BitsNum;
  }

  lemma DecodeNextOnce(bits: seq<bool>, i: nat, end: int, memory: seq<Byte>, p: nat)
    ensures i + 8 > |bits| || p >= |memory| ==> DecodeNext(bits, i, end, memory, p) == None
    ensures i + 8 <= |bits| && p < |memory| ==>
            BitsNum(bits[i..i + 8]) < 256
            && DecodeNext(bits, i, end, memory, p) == Decode(bits, i + 8, end, memory[p := BitsNum(bits[i..i + 8])], p + 1)
  {
    Pow2Values();
  }

  lemma FieldIsSmall(bits: seq<bool>, at: nat)
    requires at + PHRASE_BITS - 9 <= |bits|
    ensures var n := BitsNum(bits[at..at + PHRASE_BITS - 9]); n < 0x2_0000 && Wrap(n) == n
  {
    Pow2Values();
  }
}
