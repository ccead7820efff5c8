/** The compressed form: a greedy choice of tokens, their bits, and two header fields in front. */
module LzFormat {
  import opened Bits
  import opened NetworkOrder

  const WINDOW_SIZE := 4096
  const BUFFER_SIZE := 34
  const MINIMUM_USEFUL_MATCH := 2
  const LENGTH_RANGE := 32
  const SYMBOL_BITS := 9
  const PHRASE_BITS := 26

  datatype Match = Match(offset: nat, length: nat)

  /** `Phrase`: `length` bytes from `offset` into the window; either is followed by one literal byte. */
  datatype Token = Symbol(next: Byte) | Phrase(offset: nat, length: nat, next: Byte)

  function Min(a: int, b: int): int {
    if a < b then a else b
  }

  /** Both sides keep the last 4096 bytes as their window. */
  function WindowStart(p: nat): nat {
    if p > WINDOW_SIZE then p - WINDOW_SIZE else 0
  }

  /** How long the bytes at `i`, before `windowEnd`, match those at `p`, before `bufferEnd`. */
  function MatchLength(input: seq<Byte>, i: nat, windowEnd: nat, p: nat, bufferEnd: nat): (n: nat)
    requires i <= windowEnd <= |input| && p <= bufferEnd <= |input|
    ensures n <= windowEnd - i && n <= bufferEnd - p
    decreases windowEnd - i
  {
    if i < windowEnd && p < bufferEnd && input[i] == input[p]
    then 1 + MatchLength(input, i + 1, windowEnd, p + 1, bufferEnd)
    else 0
  }

  /** The match chosen among those that start before `i`: the first of the longest useful ones. */
  function Best(input: seq<Byte>, w: nat, i: nat, windowEnd: nat, p: nat, bufferEnd: nat): (m: Match)
    requires w <= i <= windowEnd <= |input| && p <= bufferEnd <= |input|
    ensures m == Match(0, 0) ||
            (m.length >= MINIMUM_USEFUL_MATCH && w + m.offset < i && w + m.offset + m.length <= windowEnd
             && p + m.length <= bufferEnd)
    decreases i
  {
    if i == w then Match(0, 0) else
    var best := Best(input, w, i - 1, windowEnd, p, bufferEnd);
    var n := MatchLength(input, i - 1, windowEnd, p, bufferEnd);
    if n > best.length && n >= MINIMUM_USEFUL_MATCH then Match(i - 1 - w, n) else best
  }

  /** The bounds the compressor searches within when it has got to `p`. */
  function WindowEnd(input: seq<Byte>, p: nat): (e: nat)
    requires p < |input|
    ensures WindowStart(p) <= e <= p
  {
    WindowStart(p) + Min(|input| - p, p - WindowStart(p))
  }

  function BufferEnd(input: seq<Byte>, p: nat): (e: nat)
    requires p < |input|
    ensures p <= e < |input|
  {
    p + Min(|input| - p, BUFFER_SIZE) - 1
  }

  function NextMatch(input: seq<Byte>, p: nat): (m: Match)
    requires p < |input|
    ensures p + m.length < |input| && m.length <= BUFFER_SIZE - 1
    ensures m.length > 0 ==> m.length >= MINIMUM_USEFUL_MATCH && WindowStart(p) + m.offset + m.length <= p
    ensures m.offset < WINDOW_SIZE
  {
    Best(input, WindowStart(p), WindowEnd(input, p), WindowEnd(input, p), p, BufferEnd(input, p))
  }

  /** The input bytes a token stands for. */
  function Span(t: Token): (n: nat)
    ensures n >= 1
  {
    match t case Symbol(_) => 1 case Phrase(_, length, _) => length + 1
  }

  predicate ValidToken(t: Token) {
    t.Phrase? ==> t.offset < WINDOW_SIZE && MINIMUM_USEFUL_MATCH <= t.length < LENGTH_RANGE + MINIMUM_USEFUL_MATCH
  }

  function NextToken(input: seq<Byte>, p: nat): (t: Token)
    requires p < |input|
    ensures ValidToken(t) && p + Span(t) <= |input|
  {
    var m := NextMatch(input, p);
    if m.length > 1 then Phrase(m.offset, m.length, input[p + m.length]) else Symbol(input[p])
  }

  function TokenNumber(t: Token): (n: nat)
    requires ValidToken(t)
    ensures n < 0x400_0000
  {
    match t
    case Symbol(next) => next
    case Phrase(offset, length, next) => 0x200_0000 + offset * 0x2000 + (length - MINIMUM_USEFUL_MATCH) * 0x100 + next
  }

  function TokenBits(t: Token): (s: seq<bool>)
    requires ValidToken(t)
    ensures |s| == if t.Symbol? then SYMBOL_BITS else PHRASE_BITS
  {
    NumBits(TokenNumber(t), if t.Symbol? then SYMBOL_BITS else PHRASE_BITS)
  }

  /** The bits of all tokens from position `p` on. */
  function BitsFrom(input: seq<Byte>, p: nat): seq<bool>
    requires p <= |input|
    decreases |input| - p
  {
    if p == |input| then [] else
    var t := NextToken(input, p);
    TokenBits(t) + BitsFrom(input, p + Span(t))
  }

  lemma BitsFromEnd(input: seq<Byte>)
    ensures BitsFrom(input, |input|) == []
  {
  }

  lemma BitsFromHere(input: seq<Byte>, p: nat)
    requires p < |input|
    ensures var t := NextToken(input, p); BitsFrom(input, p) == TokenBits(t) + BitsFrom(input, p + Span(t))
  {
  }

  /** A header field is one byte up to 252, else a marker and two or four bytes. */
  function Header(v: Unsigned32): seq<Byte> {
    if v <= 252 then [v]
    else if v <= 65536 then [253] + Octets(v)[2..]
    else [254] + Octets(v)
  }

  lemma HeaderForm(v: Unsigned32)
    ensures v <= 252 ==> Header(v) == [v]
    ensures 252 < v <= 65536 ==> Header(v) == [253] + Octets(v)[2..]
    ensures v > 65536 ==> Header(v) == [254] + Octets(v)[0..]
  {
  }

  function Zeros(n: nat): (s: seq<bool>)
    ensures |s| == n
  {
    seq(n, _ => false)
  }

  lemma {:induction false} StreamOfZeros(data: seq<Byte>)
    requires forall i :: 0 <= i < |data| ==> data[i] == 0
    ensures Stream(data) == Zeros(8 * |data|)
  {
    if data != [] {
      StreamOfZeros(data[..|data|-1]);
      ZeroBits(8);
      assert Zeros(8 * (|data| - 1)) + Zeros(8) == Zeros(8 * |data|);
    }
  }

  lemma {:induction false} ZeroBits(n: nat)
    ensures NumBits(0, n) == Zeros(n)
  {
    if n > 0 {
      ZeroBits(n - 1);
      assert Zeros(n - 1) + [false] == Zeros(n);
    }
  }

  /** The bytes that hold `n` bits; C's division makes one byte of no bits, too. */
  function PackedSize(n: nat): (b: nat)
    ensures n <= 8 * b
  {
    if n == 0 then 1 else (n - 1) / 8 + 1
  }

  function Pack(s: seq<bool>): (data: seq<Byte>)
    requires |s| % 8 == 0
    ensures 8 * |data| == |s|
  {
    if s == [] then [] else
    Pow2Values();
    Pack(s[..|s|-8]) + [BitsNum(s[|s|-8..])]
  }

  lemma {:induction false} PackStream(s: seq<bool>)
    requires |s| % 8 == 0
    ensures Stream(Pack(s)) == s
  {
    hide Stream, BitsNum, NumBits;
    if s == [] {
      StreamConcat([], []);
    } else {
      var rest, last, data := s[..|s|-8], s[|s|-8..], Pack(s);
      PackStream(rest);
      NumBitsNum(last);
      StreamLast(data);
      assert data[..|data|-1] == Pack(rest);
      assert rest + last == s;
    }
  }

  function Packed(bits: seq<bool>): seq<Byte> {
    Pack(bits + Zeros(8 * PackedSize(|bits|) - |bits|))
  }

  /** Positions in the compressed form, counted in bits after a header of at most ten bytes, are kept in a C int. */
  predicate Fits(input: seq<Byte>) {
    SYMBOL_BITS * |input| + 80 < 0x8000_0000
  }

  /** `ficlLzCompress`. */
  function Compressed(input: seq<Byte>): seq<Byte>
    requires Fits(input)
  {
    var bits := BitsFrom(input, 0);
    SizeBound(input, 0);
    Header(|bits|) + Header(|input|) + Packed(bits)
  }

  /** No token costs more than nine bits for each byte it stands for. */
  lemma {:induction false} SizeBound(input: seq<Byte>, p: nat)
    requires p <= |input|
    ensures |BitsFrom(input, p)| <= SYMBOL_BITS * (|input| - p)
    decreases |input| - p
  {
    hide NextToken, TokenBits;
    if p < |input| {
      BitsFromHere(input, p);
      SizeBound(input, p + Span(NextToken(input, p)));
    }
  }

  /** The match is as long as it can be: it stops at an end or at two different bytes. */
  lemma {:induction false} MatchLengthIsLongest(input: seq<Byte>, i: nat, windowEnd: nat, p: nat, bufferEnd: nat)
    requires i <= windowEnd <= |input| && p <= bufferEnd <= |input|
    ensures var n := MatchLength(input, i, windowEnd, p, bufferEnd);
            && input[i..i + n] == input[p..p + n]
            && (i + n == windowEnd || p + n == bufferEnd || input[i + n] != input[p + n])
    decreases windowEnd - i
  {
    if i < windowEnd && p < bufferEnd && input[i] == input[p] {
      var n := MatchLength(input, i + 1, windowEnd, p + 1, bufferEnd);
      MatchLengthIsLongest(input, i + 1, windowEnd, p + 1, bufferEnd);
      HeadOfSlice(input, i, i + 1 + n);
      HeadOfSlice(input, p, p + 1 + n);
    }
  }

  lemma HeadOfSlice(s: seq<Byte>, lo: nat, hi: nat)
    requires lo < hi <= |s|
    ensures s[lo..hi] == [s[lo]] + s[lo + 1..hi]
  {
  }

  /** No start before `i` matches longer, and no start before the chosen one matches as long. */
  lemma {:induction false} BestIsLongest(input: seq<Byte>, w: nat, i: nat, windowEnd: nat, p: nat, bufferEnd: nat, j: nat)
    requires w <= i <= windowEnd <= |input| && p <= bufferEnd <= |input| && w <= j < i
    ensures var m := Best(input, w, i, windowEnd, p, bufferEnd);
            var n := MatchLength(input, j, windowEnd, p, bufferEnd);
            && (n >= MINIMUM_USEFUL_MATCH ==> n <= m.length)
            && (m.length > 0 ==> MatchLength(input, w + m.offset, windowEnd, p, bufferEnd) == m.length)
            && (m.length > 0 && j < w + m.offset ==> n < m.length)
    decreases i
  {
    if j < i - 1 {
      BestIsLongest(input, w, i - 1, windowEnd, p, bufferEnd, j);
    } else if w < i - 1 {
      BestIsLongest(input, w, i - 1, windowEnd, p, bufferEnd, w);
    }
  }

  /** The phrase stands in the window, wholly within what the decoder has already put out. */
  lemma PhraseInWindow(input: seq<Byte>, p: nat)
    requires p < |input| && NextToken(input, p).Phrase?
    ensures var t := NextToken(input, p);
            var from := WindowStart(p) + t.offset;
            from + t.length <= p && input[from..from + t.length] == input[p..p + t.length]
  {
    var w, e := WindowStart(p), WindowEnd(input, p);
    var m := NextMatch(input, p);
    BestIsLongest(input, w, e, e, p, BufferEnd(input, p), w + m.offset);
    MatchLengthIsLongest(input, w + m.offset, e, p, BufferEnd(input, p));
  }
}
