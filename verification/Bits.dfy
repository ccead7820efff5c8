/**
 Strings of bits in byte arrays, most significant bit first, and numbers as bit strings.
 A 32-bit number in memory is four bytes in the order of the host; in network order they are the same
 on every host.
 */
module Bits {
  import opened Slices

  type Byte = x: int | 0 <= x < 256

  function Pow2(n: nat): (p: int)
    ensures p >= 1
  {
    if n == 0 then 1 else 2 * Pow2(n - 1)
  }

  lemma Pow2Values()
    ensures Pow2(5) == 32 && Pow2(8) == 0x100 && Pow2(13) == 0x2000 && Pow2(17) == 0x2_0000
    ensures Pow2(16) == 0x1_0000 && Pow2(24) == 0x100_0000 && Pow2(32) == 0x1_0000_0000
  {
    assert Pow2(5) == 32;
    assert Pow2(8) == 256;
    assert Pow2(11) == 2048;
    assert Pow2(13) == 8192;
    assert Pow2(16) == 65536;
    assert Pow2(20) == 16 * 65536;
    assert Pow2(24) == 256 * 65536;
    assert Pow2(28) == 4096 * 65536;
  }

  /** The low `n` bits of a number. */
  function NumBits(v: nat, n: nat): (s: seq<bool>)
    ensures |s| == n
  {
    if n == 0 then [] else NumBits(v / 2, n - 1) + [v % 2 == 1]
  }

  /** The number that a string of bits spells. */
  function BitsNum(s: seq<bool>): (v: nat)
    ensures v < Pow2(|s|)
  {
    if s == [] then 0 else 2 * BitsNum(s[..|s|-1]) + (if s[|s|-1] then 1 else 0)
  }

  lemma {:induction false} NumBitsNum(s: seq<bool>)
    ensures NumBits(BitsNum(s), |s|) == s
  {
    if s != [] {
      NumBitsNum(s[..|s|-1]);
    }
  }

  lemma {:induction false} BitsNumBits(v: nat, n: nat)
    requires v < Pow2(n)
    ensures BitsNum(NumBits(v, n)) == v
  {
    if n > 0 {
      var s := NumBits(v, n);
      assert s[..n-1] == NumBits(v / 2, n - 1);
      BitsNumBits(v / 2, n - 1);
    }
  }

  /** A number in two fields. */
  lemma {:induction false} NumBitsFields(a: nat, b: nat, m: nat, n: nat)
    requires b < Pow2(n)
    ensures NumBits(a * Pow2(n) + b, m + n) == NumBits(a, m) + NumBits(b, n)
  {
    if n > 0 {
      var p := Pow2(n - 1);
      assert a * Pow2(n) == 2 * (a * p);
      assert (a * Pow2(n) + b) / 2 == a * p + b / 2;
      assert (a * Pow2(n) + b) % 2 == b % 2;
      NumBitsFields(a, b / 2, m, n - 1);
      assert NumBits(a, m) + (NumBits(b / 2, n - 1) + [b % 2 == 1])
          == NumBits(a, m) + NumBits(b / 2, n - 1) + [b % 2 == 1];
    }
  }

  lemma {:induction false} BitsNumConcat(s: seq<bool>, t: seq<bool>)
    ensures BitsNum(s + t) == BitsNum(s) * Pow2(|t|) + BitsNum(t)
  {
    if t == [] {
      assert s + t == s;
    } else {
      var t' := t[..|t|-1];
      var last := if t[|t|-1] then 1 else 0;
      assert (s + t)[..|s + t|-1] == s + t';
      assert BitsNum(s + t) == 2 * BitsNum(s + t') + last;
      BitsNumConcat(s, t');
      Horner(BitsNum(s), Pow2(|t'|), BitsNum(t'), last);
    }
  }

  lemma Horner(a: int, p: int, b: int, last: int)
    ensures 2 * (a * p + b) + last == a * (2 * p) + (2 * b + last)
  {
  }

  /** Which bit of a byte a mask `128 >> i` tests. */
  lemma {:induction false} NumBitsAt(v: nat, n: nat, i: nat)
    requires i < n
    ensures NumBits(v, n)[i] <==> v / Pow2(n - 1 - i) % 2 == 1
  {
    if i < n - 1 {
      NumBitsAt(v / 2, n - 1, i);
      DivTwice(v, Pow2(n - 2 - i));
    }
  }

  lemma DivTwice(v: nat, p: nat)
    requires p > 0
    ensures v / 2 / p == v / (2 * p)
  {
    var q := v / (2 * p);
    var r := v % (2 * p);
    assert v == 2 * p * q + r;
    assert v / 2 == p * q + r / 2;
    assert 0 <= r / 2 < p;
    QuotientUnique(v / 2, p, q, r / 2);
  }

  lemma QuotientUnique(x: nat, p: nat, q: nat, r: nat)
    requires x == p * q + r && r < p
    ensures x / p == q && x % p == r
  {
    var q', r' := x / p, x % p;
    assert x == p * q' + r';
    Distribute(p, q, q');
    if q > q' { AtLeast(p, q - q'); }
    if q < q' { AtLeast(p, q' - q); Distribute(p, q', q); }
  }

  lemma Distribute(p: int, a: int, b: int)
    ensures p * (a - b) == p * a - p * b
  {
  }

  lemma AtLeast(p: nat, d: nat)
    requires d >= 1
    ensures p * d >= p
  {
  }

  function ByteBits(b: Byte): (s: seq<bool>)
    ensures |s| == 8
  {
    NumBits(b, 8)
  }

  /** The byte with bit `i` set or cleared. */
  function WithBit(b: Byte, i: int, value: bool): (c: Byte)
    requires 0 <= i < 8
    ensures ByteBits(c) == ByteBits(b)[i := value]
  {
    Pow2Values();
    NumBitsNum(ByteBits(b)[i := value]);
    BitsNum(ByteBits(b)[i := value])
  }

  /** All the bits of some bytes. */
  function Stream(data: seq<Byte>): (s: seq<bool>)
    ensures |s| == 8 * |data|
  {
    if data == [] then [] else Stream(data[..|data|-1]) + ByteBits(data[|data|-1])
  }

  lemma {:induction false} StreamAt(data: seq<Byte>, k: int)
    requires 0 <= k < 8 * |data|
    ensures Stream(data)[k] == ByteBits(data[k / 8])[k % 8]
  {
    if k < 8 * (|data| - 1) {
      StreamAt(data[..|data|-1], k);
    }
  }

  lemma {:induction false} StreamConcat(a: seq<Byte>, b: seq<Byte>)
    ensures Stream(a + b) == Stream(a) + Stream(b)
  {
    if b == [] {
      assert a + b == a;
    } else {
      assert (a + b)[..|a + b|-1] == a + b[..|b|-1];
      StreamConcat(a, b[..|b|-1]);
      assert Stream(a) + (Stream(b[..|b|-1]) + ByteBits(b[|b|-1])) == Stream(a) + Stream(b[..|b|-1]) + ByteBits(b[|b|-1]);
    }
  }

  lemma StreamPrefix(data: seq<Byte>, n: nat)
    requires n <= |data|
    ensures Stream(data[..n]) == Stream(data)[..8 * n]
  {
    assert data == data[..n] + data[n..];
    StreamConcat(data[..n], data[n..]);
  }

  lemma StreamSlice(data: seq<Byte>, lo: nat, hi: nat)
    requires lo <= hi <= |data|
    ensures Stream(data[lo..hi]) == Stream(data)[8 * lo..8 * hi]
  {
    hide Stream;
    StreamPrefix(data, hi);
    assert data[..hi] == data[..lo] + data[lo..hi];
    StreamConcat(data[..lo], data[lo..hi]);
    SliceOfSum(Stream(data), Stream(data[..lo]), Stream(data[lo..hi]), 8 * hi);
  }

  lemma SliceOfSum<T>(s: seq<T>, a: seq<T>, b: seq<T>, n: nat)
    requires n <= |s| && s[..n] == a + b
    ensures |a| <= n && s[|a|..n] == b
  {
    assert s[|a|..n] == s[..n][|a|..];
  }

  lemma ByteBitsInjective(a: Byte, b: Byte)
    requires ByteBits(a) == ByteBits(b)
    ensures a == b
  {
    Pow2Values();
    BitsNumBits(a, 8);
    BitsNumBits(b, 8);
  }

  lemma StreamLast(data: seq<Byte>)
    requires data != []
    ensures Stream(data) == Stream(data[..|data|-1]) + ByteBits(data[|data|-1])
  {
  }

  /** Bytes with the same bits are the same bytes. */
  lemma {:induction false} StreamInjective(a: seq<Byte>, b: seq<Byte>)
    requires Stream(a) == Stream(b)
    ensures a == b
  {
    hide Stream, ByteBits;
    assert |a| == |b|;
    if a != [] {
      var n := |a| - 1;
      var s := Stream(a);
      StreamLast(a);
      StreamLast(b);
      assert s[..8 * n] == Stream(a[..n]) == Stream(b[..n]);
      assert s[8 * n..] == ByteBits(a[n]) == ByteBits(b[n]);
      StreamInjective(a[..n], b[..n]);
      ByteBitsInjective(a[n], b[n]);
      assert a == a[..n] + [a[n]] && b == b[..n] + [b[n]];
    }
  }

  /** `ficlBitGet`. */
  method BitGet(bits: array<Byte>, index: nat) returns (value: bool)
    requires index < 8 * bits.Length
    ensures value == Stream(bits[..])[index]
  {
    StreamAt(bits[..], index);
    value := ByteBits(bits[index / 8])[index % 8];
  }

  /** `ficlBitSet`. */
  method BitSet(bits: array<Byte>, index: nat, value: bool)
    requires index < 8 * bits.Length
    modifies bits
    ensures Stream(bits[..]) == Stream(old(bits[..]))[index := value]
  {
    ghost var before := bits[..];
    bits[index / 8] := WithBit(bits[index / 8], index % 8, value);
    WithBitStream(before, index, value);
    assert bits[..] == before[index / 8 := WithBit(before[index / 8], index % 8, value)];
  }

  lemma WithBitStream(data: seq<Byte>, index: nat, value: bool)
    requires index < 8 * |data|
    ensures Stream(data[index / 8 := WithBit(data[index / 8], index % 8, value)]) == Stream(data)[index := value]
  {
    var after := data[index / 8 := WithBit(data[index / 8], index % 8, value)];
    forall k | 0 <= k < 8 * |data| ensures Stream(after)[k] == Stream(data)[index := value][k] {
      StreamAt(data, k);
      StreamAt(after, k);
    }
  }

  lemma SpliceMore(s: seq<bool>, at: nat, t: seq<bool>, b: bool)
    requires at + |t| < |s|
    ensures Splice(s, at, t + [b]) == Splice(s, at, t)[at + |t| := b]
  {
  }

  lemma SpliceNone(s: seq<bool>, at: nat)
    requires at <= |s|
    ensures Splice(s, at, []) == s
  {
  }

  /** `ficlBitGetString`: `count` bits, right-aligned in the first `align` bits of the destination. */
  method BitGetString(destination: array<Byte>, source: array<Byte>, offset: nat, count: nat, align: nat)
    requires count <= align <= 8 * destination.Length && offset + count <= 8 * source.Length
    requires destination != source
    modifies destination
    ensures Stream(destination[..]) ==
            Splice(Stream(old(destination[..])), align - count, Stream(source[..])[offset..offset + count])
  {
    hide Splice, Stream;
    var bit := align - count;
    var n := 0;
    ghost var start, from := Stream(destination[..]), Stream(source[..]);
    SpliceNone(start, align - count);
    assert from[offset..offset + n] == [];
    while n < count
      invariant n <= count && bit == align - count + n
      invariant Stream(source[..]) == from
      invariant Stream(destination[..]) == Splice(start, align - count, from[offset..offset + n])
    {
      var b := BitGet(source, offset + n);
      SpliceMore(start, align - count, from[offset..offset + n], b);
      assert from[offset..offset + n] + [b] == from[offset..offset + n + 1];
      BitSet(destination, bit, b);
      bit := bit + 1;
      n := n + 1;
    }
  }
}
