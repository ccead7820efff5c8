/** Numbers in host memory, and `ficlNetworkUnsigned32`, which works whatever the order of the host. */
module NetworkOrder {
  import opened Bits

  datatype Host = LittleEndian | BigEndian

  type Unsigned16 = x: int | 0 <= x < 0x1_0000
  type Unsigned32 = x: int | 0 <= x < 0x1_0000_0000

  /** Two digits to the base 256. */
  function Join(high: int, low: int): int {
    high * 0x100 + low
  }

  lemma JoinParts(high: Byte, low: Byte)
    ensures 0 <= Join(high, low) < 0x1_0000 && Join(high, low) / 0x100 == high && Join(high, low) % 0x100 == low
  {
  }

  /** The bytes of a 16-bit number in memory. */
  function Image16(host: Host, x: Unsigned16): (m: seq<Byte>)
    ensures |m| == 2
  {
    if host.BigEndian? then [x / 0x100, x % 0x100] else [x % 0x100, x / 0x100]
  }

  function From16(host: Host, m: seq<Byte>): Unsigned16
    requires |m| == 2
  {
    if host.BigEndian? then Join(m[0], m[1]) else Join(m[1], m[0])
  }

  lemma ImageFrom16(host: Host, m: seq<Byte>)
    requires |m| == 2
    ensures Image16(host, From16(host, m)) == m
  {
    JoinParts(m[0], m[1]);
    JoinParts(m[1], m[0]);
  }

  lemma From16Image(host: Host, n: Unsigned16)
    ensures From16(host, Image16(host, n)) == n
  {
    JoinParts(n / 0x100, n % 0x100);
  }

  /** The bytes of a 32-bit number in memory: those of its halves. */
  function Image(host: Host, x: Unsigned32): (m: seq<Byte>)
    ensures |m| == 4
  {
    var high, low := x / 0x1_0000, x % 0x1_0000;
    if host.BigEndian? then Image16(host, high) + Image16(host, low) else Image16(host, low) + Image16(host, high)
  }

  /** The number whose halves are in memory, in the order of the host. */
  function FromHalves(host: Host, first: int, second: int): int {
    if host.BigEndian? then first * 0x1_0000 + second else second * 0x1_0000 + first
  }

  function FromImage(host: Host, m: seq<Byte>): Unsigned32
    requires |m| == 4
  {
    FromHalves(host, From16(host, m[..2]), From16(host, m[2..]))
  }

  lemma ImageFrom(host: Host, m: seq<Byte>)
    requires |m| == 4
    ensures Image(host, FromImage(host, m)) == m
  {
    HalvesImage(host, From16(host, m[..2]), From16(host, m[2..]));
    ImageFrom16(host, m[..2]);
    ImageFrom16(host, m[2..]);
    assert m[..2] + m[2..] == m;
  }

  lemma HalvesImage(host: Host, first: Unsigned16, second: Unsigned16)
    ensures 0 <= FromHalves(host, first, second) < 0x1_0000_0000
    ensures Image(host, FromHalves(host, first, second)) == Image16(host, first) + Image16(host, second)
  {
    var x := FromHalves(host, first, second);
    if host.BigEndian? { assert x / 0x1_0000 == first && x % 0x1_0000 == second; }
    else { assert x / 0x1_0000 == second && x % 0x1_0000 == first; }
  }

  /** `ficlNetworkUnsigned16`: the first byte in memory becomes the high one. */
  function NetworkUnsigned16(host: Host, number: Unsigned16): Unsigned16 {
    var pointer := Image16(host, number);
    Join(pointer[0], pointer[1])
  }

  /** The halves of a number in memory, as 16-bit numbers. */
  function Half(host: Host, number: Unsigned32, second: bool): Unsigned16 {
    if second then From16(host, Image(host, number)[2..]) else From16(host, Image(host, number)[..2])
  }

  /** `ficlNetworkUnsigned32`: the same on the two halves in memory. */
  function NetworkUnsigned32(host: Host, number: Unsigned32): Unsigned32 {
    Shifted(NetworkUnsigned16(host, Half(host, number, false)), NetworkUnsigned16(host, Half(host, number, true)))
  }

  function Shifted(high: int, low: int): int {
    high * 0x1_0000 + low
  }

  /** The number four bytes spell, the most significant first. */
  function Spelled(m: seq<Byte>): int
    requires |m| == 4
  {
    Shifted(Join(m[0], m[1]), Join(m[2], m[3]))
  }

  /** The bytes of a 16-bit number, the most significant first. */
  function Octets16(x: Unsigned16): (m: seq<Byte>)
    ensures |m| == 2
  {
    [x / 0x100, x % 0x100]
  }

  /** The bytes of a 32-bit number, the most significant first. */
  function Octets(x: Unsigned32): (m: seq<Byte>)
    ensures |m| == 4
  {
    Octets16(x / 0x1_0000) + Octets16(x % 0x1_0000)
  }

  lemma OctetsSpell(x: Unsigned32)
    ensures Spelled(Octets(x)) == x
  {
    hide Octets16, Join;
    Octets16Join(x / 0x1_0000);
    Octets16Join(x % 0x1_0000);
  }

  lemma Octets16Join(x: Unsigned16)
    ensures Join(Octets16(x)[0], Octets16(x)[1]) == x
  {
  }

  lemma NetworkSpells(host: Host, number: Unsigned32)
    ensures NetworkUnsigned32(host, number) == Spelled(Image(host, number))
  {
    var m := Image(host, number);
    ImageFrom16(host, m[..2]);
    ImageFrom16(host, m[2..]);
  }

  lemma NetworkReverses16(host: Host, x: Unsigned16)
    ensures Image16(host, NetworkUnsigned16(host, x)) == Octets16(x)
  {
    JoinParts(x / 0x100, x % 0x100);
    JoinParts(x % 0x100, x / 0x100);
  }

  /** The first half in memory is the high one on big-endian hosts only. */
  lemma Halves(host: Host, x: Unsigned32)
    ensures Half(host, x, false) == if host.BigEndian? then x / 0x1_0000 else x % 0x1_0000
    ensures Half(host, x, true) == if host.BigEndian? then x % 0x1_0000 else x / 0x1_0000
  {
    hide Image16, From16;
    var high, low := x / 0x1_0000, x % 0x1_0000;
    From16Image(host, high);
    From16Image(host, low);
    var m := Image(host, x);
    assert m[..2] == Image16(host, if host.BigEndian? then high else low);
    assert m[2..] == Image16(host, if host.BigEndian? then low else high);
  }

  /** On every host the result in memory is the bytes of the number, the most significant first. */
  lemma NetworkReverses(host: Host, number: Unsigned32)
    ensures Image(host, NetworkUnsigned32(host, number)) == Octets(number)
  {
    hide Image16, NetworkUnsigned16, Octets16, Half;
    Halves(host, number);
    var first, second := Half(host, number, false), Half(host, number, true);
    NetworkReverses16(host, first);
    NetworkReverses16(host, second);
    var a, b := NetworkUnsigned16(host, first), NetworkUnsigned16(host, second);
    if host.BigEndian? { HalvesImage(host, a, b); } else { HalvesImage(host, b, a); }
  }

  lemma StreamFour(m: seq<Byte>)
    requires |m| == 4
    ensures Stream(m) == NumBits(Spelled(m), 32) && BitsNum(Stream(m)) == Spelled(m)
  {
    Pow2Values();
    StreamTwo(m[..2]);
    StreamTwo(m[2..]);
    assert m == m[..2] + m[2..];
    StreamConcat(m[..2], m[2..]);
    JoinParts(m[0], m[1]);
    JoinParts(m[2], m[3]);
    NumBitsFields(Join(m[0], m[1]), Join(m[2], m[3]), 16, 16);
    BitsNumBits(Spelled(m), 32);
  }

  lemma StreamTwo(m: seq<Byte>)
    requires |m| == 2
    ensures Stream(m) == NumBits(Join(m[0], m[1]), 16)
  {
    Pow2Values();
    hide NumBits, Pow2;
    assert m == [m[0]] + [m[1]];
    StreamOne(m[0]);
    StreamOne(m[1]);
    StreamConcat([m[0]], [m[1]]);
    NumBitsFields(m[0], m[1], 8, 8);
  }

  lemma StreamOne(b: Byte)
    ensures Stream([b]) == NumBits(b, 8)
  {
    assert [b][..0] == [];
  }

  /** On every host a number in network order has its most significant bit first in memory. */
  lemma NetworkOrderInMemory(host: Host, x: Unsigned32)
    ensures Stream(Image(host, NetworkUnsigned32(host, x))) == NumBits(x, 32)
  {
    NetworkReverses(host, x);
    OctetsSpell(x);
    StreamFour(Octets(x));
  }

  /** Reading memory in network order spells the number most significant bit first. */
  lemma NetworkOrderFromMemory(host: Host, m: seq<Byte>)
    requires |m| == 4
    ensures NetworkUnsigned32(host, FromImage(host, m)) == BitsNum(Stream(m))
  {
    NetworkSpells(host, FromImage(host, m));
    ImageFrom(host, m);
    StreamFour(m);
  }
}
