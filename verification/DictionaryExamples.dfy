/** Dictionaries in which a search by buckets finds another word than a scan would, and FORGET leaves a word behind. */
module DictionaryExamples {
  import opened Wrappers
  import opened Bits
  import opened Characters
  import opened HashChains
  import opened Dictionary

  /** The hash of a name without NUL characters goes on from that of its first characters. */
  lemma {:induction false} HashFromLast(s: seq<Byte>, c: Byte, code: bv16)
    requires 0 !in s && c != 0
    ensures HashFrom(s + [c], code) == HashStep(HashFrom(s, code), ToLower(c))
  {
    hide HashStep;
    if s == [] {
      assert (s + [c])[1..] == [];
    } else {
      assert (s + [c])[1..] == s[1..] + [c];
      HashFromLast(s[1..], c, HashStep(code, ToLower(s[0])));
    }
  }

  /** The lowest bit of the hash is that of the last character, if this is not too large to fold back. */
  lemma LowestBit(code: bv16)
    ensures HashStep(code, 98) & 1 == 0 && HashStep(code, 99) & 1 == 1
  {
  }

  lemma EvenAndOdd(n: nat)
    requires n < 0x8000
    ensures ((2 * n) as bv16) & 1 == 0 && ((2 * n + 1) as bv16) & 1 == 1
  {
  }

  lemma ParityOf(x: bv16, i: int)
    requires 0 <= i < 0x1_0000 && i as bv16 == x
    ensures i % 2 == if x & 1 == 0 then 0 else 1
  {
    var n := i / 2;
    EvenAndOdd(n);
    if i % 2 == 0 { assert i == 2 * n; } else { assert i == 2 * n + 1; }
  }

  lemma Parity(x: bv16)
    ensures (x as int) % 2 == if x & 1 == 0 then 0 else 1
  {
    ParityOf(x, x as int);
  }

  /** A name of 32 characters. */
  function LongName(last: Byte): (name: seq<Byte>)
    ensures |name| == 32 && Kept(name) == seq(NAME_LENGTH, _ => 'a' as int)
  {
    seq(NAME_LENGTH, _ => 'a' as int) + [last]
  }

  lemma LongHashes()
    ensures HashCode(LongName(98)) % 2 == 0 && HashCode(LongName(99)) % 2 == 1 && 0 !in LongName(98) && 0 !in LongName(99)
  {
    hide HashStep, HashFrom;
    var s := seq(NAME_LENGTH, _ => 'a' as int);
    HashFromLast(s, 98, 32 as bv16);
    HashFromLast(s, 99, 32 as bv16);
    LowestBit(HashFrom(s, 32 as bv16));
    Parity(HashFrom(LongName(98), 32 as bv16));
    Parity(HashFrom(LongName(99), 32 as bv16));
  }

  /** An empty dictionary, as its constructor leaves it. */
  ghost predicate New(d: Dictionary, bucketCount: nat)
    reads d
  {
    && d.Valid() && d.lists == [Empty] && d.order == [0] && d.compilation == 0
    && |d.hashes| == 1 && |d.hashes[0].table| == bucketCount && d.hashes[0].link == None
  }

  /** Two names that differ in their 32nd character only, in a wordlist of two buckets: the older one is found, though the
      newer one is the first to have its length and its first 31 characters. */
  method LongNames(d: Dictionary) returns (older: nat, newer: nat, found: nat)
    requires New(d, 2)
    modifies d
    ensures d.Valid() && newer != older && found == older
    ensures d.SearchOrder(|d.order|, LongName(98)) == newer
  {
    hide Represents, Descending, Apart, HashCode;
    LongHashes();
    older := d.AppendWord(LongName(98), false);
    newer := d.AppendWord(LongName(99), false);
    found := d.Lookup(LongName(98));
    OlderInBucket(d, older, newer);
  }

  lemma OlderInBucket(d: Dictionary, older: nat, newer: nat)
    requires d.Valid() && d.order == [0] && d.lists == [Newest(newer, Newest(older, Empty))]
    requires |d.hashes[0].table| == 2 && d.hashes[0].link == None && {older, newer} <= d.words.Keys && older != 0
    requires d.words[older].hash == HashCode(LongName(98)) && d.words[newer].hash == HashCode(LongName(99))
    requires d.words[older].length == 32 && d.words[older].text == Kept(LongName(98))
    ensures d.BucketOrder(1, LongName(98)) == older
  {
    hide Represents, Apart, Descending, HashCode;
    LongHashes();
    TableNotEmpty(d.words, d.hashes[0].table, d.lists[0]);
    var name, rest := LongName(98), Newest(older, Empty);
    assert Bucket(d.words, rest, 2, 0) == rest && Bucket(d.words, d.lists[0], 2, 0) == rest;
    assert Named(d.words[older], name);
    assert First(d.words, rest, name) == older;
    assert d.BucketFirst(0, name) == older;
    assert d.BucketSearch(0, LongName(98)) == older;
  }

  /** Two wordlists, a word in the older one and a later word in the other: when the former is forgotten, the latter stays
      linked, though its memory is given back. */
  method ForgetBelow(d: Dictionary, first: seq<Byte>, second: seq<Byte>) returns (word: nat, kept: nat)
    requires New(d, 1) && 0 < |first| < 256 && 0 < |second| < 256
    modifies d
    ensures !d.Valid() && d.lists == [Empty, Newest(kept, Empty)] && d.here <= word < kept
    ensures forall k :: 0 <= k < |d.hashes| ==> d.hashes[k].End() <= d.here
  {
    hide Represents, Apart, HashCode, Kept, WellNamed;
    var h := d.CreateWordlist(1);
    word := d.AppendWord(first, false);
    d.SetCurrent(h);
    kept := d.AppendWord(second, false);
    d.SetCurrent(0);
    d.Forget(word);
  }
}
