/** Wordlists as hash tables of linked words, and as plain lists of their words, the newest first. */
module HashChains {
  import opened Bits
  import opened Characters

  const NAME_LENGTH := 31

  /** A word header; addresses are numbers, and 0 is no address. The text is what is kept of the name. */
  datatype Word = Word(link: nat, hash: nat, smudged: bool, length: nat, name: nat, text: seq<Byte>)

  type Memory = map<nat, Word>

  /** One character of the hash, with the top four bits folded back in. */
  function HashStep(code: bv16, c: int): bv16
    requires 0 <= c < 256
  {
    var sum := (code << 4) + (c as bv16);
    var shift := sum & 0xf000;
    if shift != 0 then sum ^ (shift >> 8) ^ shift else sum
  }

  function HashFrom(s: seq<Byte>, code: bv16): bv16 {
    if s == [] || s[0] == 0 then code else HashFrom(s[1..], HashStep(code, ToLower(s[0])))
  }

  /** `ficlHashCode`, which starts from the length. */
  function HashCode(s: seq<Byte>): (h: nat)
    requires |s| < 256
    ensures h < 0x1_0000
  {
    if s == [] then 0 else HashFrom(s, |s| as bv16) as int
  }

  lemma {:induction false} HashIgnoresCase(s: seq<Byte>, t: seq<Byte>, code: bv16)
    requires Fold(s) == Fold(t)
    ensures HashFrom(s, code) == HashFrom(t, code)
  {
    hide HashStep;
    if s != [] {
      assert Fold(s)[0] == Fold(t)[0];
      assert Fold(s[1..]) == Fold(s)[1..] && Fold(t[1..]) == Fold(t)[1..];
      HashIgnoresCase(s[1..], t[1..], HashStep(code, ToLower(s[0])));
    }
  }

  /** Names that differ in case only have the same hash. */
  lemma SameNameSameHash(s: seq<Byte>, t: seq<Byte>)
    requires Fold(s) == Fold(t) && |s| < 256
    ensures |t| == |s| && HashCode(s) == HashCode(t)
  {
    hide HashFrom;
    assert |Fold(s)| == |Fold(t)|;
    if s != [] { HashIgnoresCase(s, t, |s| as bv16); }
  }

  /** The codes of `i` and, with bits folded back in, of `dup` in any case; each starts from the length. */
  lemma HashesOfWords()
    ensures HashFrom(['i' as int], 1) == 0x79
    ensures HashFrom(['D' as int, 'u' as int, 'P' as int], 3) == 0x0b50
  {
    var up: seq<Byte> := ['u' as int, 'P' as int];
    var dup: seq<Byte> := ['D' as int] + up;
    assert dup[1..] == up && up[1..] == ['P' as int];
    assert HashStep(3, 'd' as int) == 0x94 && HashStep(0x94, 'u' as int) == 0x9b5 && HashStep(0x9b5, 'p' as int) == 0x0b50;
    assert HashFrom(['P' as int], 0x9b5) == 0x0b50;
    assert HashFrom(up, 0x94) == 0x0b50;
    assert dup == ['D' as int, 'u' as int, 'P' as int];
    assert HashStep(1, 'i' as int) == 0x79;
  }

  /** What a header keeps of a name, and what a search compares of it. */
  function Kept(name: seq<Byte>): seq<Byte> {
    if |name| > NAME_LENGTH then name[..NAME_LENGTH] else name
  }

  /** The word a lookup means: the lengths are the same, and so are the characters that are kept, up to their case. */
  predicate Named(w: Word, name: seq<Byte>) {
    w.length == |name| && Fold(w.text) == Fold(Kept(name))
  }

  /** What a header keeps of its name, and its hash. */
  predicate WellNamed(w: Word) {
    && w.length < 256 && |w.text| == (if w.length > NAME_LENGTH then NAME_LENGTH else w.length)
    && (w.length <= NAME_LENGTH ==> w.hash == HashCode(w.text))
  }

  function BucketOf(hash: nat, size: nat): (i: nat)
    requires size > 0
    ensures i < size
  {
    if size == 1 then 0 else hash % size
  }

  /** Addresses of words, the newest first. */
  datatype Words = Empty | Newest(address: nat, older: Words)

  /** Each address is below the one before it, and all are below the bound; 0 is none of them. */
  predicate Descending(list: Words, bound: nat) {
    match list
    case Empty => true
    case Newest(a, older) => 0 < a < bound && Descending(older, a)
  }

  predicate Known(m: Memory, list: Words) {
    match list
    case Empty => true
    case Newest(a, older) => a in m && WellNamed(m[a]) && Known(m, older)
  }

  predicate Has(list: Words, a: nat) {
    match list
    case Empty => false
    case Newest(b, older) => a == b || Has(older, a)
  }

  /** The words of one bucket. */
  function Bucket(m: Memory, list: Words, size: nat, i: nat): Words
    requires Known(m, list) && size > 0
  {
    match list
    case Empty => Empty
    case Newest(a, older) =>
      var rest := Bucket(m, older, size, i);
      if BucketOf(m[a].hash, size) == i then Newest(a, rest) else rest
  }

  /** The words below an address. */
  function Keep(list: Words, where: nat): Words {
    match list
    case Empty => Empty
    case Newest(a, older) => if a < where then Newest(a, Keep(older, where)) else Keep(older, where)
  }

  /** Exactly the words below the address are kept. */
  lemma {:induction false} KeepHas(list: Words, where: nat, a: nat)
    ensures Has(Keep(list, where), a) <==> Has(list, a) && a < where
  {
    match list
    case Empty =>
    case Newest(_, older) => KeepHas(older, where, a);
  }

  /** The links from `p` on lead through exactly the words of the list. */
  predicate Chained(m: Memory, p: nat, list: Words)
    decreases list
  {
    match list
    case Empty => p == 0
    case Newest(a, older) => p == a && a in m && Chained(m, m[a].link, older)
  }

  /** The newest word of the list with the name, or 0. */
  function First(m: Memory, list: Words, name: seq<Byte>): nat
    requires Known(m, list)
  {
    match list
    case Empty => 0
    case Newest(a, older) => if Named(m[a], name) then a else First(m, older, name)
  }

  /** The word found has the name, and is the newest, with the highest address, that has it. */
  lemma {:induction false} FirstIsNewest(m: Memory, list: Words, bound: nat, name: seq<Byte>, b: nat)
    requires Known(m, list) && Descending(list, bound) && Has(list, b) && b in m
    ensures var a := First(m, list, name);
            && a < bound && (a != 0 ==> Has(list, a) && a in m && Named(m[a], name))
            && (Named(m[b], name) ==> a >= b)
  {
    hide Named, WellNamed;
    match list
    case Empty =>
    case Newest(a, older) =>
      if a != b {
        FirstIsNewest(m, older, a, name, b);
      } else {
        FirstBelow(m, older, a, name);
      }
  }

  lemma {:induction false} FirstBelow(m: Memory, list: Words, bound: nat, name: seq<Byte>)
    requires Known(m, list) && Descending(list, bound)
    ensures var a := First(m, list, name);
            a != 0 ==> a < bound && Has(list, a) && a in m && Named(m[a], name)
  {
    hide Named, WellNamed;
    match list
    case Empty =>
    case Newest(a, older) => FirstBelow(m, older, a, name);
  }

  /** Whether the search for a name looks at the bucket of a word. */
  predicate Beside(w: Word, name: seq<Byte>, size: nat)
    requires size > 0 && |name| < 256
  {
    BucketOf(w.hash, size) == BucketOf(HashCode(name), size)
  }

  /** What is found in a bucket: a word of the bucket with the name, and the word that the whole list is searched for
      if that is in the bucket. */
  lemma {:induction false} FirstBeside(m: Memory, list: Words, size: nat, name: seq<Byte>, bound: nat)
    requires Known(m, list) && Descending(list, bound) && size > 0 && |name| < 256
    ensures var b := Bucket(m, list, size, BucketOf(HashCode(name), size));
            && Known(m, b)
            && (First(m, list, name) == 0 ==> First(m, b, name) == 0)
            && (First(m, list, name) != 0 && First(m, list, name) in m && Beside(m[First(m, list, name)], name, size)
                ==> First(m, b, name) == First(m, list, name))
            && (First(m, b, name) != 0 ==>
                  Has(list, First(m, b, name)) && First(m, b, name) in m && Beside(m[First(m, b, name)], name, size))
  {
    hide HashCode, Fold, BucketOf, Named, WellNamed;
    match list
    case Empty =>
    case Newest(a, older) => FirstBeside(m, older, size, name, a);
  }

  /** Searching one bucket is searching the whole list, for names that are kept whole. */
  lemma {:induction false} FirstInBucket(m: Memory, list: Words, size: nat, name: seq<Byte>)
    requires Known(m, list) && size > 0 && |name| <= 31
    ensures var b := Bucket(m, list, size, BucketOf(HashCode(name), size));
            Known(m, b) && First(m, b, name) == First(m, list, name)
  {
    hide HashCode, Fold;
    match list
    case Empty =>
    case Newest(a, older) =>
      if Named(m[a], name) { SameNameSameHash(m[a].text, name); }
      FirstInBucket(m, older, size, name);
  }

  lemma {:induction false} KeepAll(list: Words, bound: nat, where: nat)
    requires Descending(list, bound) && bound <= where
    ensures Keep(list, where) == list
  {
    match list
    case Empty =>
    case Newest(a, older) => KeepAll(older, a, where);
  }

  lemma {:induction false} KeepBucket(m: Memory, list: Words, size: nat, i: nat, where: nat)
    requires Known(m, list) && size > 0
    ensures Known(m, Keep(list, where)) && Bucket(m, Keep(list, where), size, i) == Keep(Bucket(m, list, size, i), where)
  {
    hide BucketOf;
    match list
    case Empty =>
    case Newest(_, older) => KeepBucket(m, older, size, i, where);
  }

  lemma {:induction false} Raise(list: Words, bound: nat, higher: nat)
    requires Descending(list, bound) && bound <= higher
    ensures Descending(list, higher)
  {
  }

  lemma {:induction false} BucketDescending(m: Memory, list: Words, size: nat, i: nat, bound: nat)
    requires Known(m, list) && size > 0 && Descending(list, bound)
    ensures Descending(Bucket(m, list, size, i), bound)
  {
    match list
    case Empty =>
    case Newest(a, older) =>
      BucketDescending(m, older, size, i, a);
      Raise(Bucket(m, older, size, i), a, bound);
  }

  lemma {:induction false} KeepDescending(list: Words, bound: nat, where: nat)
    requires Descending(list, bound)
    ensures Descending(Keep(list, where), bound) && Descending(Keep(list, where), where)
  {
    match list
    case Empty =>
    case Newest(a, older) =>
      KeepDescending(older, a, where);
      Raise(Keep(older, where), a, bound);
  }

  /** Storing at an address that no word of the list has changes no chain and no bucket. */
  lemma {:induction false} ChainedElsewhere(m: Memory, p: nat, list: Words, a: nat, w: Word)
    requires Chained(m, p, list) && !Has(list, a)
    ensures Chained(m[a := w], p, list)
    decreases list
  {
    match list
    case Empty =>
    case Newest(_, older) => ChainedElsewhere(m, m[p].link, older, a, w);
  }

  lemma {:induction false} BucketElsewhere(m: Memory, list: Words, size: nat, i: nat, a: nat, w: Word)
    requires Known(m, list) && size > 0 && !Has(list, a)
    ensures Known(m[a := w], list) && Bucket(m[a := w], list, size, i) == Bucket(m, list, size, i)
  {
    hide WellNamed;
    match list
    case Empty =>
    case Newest(_, older) => BucketElsewhere(m, older, size, i, a, w);
  }

  lemma {:induction false} FirstElsewhere(m: Memory, list: Words, name: seq<Byte>, a: nat, w: Word)
    requires Known(m, list) && !Has(list, a)
    ensures Known(m[a := w], list) && First(m[a := w], list, name) == First(m, list, name)
  {
    hide WellNamed, Named;
    match list
    case Empty =>
    case Newest(_, older) => FirstElsewhere(m, older, name, a, w);
  }

  lemma {:induction false} BucketHas(m: Memory, list: Words, size: nat, i: nat, a: nat)
    requires Known(m, list) && size > 0 && !Has(list, a)
    ensures !Has(Bucket(m, list, size, i), a)
  {
    match list
    case Empty =>
    case Newest(_, older) => BucketHas(m, older, size, i, a);
  }

  lemma {:induction false} NotAbove(list: Words, bound: nat, a: nat)
    requires Descending(list, bound) && (a >= bound || a == 0)
    ensures !Has(list, a)
  {
    match list
    case Empty =>
    case Newest(b, older) => NotAbove(older, b, a);
  }

  /** The buckets of a table hold the words of the list. */
  ghost predicate Represents(m: Memory, table: seq<nat>, list: Words) {
    && |table| > 0 && Known(m, list)
    && forall i :: 0 <= i < |table| ==> Chained(m, table[i], Bucket(m, list, |table|, i))
  }

  lemma RepresentsElsewhere(m: Memory, table: seq<nat>, list: Words, a: nat, w: Word)
    requires Represents(m, table, list) && !Has(list, a)
    ensures Represents(m[a := w], table, list)
  {
    hide Chained, Bucket, Known, Has;
    BucketElsewhere(m, list, |table|, 0, a, w);
    forall i | 0 <= i < |table| ensures Chained(m[a := w], table[i], Bucket(m[a := w], list, |table|, i)) {
      BucketElsewhere(m, list, |table|, i, a, w);
      BucketHas(m, list, |table|, i, a);
      ChainedElsewhere(m, table[i], Bucket(m, list, |table|, i), a, w);
    }
  }

  /** A flag is no part of a chain. */
  lemma {:induction false} FlagAlone(m: Memory, list: Words, size: nat, i: nat, a: nat, flag: bool)
    requires a in m && Known(m, list) && size > 0
    ensures var m' := m[a := m[a].(smudged := flag)];
            Known(m', list) && Bucket(m', list, size, i) == Bucket(m, list, size, i)
    decreases list
  {
    match list
    case Empty =>
    case Newest(_, older) => FlagAlone(m, older, size, i, a, flag);
  }

  lemma {:induction false} FlagNoLink(m: Memory, p: nat, chain: Words, a: nat, flag: bool)
    requires a in m && Chained(m, p, chain)
    ensures Chained(m[a := m[a].(smudged := flag)], p, chain)
    decreases chain
  {
    match chain
    case Empty =>
    case Newest(_, older) => FlagNoLink(m, m[p].link, older, a, flag);
  }

  lemma RepresentsFlag(m: Memory, table: seq<nat>, list: Words, a: nat, flag: bool)
    requires a in m && Represents(m, table, list)
    ensures Represents(m[a := m[a].(smudged := flag)], table, list)
  {
    hide Chained, Bucket, Known;
    var m' := m[a := m[a].(smudged := flag)];
    FlagAlone(m, list, |table|, 0, a, flag);
    forall i | 0 <= i < |table| ensures Chained(m', table[i], Bucket(m', list, |table|, i)) {
      FlagAlone(m, list, |table|, i, a, flag);
      FlagNoLink(m, table[i], Bucket(m, list, |table|, i), a, flag);
    }
  }

  /** Linking a new word in front of its bucket. */
  lemma InsertRepresents(m: Memory, table: seq<nat>, list: Words, word: nat)
    requires Represents(m, table, list) && !Has(list, word) && word in m && WellNamed(m[word])
    ensures var i := BucketOf(m[word].hash, |table|);
            Represents(m[word := m[word].(link := table[i])], table[i := word], Newest(word, list))
  {
    hide Has, BucketOf, WellNamed;
    var i := BucketOf(m[word].hash, |table|);
    var w := m[word].(link := table[i]);
    StillNamed(m[word], table[i]);
    RepresentsElsewhere(m, table, list, word, w);
  }

  lemma StillNamed(w: Word, link: nat)
    requires WellNamed(w)
    ensures WellNamed(w.(link := link))
  {
  }

  /** A table whose every bucket has kept what is below an address represents all that is below it. */
  lemma KeepRepresents(m: Memory, table: seq<nat>, kept: seq<nat>, list: Words, where: nat)
    requires Represents(m, table, list) && |kept| == |table|
    requires forall i :: 0 <= i < |table| ==> Chained(m, kept[i], Keep(Bucket(m, list, |table|, i), where))
    ensures Represents(m, kept, Keep(list, where))
  {
    hide Chained, Bucket, Known, Keep;
    KeepBucket(m, list, |table|, 0, where);
    forall i | 0 <= i < |table| ensures Chained(m, kept[i], Bucket(m, Keep(list, where), |table|, i)) {
      KeepBucket(m, list, |table|, i, where);
    }
  }

  /** Forgetting the oldest of the newer words, whose memory starts at `where`, brings the older list back. */
  lemma {:induction false} ForgetUndoes(newer: Words, older: Words, where: nat, bound: nat)
    requires Descending(newer, bound) && Descending(older, where) && EndsWith(newer, older, where)
    ensures Keep(newer, where) == older
    decreases newer
  {
    if newer == older {
      KeepAll(older, where, where);
    } else {
      ForgetUndoes(newer.older, older, where, newer.address);
    }
  }

  /** Words at or above `where` have been put in front of the older ones. */
  predicate EndsWith(newer: Words, older: Words, where: nat) {
    newer == older || (newer.Newest? && newer.address >= where && EndsWith(newer.older, older, where))
  }
}
