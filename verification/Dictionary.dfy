/** The dictionary: wordlists, the search order, definitions in progress, and FORGET. */
module Dictionary {
  import opened Wrappers
  import opened Bits
  import opened Characters
  import opened HashChains

  const HEADER_SIZE := 20

  /** The link, the name and the number of buckets of a wordlist. */
  const HASH_SIZE := 12

  /** A wordlist in dictionary memory: a link to its parent, and the heads of its buckets. */
  datatype Hash = Hash(address: nat, link: Option<nat>, table: seq<nat>) {
    function End(): nat {
      address + HASH_SIZE + 4 * |table|
    }
  }

  /** `ficlAlignPointer` to cells of four bytes. */
  function Align(p: nat): (a: nat)
    ensures p <= a < p + 4 && a % 4 == 0
  {
    (p + 3) / 4 * 4
  }

  /** Equal up to case, or up to a NUL character that both have. */
  predicate CaseEqual(s: seq<Byte>, t: seq<Byte>)
    requires |s| == |t|
  {
    s == [] || (ToLower(s[0]) == ToLower(t[0]) && (s[0] == 0 || CaseEqual(s[1..], t[1..])))
  }

  lemma {:induction false} CaseEqualFolds(s: seq<Byte>, t: seq<Byte>)
    requires |s| == |t| && 0 !in s
    ensures CaseEqual(s, t) <==> Fold(s) == Fold(t)
  {
    if s != [] {
      CaseEqualFolds(s[1..], t[1..]);
      assert Fold(s) == [ToLower(s[0])] + Fold(s[1..]) && Fold(t) == [ToLower(t[0])] + Fold(t[1..]);
      assert Fold(s) == Fold(t) ==> Fold(s)[0] == Fold(t)[0] && Fold(s)[1..] == Fold(t)[1..];
    }
  }

  /** `ficlStrincmp`: the difference of the first two characters that differ, up to case; 0 if there are none, or not before
      a NUL character. */
  method Strincmp(cp1: seq<Byte>, cp2: seq<Byte>, count: nat) returns (r: int)
    requires count <= |cp1| && count <= |cp2|
    ensures r == 0 <==> CaseEqual(cp1[..count], cp2[..count])
    ensures r != 0 ==> exists k :: FirstDifference(cp1[..count], cp2[..count], k)
                                   && r == ToLower(cp1[k]) - ToLower(cp2[k])
  {
    var i := 0;
    ghost var s, t := cp1[..count], cp2[..count];
    assert s[0..] == s && t[0..] == t;
    while i < count
      invariant 0 <= i <= count && CaseEqual(s[i..], t[i..]) == CaseEqual(s, t)
      invariant forall j :: 0 <= j < i ==> ToLower(s[j]) == ToLower(t[j]) && s[j] != 0
    {
      r := ToLower(cp1[i]) - ToLower(cp2[i]);
      assert s[i..][0] == cp1[i] && t[i..][0] == cp2[i];
      if r != 0 {
        assert FirstDifference(s, t, i);
        return r;
      }
      if cp1[i] == 0 { return 0; }
      assert s[i..][1..] == s[i + 1..] && t[i..][1..] == t[i + 1..];
      i := i + 1;
    }
    r := 0;
  }

  /** Equal up to case before `k`, with no NUL character, and different there. */
  predicate FirstDifference(s: seq<Byte>, t: seq<Byte>, k: int) {
    && 0 <= k < |s| && k < |t| && ToLower(s[k]) != ToLower(t[k])
    && forall j :: 0 <= j < k ==> ToLower(s[j]) == ToLower(t[j]) && s[j] != 0
  }

  /** `ficlHashCode` */
  method ComputeHash(s: seq<Byte>) returns (code: bv16)
    requires |s| < 256
    ensures code as int == HashCode(s)
  {
    hide HashStep;
    if s == [] { return 0; }
    code := |s| as bv16;
    var i := 0;
    assert s[0..] == s;
    while i < |s| && s[i] != 0
      invariant 0 <= i <= |s| && HashFrom(s[i..], code) == HashFrom(s, |s| as bv16)
    {
      assert s[i..][1..] == s[i + 1..];
      code := HashStep(code, ToLower(s[i]));
      i := i + 1;
    }
  }

  /** No word is in two wordlists. */
  ghost predicate Apart(lists: seq<Words>) {
    forall h, k, a :: 0 <= h < |lists| && 0 <= k < |lists| && Has(lists[h], a) && Has(lists[k], a) ==> h == k
  }

  lemma ApartInsert(lists: seq<Words>, h: nat, word: nat)
    requires Apart(lists) && h < |lists| && forall k :: 0 <= k < |lists| ==> !Has(lists[k], word)
    ensures Apart(lists[h := Newest(word, lists[h])])
  {
    var r := lists[h := Newest(word, lists[h])];
    forall i, k, a | 0 <= i < |r| && 0 <= k < |r| && Has(r[i], a) && Has(r[k], a) ensures i == k {
      if a != word { assert Has(lists[i], a) && Has(lists[k], a); }
    }
  }

  lemma ApartKeep(lists: seq<Words>, h: nat, where: nat)
    requires Apart(lists) && h < |lists|
    ensures Apart(lists[h := Keep(lists[h], where)])
  {
    var r := lists[h := Keep(lists[h], where)];
    forall i, k, a | 0 <= i < |r| && 0 <= k < |r| && Has(r[i], a) && Has(r[k], a) ensures i == k {
      KeepHas(lists[h], where, a);
      assert Has(lists[i], a) && Has(lists[k], a);
    }
  }

  lemma ApartNew(lists: seq<Words>)
    requires Apart(lists)
    ensures Apart(lists + [Empty])
  {
    var r := lists + [Empty];
    forall i, k, a | 0 <= i < |r| && 0 <= k < |r| && Has(r[i], a) && Has(r[k], a) ensures i == k {
      assert Has(lists[i], a) && Has(lists[k], a);
    }
  }

  class Dictionary {
    var words: Memory
    var here: nat
    var smudge: nat
    var hashes: seq<Hash>
    var compilation: nat
    var order: seq<nat>

    /** The words of each wordlist. */
    ghost var lists: seq<Words>

    ghost predicate Valid()
      reads this
    {
      && here > 0 && |lists| == |hashes| && compilation < |hashes| && (forall i :: 0 <= i < |order| ==> order[i] < |hashes|)
      && (forall h :: 0 <= h < |hashes| ==>
            Represents(words, hashes[h].table, lists[h]) && Descending(lists[h], here))
      && (forall h :: 0 <= h < |hashes| ==> hashes[h].link.Some? ==> hashes[h].link.value < h)
      && (forall h :: 0 <= h < |hashes| ==> hashes[h].End() <= here)
      && Apart(lists)
    }

    /** Where the name of the latest header starts, if it is smudged, all that is linked and all wordlists are below. */
    ghost predicate Reclaimable()
      reads this
    {
      && smudge in words
      && (words[smudge].smudged ==>
            && 0 < words[smudge].name <= here
            && (forall h :: 0 <= h < |lists| ==> Descending(lists[h], words[smudge].name))
            && (forall h :: 0 <= h < |hashes| ==> hashes[h].End() <= words[smudge].name))
    }

    /** A definition is in progress: it is above all words, and not linked. */
    ghost predicate Open()
      reads this
    {
      0 < smudge < here && Reclaimable() && words[smudge].smudged && WellNamed(words[smudge]) && words[smudge].name <= smudge
    }

    /** `ficlDictionaryEmpty`: an empty dictionary with one wordlist. */
    constructor (base: nat, bucketCount: nat)
      requires base > 0 && bucketCount > 0
      ensures Valid() && lists == [Empty] && order == [0] && compilation == 0
      ensures |hashes| == 1 && |hashes[0].table| == bucketCount && hashes[0].link == None
    {
      var hash := Align(base);
      words, here, smudge := map[], hash + HASH_SIZE + 4 * bucketCount, 0;
      var table := seq(bucketCount, _ => 0);
      hashes := [Hash(hash, None, table)];
      compilation, order := 0, [0];
      lists := [Empty];
    }

    /** `ficlDictionaryCreateWordlist` */
    method CreateWordlist(bucketCount: nat) returns (h: nat)
      requires Valid() && bucketCount > 0
      modifies this`hashes, this`here, this`lists
      ensures Valid() && h == old(|hashes|) && lists == old(lists) + [Empty] && here > old(here)
      ensures |hashes| == h + 1 && hashes[..h] == old(hashes) && hashes[h].link == None && |hashes[h].table| == bucketCount
    {
      hide Represents, Descending, Apart;
      ghost var was := here;
      var hash := Align(here);
      here := hash + HASH_SIZE + 4 * bucketCount;
      h := |hashes|;
      hashes := hashes + [Hash(hash, None, seq(bucketCount, _ => 0))];
      ApartNew(lists);
      lists := lists + [Empty];
      NothingLinked(words, hashes[h].table);
      forall k | 0 <= k < |lists| ensures Represents(words, hashes[k].table, lists[k]) && Descending(lists[k], here) {
        if k < h { Raise(lists[k], was, here); } else { NothingBelow(here); }
      }
    }

    /** `SET-CURRENT` */
    method SetCurrent(h: nat)
      requires Valid() && h < |hashes|
      modifies this`compilation
      ensures Valid() && compilation == h
    {
      compilation := h;
    }

    /** `>SEARCH` */
    method SearchPush(h: nat)
      requires Valid() && h < |hashes| && |order| < 16
      modifies this`order
      ensures Valid() && order == old(order) + [h]
    {
      order := order + [h];
    }

    /** `SEARCH>`; nothing if the search order is empty. */
    method SearchPop() returns (h: Option<nat>)
      requires Valid()
      modifies this`order
      ensures Valid() && (h == None <==> old(order) == [])
      ensures if h.Some? then old(order) == order + [h.value] else order == old(order)
    {
      if order == [] { return None; }
      h := Some(order[|order| - 1]);
      order := order[..|order| - 1];
    }

    /** `WID-SET-SUPER`; the parent is an older wordlist. */
    method SetParent(parent: nat, child: nat)
      requires Valid() && parent < child < |hashes|
      modifies this`hashes
      ensures Valid() && hashes == old(hashes)[child := old(hashes[child]).(link := Some(parent))]
    {
      hashes := hashes[child := hashes[child].(link := Some(parent))];
    }

    /** `ficlHashInsertWord` */
    method HashInsertWord(h: nat, word: nat)
      requires Valid() && h < |hashes| && 0 < word < here && word in words && WellNamed(words[word])
      requires forall k :: 0 <= k < |lists| ==> Descending(lists[k], word)
      modifies this`words, this`hashes, this`lists
      ensures Valid() && lists == old(lists)[h := Newest(word, old(lists[h]))] && |hashes| == |old(hashes)|
      ensures forall k :: 0 <= k < |hashes| ==> SameHash(hashes[k], old(hashes[k]))
      ensures word in words && words == old(words)[word := old(words[word]).(link := words[word].link)]
    {
      hide Represents, Descending, WellNamed, Has, Apart;
      var table := hashes[h].table;
      forall k | 0 <= k < |lists| ensures !Has(lists[k], word) && Descending(lists[k], word) {
        NotAbove(lists[k], word, word);
      }
      TableNotEmpty(words, table, lists[h]);
      var i := if |table| == 1 then 0 else words[word].hash % |table|;
      InsertRepresents(words, table, lists[h], word);
      ghost var before := words;
      words := words[word := words[word].(link := table[i])];
      hashes := hashes[h := hashes[h].(table := table[i := word])];
      ApartInsert(lists, h, word);
      lists := lists[h := Newest(word, lists[h])];
      forall k | 0 <= k < |hashes| && k != h ensures Represents(words, hashes[k].table, lists[k]) {
        RepresentsElsewhere(before, hashes[k].table, lists[k], word, words[word]);
      }
      OnTop(word, old(lists[h]), here);
    }

    /** `ficlHashLookup`: the newest word in the wordlist or its parents, or 0. */
    ghost function Search(h: nat, name: seq<Byte>): nat
      requires Valid() && h < |hashes|
      reads this
      decreases h
    {
      var a := First(words, lists[h], name);
      if a == 0 && hashes[h].link.Some? then Search(hashes[h].link.value, name) else a
    }

    /** Wordlists from `h` on, each the parent of the one before it, and none but the last has a word of the name. */
    ghost predicate Ancestry(h: nat, path: seq<nat>, name: seq<Byte>)
      requires Valid()
      reads this
    {
      && path != [] && path[0] == h && (forall i :: 0 <= i < |path| ==> path[i] < |hashes|)
      && (forall i :: 0 <= i < |path| - 1 ==>
            hashes[path[i]].link == Some(path[i + 1]) && First(words, lists[path[i]], name) == 0)
    }

    /** The nearest wordlist that has the name decides; only if none has it, there is nothing. */
    lemma {:induction false} NearestDecides(h: nat, name: seq<Byte>) returns (path: seq<nat>)
      requires Valid() && h < |hashes|
      ensures Ancestry(h, path, name)
      ensures var last := path[|path| - 1];
              Search(h, name) == First(words, lists[last], name) && (Search(h, name) == 0 ==> hashes[last].link == None)
      decreases h
    {
      hide Descending, Apart, First;
      if First(words, lists[h], name) == 0 && hashes[h].link.Some? {
        var rest := NearestDecides(hashes[h].link.value, name);
        path := [h] + rest;
      } else {
        path := [h];
      }
    }

    /** What the bucket of the name has. */
    ghost function BucketFirst(h: nat, name: seq<Byte>): nat
      requires Valid() && h < |hashes| && |name| < 256
      reads this
    {
      var table := hashes[h].table;
      BucketKnown(words, lists[h], |table|, BucketOf(HashCode(name), |table|));
      First(words, Bucket(words, lists[h], |table|, BucketOf(HashCode(name), |table|)), name)
    }

    /** What one bucket of each of these wordlists has. */
    ghost function BucketSearch(h: nat, name: seq<Byte>): nat
      requires Valid() && h < |hashes| && |name| < 256
      reads this
      decreases h
    {
      var a := BucketFirst(h, name);
      if a == 0 && hashes[h].link.Some? then BucketSearch(hashes[h].link.value, name) else a
    }

    method HashLookup(start: nat, name: seq<Byte>, hashCode: bv16) returns (word: nat)
      requires Valid() && start < |hashes| && |name| < 256 && 0 !in name && hashCode as int == HashCode(name)
      ensures word == BucketSearch(start, name)
      ensures |name| <= 31 ==> word == Search(start, name)
    {
      hide Represents, Descending, Apart;
      var h := start;
      if |name| <= NAME_LENGTH { ShortNames(start, name); }
      while true
        invariant 0 <= h < |hashes| && BucketSearch(start, name) == BucketSearch(h, name)
        decreases h
      {
        TableNotEmpty(words, hashes[h].table, lists[h]);
        var size := |hashes[h].table|;
        var hashIdx := if size > 1 then hashCode as int % size else 0;
        BucketChained(words, hashes[h].table, lists[h], hashIdx, here);
        word := SearchChain(hashes[h].table[hashIdx], name, Bucket(words, lists[h], size, hashIdx), here);
        if word != 0 || hashes[h].link == None { return; }
        h := hashes[h].link.value;
      }
    }

    /** A name that is kept whole is found in its bucket. */
    lemma {:induction false} ShortNames(h: nat, name: seq<Byte>)
      requires Valid() && h < |hashes| && |name| <= NAME_LENGTH
      ensures BucketSearch(h, name) == Search(h, name)
      decreases h
    {
      hide Represents, Descending, Apart;
      TableNotEmpty(words, hashes[h].table, lists[h]);
      FirstInBucket(words, lists[h], |hashes[h].table|, name);
      if hashes[h].link.Some? { ShortNames(hashes[h].link.value, name); }
    }

    /** The inner loop of `ficlHashLookup`. */
    method SearchChain(head: nat, name: seq<Byte>, ghost chain: Words, ghost bound: nat) returns (word: nat)
      requires |name| < 256 && 0 !in name
      requires Chained(words, head, chain) && Known(words, chain) && Descending(chain, bound)
      ensures word == First(words, chain, name)
    {
      hide Fold, HashCode, CaseEqual;
      var nCmp := if |name| > NAME_LENGTH then NAME_LENGTH else |name|;
      assert name[..nCmp] == Kept(name);
      ghost var rest, b := chain, bound;
      word := head;
      while word != 0
        invariant Chained(words, word, rest) && Known(words, rest) && Descending(rest, b)
        invariant First(words, chain, name) == First(words, rest, name)
        decreases rest
      {
        var w := words[word];
        if w.length == |name| {
          var r := Strincmp(name, w.text, nCmp);
          assert w.text[..nCmp] == w.text;
          CaseEqualFolds(Kept(name), w.text);
          if r == 0 { return; }
        }
        rest, b := rest.older, rest.address;
        word := w.link;
      }
    }

    /** The search order from its `n`th wordlist down. */
    ghost function SearchOrder(n: nat, name: seq<Byte>): nat
      requires Valid() && n <= |order|
      reads this
    {
      if n == 0 then 0 else
      var a := Search(order[n - 1], name);
      if a == 0 then SearchOrder(n - 1, name) else a
    }

    /** The wordlist nearest to the top of the search order that has the name decides. */
    lemma {:induction false} TopmostDecides(n: nat, name: seq<Byte>) returns (i: int)
      requires Valid() && n <= |order|
      ensures -1 <= i < n && (forall j :: i < j < n ==> Search(order[j], name) == 0)
      ensures SearchOrder(n, name) == if i < 0 then 0 else Search(order[i], name)
      ensures i >= 0 ==> Search(order[i], name) != 0
    {
      hide Represents, Descending, Apart, Search;
      i := -1;
      if n > 0 {
        if Search(order[n - 1], name) == 0 { i := TopmostDecides(n - 1, name); } else { i := n - 1; }
      }
    }

    ghost function BucketOrder(n: nat, name: seq<Byte>): nat
      requires Valid() && n <= |order| && |name| < 256
      reads this
    {
      if n == 0 then 0 else
      var a := BucketSearch(order[n - 1], name);
      if a == 0 then BucketOrder(n - 1, name) else a
    }

    /** `ficlDictionaryLookup` */
    method Lookup(name: seq<Byte>) returns (word: nat)
      requires Valid() && |name| < 256 && 0 !in name
      ensures word == BucketOrder(|order|, name)
      ensures |name| <= 31 ==> word == SearchOrder(|order|, name)
      ensures word == SearchOrder(|order|, name) <==> SearchOrder(|order|, name) == 0 || FoundBeside(|order|, name)
    {
      var hashCode := ComputeHash(name);
      word := 0;
      var i: int := |order| - 1;
      while i >= 0 && word == 0
        invariant -1 <= i < |order|
        invariant BucketOrder(|order|, name) == if word == 0 then BucketOrder(i + 1, name) else word
      {
        word := HashLookup(order[i], name, hashCode);
        i := i - 1;
      }
      LookupAgrees(name);
      if |name| <= NAME_LENGTH { ShortNamesInOrder(|order|, name); }
    }

    lemma {:induction false} ShortNamesInOrder(n: nat, name: seq<Byte>)
      requires Valid() && n <= |order| && |name| <= NAME_LENGTH
      ensures BucketOrder(n, name) == SearchOrder(n, name)
    {
      hide Represents, Descending, Apart;
      if n > 0 {
        ShortNames(order[n - 1], name);
        ShortNamesInOrder(n - 1, name);
      }
    }

    /** The word that the whole wordlists are searched for is in the bucket that its wordlist is searched in. */
    ghost predicate ChainBeside(h: nat, name: seq<Byte>)
      requires Valid() && h < |hashes| && |name| < 256
      reads this
      decreases h
    {
      var a := First(words, lists[h], name);
      if a == 0 then hashes[h].link.Some? && ChainBeside(hashes[h].link.value, name)
      else a in words && Beside(words[a], name, |hashes[h].table|)
    }

    ghost predicate FoundBeside(n: nat, name: seq<Byte>)
      requires Valid() && n <= |order| && |name| < 256
      reads this
    {
      n > 0 && if Search(order[n - 1], name) == 0 then FoundBeside(n - 1, name) else ChainBeside(order[n - 1], name)
    }

    /** A word is in a wordlist, and in the bucket where it would be searched for the name. */
    ghost predicate In(h: nat, a: nat, name: seq<Byte>, beside: bool)
      requires Valid() && |name| < 256
      reads this
    {
      h < |hashes| && Has(lists[h], a) && a in words && Beside(words[a], name, |hashes[h].table|) == beside
    }

    lemma OneAgrees(h: nat, name: seq<Byte>)
      requires Valid() && h < |hashes| && |name| < 256
      ensures var a, b := First(words, lists[h], name), BucketFirst(h, name);
              && (a == 0 ==> b == 0)
              && (a != 0 && ChainBeside(h, name) ==> b == a)
              && (a != 0 && !ChainBeside(h, name) ==> In(h, a, name, false))
              && (b != 0 ==> In(h, b, name, true))
    {
      hide Represents, Descending, Apart, Beside, HashCode;
      TableNotEmpty(words, hashes[h].table, lists[h]);
      FirstBeside(words, lists[h], |hashes[h].table|, name, here);
      FirstBelow(words, lists[h], here, name);
    }

    lemma {:induction false} ChainAgrees(h: nat, name: seq<Byte>) returns (scanned: nat, searched: nat)
      requires Valid() && h < |hashes| && |name| < 256
      ensures Search(h, name) == 0 ==> BucketSearch(h, name) == 0
      ensures Search(h, name) != 0 && ChainBeside(h, name) ==> BucketSearch(h, name) == Search(h, name)
      ensures Search(h, name) != 0 && !ChainBeside(h, name) ==> In(scanned, Search(h, name), name, false)
      ensures BucketSearch(h, name) != 0 ==> In(searched, BucketSearch(h, name), name, true)
      decreases h
    {
      hide Represents, Descending, Apart, Beside, HashCode, In, BucketFirst, First;
      TableNotEmpty(words, hashes[h].table, lists[h]);
      OneAgrees(h, name);
      scanned, searched := h, h;
      if hashes[h].link.Some? {
        var s, t := ChainAgrees(hashes[h].link.value, name);
        if First(words, lists[h], name) == 0 { scanned := s; }
        if BucketFirst(h, name) == 0 { searched := t; }
      }
    }

    lemma {:induction false} OrderAgrees(n: nat, name: seq<Byte>) returns (scanned: nat, searched: nat)
      requires Valid() && n <= |order| && |name| < 256
      ensures SearchOrder(n, name) == 0 ==> BucketOrder(n, name) == 0
      ensures SearchOrder(n, name) != 0 && FoundBeside(n, name) ==> BucketOrder(n, name) == SearchOrder(n, name)
      ensures SearchOrder(n, name) != 0 && !FoundBeside(n, name) ==> In(scanned, SearchOrder(n, name), name, false)
      ensures BucketOrder(n, name) != 0 ==> In(searched, BucketOrder(n, name), name, true)
    {
      hide Represents, Descending, Apart, In, Search, BucketSearch, ChainBeside;
      scanned, searched := 0, 0;
      if n > 0 {
        var s, t := ChainAgrees(order[n - 1], name);
        scanned, searched := OrderAgrees(n - 1, name);
        if Search(order[n - 1], name) != 0 { scanned := s; }
        if BucketSearch(order[n - 1], name) != 0 { searched := t; }
      }
    }

    /** The search by buckets finds the newest word, or nothing, exactly as scanning does, if and only if there is none or
        it is in the bucket where it is searched for. */
    lemma LookupAgrees(name: seq<Byte>)
      requires Valid() && |name| < 256
      ensures BucketOrder(|order|, name) == SearchOrder(|order|, name)
              <==> SearchOrder(|order|, name) == 0 || FoundBeside(|order|, name)
    {
      hide Represents, Descending, BucketOrder, SearchOrder, FoundBeside;
      var scanned, searched := OrderAgrees(|order|, name);
    }

    /** `ficlDictionaryAppendWord`; the word stays smudged if `keepSmudged`. */
    method AppendWord(name: seq<Byte>, keepSmudged: bool) returns (word: nat)
      requires Valid() && |name| < 256
      modifies this
      ensures Valid() && smudge == word && here == word + HEADER_SIZE && word in words && WellNamed(words[word])
      ensures words[word].length == |name| && words[word].text == Kept(name) && words[word].smudged == keepSmudged
      ensures words[word].hash == HashCode(name) && words == old(words)[word := words[word]]
      ensures |hashes| == |old(hashes)| && forall k :: 0 <= k < |hashes| ==> SameHash(hashes[k], old(hashes[k]))
      ensures old(here) <= words[word].name <= word && word % 4 == 0
      ensures if name == [] then words[word].name == word < old(here) + 4
              else words[word].name == old(here) && 0 <= word - (old(here) + |Kept(name)| + 1) < 4
      ensures compilation == old(compilation) && order == old(order)
      ensures keepSmudged ==> Open() && lists == old(lists)
      ensures !keepSmudged ==> lists == if name == [] then old(lists)
                                        else old(lists)[old(compilation) := Newest(word, old(lists[compilation]))]
    {
      word := NewHeader(name);
      if !keepSmudged { Unsmudge(); }
    }

    /** A smudged header for a name, above all words. */
    method NewHeader(name: seq<Byte>) returns (word: nat)
      requires Valid() && |name| < 256
      modifies this`words, this`smudge, this`here
      ensures Valid() && Open() && smudge == word && here == word + HEADER_SIZE
      ensures words[word].length == |name| && words[word].text == Kept(name) && words[word].hash == HashCode(name)
      ensures words == old(words)[word := words[word]]
      ensures old(here) <= words[word].name <= word && word % 4 == 0
      ensures if name == [] then words[word].name == word < old(here) + 4
              else words[word].name == old(here) && 0 <= word - (old(here) + |Kept(name)| + 1) < 4
    {
      hide Represents, Descending, HashCode, Has;
      var text := if |name| > NAME_LENGTH then name[..NAME_LENGTH] else name;
      var nameCopy := if name == [] then Align(here) else here;
      word := if name == [] then nameCopy else Align(here + |text| + 1);
      var hash := ComputeHash(name);
      ghost var before, was := words, here;
      ghost var w := Word(0, hash as int, true, |name|, nameCopy, text);
      words := words[word := Word(0, hash as int, true, |name|, nameCopy, text)];
      smudge := word;
      here := word + HEADER_SIZE;
      forall h | 0 <= h < |lists| ensures Represents(words, hashes[h].table, lists[h]) {
        NotAbove(lists[h], was, word);
        RepresentsElsewhere(before, hashes[h].table, lists[h], word, w);
      }
      forall h | 0 <= h < |lists| ensures Descending(lists[h], here) && Descending(lists[h], nameCopy) {
        Raise(lists[h], was, here);
        Raise(lists[h], was, nameCopy);
      }
    }

    /** `ficlDictionaryUnsmudge` */
    method Unsmudge()
      requires Valid() && Open()
      modifies this`words, this`hashes, this`lists
      ensures Valid() && smudge in words && !words[smudge].smudged
      ensures words == old(words)[smudge := old(words[smudge]).(link := words[smudge].link, smudged := false)]
      ensures |hashes| == |old(hashes)| && forall k :: 0 <= k < |hashes| ==> SameHash(hashes[k], old(hashes[k]))
      ensures lists == if old(words[smudge]).length == 0 then old(lists)
                       else old(lists)[compilation := Newest(smudge, old(lists[compilation]))]
    {
      hide Represents, Descending, HashCode;
      forall k | 0 <= k < |lists| ensures Descending(lists[k], smudge) {
        Raise(lists[k], words[smudge].name, smudge);
      }
      if words[smudge].length > 0 {
        HashInsertWord(compilation, smudge);
      }
      forall h | 0 <= h < |hashes|
        ensures Represents(words[smudge := words[smudge].(smudged := false)], hashes[h].table, lists[h])
      {
        RepresentsFlag(words, hashes[h].table, lists[h], smudge, false);
      }
      words := words[smudge := words[smudge].(smudged := false)];
    }

    /** `ficlDictionaryAbortDefinition`; a second time it does nothing more. */
    method AbortDefinition()
      requires Valid() && Reclaimable()
      modifies this`here
      ensures Valid() && Reclaimable() && here == if words[smudge].smudged then words[smudge].name else old(here)
    {
      if words[smudge].smudged {
        here := words[smudge].name;
      }
    }

    /** `ficlHashForget`: exactly the words below `where` stay. */
    method HashForget(h: nat, where: nat)
      requires Valid() && h < |hashes| && where > 0
      modifies this`hashes, this`lists
      ensures Valid() && lists == old(lists)[h := Keep(old(lists[h]), where)] && |hashes| == |old(hashes)|
      ensures forall k :: 0 <= k < |hashes| ==> SameHash(hashes[k], old(hashes[k]))
      ensures Descending(lists[h], where)
    {
      hide Represents, Descending, Apart;
      ghost var list := lists[h];
      var table := hashes[h].table;
      var kept := table;
      var i := 0;
      TableNotEmpty(words, table, list);
      while i < |table|
        invariant 0 <= i <= |table| == |kept| && |table| > 0 && Known(words, list)
        invariant hashes == old(hashes) && lists == old(lists)
        invariant forall j :: 0 <= j < i ==> Chained(words, kept[j], Keep(Bucket(words, list, |table|, j), where))
      {
        BucketChained(words, table, list, i, here);
        var head := ForgetChain(table[i], where, Bucket(words, list, |table|, i), here);
        kept := kept[i := head];
        i := i + 1;
      }
      KeepRepresents(words, table, kept, list, where);
      KeepDescending(list, here, where);
      hashes := hashes[h := hashes[h].(table := kept)];
      ApartKeep(lists, h, where);
      lists := lists[h := Keep(list, where)];
    }

    /** The inner loop of `ficlHashForget`, which stops at the first word it keeps. */
    method ForgetChain(start: nat, where: nat, ghost chain: Words, ghost bound: nat) returns (head: nat)
      requires where > 0 && Chained(words, start, chain) && Descending(chain, bound)
      ensures Chained(words, head, Keep(chain, where))
    {
      ghost var rest, b := chain, bound;
      head := start;
      while head >= where
        invariant Chained(words, head, rest) && Descending(rest, b) && Keep(rest, where) == Keep(chain, where)
        decreases rest
      {
        b, rest := rest.address, rest.older;
        head := words[head].link;
      }
      if rest.Newest? {
        KeepAll(rest, head + 1, where);
      }
    }

    /** `FORGET` of a word that was found; other wordlists are not looked at. */
    method Forget(word: nat)
      requires Valid() && word in words && words[word].name > 0
      modifies this`hashes, this`lists, this`here
      ensures here == old(words[word].name) && |hashes| == |old(hashes)|
      ensures lists == old(lists)[compilation := Keep(old(lists[compilation]), here)]
      ensures forall k :: 0 <= k < |hashes| ==> SameHash(hashes[k], old(hashes[k]))
      ensures Valid() <==> && (forall k :: 0 <= k < |lists| && k != compilation ==> Descending(lists[k], here))
                           && (forall k :: 0 <= k < |hashes| ==> hashes[k].End() <= here)
    {
      var where := words[word].name;
      HashForget(compilation, where);
      here := where;
    }
  }

  /** Only the heads of the buckets may differ. */
  predicate SameHash(a: Hash, b: Hash) {
    a.address == b.address && a.link == b.link && |a.table| == |b.table|
  }

  lemma NothingLinked(m: Memory, table: seq<nat>)
    requires |table| > 0 && forall i :: 0 <= i < |table| ==> table[i] == 0
    ensures Represents(m, table, Empty)
  {
  }

  lemma NothingBelow(bound: nat)
    ensures Descending(Empty, bound)
  {
  }

  lemma TableNotEmpty(m: Memory, table: seq<nat>, list: Words)
    requires Represents(m, table, list)
    ensures |table| > 0 && Known(m, list)
  {
  }

  lemma BucketChained(m: Memory, table: seq<nat>, list: Words, i: nat, bound: nat)
    requires Represents(m, table, list) && i < |table| && Descending(list, bound)
    ensures |table| > 0 && Known(m, list)
    ensures var b := Bucket(m, list, |table|, i);
            Chained(m, table[i], b) && Descending(b, bound) && Known(m, b)
  {
    BucketDescending(m, list, |table|, i, bound);
    BucketKnown(m, list, |table|, i);
  }

  lemma {:induction false} BucketKnown(m: Memory, list: Words, size: nat, i: nat)
    requires Known(m, list) && size > 0
    ensures Known(m, Bucket(m, list, size, i))
  {
    match list
    case Empty =>
    case Newest(_, older) => BucketKnown(m, older, size, i);
  }

  lemma OnTop(word: nat, list: Words, bound: nat)
    requires 0 < word < bound && Descending(list, word)
    ensures Descending(Newest(word, list), bound)
  {
  }
}
