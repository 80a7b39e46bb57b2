/**
  * Exactly which trees survive MessagePack. The decoder's exclusive bounds lose strings of
  * 31 bytes and maps of 15 pairs, wherever they occur; the encoder's 32-bit sizes lose longer
  * strings, larger maps and nested maps of 4 GiB; nothing else is lost.
  *
  * That a tree with such a part can never come back is shown by weighing bytes: what the
  * encoder writes for it is lighter than the lightest form the decoder could read.
  */
module MsgPackLimits {
  import opened Bytes
  import opened Streams
  import opened MsgPack
  import opened MsgPackRoundTrip
  import opened MsgPackWeights

  // ---------------------------------------------------------------- equal maps weigh the same

  /** Field names as the schema check leaves them: not empty and different within a message. */
  ghost predicate NamedItem(item: Item) {
    item.Dict? ==> Named(item.entries)
  }

  ghost predicate Named(entries: seq<Entry>) {
    && (forall i, j :: 0 <= i < j < |entries| ==> entries[i].key != entries[j].key)
    && forall e :: e in entries ==> e.key != [] && NamedItem(e.item)
  }

  lemma {:induction false} IndexKeys(entries: seq<Entry>, k: bytes)
    ensures k in Index(entries) <==> exists i :: 0 <= i < |entries| && entries[i].key == k
  {
    if entries != [] {
      var front, last := entries[..|entries| - 1], entries[|entries| - 1];
      IndexKeys(front, k);
      assert forall i :: 0 <= i < |front| ==> front[i] == entries[i];
    }
  }

  lemma {:induction false} IndexDistinct(entries: seq<Entry>, i: nat)
    requires i < |entries|
    requires forall a, b :: 0 <= a < b < |entries| ==> entries[a].key != entries[b].key
    ensures entries[i].key in Index(entries)
    ensures Index(entries)[entries[i].key] == ToNode(entries[i].item)
  {
    if i < |entries| - 1 {
      var front := entries[..|entries| - 1];
      assert front[i] == entries[i];
      assert forall a :: 0 <= a < |front| ==> front[a] == entries[a];
      IndexDistinct(front, i);
    }
  }

  /** Every pair of `some` is found in the map that `all` stands for. */
  ghost predicate FoundIn(some: seq<Entry>, all: seq<Entry>) {
    forall e :: e in some ==> e.key in Index(all) && Index(all)[e.key] == ToNode(e.item)
  }

  function Without(entries: seq<Entry>, i: nat): (r: seq<Entry>)
    requires i < |entries|
    ensures |r| == |entries| - 1
  {
    entries[..i] + entries[i + 1..]
  }

  lemma {:induction false} WithoutWeight(entries: seq<Entry>, i: nat)
    requires i < |entries|
    ensures EntriesWeight(entries) == EntryWeight(entries[i]) + EntriesWeight(Without(entries, i))
  {
    assert entries == entries[..i] + ([entries[i]] + entries[i + 1..]);
    EntriesWeightConcat(entries[..i], [entries[i]] + entries[i + 1..]);
    EntriesWeightConcat(entries[..i], entries[i + 1..]);
    assert ([entries[i]] + entries[i + 1..])[1..] == entries[i + 1..];
  }

  lemma {:induction false} WithoutNamed(entries: seq<Entry>, i: nat)
    requires i < |entries| && Named(entries)
    ensures Named(Without(entries, i))
    ensures forall e :: e in Without(entries, i) ==> e in entries && e.key != entries[i].key
  {
    var r := Without(entries, i);
    forall a | 0 <= a < |r| ensures r[a] == entries[if a < i then a else a + 1] {
    }
  }

  /** All pairs but the last one, and the last one. */
  lemma {:induction false} LastWeight(entries: seq<Entry>)
    requires entries != []
    ensures var n := |entries| - 1;
            EntriesWeight(entries) == EntriesWeight(entries[..n]) + EntryWeight(entries[n])
  {
    var n := |entries| - 1;
    assert entries == entries[..n] + [entries[n]];
    EntriesWeightConcat(entries[..n], [entries[n]]);
    assert EntriesWeight([entries[n]]) == EntryWeight(entries[n]);
  }

  lemma {:induction false} FoundEarlier(some: seq<Entry>, all: seq<Entry>)
    requires all != [] && FoundIn(some, all)
    requires forall e :: e in some ==> e.key != all[|all| - 1].key
    ensures FoundIn(some, all[..|all| - 1])
  {
  }

  lemma {:induction false} NothingFound(some: seq<Entry>)
    requires some != []
    ensures !FoundIn(some, [])
  {
    assert some[0] in some;
  }

  /** Pairs found in a map weigh no more than all the pairs it was built from, overwritten ones included. */
  lemma {:induction false} SomeNotHeavier(some: seq<Entry>, all: seq<Entry>)
    requires Named(some) && FoundIn(some, all)
    requires forall e :: e in all ==> e.key != []
    ensures |some| <= |all|
    ensures EntriesWeight(some) + (|all| - |some|) <= EntriesWeight(all)
    decreases some, 1, |all|
  {
    if all == [] {
      if some != [] {
        NothingFound(some);
      }
    } else {
      var n := |all| - 1;
      var last := all[n];
      LastWeight(all);
      assert last in all;
      if i :| 0 <= i < |some| && some[i].key == last.key {
        assert some[i] in some;
        LastNotHeavier(some, all, i);
        WithoutWeight(some, i);
        WithoutNamed(some, i);
        FoundEarlier(Without(some, i), all);
        SomeNotHeavier(Without(some, i), all[..n]);
      } else {
        FoundEarlier(some, all);
        SomeNotHeavier(some, all[..n]);
      }
    }
  }

  lemma {:induction false} LastNotHeavier(some: seq<Entry>, all: seq<Entry>, i: nat)
    requires Named(some) && FoundIn(some, all) && all != []
    requires i < |some| && some[i].key == all[|all| - 1].key
    ensures EntryWeight(some[i]) <= EntryWeight(all[|all| - 1])
    decreases some, 0, 0
  {
    assert some[i] in some;
    assert ToNode(some[i].item) == ToNode(all[|all| - 1].item);
    SameNodeNotHeavier(some[i].item, all[|all| - 1].item);
  }

  lemma {:induction false} SameNodeNotHeavier(item: Item, other: Item)
    requires NamedItem(item) && ToNode(item) == ToNode(other)
    ensures ItemWeight(item) <= ItemWeight(other)
    decreases item, 3, 0
  {
    if item.Dict? {
      SameMapNotHeavier(item.entries, other.entries);
    }
  }

  /** The tree a map was encoded from is the lightest of all trees that decode to it. */
  lemma {:induction false} SameMapNotHeavier(entries: seq<Entry>, other: seq<Entry>)
    requires Named(entries) && Index(entries) == Index(other)
    ensures SizeWeight(|entries|) + EntriesWeight(entries) <= SizeWeight(|other|) + EntriesWeight(other)
    decreases entries, 2, 0
  {
    forall e | e in entries ensures e.key in Index(other) && Index(other)[e.key] == ToNode(e.item) {
      var i :| 0 <= i < |entries| && entries[i] == e;
      IndexDistinct(entries, i);
    }
    forall e | e in other ensures e.key != [] {
      IndexKeys(other, e.key);
      IndexKeys(entries, e.key);
      var i :| 0 <= i < |entries| && entries[i].key == e.key;
      assert entries[i] in entries;
    }
    SomeNotHeavier(entries, other);
    MoreEntriesNotLighter(|entries|, |other|);
  }

  // ---------------------------------------------------------------- what the encoder writes

  lemma {:induction false} PrefixWeight(b: bytes, n: nat)
    requires n <= |b|
    ensures Weight(b[..n]) <= Weight(b)
  {
    assert b == b[..n] + b[n..];
    WeightConcat(b[..n], b[n..]);
  }

  lemma {:induction false} StringHeaderWeight(n: nat)
    ensures Weight(StringHeader(n)) <= LengthWeight(n)
    ensures n == 31 || n >= TWO32 ==> Weight(StringHeader(n)) < LengthWeight(n)
  {
    var l := n % TWO32;
    assert n < TWO32 ==> l == n;
    if l < 32 {
      assert BigEndian(31, 1) == BigEndian(0, 0) + [31];
      assert Weight([31]) == 1;
    } else if l <= 0xFF {
      WeightCons(0xD9, BigEndian(l, 1));
    } else if l <= 0xFFFF {
      WeightCons(0xDA, BigEndian(l, 2));
    } else {
      WeightCons(0xDB, BigEndian(l, 4));
    }
  }

  lemma {:induction false} StringEncodingWeight(s: bytes)
    ensures Weight(EncodeString(s)) <= TextWeight(s)
    ensures !CleanString(s) ==> Weight(EncodeString(s)) < TextWeight(s)
  {
    StringHeaderWeight(|s|);
    WeightConcat(StringHeader(|s|), s[..|s| % TWO32]);
    PrefixWeight(s, |s| % TWO32);
  }

  lemma {:induction false} MapHeaderWeight(n: nat)
    ensures Weight(MapHeader(n)) <= SizeWeight(n)
    ensures !CleanSize(n) ==> Weight(MapHeader(n)) < SizeWeight(n)
  {
    var l := n % TWO32;
    assert n < TWO32 ==> l == n;
    if l <= 0xF {
      Pow256Sizes();
      WiderIsHeavier(15, 1, 1);
    } else if l <= 0xFFFF {
      WeightCons(0xDE, BigEndian(l, 2));
    } else {
      WeightCons(0xDF, BigEndian(l, 4));
    }
  }

  // ---------------------------------------------------------------- nested maps of 4 GiB and more

  /** Keys below 2 GiB, at every depth. */
  ghost predicate ShortKeysItem(item: Item) {
    item.Dict? ==> ShortKeys(item.entries)
  }

  ghost predicate ShortKeys(entries: seq<Entry>) {
    forall e :: e in entries ==> |e.key| < 0x8000_0000 && ShortKeysItem(e.item)
  }

  lemma {:induction false} HeavyByte(b: bytes, n: nat, i: nat)
    requires n <= i < |b| && b[i] != 0xD0
    ensures Weight(b[n..]) > 0
  {
    var c := b[n..];
    assert c == c[..i - n] + ([b[i]] + c[i - n + 1..]);
    WeightConcat(c[..i - n], [b[i]] + c[i - n + 1..]);
    WeightCons(b[i], c[i - n + 1..]);
  }

  lemma {:induction false} StringStart(s: bytes)
    ensures var b := EncodeString(s); |b| > 0 && b[0] != 0xD0 && |b| <= 5 + |s|
  {
    var l := |s| % TWO32;
    assert l <= |s|;
  }

  /** A very long string starts more than 4 GiB before its end, but its length does not end in 0xD0 then. */
  lemma {:induction false} LongStringStart(s: bytes)
    requires |s| < TWO32 && |EncodeString(s)| > TWO32
    ensures |EncodeString(s)| == 5 + |s| && EncodeString(s)[4] >= 0xFC
  {
    var l := |s| % TWO32;
    SmallMod(|s|, TWO32);
    assert BigEndian(l, 4) == BigEndian(l / 256, 3) + [l % 256];
    assert l >= TWO32 - 4;
    assert StringHeader(|s|) == [0xDB] + BigEndian(l, 4);
  }

  lemma {:induction false} MapStart(entries: seq<Entry>)
    ensures |EncodeMap(entries)| > 0 && EncodeMap(entries)[0] != 0xD0
  {
  }

  /** Within the last 4 GiB of a value there is a byte that weighs something, or it has two bytes. */
  lemma {:induction false} HeavyInValue(item: Item) returns (i: nat)
    requires ValidItem(item) && CleanItem(item) && SizedItem(item)
    ensures var b := EncodeItem(item); |b| == 2 || (i < |b| <= i + TWO32 && b[i] != 0xD0)
  {
    i := 0;
    match item
    case Str(s) =>
      StringStart(s);
      if |EncodeString(s)| > TWO32 {
        LongStringStart(s);
        i := 4;
      }
    case Dict(entries) =>
      MapStart(entries);
      var b := EncodeMap(entries);
      assert b[..|b| % TWO32] == b;
    case _ =>
  }

  lemma {:induction false} HeavyInPair(kb: bytes, vb: bytes, i: nat) returns (j: nat)
    requires |kb| > 0 && kb[0] != 0xD0 && |kb| + 2 <= TWO32
    requires |vb| == 2 || (i < |vb| <= i + TWO32 && vb[i] != 0xD0)
    ensures j < |kb + vb| <= j + TWO32 && (kb + vb)[j] != 0xD0
  {
    j := if |vb| == 2 then 0 else |kb| + i;
  }

  lemma {:induction false} HeavyBehind(a: bytes, b: bytes, j: nat, n: nat)
    requires j < |b| <= j + TWO32 && b[j] != 0xD0
    requires n + TWO32 <= |a + b|
    ensures Weight((a + b)[n..]) > 0
  {
    assert (a + b)[|a| + j] == b[j];
    HeavyByte(a + b, n, |a| + j);
  }

  lemma {:induction false} LastPair(entries: seq<Entry>) returns (a: bytes)
    requires entries != []
    ensures var e := entries[|entries| - 1];
            EncodeMap(entries) == a + (EncodeString(e.key) + EncodeItem(e.item))
  {
    var n := |entries| - 1;
    var e := entries[n];
    assert entries == entries[..n] + [e];
    EntriesSnoc(entries[..n], e);
    Associative(MapHeader(|entries|), EncodeEntries(entries[..n]), EncodeString(e.key) + EncodeItem(e.item));
    a := MapHeader(|entries|) + EncodeEntries(entries[..n]);
  }

  lemma {:induction false} NoEntries()
    ensures |EncodeMap([])| == 1
  {
  }

  /** The last 4 GiB of a map that has no other fault weigh something. */
  lemma {:induction false} TailHasWeight(entries: seq<Entry>, n: nat)
    requires ValidEntries(entries) && Clean(entries) && Sized(entries) && ShortKeys(entries)
    requires n + TWO32 <= |EncodeMap(entries)|
    ensures Weight(EncodeMap(entries)[n..]) > 0
  {
    NoEntries();
    var e := entries[|entries| - 1];
    assert e in entries;
    var kb, vb := EncodeString(e.key), EncodeItem(e.item);
    StringStart(e.key);
    var i := HeavyInValue(e.item);
    var j := HeavyInPair(kb, vb, i);
    var a := LastPair(entries);
    HeavyBehind(a, kb + vb, j, n);
  }

  lemma {:induction false} CutWeight(b: bytes, n: nat)
    requires n <= |b|
    ensures Weight(b) == Weight(b[..n]) + Weight(b[n..])
  {
    assert b == b[..n] + b[n..];
    WeightConcat(b[..n], b[n..]);
  }

  lemma {:induction false} CutShort(x: nat)
    requires x >= TWO32
    ensures x % TWO32 + TWO32 <= x
  {
  }

  /** A nested map and what becomes of it, in weight. */
  lemma {:induction false} NestedItem(entries: seq<Entry>, b: bytes, w: nat)
    requires b == EncodeMap(entries) && w == SizeWeight(|entries|) + EntriesWeight(entries)
    ensures EncodeItem(Dict(entries)) == b[..|b| % TWO32] && ItemWeight(Dict(entries)) == w
    ensures CleanItem(Dict(entries)) <==> Clean(entries)
    ensures SizedItem(Dict(entries)) <==> |b| < TWO32 && Sized(entries)
  {
  }

  lemma {:induction false} CutTail(entries: seq<Entry>, b: bytes)
    requires ValidEntries(entries) && Clean(entries) && Sized(entries) && ShortKeys(entries)
    requires b == EncodeMap(entries) && |b| >= TWO32
    ensures Weight(b[..|b| % TWO32]) < Weight(b)
  {
    CutShort(|b|);
    CutWeight(b, |b| % TWO32);
    TailHasWeight(entries, |b| % TWO32);
  }

  /** Cutting off a nested map of 4 GiB or more makes it too light. */
  lemma {:induction false} NestedEncodingWeight(entries: seq<Entry>)
    requires ValidEntries(entries) && (SizedItem(Dict(entries)) || ShortKeys(entries))
    requires Weight(EncodeMap(entries)) <= SizeWeight(|entries|) + EntriesWeight(entries)
    requires !Clean(entries) || !Sized(entries) ==>
               Weight(EncodeMap(entries)) < SizeWeight(|entries|) + EntriesWeight(entries)
    ensures var item := Dict(entries);
            && Weight(EncodeItem(item)) <= ItemWeight(item)
            && (!CleanItem(item) || !SizedItem(item) ==> Weight(EncodeItem(item)) < ItemWeight(item))
  {
    var b := EncodeMap(entries);
    NestedItem(entries, b, SizeWeight(|entries|) + EntriesWeight(entries));
    PrefixWeight(b, |b| % TWO32);
    if |b| >= TWO32 && Clean(entries) && Sized(entries) {
      CutTail(entries, b);
    }
  }

  lemma {:induction false} ItemEncodingWeight(item: Item)
    requires ValidItem(item) && NamedItem(item) && (SizedItem(item) || ShortKeysItem(item))
    ensures Weight(EncodeItem(item)) <= ItemWeight(item)
    ensures !CleanItem(item) || !SizedItem(item) ==> Weight(EncodeItem(item)) < ItemWeight(item)
    decreases item, 0
  {
    match item
    case Float(bits) => WeightCons(0xCA, BigEndian(bits, 4));
    case Double(bits) => WeightCons(0xCB, BigEndian(bits, 8));
    case Str(s) => StringEncodingWeight(s);
    case Dict(entries) =>
      MapEncodingWeight(entries);
      NestedEncodingWeight(entries);
    case _ =>
  }

  lemma {:induction false} PairEncodingWeight(e: Entry)
    requires e.key != []
    requires Weight(EncodeItem(e.item)) <= ItemWeight(e.item)
    requires !CleanItem(e.item) || !SizedItem(e.item) ==> Weight(EncodeItem(e.item)) < ItemWeight(e.item)
    ensures Weight(EncodeString(e.key) + EncodeItem(e.item)) <= EntryWeight(e)
    ensures !CleanString(e.key) || !CleanItem(e.item) || !SizedItem(e.item) ==>
              Weight(EncodeString(e.key) + EncodeItem(e.item)) < EntryWeight(e)
  {
    StringEncodingWeight(e.key);
    WeightConcat(EncodeString(e.key), EncodeItem(e.item));
  }

  lemma {:induction false} FirstOrLater(entries: seq<Entry>, e: Entry)
    requires e in entries
    ensures e == entries[0] || e in entries[1..]
  {
    var i :| 0 <= i < |entries| && entries[i] == e;
    assert i > 0 ==> entries[1..][i - 1] == e;
  }

  lemma {:induction false} TailFacts(entries: seq<Entry>)
    requires entries != [] && ValidEntries(entries) && Named(entries)
    ensures var e := entries[0]; e.key != [] && ValidItem(e.item) && NamedItem(e.item)
    ensures var tail := entries[1..]; ValidEntries(tail) && Named(tail)
  {
    var tail := entries[1..];
    assert entries[0] in entries;
    assert forall i :: 0 <= i < |tail| ==> tail[i] == entries[i + 1];
  }

  lemma {:induction false} TailLimits(entries: seq<Entry>)
    requires entries != []
    ensures Sized(entries) <==> SizedItem(entries[0].item) && Sized(entries[1..])
    ensures ShortKeys(entries) ==> ShortKeysItem(entries[0].item) && ShortKeys(entries[1..])
    ensures CleanString(entries[0].key) && CleanItem(entries[0].item) && CleanEntries(entries[1..])
        ==> CleanEntries(entries)
  {
    assert entries[0] in entries;
    forall e | e in entries ensures e == entries[0] || e in entries[1..] {
      FirstOrLater(entries, e);
    }
  }

  lemma {:induction false} EntriesEncodingWeight(entries: seq<Entry>)
    requires ValidEntries(entries) && Named(entries) && (Sized(entries) || ShortKeys(entries))
    ensures Weight(EncodeEntries(entries)) <= EntriesWeight(entries)
    ensures !CleanEntries(entries) || !Sized(entries) ==> Weight(EncodeEntries(entries)) < EntriesWeight(entries)
    decreases entries, 1
  {
    if entries != [] {
      var e, tail := entries[0], entries[1..];
      TailFacts(entries);
      TailLimits(entries);
      ItemEncodingWeight(e.item);
      PairEncodingWeight(e);
      EntriesEncodingWeight(tail);
      WeightConcat(EncodeString(e.key) + EncodeItem(e.item), EncodeEntries(tail));
    }
  }

  /**
    * The encoder never writes more than the lightest readable form, and less if a part is
    * not clean or a nested map is cut off.
    */
  lemma {:induction false} MapEncodingWeight(entries: seq<Entry>)
    requires ValidEntries(entries) && Named(entries) && (Sized(entries) || ShortKeys(entries))
    ensures Weight(EncodeMap(entries)) <= SizeWeight(|entries|) + EntriesWeight(entries)
    ensures !Clean(entries) || !Sized(entries) ==>
              Weight(EncodeMap(entries)) < SizeWeight(|entries|) + EntriesWeight(entries)
    decreases entries, 2
  {
    MapHeaderWeight(|entries|);
    EntriesEncodingWeight(entries);
    WeightConcat(MapHeader(|entries|), EncodeEntries(entries));
  }

  // ---------------------------------------------------------------- main result

  /** The decoder returns the encoded map and leaves exactly what followed it. */
  ghost predicate ReadsBack(entries: seq<Entry>, rest: bytes) {
    var r := ReadMap(Stream(EncodeMap(entries) + rest, true));
    Index(r.entries) == Index(entries) && r.next == Stream(rest, true)
  }

  /**
    * For every tree of named values and every suffix: the map is read back if and only if
    * no string has 31 bytes, no map has 15 pairs, lengths and sizes fit into 32 bits, and
    * every nested map takes less than 4 GiB. (Keys of 2 GiB and more are only allowed for
    * while no nested map takes 4 GiB.)
    */
  lemma {:induction false} ReadsBackIffClean(entries: seq<Entry>, rest: bytes)
    requires ValidEntries(entries) && Named(entries) && (Sized(entries) || ShortKeys(entries))
    ensures ReadsBack(entries, rest) <==> Clean(entries) && Sized(entries)
  {
    var s := Stream(EncodeMap(entries) + rest, true);
    if Clean(entries) && Sized(entries) {
      MapRoundTrip(entries, rest);
    } else if ReadsBack(entries, rest) {
      MapReadWeight(s);
      SameMapNotHeavier(entries, ReadMap(s).entries);
      MapEncodingWeight(entries);
      WeightConcat(EncodeMap(entries), rest);
      assert false;
    }
  }

  /** The decoder steps over a byte of no known format, whatever it was looking for. */
  lemma {:induction false} UnknownMarker(c: byte, b: bytes)
    requires FormatFamily(c) == UnknownF
    ensures var s, t := Stream([c] + b, true), Stream(b, true);
            ReadMap(s) == ReadMap(t) && ReadItem(s) == ReadValue(Unknown, t) && ReadString(s) == Text([], t)
  {
    Marker(c, b);
  }

  /** What becomes of 31 bytes: the marker is taken for an unknown value and the bytes for what follows. */
  lemma {:induction false} ThirtyOneBytesAreLost(s: bytes, rest: bytes)
    requires |s| == 31
    ensures ReadItem(Stream(EncodeString(s) + rest, true)) == ReadValue(Unknown, Stream(s + rest, true))
    ensures ReadString(Stream(EncodeString(s) + rest, true)) == Text([], Stream(s + rest, true))
  {
    assert s[..31 % TWO32] == s;
    assert EncodeString(s) == [0xBF] + s;
    Associative([0xBF], s, rest);
    UnknownMarker(0xBF, s + rest);
  }

  /** What becomes of 15 pairs: the marker is skipped, and the search for a map goes on in the pairs. */
  lemma {:induction false} FifteenPairsAreLost(entries: seq<Entry>, rest: bytes)
    requires |entries| == 15
    ensures ReadMap(Stream(EncodeMap(entries) + rest, true)) == ReadMap(Stream(EncodeEntries(entries) + rest, true))
    ensures ReadItem(Stream(EncodeMap(entries) + rest, true)) == ReadValue(Unknown, Stream(EncodeEntries(entries) + rest, true))
  {
    assert MapHeader(15) == [0x8F];
    Associative([0x8F], EncodeEntries(entries), rest);
    UnknownMarker(0x8F, EncodeEntries(entries) + rest);
  }
}
