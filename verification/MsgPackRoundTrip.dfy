/** What the MessagePack encoder writes, the decoder reads back, pair by pair. */
module MsgPackRoundTrip {
  import opened Bytes
  import opened Streams
  import opened MsgPack

  // ---------------------------------------------------------------- which trees

  /** The numbers the typed visitors produce: signed form only below zero. */
  predicate ValidItem(item: Item) {
    match item
    case UNum(u) => u < TWO64
    case SNum(i) => IsSigned(W64, i) && i < 0
    case Float(bits) => bits < TWO32
    case Double(bits) => bits < TWO64
    case Dict(entries) => ValidEntries(entries)
    case Unknown => false
    case _ => true
  }

  predicate ValidEntries(entries: seq<Entry>) {
    forall e :: e in entries ==> ValidItem(e.item)
  }

  /** Strings the decoder recognises: 31 bytes get the marker 0xBF, which it does not accept. */
  predicate CleanString(s: bytes) {
    |s| != 31 && |s| < TWO32
  }

  /** Maps the decoder recognises: 15 pairs get the marker 0x8F, which it does not accept. */
  predicate CleanSize(n: nat) {
    n != 15 && n < TWO32
  }

  predicate CleanItem(item: Item) {
    match item
    case Str(s) => CleanString(s)
    case Dict(entries) => CleanSize(|entries|) && CleanEntries(entries)
    case _ => true
  }

  predicate CleanEntries(entries: seq<Entry>) {
    forall e :: e in entries ==> CleanString(e.key) && CleanItem(e.item)
  }

  /** Clean at every level, the outermost map included. */
  predicate Clean(entries: seq<Entry>) {
    CleanSize(|entries|) && CleanEntries(entries)
  }

  /** Every nested map takes less than 4 GiB; the encoder copies its length modulo 2^32. */
  predicate SizedItem(item: Item) {
    item.Dict? ==> |EncodeMap(item.entries)| < TWO32 && Sized(item.entries)
  }

  predicate Sized(entries: seq<Entry>) {
    forall e :: e in entries ==> SizedItem(e.item)
  }

  lemma {:induction false} EntriesSnoc(entries: seq<Entry>, e: Entry)
    ensures EncodeEntries(entries + [e]) == EncodeEntries(entries) + (EncodeString(e.key) + EncodeItem(e.item))
  {
    if entries == [] {
      assert entries + [e] == [e];
      assert EncodeEntries([e]) == EncodeString(e.key) + EncodeItem(e.item) + [];
    } else {
      var first, tail := entries[0], entries[1..];
      assert (entries + [e])[1..] == tail + [e];
      EntriesSnoc(tail, e);
      Associative(EncodeString(first.key) + EncodeItem(first.item), EncodeEntries(tail),
                  EncodeString(e.key) + EncodeItem(e.item));
    }
  }

  // ---------------------------------------------------------------- scalars

  lemma {:induction false} Marker(c: byte, b: bytes)
    ensures var s := Stream([c] + b, true);
            Peek(s) == c && Skip(s) == Stream(b, true) && Reread(s) == s
  {
    assert ([c] + b)[1..] == b;
  }

  lemma {:induction false} NumberRoundTrip(v: nat, k: nat, rest: bytes)
    requires v < Pow256(k)
    ensures ReadNumber(Stream(BigEndian(v, k) + rest, true), k) == Counted(v, Stream(rest, true))
  {
    BigEndianRoundTrip(v, k);
    ReadPrefix(BigEndian(v, k), rest);
  }

  /** A marker followed by a number of k bytes. */
  lemma {:induction false} MarkedNumber(c: byte, v: nat, k: nat, rest: bytes)
    requires v < Pow256(k)
    ensures var s := Stream([c] + BigEndian(v, k) + rest, true);
            && Peek(s) == c && Reread(s) == s
            && ReadNumber(Skip(s), k) == Counted(v, Stream(rest, true))
  {
    Associative([c], BigEndian(v, k), rest);
    Marker(c, BigEndian(v, k) + rest);
    NumberRoundTrip(v, k, rest);
  }

  lemma {:induction false} UintItem(s: Stream, u: nat, next: Stream)
    requires FormatFamily(Peek(s)) == UIntF && Reread(s) == s && ReadUint(s) == Counted(u, next)
    ensures ReadItem(s) == ReadValue(UNum(u), next)
  {
  }

  lemma {:induction false} IntItem(s: Stream, i: int, next: Stream)
    requires FormatFamily(Peek(s)) == IntF && Reread(s) == s && ReadInt(s) == Signed(i, next)
    ensures ReadItem(s) == ReadValue(SNum(i), next)
  {
  }

  lemma {:induction false} UintRoundTrip(v: nat, rest: bytes)
    requires v < TWO64
    ensures ReadItem(Stream(EncodeUint(v) + rest, true)) == ReadValue(UNum(v), Stream(rest, true))
  {
    Pow256Sizes();
    if v <= 0x7F {
      Marker(v, rest);
    } else if v <= 0xFF {
      MarkedNumber(0xCC, v, 1, rest);
    } else if v <= 0xFFFF {
      MarkedNumber(0xCD, v, 2, rest);
    } else if v <= 0xFFFF_FFFF {
      MarkedNumber(0xCE, v, 4, rest);
    } else {
      MarkedNumber(0xCF, v, 8, rest);
    }
    UintItem(Stream(EncodeUint(v) + rest, true), v, Stream(rest, true));
  }

  lemma {:induction false} IntForm(c: byte, w: Width, v: int, rest: bytes)
    requires IsSigned(w, v)
    ensures var s := Stream([c] + BigEndian(ToPattern(w, v), Size(w)) + rest, true);
            && Peek(s) == c && Reread(s) == s
            && ReadPattern(Skip(s), w) == Signed(v, Stream(rest, true))
  {
    Pow256Sizes();
    MarkedNumber(c, ToPattern(w, v), Size(w), rest);
    PatternRoundTrip(w, v);
  }

  lemma {:induction false} IntRoundTrip(v: int, rest: bytes)
    requires IsSigned(W64, v) && v < 0
    ensures ReadItem(Stream(EncodeInt(v) + rest, true)) == ReadValue(SNum(v), Stream(rest, true))
  {
    if -31 <= v {
      assert v % 256 == v + 256;
      Marker(v + 256, rest);
    } else if -0x80 <= v {
      IntForm(0xD0, W8, v, rest);
    } else if -0x8000 <= v {
      IntForm(0xD1, W16, v, rest);
    } else if -0x8000_0000 <= v {
      IntForm(0xD2, W32, v, rest);
    } else {
      IntForm(0xD3, W64, v, rest);
    }
    IntItem(Stream(EncodeInt(v) + rest, true), v, Stream(rest, true));
  }

  lemma {:induction false} StringLengthRoundTrip(n: nat, rest: bytes)
    requires n != 31 && n < TWO32
    ensures var s := Stream(StringHeader(n) + rest, true);
            && FormatFamily(Peek(s)) == StrF && Reread(s) == s
            && ReadStringLength(Peek(s), Skip(s)) == Counted(n, Stream(rest, true))
  {
    Pow256Sizes();
    assert n % TWO32 == n;
    if n < 32 {
      Marker(FIXSTR + n, rest);
    } else if n <= 0xFF {
      MarkedNumber(0xD9, n, 1, rest);
    } else if n <= 0xFFFF {
      MarkedNumber(0xDA, n, 2, rest);
    } else {
      MarkedNumber(0xDB, n, 4, rest);
    }
  }

  lemma {:induction false} StringRoundTrip(t: bytes, rest: bytes)
    requires CleanString(t)
    ensures var s := Stream(EncodeString(t) + rest, true);
            && ReadString(s) == Text(t, Stream(rest, true))
            && ReadItem(s) == ReadValue(Str(t), Stream(rest, true))
  {
    assert t[..|t| % TWO32] == t;
    Associative(StringHeader(|t|), t, rest);
    StringLengthRoundTrip(|t|, t + rest);
    ReadPrefix(t, rest);
  }

  // ---------------------------------------------------------------- maps

  lemma {:induction false} MapSizeRoundTrip(n: nat, rest: bytes)
    requires CleanSize(n)
    ensures var s := Stream(MapHeader(n) + rest, true);
            && FormatFamily(Peek(s)) == MapF && Reread(s) == s
            && ReadMapSize(Peek(s), Skip(s)) == Counted(n, Stream(rest, true))
  {
    Pow256Sizes();
    assert n % TWO32 == n;
    if n < 15 {
      assert MapHeader(n) == [FIXMAP + n];
      Marker(FIXMAP + n, rest);
    } else if n <= 0xFFFF {
      assert MapHeader(n) == [0xDE] + BigEndian(n, 2);
      MarkedNumber(0xDE, n, 2, rest);
    } else {
      MarkedNumber(0xDF, n, 4, rest);
    }
  }

  lemma {:induction false} MapItem(s: Stream, entries: seq<Entry>, next: Stream)
    requires FormatFamily(Peek(s)) == MapF && Reread(s) == s && ReadMap(s) == Parsed(entries, next)
    ensures ReadItem(s) == ReadValue(Dict(entries), next)
  {
  }

  lemma {:induction false} ScalarRoundTrip(item: Item, rest: bytes)
    requires ValidItem(item) && CleanItem(item) && !item.Dict?
    ensures ReadItem(Stream(EncodeItem(item) + rest, true)) == ReadValue(item, Stream(rest, true))
  {
    Pow256Sizes();
    match item
    case Flag(b) =>
      Marker(if b then 0xC3 else 0xC2, rest);
    case UNum(u) =>
      UintRoundTrip(u, rest);
    case SNum(i) =>
      IntRoundTrip(i, rest);
    case Float(bits) =>
      MarkedNumber(0xCA, bits, 4, rest);
    case Double(bits) =>
      MarkedNumber(0xCB, bits, 8, rest);
    case Str(s) =>
      StringRoundTrip(s, rest);
  }

  lemma {:induction false} ItemRoundTrip(item: Item, rest: bytes)
    requires ValidItem(item) && CleanItem(item) && SizedItem(item)
    ensures ReadItem(Stream(EncodeItem(item) + rest, true)) == ReadValue(item, Stream(rest, true))
    decreases item, 0
  {
    if item.Dict? {
      var b := EncodeMap(item.entries);
      assert b[..|b| % TWO32] == b;
      MapRoundTrip(item.entries, rest);
      MapItem(Stream(b + rest, true), item.entries, Stream(rest, true));
    } else {
      ScalarRoundTrip(item, rest);
    }
  }

  /** One turn of the pair loop over a key kb and a value vb, with eb left for the other pairs. */
  lemma {:induction false} EntryStep(
    kb: bytes, vb: bytes, eb: bytes, rest: bytes, e: Entry, tail: seq<Entry>)
    requires ReadString(Stream(kb + (vb + (eb + rest)), true)) == Text(e.key, Stream(vb + (eb + rest), true))
    requires ReadItem(Stream(vb + (eb + rest), true)) == ReadValue(e.item, Stream(eb + rest, true))
    requires ReadEntries(Stream(eb + rest, true), |tail|) == Parsed(tail, Stream(rest, true))
    ensures ReadEntries(Stream(kb + vb + eb + rest, true), |tail| + 1)
         == Parsed([e] + tail, Stream(rest, true))
  {
    Associative(kb, vb, eb + rest);
    Associative(kb + vb, eb, rest);
  }

  lemma {:induction false} EncodedPair(entries: seq<Entry>, kb: bytes, vb: bytes, eb: bytes)
    requires entries != [] && eb == EncodeEntries(entries[1..])
    requires kb == EncodeString(entries[0].key) && vb == EncodeItem(entries[0].item)
    ensures EncodeEntries(entries) == kb + vb + eb && entries == [entries[0]] + entries[1..]
  {
  }

  lemma {:induction false} SplitEntries(entries: seq<Entry>)
    requires entries != [] && ValidEntries(entries) && CleanEntries(entries) && Sized(entries)
    ensures var item := entries[0].item; ValidItem(item) && CleanItem(item) && SizedItem(item)
    ensures CleanString(entries[0].key)
    ensures var tail := entries[1..]; ValidEntries(tail) && CleanEntries(tail) && Sized(tail)
  {
    assert entries[0] in entries;
  }

  lemma {:induction false} EntriesRoundTrip(entries: seq<Entry>, rest: bytes)
    requires ValidEntries(entries) && CleanEntries(entries) && Sized(entries)
    ensures ReadEntries(Stream(EncodeEntries(entries) + rest, true), |entries|)
         == Parsed(entries, Stream(rest, true))
    decreases entries, 1
  {
    if entries == [] {
      assert EncodeEntries(entries) + rest == rest;
    } else {
      var e, tail := entries[0], entries[1..];
      SplitEntries(entries);
      var kb, vb, eb := EncodeString(e.key), EncodeItem(e.item), EncodeEntries(tail);
      StringRoundTrip(e.key, vb + (eb + rest));
      ItemRoundTrip(e.item, eb + rest);
      EntriesRoundTrip(tail, rest);
      EntryStep(kb, vb, eb, rest, e, tail);
      EncodedPair(entries, kb, vb, eb);
    }
  }

  /**
    * Any clean tree comes back pair by pair in front of any suffix, in all of the
    * fix/8/16/32/64 forms, and exactly the suffix is left.
    */
  lemma {:induction false} MapRoundTrip(entries: seq<Entry>, rest: bytes)
    requires ValidEntries(entries) && Clean(entries) && Sized(entries)
    ensures var s := Stream(EncodeMap(entries) + rest, true);
            && ReadMap(s) == Parsed(entries, Stream(rest, true))
            && FormatFamily(Peek(s)) == MapF && Reread(s) == s
    decreases entries, 2
  {
    Associative(MapHeader(|entries|), EncodeEntries(entries), rest);
    MapSizeRoundTrip(|entries|, EncodeEntries(entries) + rest);
    EntriesRoundTrip(entries, rest);
  }
}
