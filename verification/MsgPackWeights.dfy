/**
  * The weight of bytes and of MessagePack trees. Every byte weighs one, except 0xD0, which
  * weighs nothing: it marks 8-bit integers, and -32 is written with that marker although the
  * decoder would not need it. Reading a tree takes at least the weight of its lightest
  * readable form.
  */
module MsgPackWeights {
  import opened Bytes
  import opened Streams
  import opened MsgPack
  import opened MsgPackRoundTrip

  // ---------------------------------------------------------------- weights of bytes

  function ByteWeight(c: byte): (w: nat) {
    if c == 0xD0 then 0 else 1
  }

  function Weight(b: bytes): (w: nat)
    ensures w <= |b|
  {
    if b == [] then 0 else ByteWeight(b[0]) + Weight(b[1..])
  }

  lemma {:induction false} WeightConcat(a: bytes, b: bytes)
    ensures Weight(a + b) == Weight(a) + Weight(b)
  {
    if a == [] {
      assert a + b == b;
    } else {
      assert (a + b)[1..] == a[1..] + b;
      WeightConcat(a[1..], b);
    }
  }

  lemma {:induction false} WeightCons(c: byte, b: bytes)
    ensures Weight([c] + b) == ByteWeight(c) + Weight(b)
  {
    assert ([c] + b)[1..] == b;
  }

  lemma {:induction false} WeightSnoc(b: bytes, c: byte)
    ensures Weight(b + [c]) == Weight(b) + ByteWeight(c)
  {
    WeightConcat(b, [c]);
    WeightCons(c, []);
    assert [c] + [] == [c];
  }

  /** One byte more than a number needs is a zero in front. */
  lemma {:induction false} LeadingZero(v: nat, k: nat)
    requires v < Pow256(k)
    ensures BigEndian(v, k + 1) == [0] + BigEndian(v, k)
  {
    if k == 0 {
      assert BigEndian(v / 256, 0) == [];
    } else {
      DivBelow(v, Pow256(k - 1));
      LeadingZero(v / 256, k - 1);
    }
  }

  lemma {:induction false} WiderIsHeavier(v: nat, k: nat, more: nat)
    requires v < Pow256(k)
    ensures v < Pow256(k + more)
    ensures Weight(BigEndian(v, k + more)) == more + Weight(BigEndian(v, k))
  {
    if more != 0 {
      WiderIsHeavier(v, k, more - 1);
      LeadingZero(v, k + more - 1);
      WeightCons(0, BigEndian(v, k + more - 1));
    }
  }

  lemma {:induction false} FloorStep(v: int, p: nat)
    requires 0 <= v + 256 * p && v < 0
    ensures 0 <= v / 256 + p && v / 256 < 0
    ensures (v + 256 * p) / 256 == v / 256 + p && (v + 256 * p) % 256 == v % 256
  {
  }

  /** One byte more than a negative number needs is a byte of ones in front. */
  lemma {:induction false} LeadingOnes(v: int, k: nat)
    requires 0 <= v + Pow256(k) && v < 0
    ensures BigEndian(v + Pow256(k + 1), k + 1) == [0xFF] + BigEndian(v + Pow256(k), k)
    decreases k
  {
    if k == 0 {
      assert BigEndian(255, 1) == BigEndian(0, 0) + [255];
    } else {
      var p := Pow256(k - 1);
      FloorStep(v, p);
      FloorStep(v, Pow256(k));
      LeadingOnes(v / 256, k - 1);
    }
  }

  lemma {:induction false} WiderNegativeIsHeavier(v: int, k: nat, more: nat)
    requires 0 <= v + Pow256(k) && v < 0
    ensures 0 <= v + Pow256(k + more)
    ensures Weight(BigEndian(v + Pow256(k + more), k + more)) == more + Weight(BigEndian(v + Pow256(k), k))
    decreases more
  {
    if more != 0 {
      WiderNegativeIsHeavier(v, k, more - 1);
      LeadingOnes(v, k + more - 1);
      WeightCons(0xFF, BigEndian(v + Pow256(k + more - 1), k + more - 1));
    }
  }

  lemma {:induction false} CountingStep(n: nat, m: nat)
    requires n <= m
    ensures n / 256 <= m / 256
    ensures ByteWeight(n % 256) + (m / 256 - n / 256) <= ByteWeight(m % 256) + (m - n)
  {
    var q := m / 256 - n / 256;
    assert m - n == 256 * q + m % 256 - n % 256;
  }

  /** Counting up can make a number lighter, but never by more than the steps counted. */
  lemma {:induction false} CountingUp(n: nat, m: nat, k: nat)
    requires n <= m
    ensures Weight(BigEndian(n, k)) <= Weight(BigEndian(m, k)) + (m - n)
  {
    if k != 0 {
      CountingStep(n, m);
      CountingUp(n / 256, m / 256, k - 1);
      WeightSnoc(BigEndian(n / 256, k - 1), n % 256);
      WeightSnoc(BigEndian(m / 256, k - 1), m % 256);
    }
  }

  // ---------------------------------------------------------------- weights of trees

  /** The lightest length the decoder takes for a string of n bytes; none from 2^32 on. */
  function LengthWeight(n: nat): (w: nat)
    ensures w >= 1
  {
    if n < 31 then 1
    else if n <= 0xFF then 1 + Weight(BigEndian(n, 1))
    else if n <= 0xFFFF then 1 + Weight(BigEndian(n, 2))
    else if n < TWO32 then 1 + Weight(BigEndian(n, 4))
    else 6
  }

  function TextWeight(s: bytes): (w: nat)
    ensures w >= 1
  {
    LengthWeight(|s|) + Weight(s)
  }

  /** A missing key reads as the empty one, so that one costs nothing. */
  function KeyWeight(s: bytes): (w: nat) {
    if s == [] then 0 else TextWeight(s)
  }

  /** The lightest marker the decoder takes for a map of n pairs; none from 2^32 on. */
  function SizeWeight(n: nat): (w: nat)
    ensures w >= 1
  {
    if n < 15 then 1
    else if n <= 0xFFFF then 1 + Weight(BigEndian(n, 2))
    else if n < TWO32 then 1 + Weight(BigEndian(n, 4))
    else 6
  }

  function ItemWeight(item: Item): (w: nat)
    decreases item, 0
  {
    match item
    case Flag(_) => 1
    case UNum(u) => Weight(EncodeUint(u))
    case SNum(i) => if i < 0 then Weight(EncodeInt(i)) else 0
    case Float(bits) => 1 + Weight(BigEndian(bits, 4))
    case Double(bits) => 1 + Weight(BigEndian(bits, 8))
    case Str(s) => TextWeight(s)
    case Dict(entries) => SizeWeight(|entries|) + EntriesWeight(entries)
    case Unknown => 0
  }

  function EntryWeight(e: Entry): (w: nat)
    decreases e, 0
  {
    KeyWeight(e.key) + ItemWeight(e.item)
  }

  function EntriesWeight(entries: seq<Entry>): (w: nat)
    decreases entries, 1
  {
    if entries == [] then 0 else EntryWeight(entries[0]) + EntriesWeight(entries[1..])
  }

  lemma {:induction false} EntriesWeightCons(e: Entry, tail: seq<Entry>)
    ensures EntriesWeight([e] + tail) == KeyWeight(e.key) + ItemWeight(e.item) + EntriesWeight(tail)
  {
    assert ([e] + tail)[1..] == tail;
  }

  lemma {:induction false} EntriesWeightConcat(a: seq<Entry>, b: seq<Entry>)
    ensures EntriesWeight(a + b) == EntriesWeight(a) + EntriesWeight(b)
  {
    if a == [] {
      assert a + b == b;
    } else {
      assert (a + b)[1..] == a[1..] + b;
      EntriesWeightConcat(a[1..], b);
    }
  }

  lemma {:induction false} MoreEntriesNotLighter(n: nat, m: nat)
    requires n <= m
    ensures SizeWeight(n) <= SizeWeight(m) + (m - n)
  {
    Pow256Sizes();
    if 15 <= n {
      CountingUp(n, m, 2);
      CountingUp(n, m, 4);
      if n <= 0xFFFF {
        WiderIsHeavier(n, 2, 2);
      }
    }
  }

  // ---------------------------------------------------------------- reading takes weight

  lemma {:induction false} SkipWeight(s: Stream)
    requires Skip(s).good
    ensures Weight(s.rest) == ByteWeight(Peek(s)) + Weight(Skip(s).rest)
  {
  }

  lemma {:induction false} DropWeight(s: Stream, n: nat)
    requires Drop(s, n).good
    ensures Weight(s.rest) == Weight(ReadBytes(s, n)) + Weight(Drop(s, n).rest)
  {
    assert s.rest == s.rest[..n] + s.rest[n..];
    WeightConcat(s.rest[..n], s.rest[n..]);
  }

  lemma {:induction false} NumberWeight(s: Stream, k: nat)
    requires Drop(s, k).good
    ensures var r := ReadNumber(s, k);
            r.n < Pow256(k) && Weight(s.rest) == Weight(BigEndian(r.n, k)) + Weight(r.next.rest)
  {
    DropWeight(s, k);
    FromBigEndianBound(ReadBytes(s, k));
    BigEndianInverse(ReadBytes(s, k));
  }

  /** No unsigned form is lighter than the encoder's. */
  lemma {:induction false} UintForms(u: nat, k: nat)
    requires k in {1, 2, 4, 8} && u < Pow256(k)
    ensures Weight(EncodeUint(u)) <= 1 + Weight(BigEndian(u, k))
  {
    Pow256Sizes();
    if u <= 0x7F {
    } else if u <= 0xFF {
      WeightCons(0xCC, BigEndian(u, 1));
      WiderIsHeavier(u, 1, k - 1);
    } else if u <= 0xFFFF {
      WeightCons(0xCD, BigEndian(u, 2));
      WiderIsHeavier(u, 2, k - 2);
    } else if u <= 0xFFFF_FFFF {
      WeightCons(0xCE, BigEndian(u, 4));
      WiderIsHeavier(u, 4, k - 4);
    } else {
      WeightCons(0xCF, BigEndian(u, 8));
    }
  }

  lemma {:induction false} NegativePattern(w: Width, i: int)
    requires IsSigned(w, i) && i < 0
    ensures ToPattern(w, i) == i + Pow256(Size(w))
  {
    Pow256Sizes();
    SmallMod(i + Modulus(w), Modulus(w));
  }

  /** A longer signed form of the same number is not lighter. */
  lemma {:induction false} LongerIntForm(c: byte, v: Width, w: Width, i: int)
    requires IsSigned(v, i) && IsSigned(w, i) && i < 0 && Size(v) <= Size(w)
    ensures Weight([c] + BigEndian(ToPattern(v, i), Size(v)))
         <= ByteWeight(c) + Weight(BigEndian(ToPattern(w, i), Size(w)))
  {
    NegativePattern(v, i);
    NegativePattern(w, i);
    WeightCons(c, BigEndian(ToPattern(v, i), Size(v)));
    WiderNegativeIsHeavier(i, Size(v), Size(w) - Size(v));
  }

  /** No signed form of a negative number is lighter than the encoder's. */
  lemma {:induction false} IntForms(i: int, w: Width)
    requires IsSigned(w, i) && i < 0
    ensures Weight(EncodeInt(i)) <= (if w == W8 then 0 else 1) + Weight(BigEndian(ToPattern(w, i), Size(w)))
  {
    if -0x80 <= i {
      LongerIntForm(0xD0, W8, w, i);
      ShortNegative(i);
    } else if -0x8000 <= i {
      LongerIntForm(0xD1, W16, w, i);
    } else if -0x8000_0000 <= i {
      LongerIntForm(0xD2, W32, w, i);
    } else {
      LongerIntForm(0xD3, W64, w, i);
    }
  }

  lemma {:induction false} ShortNegative(i: int)
    requires -0x80 <= i < 0
    ensures Weight(EncodeInt(i)) == ByteWeight(i + 256)
    ensures Weight([0xD0] + BigEndian(ToPattern(W8, i), 1)) == ByteWeight(i + 256)
  {
    NegativePattern(W8, i);
    SmallMod(i + 256, 256);
    assert BigEndian((i + 256) / 256, 0) == [];
    assert BigEndian(i + 256, 1) == [i + 256] == [i + 256] + [];
    WeightCons(i + 256, []);
    WeightCons(0xD0, [i + 256]);
  }

  lemma {:induction false} UintWeight(s: Stream)
    requires ReadUint(s).next.good && FormatFamily(Peek(s)) == UIntF
    ensures Weight(s.rest) >= Weight(EncodeUint(ReadUint(s).n)) + Weight(ReadUint(s).next.rest)
  {
    var c, t := Peek(s), Skip(s);
    SkipWeight(s);
    if c <= 0x7F {
      WeightCons(c, []);
      assert [c] + [] == [c];
    } else {
      var k := if c == 0xCC then 1 else if c == 0xCD then 2 else if c == 0xCE then 4 else 8;
      NumberWeight(t, k);
      UintForms(ReadUint(s).n, k);
    }
  }

  lemma {:induction false} PatternWeight(s: Stream, w: Width)
    requires ReadPattern(s, w).next.good && ReadPattern(s, w).i < 0
    ensures Weight(s.rest) + (if w == W8 then 0 else 1)
         >= Weight(EncodeInt(ReadPattern(s, w).i)) + Weight(ReadPattern(s, w).next.rest)
  {
    var r, i := ReadNumber(s, Size(w)), ReadPattern(s, w).i;
    Pow256Sizes();
    NumberWeight(s, Size(w));
    assert r.n == i + Modulus(w);
    SmallMod(r.n, Modulus(w));
    assert ToPattern(w, i) == r.n;
    IntForms(i, w);
  }

  lemma {:induction false} IntWeight(s: Stream)
    requires ReadInt(s).next.good && FormatFamily(Peek(s)) == IntF && ReadInt(s).i < 0
    ensures Weight(s.rest) >= Weight(EncodeInt(ReadInt(s).i)) + Weight(ReadInt(s).next.rest)
  {
    var c, t := Peek(s), Skip(s);
    SkipWeight(s);
    if 0xE0 <= c {
      ShortNegative(ReadInt(s).i);
    } else if c == 0xD0 {
      PatternWeight(t, W8);
    } else if c == 0xD1 {
      PatternWeight(t, W16);
    } else if c == 0xD2 {
      PatternWeight(t, W32);
    } else {
      PatternWeight(t, W64);
    }
  }

  lemma {:induction false} LengthForms(n: nat, k: nat)
    requires k in {1, 2, 4} && n < Pow256(k)
    ensures LengthWeight(n) <= 1 + Weight(BigEndian(n, k))
  {
    Pow256Sizes();
    if n < 31 {
    } else if n <= 0xFF {
      WiderIsHeavier(n, 1, k - 1);
    } else if n <= 0xFFFF {
      WiderIsHeavier(n, 2, k - 2);
    }
  }

  lemma {:induction false} StringWeight(s: Stream)
    requires ReadString(s).next.good && FormatFamily(Peek(s)) == StrF
    ensures Weight(s.rest) >= TextWeight(ReadString(s).s) + Weight(ReadString(s).next.rest)
  {
    var c, t := Peek(s), Skip(s);
    var length := ReadStringLength(c, t);
    SkipWeight(s);
    DropWeight(length.next, length.n);
    if c >= FIXSTR_END {
      var k := if c == 0xD9 then 1 else if c == 0xDA then 2 else 4;
      NumberWeight(t, k);
      LengthForms(length.n, k);
    }
  }

  lemma {:induction false} KeyReadWeight(s: Stream)
    requires ReadString(s).next.good
    ensures Weight(s.rest) >= KeyWeight(ReadString(s).s) + Weight(ReadString(s).next.rest)
  {
    if FormatFamily(Peek(s)) == StrF {
      StringWeight(s);
    } else {
      SkipWeight(s);
    }
  }

  lemma {:induction false} SizeForms(n: nat, k: nat)
    requires k in {2, 4} && n < Pow256(k)
    ensures SizeWeight(n) <= 1 + Weight(BigEndian(n, k))
  {
    Pow256Sizes();
    if 15 <= n <= 0xFFFF {
      WiderIsHeavier(n, 2, k - 2);
    }
  }

  lemma {:induction false} SizeReadWeight(s: Stream)
    requires FormatFamily(Peek(s)) == MapF && ReadMapSize(Peek(s), Skip(s)).next.good
    ensures var r := ReadMapSize(Peek(s), Skip(s));
            Weight(s.rest) >= SizeWeight(r.n) + Weight(r.next.rest)
  {
    SkipWeight(s);
    if Peek(s) >= FIXMAP_END {
      var k := if Peek(s) == 0xDE then 2 else 4;
      NumberWeight(Skip(s), k);
      SizeForms(ReadMapSize(Peek(s), Skip(s)).n, k);
    }
  }

  lemma {:induction false} FloatReadWeight(s: Stream)
    requires ReadItem(s).next.good && FormatFamily(Peek(s)) == FloatF
    ensures Weight(s.rest) >= ItemWeight(ReadItem(s).item) + Weight(ReadItem(s).next.rest)
  {
    SkipWeight(s);
    NumberWeight(Skip(s), if Peek(s) == 0xCA then 4 else 8);
  }

  lemma {:induction false} ScalarReadWeight(s: Stream)
    requires ReadItem(s).next.good && FormatFamily(Peek(s)) != MapF
    ensures Weight(s.rest) >= ItemWeight(ReadItem(s).item) + Weight(ReadItem(s).next.rest)
  {
    SkipWeight(s);
    match FormatFamily(Peek(s))
    case UIntF => UintWeight(s);
    case IntF =>
      if ReadInt(s).i < 0 {
        IntWeight(s);
      } else {
        IntReadShrinks(s);
      }
    case FloatF => FloatReadWeight(s);
    case StrF => StringWeight(s);
    case _ =>
  }

  lemma {:induction false} IntReadShrinks(s: Stream)
    requires ReadInt(s).next.good && FormatFamily(Peek(s)) == IntF
    ensures Weight(s.rest) >= Weight(ReadInt(s).next.rest)
  {
    var c := Peek(s);
    SkipWeight(s);
    if c < 0xE0 {
      DropWeight(Skip(s), if c == 0xD0 then 1 else if c == 0xD1 then 2 else if c == 0xD2 then 4 else 8);
    }
  }

  lemma {:induction false} NestedRead(s: Stream)
    requires FormatFamily(Peek(s)) == MapF && ReadItem(s).next.good
    ensures var r := ReadMap(s);
            && r.next.good && ReadItem(s) == ReadValue(Dict(r.entries), r.next)
            && ItemWeight(ReadItem(s).item) == SizeWeight(|r.entries|) + EntriesWeight(r.entries)
  {
    assert Reread(s) == s;
  }

  /** Reading a value that ends inside the input takes at least the weight of that value. */
  lemma {:induction false} ItemReadWeight(s: Stream)
    requires ReadItem(s).next.good
    ensures Weight(s.rest) >= ItemWeight(ReadItem(s).item) + Weight(ReadItem(s).next.rest)
    decreases Fuel(s), 1, 0
  {
    if FormatFamily(Peek(s)) == MapF {
      NestedRead(s);
      MapReadWeight(s);
    } else {
      ScalarReadWeight(s);
    }
  }

  /** One turn of the pair loop. */
  lemma {:induction false} PairReadWeight(s: Stream, n: nat)
    requires n > 0
    ensures var key := ReadString(s);
            var value := ReadItem(key.next);
            var tail, all := ReadEntries(value.next, n - 1), ReadEntries(s, n);
            && all.next == tail.next
            && EntriesWeight(all.entries) == KeyWeight(key.s) + ItemWeight(value.item) + EntriesWeight(tail.entries)
  {
    var key := ReadString(s);
    var value := ReadItem(key.next);
    EntriesWeightCons(Entry(key.s, value.item), ReadEntries(value.next, n - 1).entries);
  }

  lemma {:induction false} EntriesReadWeight(s: Stream, n: nat)
    requires ReadEntries(s, n).next.good
    ensures Weight(s.rest) >= EntriesWeight(ReadEntries(s, n).entries) + Weight(ReadEntries(s, n).next.rest)
    decreases Fuel(s), 2, n
  {
    if n != 0 {
      PairReadWeight(s, n);
      var key := ReadString(s);
      var value := ReadItem(key.next);
      EntriesReadWeight(value.next, n - 1);
      ItemReadWeight(key.next);
      KeyReadWeight(s);
    }
  }

  lemma {:induction false} MapReadWeight(s: Stream)
    requires ReadMap(s).next.good
    ensures var r := ReadMap(s);
            Weight(s.rest) >= SizeWeight(|r.entries|) + EntriesWeight(r.entries) + Weight(r.next.rest)
    decreases Fuel(s), 0, 0
  {
    if FormatFamily(Peek(s)) != MapF {
      assert ReadMap(s) == ReadMap(Skip(s));
      SkipWeight(s);
      MapReadWeight(Skip(s));
    } else {
      var size := ReadMapSize(Peek(s), Skip(s));
      assert ReadMap(s) == ReadEntries(size.next, size.n);
      SizeReadWeight(s);
      EntriesReadWeight(size.next, size.n);
    }
  }
}
