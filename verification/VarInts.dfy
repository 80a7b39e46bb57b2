/** Base 128 varints and the ZigZag mapping of the Protocol Buffers encoding. */
module VarInts {
  import opened Bytes
  import opened Streams

  // ---------------------------------------------------------------- encoding

  /** Groups of seven bits, least significant first, every byte but the last one marked. */
  function VarInt(v: nat): (b: bytes)
    ensures |b| >= 1
  {
    if v < 128 then [v] else [v % 128 + 128] + VarInt(v / 128)
  }

  /** The encoder's loop: writes marked groups while more than seven bits are left. */
  method ToVarInt(v: nat) returns (out: bytes, size: nat)
    requires v < TWO64
    ensures out == VarInt(v) && size == |out|
  {
    out, size := [], 1;
    var rest := v;
    while 0x7f < rest
      invariant size == |out| + 1
      invariant out + VarInt(rest) == VarInt(v)
    {
      assert VarInt(rest) == [rest % 128 + 128] + VarInt(rest / 128);
      out := out + [rest % 128 + 128];
      rest := rest / 128;
      size := size + 1;
    }
    out := out + [rest];
  }

  // ---------------------------------------------------------------- decoding

  /** 128 to the power k. */
  function Pow128(k: nat): (p: nat)
    ensures p > 0
  {
    if k == 0 then 1 else 128 * Pow128(k - 1)
  }

  /**
    * What the decoder leaves in `value`: group number `size` is shifted by 7*size and
    * merged into a 64-bit word. The groups occupy different bits (GroupsDoNotOverlap), so
    * the merging "or" is an addition; bits shifted beyond bit 63 are lost.
    */
  function Merge(value: nat, size: nat, c: byte): (r: nat) {
    (value + c % 128 * Pow128(size)) % TWO64
  }

  datatype Decoded = Decoded(value: nat, size: nat, next: Stream)

  function VarIntFrom(s: Stream, value: nat, size: nat): (r: Decoded)
    ensures |r.next.rest| <= |s.rest| && r.size >= size
    ensures s.good ==> Fuel(r.next) < Fuel(s) && r.size > size
    decreases Fuel(s)
  {
    if !s.good then Decoded(value, size, s)
    else
      var c := Peek(s);
      var merged := Merge(value, size, c);
      if c < 128 then Decoded(merged, size + 1, Skip(s))
      else VarIntFrom(Skip(s), merged, size + 1)
  }

  /** The whole decoding step: value, number of bytes taken and the stream behind them. */
  function FromVarInt(s: Stream): (r: Decoded)
    ensures |r.next.rest| <= |s.rest|
    ensures s.good ==> Fuel(r.next) < Fuel(s) && r.size > 0
  {
    VarIntFrom(s, 0, 0)
  }

  method ReadVarInt(stream: InStream) returns (value: nat, size: nat)
    requires stream.Valid()
    modifies stream
    ensures stream.Valid()
    ensures Decoded(value, size, stream.View()) == FromVarInt(old(stream.View()))
  {
    value, size := 0, 0;
    var more := true;
    while stream.good && more
      invariant stream.Valid()
      invariant FromVarInt(old(stream.View()))
             == if more then VarIntFrom(stream.View(), value, size)
                else Decoded(value, size, stream.View())
      decreases Fuel(stream.View()), more
    {
      var c := stream.Get();
      value := Merge(value, size, c);
      size := size + 1;
      more := c >= 128;
    }
  }

  // ---------------------------------------------------------------- round trip

  lemma {:induction false} MulShift(w: nat, p: nat)
    ensures w * p == w % 128 * p + w / 128 * (128 * p)
    ensures w % 128 * p >= 0 && w / 128 * (128 * p) >= 0
  {
    assert w == w % 128 + 128 * (w / 128);
    assert w * p == (w % 128) * p + (128 * (w / 128)) * p;
  }

  lemma {:induction false} MergeFits(value: nat, size: nat, c: byte)
    requires value + c % 128 * Pow128(size) < TWO64
    ensures Merge(value, size, c) == value + c % 128 * Pow128(size)
  {
    assert c % 128 * Pow128(size) >= 0;
    var sum: nat := value + c % 128 * Pow128(size);
    assert sum % TWO64 == sum;
  }

  /** One turn of the decoding loop on a byte that is there. */
  lemma {:induction false} VarIntStep(c: byte, rest: bytes, value: nat, size: nat)
    ensures VarIntFrom(Stream([c] + rest, true), value, size)
         == var merged := Merge(value, size, c);
            if c < 128 then Decoded(merged, size + 1, Stream(rest, true))
            else VarIntFrom(Stream(rest, true), merged, size + 1)
  {
    var s := Stream([c] + rest, true);
    assert s.rest[1..] == rest;
    assert Peek(s) == c && Skip(s) == Stream(rest, true);
  }

  /** Decoding resumes anywhere: after `size` groups worth `value`, the rest adds w * 128^size. */
  lemma {:induction false} ResumedRoundTrip(w: nat, value: nat, size: nat, rest: bytes)
    requires value + w * Pow128(size) < TWO64
    ensures VarIntFrom(Stream(VarInt(w) + rest, true), value, size)
         == Decoded(value + w * Pow128(size), size + |VarInt(w)|, Stream(rest, true))
    decreases w
  {
    MulShift(w, Pow128(size));
    if w < 128 {
      MergeFits(value, size, w);
      VarIntStep(w, rest, value, size);
    } else {
      var tail := VarInt(w / 128);
      assert VarInt(w) + rest == [w % 128 + 128] + (tail + rest);
      assert (w % 128 + 128) % 128 == w % 128;
      MergeFits(value, size, w % 128 + 128);
      VarIntStep(w % 128 + 128, tail + rest, value, size);
      assert Pow128(size + 1) == 128 * Pow128(size);
      ResumedRoundTrip(w / 128, value + w % 128 * Pow128(size), size + 1, rest);
    }
  }

  /** Every 64-bit value comes back in front of any suffix, and both sides count the same bytes. */
  lemma {:induction false} VarIntRoundTrip(v: nat, rest: bytes)
    requires v < TWO64
    ensures FromVarInt(Stream(VarInt(v) + rest, true)) == Decoded(v, |VarInt(v)|, Stream(rest, true))
  {
    ResumedRoundTrip(v, 0, 0, rest);
  }

  /** No encoding is a prefix of another one. */
  lemma {:induction false} VarIntPrefixFree(u: nat, v: nat)
    requires u < TWO64 && v < TWO64
    requires VarInt(u) <= VarInt(v)
    ensures u == v
  {
    VarIntRoundTrip(u, VarInt(v)[|VarInt(u)|..]);
    VarIntRoundTrip(v, []);
    assert VarInt(u) + VarInt(v)[|VarInt(u)|..] == VarInt(v) == VarInt(v) + [];
  }

  // ---------------------------------------------------------------- size

  /** k bytes hold exactly the values below 128^k. */
  lemma {:induction false} VarIntSize(v: nat, k: nat)
    requires k >= 1
    ensures |VarInt(v)| <= k <==> v < Pow128(k)
  {
    if v < 128 {
      assert Pow128(k) == 128 * Pow128(k - 1);
    } else if k > 1 {
      VarIntSize(v / 128, k - 1);
    }
  }

  lemma {:induction false} VarIntSizeBounds(v: nat)
    requires v < TWO64
    ensures 1 <= |VarInt(v)| <= 10
  {
    assert Pow128(2) == 16384;
    assert Pow128(4) == 128 * Pow128(3) == 16384 * 16384;
    assert Pow128(6) == 128 * Pow128(5) == 16384 * Pow128(4);
    assert Pow128(8) == 128 * Pow128(7) == 16384 * Pow128(6);
    assert Pow128(10) == 128 * Pow128(9) == 16384 * Pow128(8);
    VarIntSize(v, 10);
  }

  lemma {:induction false} GroupBound(group: nat, p: nat)
    requires group < 128
    ensures 0 <= group * p <= 127 * p
  {
  }

  lemma {:induction false} MergeBound(value: nat, size: nat, c: byte)
    requires value < Pow128(size)
    ensures Merge(value, size, c) < Pow128(size + 1)
  {
    GroupBound(c % 128, Pow128(size));
    var sum: nat := value + c % 128 * Pow128(size);
    assert sum % TWO64 <= sum;
  }

  /** The groups merged so far lie below the bits of the group that comes next. */
  lemma {:induction false} GroupsDoNotOverlap(s: Stream, value: nat, size: nat)
    requires value < Pow128(size)
    ensures var r := VarIntFrom(s, value, size); r.value < Pow128(r.size)
    decreases Fuel(s)
  {
    if s.good {
      MergeBound(value, size, Peek(s));
      if Peek(s) >= 128 {
        GroupsDoNotOverlap(Skip(s), Merge(value, size, Peek(s)), size + 1);
      }
    }
  }

  /** Whatever bytes a value is decoded from, the encoder would not have needed more of them. */
  lemma {:induction false} VarIntShortest(s: Stream)
    requires s.good
    ensures |VarInt(FromVarInt(s).value)| <= FromVarInt(s).size
  {
    GroupsDoNotOverlap(s, 0, 0);
    VarIntSize(FromVarInt(s).value, FromVarInt(s).size);
  }

  /** The key a decoder reads at the end of its input carries the unassigned wire type 7. */
  lemma {:induction false} VarIntAtEnd(s: Stream)
    requires s.good && s.rest == []
    ensures FromVarInt(s) == Decoded(0x7f, 1, Stream([], false)) && 0x7f % 8 == 7
  {
    assert Merge(0, 0, 0xFF) == 0x7f;
    assert VarIntFrom(Skip(s), 0x7f, 1) == Decoded(0x7f, 1, Skip(s));
  }

  /** Byte i holds the seven bits from 7i on, and all bytes but the last are marked. */
  lemma {:induction false} VarIntDigit(v: nat, i: nat)
    requires i < |VarInt(v)|
    ensures VarInt(v)[i] % 128 == v / Pow128(i) % 128
    ensures VarInt(v)[i] >= 128 <==> i < |VarInt(v)| - 1
  {
    if i > 0 {
      VarIntDigit(v / 128, i - 1);
      DivDiv(v, 128, Pow128(i - 1));
    }
  }

  // ---------------------------------------------------------------- ZigZag

  /** x xor a word that is all ones (-1) or all zeros: the complement -1 - x, or x itself. */
  function XorMask(x: int, ones: bool): (r: int) {
    if ones then -1 - x else x
  }

  /** (v << 1) ^ (v >> (bits - 1)): the arithmetic shift yields -1 for negative v and 0 otherwise. */
  function ToZigZag(w: Width, v: int): (u: nat)
    requires IsSigned(w, v)
    ensures IsUnsigned(w, u)
  {
    XorMask(2 * v, v < 0) % Modulus(w)
  }

  /** (u >> 1) ^ -(u & 1), truncated to the width. */
  function FromZigZag(w: Width, u: nat): (v: int)
    requires IsUnsigned(w, u)
    ensures IsSigned(w, v)
  {
    FromPattern(w, XorMask(u / 2, u % 2 == 1) % Modulus(w))
  }

  lemma {:induction false} ZigZagRoundTrip(w: Width, v: int)
    requires IsSigned(w, v)
    ensures ToZigZag(w, v) == if v < 0 then -2 * v - 1 else 2 * v
    ensures FromZigZag(w, ToZigZag(w, v)) == v
  {
    SmallMod(XorMask(2 * v, v < 0), Modulus(w));
    var u := ToZigZag(w, v);
    assert XorMask(u / 2, u % 2 == 1) == v;
    PatternRoundTrip(w, v);
  }

  lemma {:induction false} ZigZagInverse(w: Width, u: nat)
    requires IsUnsigned(w, u)
    ensures ToZigZag(w, FromZigZag(w, u)) == u
  {
    var x := XorMask(u / 2, u % 2 == 1);
    assert IsSigned(w, x);
    PatternRoundTrip(w, x);
    ZigZagRoundTrip(w, x);
  }

  /** A signed value takes at most k bytes exactly when it fits into 7k - 1 bits and a sign. */
  lemma {:induction false} SignedVarIntSize(w: Width, v: int, k: nat)
    requires IsSigned(w, v) && k >= 1
    ensures |VarInt(ToZigZag(w, v))| <= k <==> -(Pow128(k) / 2) <= v < Pow128(k) / 2
  {
    ZigZagRoundTrip(w, v);
    VarIntSize(ToZigZag(w, v), k);
    assert Pow128(k) == 2 * (64 * Pow128(k - 1));
  }
}
