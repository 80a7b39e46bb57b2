/** The LCM fingerprint: mixing characters into a 64-bit word. */
module LcmHash {
  import opened Bytes

  /** 64-bit words as unsigned numbers; sums wrap around. */
  type Word = h: nat | h < TWO64

  const TWO55: nat := 0x80_0000_0000_0000
  const TWO56: nat := 0x100_0000_0000_0000
  const TWO63: nat := 0x8000_0000_0000_0000

  function Add(a: Word, x: int): (r: Word) {
    (a + x) % TWO64
  }

  // ---------------------------------------------------------------- one step

  /** A char is signed: bytes from 128 on stand for negative summands. */
  function SignedChar(c: byte): (x: int)
    ensures -128 <= x < 128
  {
    FromPattern(W8, c)
  }

  /** h << 8 without the eight bits that fall off. */
  function ShiftLeft8(h: Word): (x: Word) {
    h % TWO56 * 256
  }

  /** h >> 55 on a signed word, which keeps the sign. */
  function ShiftRight55(h: Word): (k: int)
    ensures -256 <= k < 256
  {
    FromPattern(W64, h) / TWO55
  }

  /**
    * (h << 8) ^ (h >> 55). The left operand ends in eight zero bits, so the low byte is the
    * one of the right operand. Above it the right operand repeats its sign: it leaves the
    * left operand alone or complements it. SpreadIsExclusiveOr checks this bit by bit.
    */
  function Spread(h: Word): (x: Word) {
    var k := ShiftRight55(h);
    if k >= 0 then h % TWO56 * 256 + k
    else (TWO56 - 1 - h % TWO56) * 256 + (k + 256)
  }

  /** calculateHash(char). */
  function Mix(h: Word, c: byte): (x: Word) {
    Add(Spread(h), SignedChar(c))
  }

  /** The state before a mixing step, from the state after it. */
  function Unspread(y: Word): (h: Word) {
    var low, upper := y % 256, y / 256;
    if (upper / TWO55 + low) % 2 == 0 then low / 2 * TWO56 + upper
    else TWO63 + low / 2 * TWO56 + (TWO56 - 1 - upper)
  }

  function Unmix(x: Word, c: byte): (h: Word) {
    Unspread(Add(x, -SignedChar(c)))
  }

  /** A word put together from its sign, the seven bits below it and the 56 bits that are shifted. */
  function Join(sign: nat, mid: nat, low: nat): (h: Word)
    requires sign <= 1 && mid < 128 && low < TWO56
  {
    sign * TWO63 + mid * TWO56 + low
  }

  lemma {:induction false} JoinParts(sign: nat, mid: nat, low: nat)
    requires sign <= 1 && mid < 128 && low < TWO56
    ensures var h := Join(sign, mid, low);
            h % TWO56 == low && h / TWO63 == sign && h % TWO63 / TWO56 == mid
  {
  }

  lemma {:induction false} SplitParts(h: Word)
    ensures h / TWO63 <= 1 && h % TWO63 / TWO56 < 128
    ensures h == Join(h / TWO63, h % TWO63 / TWO56, h % TWO56)
  {
  }

  lemma {:induction false} SignedShift(sign: nat, mid: nat, low: nat)
    requires sign <= 1 && mid < 128 && low < TWO56
    ensures ShiftRight55(Join(sign, mid, low)) == mid * 2 + low / TWO55 - 256 * sign
  {
    var v := FromPattern(W64, Join(sign, mid, low));
    assert v == (mid * 2 - 256 * sign) * TWO55 + low;
  }

  /** The shifted bits come first, complemented under a negative sign, then the byte below the sign. */
  lemma {:induction false} SpreadParts(sign: nat, mid: nat, low: nat)
    requires sign <= 1 && mid < 128 && low < TWO56
    ensures Spread(Join(sign, mid, low))
         == (if sign == 0 then low else TWO56 - 1 - low) * 256 + (mid * 2 + low / TWO55)
  {
    SignedShift(sign, mid, low);
    JoinParts(sign, mid, low);
    assert 0 <= low / TWO55 <= 1;
  }

  lemma {:induction false} UnspreadParts(upper: nat, mid: nat, bit: nat)
    requires upper < TWO56 && mid < 128 && bit <= 1
    ensures Unspread(upper * 256 + (mid * 2 + bit))
         == if upper / TWO55 == bit then Join(0, mid, upper) else Join(1, mid, TWO56 - 1 - upper)
  {
    var y := upper * 256 + (mid * 2 + bit);
    assert y / 256 == upper && y % 256 == mid * 2 + bit;
    assert (mid * 2 + bit) / 2 == mid;
    assert 0 <= upper / TWO55 <= 1;
  }

  lemma {:induction false} ComplementTop(low: nat)
    requires low < TWO56
    ensures (TWO56 - 1 - low) / TWO55 == 1 - low / TWO55
  {
  }

  lemma {:induction false} UnspreadSpread(h: Word)
    ensures Unspread(Spread(h)) == h
  {
    SplitParts(h);
    var sign, mid, low := h / TWO63, h % TWO63 / TWO56, h % TWO56;
    SpreadParts(sign, mid, low);
    ComplementTop(low);
    UnspreadParts(if sign == 0 then low else TWO56 - 1 - low, mid, low / TWO55);
  }

  lemma {:induction false} SpreadUnspreadPositive(upper: nat, mid: nat)
    requires upper < TWO56 && mid < 128
    ensures var y := upper * 256 + (mid * 2 + upper / TWO55); y < TWO64 && Spread(Unspread(y)) == y
  {
    UnspreadParts(upper, mid, upper / TWO55);
    SpreadParts(0, mid, upper);
  }

  lemma {:induction false} SpreadUnspreadNegative(upper: nat, mid: nat)
    requires upper < TWO56 && mid < 128
    ensures var y := upper * 256 + (mid * 2 + (1 - upper / TWO55)); y < TWO64 && Spread(Unspread(y)) == y
  {
    UnspreadParts(upper, mid, 1 - upper / TWO55);
    ComplementTop(upper);
    SpreadParts(1, mid, TWO56 - 1 - upper);
  }

  lemma {:induction false} TakeApart(y: Word) returns (upper: nat, mid: nat, bit: nat)
    ensures upper < TWO56 && mid < 128 && bit <= 1
    ensures y == upper * 256 + (mid * 2 + bit)
  {
    var low := y % 256;
    upper, mid, bit := y / 256, low / 2, low % 2;
  }

  lemma {:induction false} SpreadUnspread(y: Word)
    ensures Spread(Unspread(y)) == y
  {
    var upper, mid, bit := TakeApart(y);
    assert 0 <= upper / TWO55 <= 1;
    if bit == upper / TWO55 {
      SpreadUnspreadPositive(upper, mid);
    } else {
      assert bit == 1 - upper / TWO55;
      SpreadUnspreadNegative(upper, mid);
    }
  }

  lemma {:induction false} AddInverse(a: Word, x: int)
    requires -128 <= x <= 128
    ensures Add(Add(a, x), -x) == a
  {
  }

  /** For every character the mixing step is a bijection on 64-bit states. */
  lemma {:induction false} MixBijective(h: Word, c: byte)
    ensures Unmix(Mix(h, c), c) == h
    ensures Mix(Unmix(h, c), c) == h
  {
    AddInverse(Spread(h), SignedChar(c));
    UnspreadSpread(h);
    AddInverse(h, -SignedChar(c));
    SpreadUnspread(Add(h, -SignedChar(c)));
  }

  lemma {:induction false} SumsDiffer(s: Word, x: int, y: int)
    requires x != y && -128 <= x < 128 && -128 <= y < 128
    ensures Add(s, x) != Add(s, y)
  {
  }

  /** From one state, different characters lead to different states. */
  lemma {:induction false} MixSeparates(h: Word, c: byte, d: byte)
    requires c != d
    ensures Mix(h, c) != Mix(h, d)
  {
    var x, y, s := SignedChar(c), SignedChar(d), Spread(h);
    assert x != y && -256 < x - y < 256;
    SumsDiffer(s, x, y);
  }

  // ---------------------------------------------------------------- the exclusive or

  function Pow2(k: nat): (p: nat)
    ensures p > 0
  {
    if k == 0 then 1 else 2 * Pow2(k - 1)
  }

  function Bit(x: nat, i: nat): (b: nat)
    ensures b <= 1
  {
    if i == 0 then x % 2 else Bit(x / 2, i - 1)
  }

  lemma {:induction false} BitOfComplement(x: nat, n: nat, i: nat)
    requires i < n && x < Pow2(n)
    ensures Bit(Pow2(n) - 1 - x, i) == 1 - Bit(x, i)
  {
    var y := Pow2(n) - 1 - x;
    assert Pow2(n) == 2 * Pow2(n - 1);
    if i != 0 {
      assert y / 2 == Pow2(n - 1) - 1 - x / 2;
      BitOfComplement(x / 2, n - 1, i - 1);
    }
  }

  /** Bits of a number whose last k bits are taken from `low`. */
  lemma {:induction false} BitOfJoin(upper: nat, low: nat, k: nat, i: nat)
    requires low < Pow2(k)
    ensures Bit(upper * Pow2(k) + low, i) == if i < k then Bit(low, i) else Bit(upper, i - k)
  {
    if k == 0 {
      assert upper * Pow2(k) + low == upper;
    } else {
      JoinHalves(upper, low, Pow2(k - 1));
      if i != 0 {
        BitOfJoin(upper, low / 2, k - 1, i - 1);
      }
    }
  }

  lemma {:induction false} JoinHalves(upper: nat, low: nat, p: nat)
    requires low < 2 * p
    ensures (upper * (2 * p) + low) / 2 == upper * p + low / 2
    ensures (upper * (2 * p) + low) % 2 == low % 2
  {
    assert upper * (2 * p) == 2 * (upper * p);
  }

  lemma {:induction false} Pow2Sizes()
    ensures Pow2(8) == 256 && Pow2(56) == TWO56 && Pow2(64) == TWO64
  {
    assert Pow2(8) == 2 * Pow2(7) == 4 * Pow2(6) == 8 * Pow2(5) == 16 * Pow2(4) == 256;
    Pow2Sum(8, 8);
    Pow2Sum(16, 8);
    Pow2Sum(24, 8);
    Pow2Sum(32, 8);
    Pow2Sum(40, 8);
    Pow2Sum(48, 8);
    Pow2Sum(56, 8);
  }

  lemma {:induction false} Pow2Sum(a: nat, b: nat)
    ensures Pow2(a + b) == Pow2(a) * Pow2(b)
  {
    if b != 0 {
      Pow2Sum(a, b - 1);
    }
  }

  /** The right operand as a 64-bit pattern: its low byte under 56 copies of its sign. */
  lemma {:induction false} ShiftedPattern(h: Word)
    ensures var k := ShiftRight55(h);
            ToPattern(W64, k) == if k >= 0 then k else (TWO56 - 1) * 256 + (k + 256)
  {
    var k := ShiftRight55(h);
    if k < 0 {
      SmallMod(k + TWO64, TWO64);
    }
  }

  lemma {:induction false} ShiftedBits(low: nat, i: nat)
    ensures Bit(low * 256, i) == if i < 8 then 0 else Bit(low, i - 8)
  {
    Pow2Sizes();
    BitOfJoin(low, 0, 8, i);
    ZeroBits(i);
  }

  /** Under a byte k and 56 zeros nothing but the low byte changes. */
  lemma {:induction false} XorPositive(low: nat, k: nat, i: nat)
    requires low < TWO56 && k < 256 && i < 64
    ensures Bit(low * 256 + k, i) == (Bit(low * 256, i) + Bit(k, i)) % 2
  {
    Pow2Sizes();
    ShiftedBits(low, i);
    BitOfJoin(low, k, 8, i);
    SmallBits(k, i);
  }

  /** Under a byte k and 56 ones the upper bits are complemented. */
  lemma {:induction false} XorNegative(low: nat, k: nat, i: nat)
    requires low < TWO56 && k < 256 && i < 64
    ensures Bit((TWO56 - 1 - low) * 256 + k, i) == (Bit(low * 256, i) + Bit((TWO56 - 1) * 256 + k, i)) % 2
  {
    Pow2Sizes();
    ShiftedBits(low, i);
    BitOfJoin(TWO56 - 1 - low, k, 8, i);
    BitOfJoin(TWO56 - 1, k, 8, i);
    ComplementBits(low, i);
  }

  /** Every bit of the mixed word is the exclusive or of the bits of the two shifted words. */
  lemma {:induction false} SpreadIsExclusiveOr(h: Word, i: nat)
    requires i < 64
    ensures Bit(Spread(h), i) == (Bit(ShiftLeft8(h), i) + Bit(ToPattern(W64, ShiftRight55(h)), i)) % 2
  {
    var k := ShiftRight55(h);
    ShiftedPattern(h);
    if k >= 0 {
      XorPositive(h % TWO56, k, i);
    } else {
      XorNegative(h % TWO56, k + 256, i);
    }
  }

  lemma {:induction false} SmallBits(k: nat, i: nat)
    requires k < 256
    ensures i >= 8 ==> Bit(k, i) == 0
  {
    Pow2Sizes();
    BitOfJoin(0, k, 8, i);
    if i >= 8 {
      ZeroBits(i - 8);
    }
  }

  lemma {:induction false} ComplementBits(low: nat, i: nat)
    requires low < TWO56 && i < 64
    ensures i >= 8 ==> Bit(TWO56 - 1 - low, i - 8) == 1 - Bit(low, i - 8) && Bit(TWO56 - 1, i - 8) == 1
  {
    Pow2Sizes();
    if i >= 8 {
      BitOfComplement(low, 56, i - 8);
      BitOfComplement(0, 56, i - 8);
      ZeroBits(i - 8);
    }
  }

  lemma {:induction false} ZeroBits(i: nat)
    ensures Bit(0, i) == 0
  {
    if i != 0 {
      ZeroBits(i - 1);
    }
  }

  // ---------------------------------------------------------------- streams of characters

  function MixAll(h: Word, s: bytes): (x: Word)
    decreases |s|
  {
    if s == [] then h else MixAll(Mix(h, s[0]), s[1..])
  }

  lemma {:induction false} MixAllConcat(h: Word, s: bytes, t: bytes)
    ensures MixAll(h, s + t) == MixAll(MixAll(h, s), t)
    decreases |s|
  {
    if s == [] {
      assert s + t == t;
    } else {
      assert (s + t)[1..] == s[1..] + t;
      MixAllConcat(Mix(h, s[0]), s[1..], t);
    }
  }

  lemma {:induction false} MixAllInjective(a: Word, b: Word, s: bytes)
    ensures MixAll(a, s) == MixAll(b, s) ==> a == b
    decreases |s|
  {
    if s != [] {
      MixAllInjective(Mix(a, s[0]), Mix(b, s[0]), s[1..]);
      MixBijective(a, s[0]);
      MixBijective(b, s[0]);
    }
  }

  /** The final step is a rotation by one bit: (h << 1) + ((h >> 63) & 1). */
  function Rotate(h: Word): (x: Word) {
    h % TWO63 * 2 + h / TWO63
  }

  /** Every bit moves up by one, and the highest one becomes the lowest. */
  lemma {:induction false} RotateBits(h: Word, i: nat)
    requires i < 64
    ensures Bit(Rotate(h), i) == if i == 0 then Bit(h, 63) else Bit(h, i - 1)
  {
    var low, high := h % TWO63, h / TWO63;
    Pow2Sizes();
    assert Pow2(64) == 2 * Pow2(63) && Pow2(1) == 2 * Pow2(0);
    BitOfJoin(low, high, 1, i);
    BitOfJoin(high, low, 63, if i == 0 then 63 else i - 1);
  }

  lemma {:induction false} RotateInjective(a: Word, b: Word)
    ensures Rotate(a) == Rotate(b) ==> a == b
  {
  }

  /** The same length and a different character in exactly one place. */
  ghost predicate OneCharacterApart(s: bytes, t: bytes) {
    exists i :: 0 <= i < |s| && OneCharacterAt(s, t, i)
  }

  ghost predicate OneCharacterAt(s: bytes, t: bytes, i: int)
    requires 0 <= i < |s|
  {
    |s| == |t| && s[i] != t[i] && s[..i] == t[..i] && s[i + 1..] == t[i + 1..]
  }

  lemma {:induction false} SplitAt(h: Word, s: bytes, i: nat)
    requires i < |s|
    ensures MixAll(h, s) == MixAll(Mix(MixAll(h, s[..i]), s[i]), s[i + 1..])
  {
    assert s == s[..i] + s[i..];
    MixAllConcat(h, s[..i], s[i..]);
    assert s[i..][1..] == s[i + 1..];
  }

  /** Streams one character apart never collide, from any seed and whatever follows them. */
  lemma {:induction false} NoCollision(h: Word, s: bytes, t: bytes)
    requires OneCharacterApart(s, t)
    ensures MixAll(h, s) != MixAll(h, t)
    ensures Rotate(MixAll(h, s)) != Rotate(MixAll(h, t))
  {
    var i :| 0 <= i < |s| && OneCharacterAt(s, t, i);
    var before := MixAll(h, s[..i]);
    SplitAt(h, s, i);
    SplitAt(h, t, i);
    MixSeparates(before, s[i], t[i]);
    MixAllInjective(Mix(before, s[i]), Mix(before, t[i]), s[i + 1..]);
    RotateInjective(MixAll(h, s), MixAll(h, t));
  }
}
