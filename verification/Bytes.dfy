/** Bytes, fixed-width integers and byte orders, the vocabulary all wire formats share. */
module Bytes {

  type byte = x: int | 0 <= x < 256
  type bytes = seq<byte>

  /** The integer widths of the message description language. */
  datatype Width = W8 | W16 | W32 | W64

  /** Number of bytes of a width. */
  function Size(w: Width): (n: nat)
    ensures 1 <= n <= 8
  {
    match w case W8 => 1 case W16 => 2 case W32 => 4 case W64 => 8
  }

  /** 2 to the number of bits of a width. */
  function Modulus(w: Width): (m: nat)
    ensures m > 0 && m % 2 == 0
  {
    match w
    case W8 => 0x100
    case W16 => 0x1_0000
    case W32 => 0x1_0000_0000
    case W64 => 0x1_0000_0000_0000_0000
  }

  const TWO32: nat := 0x1_0000_0000
  const TWO64: nat := 0x1_0000_0000_0000_0000

  predicate IsUnsigned(w: Width, v: int) { 0 <= v < Modulus(w) }

  predicate IsSigned(w: Width, v: int) { -(Modulus(w) / 2) <= v < Modulus(w) / 2 }

  /** The two's complement bit pattern of an integer, as an unsigned number. */
  function ToPattern(w: Width, v: int): (u: nat)
    ensures IsUnsigned(w, u)
  {
    v % Modulus(w)
  }

  /** Reads a bit pattern as a signed number. */
  function FromPattern(w: Width, u: nat): (v: int)
    requires IsUnsigned(w, u)
    ensures IsSigned(w, v)
  {
    if u < Modulus(w) / 2 then u else u - Modulus(w)
  }

  lemma {:induction false} PatternRoundTrip(w: Width, v: int)
    requires IsSigned(w, v)
    ensures FromPattern(w, ToPattern(w, v)) == v
  {
    if v < 0 {
      assert v % Modulus(w) == v + Modulus(w);
    }
  }

  /** 256 to the power k. */
  function Pow256(k: nat): (p: nat)
    ensures p > 0
  {
    if k == 0 then 1 else 256 * Pow256(k - 1)
  }

  lemma {:induction false} Pow256Sizes()
    ensures Pow256(1) == 0x100 && Pow256(2) == 0x1_0000
    ensures Pow256(4) == TWO32 && Pow256(8) == TWO64
    ensures forall w: Width :: Pow256(Size(w)) == Modulus(w)
  {
    assert Pow256(4) == 256 * Pow256(3) == 256 * 256 * Pow256(2);
    assert Pow256(8) == 256 * Pow256(7) == 256 * 256 * Pow256(6) == 256 * 256 * 256 * Pow256(5);
  }

  lemma {:induction false} DivBelow(v: nat, p: nat)
    requires v < 256 * p
    ensures v / 256 < p
  {
  }

  lemma {:induction false} Associative<T>(a: seq<T>, b: seq<T>, c: seq<T>)
    ensures a + (b + c) == a + b + c
  {
  }

  lemma {:induction false} EmptyFirst<T>(s: seq<T>)
    ensures [] + s == s
  {
  }

  lemma {:induction false} TakeNext<T>(s: seq<T>, i: nat)
    requires i < |s|
    ensures s[..i + 1] == s[..i] + [s[i]]
  {
  }

  /** The remainder of a number that is small already. */
  lemma {:induction false} SmallMod(x: int, m: nat)
    requires 0 <= x < m
    ensures x % m == x
  {
  }

  lemma {:induction false} OneTimeMore(k: nat, m: nat)
    requires k > 0
    ensures k * m == (k - 1) * m + m
  {
  }

  lemma {:induction false} Apart(k: nat, q: nat, m: nat)
    ensures k > q ==> k * m >= q * m + m
  {
    if k > q {
      OneTimeMore(k, m);
      Apart(k - 1, q, m);
    }
  }

  lemma {:induction false} DivJoin(q: nat, r: nat, m: nat)
    requires r < m
    ensures (q * m + r) / m == q && (q * m + r) % m == r
  {
    var x := q * m + r;
    assert x == x / m * m + x % m;
    Apart(x / m, q, m);
    Apart(q, x / m, m);
  }

  /** The k low-order bytes of v, least significant first. */
  function LittleEndian(v: nat, k: nat): (b: bytes)
    ensures |b| == k
  {
    if k == 0 then [] else [v % 256] + LittleEndian(v / 256, k - 1)
  }

  function FromLittleEndian(b: bytes): (v: nat) {
    if b == [] then 0 else b[0] + 256 * FromLittleEndian(b[1..])
  }

  lemma {:induction false} LittleEndianRoundTrip(v: nat, k: nat)
    requires v < Pow256(k)
    ensures FromLittleEndian(LittleEndian(v, k)) == v
  {
    if k != 0 {
      DivBelow(v, Pow256(k - 1));
      LittleEndianRoundTrip(v / 256, k - 1);
      assert LittleEndian(v, k)[1..] == LittleEndian(v / 256, k - 1);
    }
  }

  /** The k low-order bytes of v, most significant first (network order). */
  function BigEndian(v: nat, k: nat): (b: bytes)
    ensures |b| == k
  {
    if k == 0 then [] else BigEndian(v / 256, k - 1) + [v % 256]
  }

  function FromBigEndian(b: bytes): (v: nat) {
    if b == [] then 0 else 256 * FromBigEndian(b[..|b| - 1]) + b[|b| - 1]
  }

  lemma {:induction false} BigEndianRoundTrip(v: nat, k: nat)
    requires v < Pow256(k)
    ensures FromBigEndian(BigEndian(v, k)) == v
  {
    if k != 0 {
      DivBelow(v, Pow256(k - 1));
      BigEndianRoundTrip(v / 256, k - 1);
      assert BigEndian(v, k)[..k - 1] == BigEndian(v / 256, k - 1);
    }
  }

  lemma {:induction false} FromBigEndianBound(b: bytes)
    ensures FromBigEndian(b) < Pow256(|b|)
  {
    if b != [] {
      FromBigEndianBound(b[..|b| - 1]);
    }
  }

  /** Reading k bytes and writing them again is the identity: big endian is a bijection. */
  lemma {:induction false} BigEndianInverse(b: bytes)
    ensures BigEndian(FromBigEndian(b), |b|) == b
  {
    if b != [] {
      BigEndianInverse(b[..|b| - 1]);
    }
  }

  // ---------------------------------------------------------------- single digits

  lemma {:induction false} Regrouped(q: nat, p: nat, r: nat, m: nat, s: nat)
    ensures (q * p + r) * m + s == q * (m * p) + (r * m + s)
  {
    assert (q * p + r) * m == q * p * m + r * m;
    assert q * p * m == q * (p * m) == q * (m * p);
  }

  lemma {:induction false} Digits(v: nat, m: nat)
    requires m > 0
    ensures v == v / m * m + v % m
  {
  }

  /** Dividing twice. */
  lemma {:induction false} DivDiv(v: nat, m: nat, p: nat)
    requires m > 0 && p > 0
    ensures m * p > 0 && v / m / p == v / (m * p)
  {
    var q, r, s := v / m / p, v / m % p, v % m;
    Digits(v, m);
    Digits(v / m, p);
    Regrouped(q, p, r, m, s);
    Below(r, m, s, p);
    DivJoin(q, r * m + s, m * p);
  }

  lemma {:induction false} Below(r: nat, m: nat, s: nat, p: nat)
    requires r < p && s < m
    ensures 0 < m * p && r * m + s < m * p
  {
    Apart(p, r, m);
    assert m * p == p * m;
  }

  /** The byte at place i of a number, most significant first. */
  lemma {:induction false} BigEndianDigit(v: nat, k: nat, i: nat)
    requires i < k
    ensures BigEndian(v, k)[i] == v / Pow256(k - 1 - i) % 256
  {
    if i < k - 1 {
      BigEndianDigit(v / 256, k - 1, i);
      DivDiv(v, 256, Pow256(k - 2 - i));
    }
  }

  /** The byte at place i of a number, least significant first. */
  lemma {:induction false} LittleEndianDigit(v: nat, k: nat, i: nat)
    requires i < k
    ensures LittleEndian(v, k)[i] == v / Pow256(i) % 256
  {
    if i > 0 {
      LittleEndianDigit(v / 256, k - 1, i - 1);
      DivDiv(v, 256, Pow256(i - 1));
    }
  }

  /** What a cast to a width keeps: the number up to a multiple of the modulus. */
  lemma {:induction false} LowBits(w: Width, x: int)
    ensures IsUnsigned(w, x % Modulus(w)) && (x - x % Modulus(w)) % Modulus(w) == 0
    ensures var v := FromPattern(w, ToPattern(w, x)); IsSigned(w, v) && (x - v) % Modulus(w) == 0
  {
    var m := Modulus(w);
    var q, r := x / m, x % m;
    assert x == q * m + r;
    Multiple(q, m);
    Multiple(q + 1, m);
    assert (q + 1) * m == q * m + m;
  }

  lemma {:induction false} Multiple(q: int, m: nat)
    requires m > 0
    ensures q * m % m == 0
  {
    var x := q * m;
    assert x == x / m * m + x % m;
    var d := q - x / m;
    assert d * m == x % m;
    if d >= 1 {
      Apart(d, 0, m);
    } else if d < 0 {
      assert -d * m == -(x % m);
      Apart(-d, 0, m);
    }
  }

  /** Bit patterns of negative numbers are two's complements. */
  lemma {:induction false} TwosComplement(w: Width, v: int)
    requires IsSigned(w, v)
    ensures ToPattern(w, v) == if v < 0 then v + Modulus(w) else v
  {
    SmallMod(if v < 0 then v + Modulus(w) else v, Modulus(w));
  }
}
