/** Base64 as the JSON visitors use it for strings, after section 4 of RFC 4648. */
module Base64 {
  import opened Bytes

  /** A-Z, a-z, 0-9, + and /, in this order. */
  function Letter(i: nat): (c: char)
    requires i < 64
  {
    if i < 26 then (65 + i) as char
    else if i < 52 then (71 + i) as char
    else if i < 62 then (i - 4) as char
    else if i == 62 then '+'
    else '/'
  }

  const ALPHABET: string := seq(64, i requires 0 <= i < 64 => Letter(i))

  const NONE: nat := 64

  /** What the decoder's search for a character ends with: its place, or 64 for all others. */
  function Place(c: char): (i: nat)
    ensures i <= NONE
  {
    var n := c as int;
    if 65 <= n <= 90 then n - 65
    else if 97 <= n <= 122 then n - 71
    else if 48 <= n <= 57 then n + 4
    else if c == '+' then 62
    else if c == '/' then 63
    else NONE
  }

  lemma {:induction false} PlaceOfLetter(i: nat)
    requires i < 64
    ensures Place(Letter(i)) == i
  {
  }

  lemma {:induction false} LetterOfPlace(c: char)
    ensures Place(c) < 64 ==> Letter(Place(c)) == c
  {
  }

  /** Eight letters of the alphabet, from a place on. */
  function Eight(i: nat): (t: string)
    requires i <= 56
  {
    [Letter(i), Letter(i + 1), Letter(i + 2), Letter(i + 3), Letter(i + 4), Letter(i + 5), Letter(i + 6), Letter(i + 7)]
  }

  lemma {:induction false} EightAt(i: nat)
    requires i <= 56
    ensures ALPHABET[i..i + 8] == Eight(i)
  {
  }

  lemma {:induction false} InEights(t: string)
    requires |t| == 64
    ensures t == t[0..8] + t[8..16] + t[16..24] + t[24..32] + t[32..40] + t[40..48] + t[48..56] + t[56..64]
  {
  }

  lemma {:induction false} LettersInEights()
    ensures Eight(0) == "ABCDEFGH" && Eight(8) == "IJKLMNOP"
    ensures Eight(16) == "QRSTUVWX" && Eight(24) == "YZabcdef"
    ensures Eight(32) == "ghijklmn" && Eight(40) == "opqrstuv"
    ensures Eight(48) == "wxyz0123" && Eight(56) == "456789+/"
  {
  }

  /** The alphabet of section 4 of RFC 4648. */
  lemma {:induction false} Alphabet()
    ensures ALPHABET == "ABCDEFGH" + "IJKLMNOP" + "QRSTUVWX" + "YZabcdef" + "ghijklmn" + "opqrstuv" + "wxyz0123" + "456789+/"
  {
    InEights(ALPHABET);
    LettersInEights();
    EightAt(0);
    EightAt(8);
    EightAt(16);
    EightAt(24);
    EightAt(32);
    EightAt(40);
    EightAt(48);
    EightAt(56);
  }

  // ---------------------------------------------------------------- one block

  /** Three bytes in, four characters out; missing bytes count as zero and become padding. */
  function EncodeBlock(a: byte, b: byte, c: byte, missing: nat): (t: string)
    requires missing <= 2
    ensures |t| == 4
  {
    var value := a * 65536 + b * 256 + c;
    [Letter(value / 262144), Letter(value / 4096 % 64),
     if missing == 2 then '=' else Letter(value / 64 % 64),
     if missing >= 1 then '=' else Letter(value % 64)]
  }

  /** Four places in, one to three bytes out. */
  function DecodeBlock(b0: nat, b1: nat, b2: nat, b3: nat): (s: bytes) {
    [(b0 * 4 + b1 / 16) % 256]
    + (if b2 != NONE then [(b1 * 16 + b2 / 4) % 256] else [])
    + (if b3 != NONE then [(b2 * 64 + b3) % 256] else [])
  }

  function DecodeChars(t: string): (s: bytes)
    requires |t| == 4
  {
    DecodeBlock(Place(t[0]), Place(t[1]), Place(t[2]), Place(t[3]))
  }

  /** The four groups of six bits, in terms of the bytes they are cut from. */
  lemma {:induction false} Sextets(a: byte, b: byte, c: byte)
    ensures var value := a * 65536 + b * 256 + c;
            && value / 262144 == a / 4
            && value / 4096 % 64 == a % 4 * 16 + b / 16
            && value / 64 % 64 == b % 16 * 4 + c / 64
            && value % 64 == c % 64
  {
    DivJoin(a / 4, a % 4 * 65536 + b * 256 + c, 262144);
    DivJoin(a * 16 + b / 16, b % 16 * 256 + c, 4096);
    DivJoin(a / 4, a % 4 * 16 + b / 16, 64);
    DivJoin(a * 1024 + b * 4 + c / 64, c % 64, 64);
    DivJoin(a * 16 + b / 16, b % 16 * 4 + c / 64, 64);
  }

  lemma {:induction false} BlockForm(a: byte, b: byte, c: byte, missing: nat)
    requires missing <= 2
    ensures EncodeBlock(a, b, c, missing)
         == [Letter(a / 4), Letter(a % 4 * 16 + b / 16),
             if missing == 2 then '=' else Letter(b % 16 * 4 + c / 64),
             if missing >= 1 then '=' else Letter(c % 64)]
  {
    Sextets(a, b, c);
  }

  lemma {:induction false} BlockPlaces(a: byte, b: byte, c: byte, missing: nat)
    requires missing <= 2
    ensures var t := EncodeBlock(a, b, c, missing);
            && Place(t[0]) == a / 4 && Place(t[1]) == a % 4 * 16 + b / 16
            && Place(t[2]) == (if missing == 2 then NONE else b % 16 * 4 + c / 64)
            && Place(t[3]) == if missing >= 1 then NONE else c % 64
  {
    BlockForm(a, b, c, missing);
    PlaceOfLetter(a / 4);
    PlaceOfLetter(a % 4 * 16 + b / 16);
    PlaceOfLetter(b % 16 * 4 + c / 64);
    PlaceOfLetter(c % 64);
  }

  lemma {:induction false} JoinSextets(a: byte, b: byte, c: byte)
    ensures (a / 4 * 4 + (a % 4 * 16 + b / 16) / 16) % 256 == a
    ensures ((a % 4 * 16 + b / 16) * 16 + (b % 16 * 4 + c / 64) / 4) % 256 == b
    ensures ((b % 16 * 4 + c / 64) * 64 + c % 64) % 256 == c
  {
    DivJoin(a % 4, b / 16, 16);
    DivJoin(b % 16, c / 64, 4);
    DivJoin(a % 4, b, 256);
    DivJoin(b % 16, c, 256);
  }

  lemma {:induction false} PlacesDecode(p0: nat, p1: nat, p2: nat, p3: nat, a: byte, b: byte, c: byte, missing: nat)
    requires missing <= 2 && (p0 * 4 + p1 / 16) % 256 == a
    requires if missing == 2 then p2 == NONE else p2 != NONE && (p1 * 16 + p2 / 4) % 256 == b
    requires if missing >= 1 then p3 == NONE else p3 != NONE && (p2 * 64 + p3) % 256 == c
    ensures DecodeBlock(p0, p1, p2, p3) == [a, b, c][..3 - missing]
  {
  }

  /** A block of bytes comes back, whether full or padded. */
  lemma {:induction false} BlockRoundTrip(a: byte, b: byte, c: byte, missing: nat)
    requires missing <= 2 && (missing >= 1 ==> c == 0) && (missing == 2 ==> b == 0)
    ensures DecodeChars(EncodeBlock(a, b, c, missing)) == [a, b, c][..3 - missing]
  {
    var t := EncodeBlock(a, b, c, missing);
    BlockPlaces(a, b, c, missing);
    JoinSextets(a, b, c);
    PlacesDecode(Place(t[0]), Place(t[1]), Place(t[2]), Place(t[3]), a, b, c, missing);
  }

  // ---------------------------------------------------------------- whole strings

  function Encode(s: bytes): (t: string) {
    if |s| >= 3 then EncodeBlock(s[0], s[1], s[2], 0) + Encode(s[3..])
    else if |s| == 2 then EncodeBlock(s[0], s[1], 0, 1)
    else if |s| == 1 then EncodeBlock(s[0], 0, 0, 2)
    else ""
  }

  /** Characters behind the last full block of four are dropped. */
  function Decode(t: string): (s: bytes) {
    if |t| < 4 then [] else DecodeChars(t[..4]) + Decode(t[4..])
  }

  /** Decoding inverts encoding on every byte string. */
  lemma {:induction false} RoundTrip(s: bytes)
    ensures Decode(Encode(s)) == s
  {
    if |s| >= 3 {
      var block := EncodeBlock(s[0], s[1], s[2], 0);
      assert (block + Encode(s[3..]))[..4] == block;
      assert (block + Encode(s[3..]))[4..] == Encode(s[3..]);
      BlockRoundTrip(s[0], s[1], s[2], 0);
      RoundTrip(s[3..]);
      assert s == [s[0], s[1], s[2]] + s[3..];
    } else if |s| == 2 {
      LastBlock(EncodeBlock(s[0], s[1], 0, 1));
      BlockRoundTrip(s[0], s[1], 0, 1);
      assert [s[0], s[1], 0][..2] == s;
    } else if |s| == 1 {
      LastBlock(EncodeBlock(s[0], 0, 0, 2));
      BlockRoundTrip(s[0], 0, 0, 2);
      assert [s[0], 0, 0][..1] == s;
    }
  }

  lemma {:induction false} LastBlock(t: string)
    requires |t| == 4
    ensures Decode(t) == DecodeChars(t)
  {
    assert t[..4] == t && t[4..] == "";
    assert DecodeChars(t) + [] == DecodeChars(t);
  }

  lemma {:induction false} OneBlockMore(n: nat)
    requires n >= 3
    ensures (n + 2) / 3 * 4 == (n - 3 + 2) / 3 * 4 + 4
  {
    DivJoin((n - 3 + 2) / 3 + 1, (n - 3 + 2) % 3, 3);
  }

  lemma {:induction false} EncodedLength(s: bytes)
    ensures |Encode(s)| == (|s| + 2) / 3 * 4
  {
    if |s| >= 3 {
      EncodedLength(s[3..]);
      OneBlockMore(|s|);
    }
  }

  // ---------------------------------------------------------------- canonical text

  predicate FullBlock(t: string)
    requires |t| == 4
  {
    Place(t[0]) < 64 && Place(t[1]) < 64 && Place(t[2]) < 64 && Place(t[3]) < 64
  }

  /** A final block with padding whose unused bits are zero (section 3.5 of RFC 4648). */
  predicate PaddedBlock(t: string)
    requires |t| == 4
  {
    && Place(t[0]) < 64 && Place(t[1]) < 64 && t[3] == '='
    && if t[2] == '=' then Place(t[1]) % 16 == 0 else Place(t[2]) < 64 && Place(t[2]) % 4 == 0
  }

  predicate Canonical(t: string) {
    if |t| < 4 then t == ""
    else if |t| == 4 then FullBlock(t) || PaddedBlock(t)
    else FullBlock(t[..4]) && Canonical(t[4..])
  }

  lemma {:induction false} BlockCanonical(a: byte, b: byte, c: byte, missing: nat)
    requires missing <= 2 && (missing >= 1 ==> c == 0) && (missing == 2 ==> b == 0)
    ensures var t := EncodeBlock(a, b, c, missing); if missing == 0 then FullBlock(t) else PaddedBlock(t)
  {
    BlockPlaces(a, b, c, missing);
    BlockForm(a, b, c, missing);
    DivJoin(a % 4, 0, 16);
    DivJoin(b % 16, 0, 4);
  }

  lemma {:induction false} EncodeIsCanonical(s: bytes)
    ensures Canonical(Encode(s))
  {
    if |s| >= 3 {
      var block, tail := EncodeBlock(s[0], s[1], s[2], 0), Encode(s[3..]);
      BlockCanonical(s[0], s[1], s[2], 0);
      EncodeIsCanonical(s[3..]);
      assert (block + tail)[..4] == block && (block + tail)[4..] == tail;
    } else if |s| == 2 {
      BlockCanonical(s[0], s[1], 0, 1);
    } else if |s| == 1 {
      BlockCanonical(s[0], 0, 0, 2);
    }
  }

  lemma {:induction false} Rejoin(b0: nat, b1: nat, b2: nat, b3: nat)
    requires b0 < 64 && b1 < 64 && b2 < 64 && b3 < 64
    ensures var a, b, c := (b0 * 4 + b1 / 16) % 256, (b1 * 16 + b2 / 4) % 256, (b2 * 64 + b3) % 256;
            && a / 4 == b0 && a % 4 * 16 + b / 16 == b1 && b % 16 * 4 + c / 64 == b2 && c % 64 == b3
  {
    DivJoin(b1 / 16, b1 % 16 * 16 + b2 / 4, 256);
    DivJoin(b2 / 4, b2 % 4 * 64 + b3, 256);
    DivJoin(b0, b1 / 16, 4);
    DivJoin(b1 % 16, b2 / 4, 16);
    DivJoin(b2 % 4, b3, 64);
  }

  lemma {:induction false} Letters(t: string)
    requires |t| == 4
    ensures forall i :: 0 <= i < 4 && Place(t[i]) < 64 ==> Letter(Place(t[i])) == t[i]
  {
    forall i | 0 <= i < 4 ensures Place(t[i]) < 64 ==> Letter(Place(t[i])) == t[i] {
      LetterOfPlace(t[i]);
    }
  }

  /** Four places decode to three bytes that encode to the letters of those places. */
  lemma {:induction false} FullPlaces(b0: nat, b1: nat, b2: nat, b3: nat)
    requires b0 < 64 && b1 < 64 && b2 < 64 && b3 < 64
    ensures var s := DecodeBlock(b0, b1, b2, b3);
            |s| == 3 && EncodeBlock(s[0], s[1], s[2], 0) == [Letter(b0), Letter(b1), Letter(b2), Letter(b3)]
  {
    var s := DecodeBlock(b0, b1, b2, b3);
    Rejoin(b0, b1, b2, b3);
    BlockForm(s[0], s[1], s[2], 0);
  }

  lemma {:induction false} ThreePlaces(b0: nat, b1: nat, b2: nat)
    requires b0 < 64 && b1 < 64 && b2 < 64 && b2 % 4 == 0
    ensures var s := DecodeBlock(b0, b1, b2, NONE);
            |s| == 2 && EncodeBlock(s[0], s[1], 0, 1) == [Letter(b0), Letter(b1), Letter(b2), '=']
  {
    var s := DecodeBlock(b0, b1, b2, NONE);
    Rejoin(b0, b1, b2, 0);
    DivJoin(b2 / 4, 0, 256);
    assert b2 * 64 + 0 == b2 / 4 * 256 + 0;
    BlockForm(s[0], s[1], 0, 1);
  }

  lemma {:induction false} TwoPlaces(b0: nat, b1: nat)
    requires b0 < 64 && b1 < 64 && b1 % 16 == 0
    ensures var s := DecodeBlock(b0, b1, NONE, NONE);
            |s| == 1 && EncodeBlock(s[0], 0, 0, 2) == [Letter(b0), Letter(b1), '=', '=']
  {
    var s := DecodeBlock(b0, b1, NONE, NONE);
    Rejoin(b0, b1, 0, 0);
    DivJoin(b1 / 16, 0, 16);
    BlockForm(s[0], 0, 0, 2);
  }

  lemma {:induction false} FullBlockRoundTrip(t: string)
    requires |t| == 4 && FullBlock(t)
    ensures var s := DecodeChars(t); |s| == 3 && EncodeBlock(s[0], s[1], s[2], 0) == t
  {
    FullPlaces(Place(t[0]), Place(t[1]), Place(t[2]), Place(t[3]));
    Letters(t);
  }

  lemma {:induction false} PaddedBlockRoundTrip(t: string)
    requires |t| == 4 && PaddedBlock(t)
    ensures Encode(DecodeChars(t)) == t
  {
    assert Place('=') == NONE;
    Letters(t);
    if t[2] == '=' {
      TwoPlaces(Place(t[0]), Place(t[1]));
    } else {
      ThreePlaces(Place(t[0]), Place(t[1]), Place(t[2]));
    }
  }

  lemma {:induction false} CanonicalRoundTrip(t: string)
    requires Canonical(t)
    ensures Encode(Decode(t)) == t
  {
    if |t| == 4 && PaddedBlock(t) {
      LastBlock(t);
      PaddedBlockRoundTrip(t);
    } else if |t| >= 4 {
      var block, tail := t[..4], t[4..];
      assert |t| == 4 ==> block == t && tail == "";
      FullBlockRoundTrip(block);
      CanonicalRoundTrip(tail);
      FullBlockFirst(DecodeChars(block), Decode(tail));
      assert t == block + tail;
    }
  }

  lemma {:induction false} FullBlockFirst(s: bytes, tail: bytes)
    requires |s| == 3
    ensures Encode(s + tail) == EncodeBlock(s[0], s[1], s[2], 0) + Encode(tail)
  {
    assert (s + tail)[3..] == tail;
  }

  /** Encoding inverts decoding on the canonical texts and on no others. */
  lemma {:induction false} ReencodesIffCanonical(t: string)
    ensures Encode(Decode(t)) == t <==> Canonical(t)
  {
    EncodeIsCanonical(Decode(t));
    if Canonical(t) {
      CanonicalRoundTrip(t);
    }
  }

  /** Padding occurs in the last two places only. */
  lemma {:induction false} PaddingAtEnd(t: string, i: nat)
    requires Canonical(t) && i + 2 < |t|
    ensures t[i] != '='
  {
    assert Place('=') == NONE;
    if |t| > 4 {
      if i < 4 {
        assert t[i] == t[..4][i];
      } else if |t[4..]| > i - 4 + 2 {
        assert t[i] == t[4..][i - 4];
        PaddingAtEnd(t[4..], i - 4);
      }
    }
  }

  // ---------------------------------------------------------------- the loops

  lemma {:induction false} EncodeStep(done: string, s: bytes)
    requires |s| >= 3
    ensures done + Encode(s) == done + EncodeBlock(s[0], s[1], s[2], 0) + Encode(s[3..])
  {
    Associative(done, EncodeBlock(s[0], s[1], s[2], 0), Encode(s[3..]));
  }

  /** Three bytes per turn, then what is left; the index runs in 32 bits. */
  method EncodeBase64(input: bytes) returns (retVal: string)
    requires |input| < TWO32
    ensures retVal == Encode(input)
  {
    retVal := "";
    var length, index := |input|, 0;
    while length > 2
      invariant 0 <= index <= |input| && index + length == |input|
      invariant Encode(input) == retVal + Encode(input[index..])
    {
      EncodeStep(retVal, input[index..]);
      assert input[index..][3..] == input[index + 3..];
      retVal := retVal + EncodeBlock(input[index], input[index + 1], input[index + 2], 0);
      index := index + 3;
      length := length - 3;
    }
    assert |input[index..]| == length;
    if length == 2 {
      retVal := retVal + EncodeBlock(input[index], input[index + 1], 0, 1);
    } else if length == 1 {
      retVal := retVal + EncodeBlock(input[index], 0, 0, 2);
    }
  }

  /** The linear search through the alphabet. */
  method FindPlace(c: char) returns (i: nat)
    ensures i == Place(c)
  {
    i := 0;
    while i < 64 && ALPHABET[i] != c
      invariant i <= 64
      invariant forall j :: 0 <= j < i ==> Letter(j) != c
    {
      i := i + 1;
    }
    if i < 64 {
      PlaceOfLetter(i);
    } else {
      LetterOfPlace(c);
    }
  }

  lemma {:induction false} DecodeStep(done: bytes, t: string)
    requires |t| >= 4
    ensures done + Decode(t)
         == done + DecodeBlock(Place(t[0]), Place(t[1]), Place(t[2]), Place(t[3])) + Decode(t[4..])
  {
    Associative(done, DecodeChars(t[..4]), Decode(t[4..]));
  }

  /** What is still to be decoded after a full buffer. */
  lemma {:induction false} DecodeAdvance(input: string, decoded: bytes, k: nat)
    requires k + 4 <= |input| && Decode(input) == decoded + Decode(input[k..])
    ensures Decode(input)
         == decoded + DecodeBlock(Place(input[k]), Place(input[k + 1]), Place(input[k + 2]), Place(input[k + 3]))
            + Decode(input[k + 4..])
  {
    assert input[k..][4..] == input[k + 4..];
    DecodeStep(decoded, input[k..]);
  }

  lemma {:induction false} DecodeRest(input: string, decoded: bytes, k: nat)
    requires k <= |input| < k + 4 && Decode(input) == decoded + Decode(input[k..])
    ensures decoded == Decode(input)
  {
  }

  /** Collects places in a buffer of four that is emptied whenever it is full. */
  method DecodeBase64(input: string) returns (decoded: bytes)
    requires |input| < TWO32
    ensures decoded == Decode(input)
  {
    var counter := 0;
    var buffer := new nat[4](_ => 0);
    decoded := [];
    ghost var start := 0;
    assert input[0..] == input;
    for i := 0 to |input|
      invariant 0 <= counter < 4 && start + counter == i
      invariant counter > 0 ==> buffer[0] == Place(input[start])
      invariant counter > 1 ==> buffer[1] == Place(input[start + 1])
      invariant counter > 2 ==> buffer[2] == Place(input[start + 2])
      invariant Decode(input) == decoded + Decode(input[start..])
    {
      buffer[counter] := FindPlace(input[i]);
      counter := counter + 1;
      if counter == 4 {
        DecodeAdvance(input, decoded, start);
        decoded := decoded + DecodeBlock(buffer[0], buffer[1], buffer[2], buffer[3]);
        start := start + 4;
        counter := 0;
      }
    }
    DecodeRest(input, decoded, start);
  }

  // ---------------------------------------------------------------- examples

  lemma {:induction false} OneBlock(a: byte, b: byte, c: byte)
    ensures Encode([a, b, c]) == EncodeBlock(a, b, c, 0)
  {
    assert [a, b, c][3..] == [];
    assert EncodeBlock(a, b, c, 0) + "" == EncodeBlock(a, b, c, 0);
  }

  lemma {:induction false} BlocksOfA()
    ensures EncodeBlock(65, 65, 65, 0) == "QUFB"
    ensures EncodeBlock(65, 65, 0, 1) == "QUE="
    ensures EncodeBlock(65, 0, 0, 2) == "QQ=="
  {
    BlockForm(65, 65, 65, 0);
    BlockForm(65, 65, 0, 1);
    BlockForm(65, 0, 0, 2);
  }

  /** Texts from the test suite: one, two, three and four times the letter A. */
  lemma {:induction false} Examples(s: bytes)
    requires s == [65, 65, 65, 65]
    ensures Encode(s[..1]) == "QQ==" && Encode(s[..2]) == "QUE=" && Encode(s[..3]) == "QUFB"
    ensures Encode(s) == "QUFB" + "QQ=="
  {
    BlocksOfA();
    OneBlock(65, 65, 65);
    assert s[..3] == [65, 65, 65] && s[3..] == s[..1];
  }
}
