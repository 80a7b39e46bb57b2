/**
  * Messages of the test suite and what becomes of them: fixed points for seed, type names,
  * dimensions and byte orders, which encoder and decoder share.
  */
module LcmVectors {
  import opened Bytes
  import opened Messages
  import opened LcmHash
  import opened LcmFingerprint
  import opened LcmMessages
  import Schema

  // ---------------------------------------------------------------- mixing block by block

  lemma {:induction false} MixOne(h: Word, c: byte, rest: bytes)
    ensures MixAll(h, [c] + rest) == MixAll(Mix(h, c), rest)
  {
    assert ([c] + rest)[1..] == rest;
  }

  lemma {:induction false} MixFour(h: Word, a: byte, b: byte, c: byte, d: byte, rest: bytes)
    ensures MixAll(h, [a, b, c, d] + rest) == MixAll(Mix(Mix(Mix(Mix(h, a), b), c), d), rest)
  {
    MixOne(h, a, [b] + ([c] + ([d] + rest)));
    MixOne(Mix(h, a), b, [c] + ([d] + rest));
    MixOne(Mix(Mix(h, a), b), c, [d] + rest);
    MixOne(Mix(Mix(Mix(h, a), b), c), d, rest);
    assert [a, b, c, d] + rest == [a] + ([b] + ([c] + ([d] + rest)));
  }

  lemma {:induction false} MixThree(h: Word, a: byte, b: byte, c: byte)
    ensures MixAll(h, [a, b, c]) == Mix(Mix(Mix(h, a), b), c)
  {
    MixOne(h, a, [b] + ([c] + []));
    MixOne(Mix(h, a), b, [c] + []);
    MixOne(Mix(Mix(h, a), b), c, []);
    assert [a, b, c] == [a] + ([b] + ([c] + []));
  }

  lemma {:induction false} Block1(h: Word, rest: bytes)
    requires h == 0x12345678
    ensures MixAll(h, [10, 97, 116, 116] + rest) == MixAll(0x123456780A617474, rest)
  {
    assert Mix(0x12345678, 10) == 0x123456780A && Mix(0x123456780A, 97) == 0x123456780A61;
    assert Mix(0x123456780A61, 116) == 0x123456780A6174 && Mix(0x123456780A6174, 116) == 0x123456780A617474;
    MixFour(0x12345678, 10, 97, 116, 116, rest);
  }

  lemma {:induction false} Block2(h: Word, rest: bytes)
    requires h == 0x123456780A617474
    ensures MixAll(h, [114, 105, 98, 117] + rest) == MixAll(0xA61747496D20F65, rest)
  {
    assert Mix(0x123456780A617474, 114) == 0x3456780A61747496 && Mix(0x3456780A61747496, 105) == 0x56780A61747496D1;
    assert Mix(0x56780A61747496D1, 98) == 0x780A61747496D20E && Mix(0x780A61747496D20E, 117) == 0xA61747496D20F65;
    MixFour(0x123456780A617474, 114, 105, 98, 117, rest);
  }

  lemma {:induction false} Block3(h: Word, rest: bytes)
    requires h == 0xA61747496D20F65
    ensures MixAll(h, [116, 101, 49, 7] + rest) == MixAll(0x96D20F65892819F0, rest)
  {
    assert Mix(0xA61747496D20F65, 116) == 0x61747496D20F6588 && Mix(0x61747496D20F6588, 101) == 0x747496D20F658927;
    assert Mix(0x747496D20F658927, 49) == 0x7496D20F65892819 && Mix(0x7496D20F65892819, 7) == 0x96D20F65892819F0;
    MixFour(0xA61747496D20F65, 116, 101, 49, 7, rest);
  }

  lemma {:induction false} Twelve1(h: Word, rest: bytes)
    requires h == 0x12345678
    ensures MixAll(h, [10, 97, 116, 116, 114, 105, 98, 117, 116, 101, 49, 7] + rest) == MixAll(0x96D20F65892819F0, rest)
  {
    var second, third := [114, 105, 98, 117], [116, 101, 49, 7];
    assert [10, 97, 116, 116, 114, 105, 98, 117, 116, 101, 49, 7] + rest == [10, 97, 116, 116] + (second + (third + rest));
    Block1(h, second + (third + rest));
    Block2(0x123456780A617474, third + rest);
    Block3(0xA61747496D20F65, rest);
  }

  lemma {:induction false} Block4(h: Word, rest: bytes)
    requires h == 0x96D20F65892819F0
    ensures MixAll(h, [98, 111, 111, 108] + rest) == MixAll(0x892819F070365137, rest)
  {
    assert Mix(0x96D20F65892819F0, 98) == 0x2DF09A76D7E60F8F && Mix(0x2DF09A76D7E60F8F, 111) == 0xF09A76D7E60F8FCA;
    assert Mix(0xF09A76D7E60F8FCA, 111) == 0x65892819F0703650 && Mix(0x65892819F0703650, 108) == 0x892819F070365137;
    MixFour(0x96D20F65892819F0, 98, 111, 111, 108, rest);
  }

  lemma {:induction false} Block5(h: Word, rest: bytes)
    requires h == 0x892819F070365137
    ensures MixAll(h, [101, 97, 110, 0] + rest) == MixAll(0x8FC9AEC876EF5EE0, rest)
  {
    assert Mix(0x892819F070365137, 101) == 0xD7E60F8FC9AEC877 && Mix(0xD7E60F8FC9AEC877, 97) == 0x19F0703651378910;
    assert Mix(0x19F0703651378910, 110) == 0xF0703651378910A1 && Mix(0xF0703651378910A1, 0) == 0x8FC9AEC876EF5EE0;
    MixFour(0x892819F070365137, 101, 97, 110, 0, rest);
  }

  lemma {:induction false} Block6(h: Word, rest: bytes)
    requires h == 0x8FC9AEC876EF5EE0
    ensures MixAll(h, [10, 97, 116, 116] + rest) == MixAll(0x8910A11F29CE16E3, rest)
  {
    assert Mix(0x8FC9AEC876EF5EE0, 10) == 0x3651378910A11F29 && Mix(0x3651378910A11F29, 97) == 0x51378910A11F29CD;
    assert Mix(0x51378910A11F29CD, 116) == 0x378910A11F29CE16 && Mix(0x378910A11F29CE16, 116) == 0x8910A11F29CE16E3;
    MixFour(0x8FC9AEC876EF5EE0, 10, 97, 116, 116, rest);
  }

  lemma {:induction false} Twelve2(h: Word, rest: bytes)
    requires h == 0x96D20F65892819F0
    ensures MixAll(h, [98, 111, 111, 108, 101, 97, 110, 0, 10, 97, 116, 116] + rest) == MixAll(0x8910A11F29CE16E3, rest)
  {
    var second, third := [101, 97, 110, 0], [10, 97, 116, 116];
    assert [98, 111, 111, 108, 101, 97, 110, 0, 10, 97, 116, 116] + rest == [98, 111, 111, 108] + (second + (third + rest));
    Block4(h, second + (third + rest));
    Block5(0x892819F070365137, third + rest);
    Block6(0x8FC9AEC876EF5EE0, rest);
  }

  lemma {:induction false} Block7(h: Word, rest: bytes)
    requires h == 0x8910A11F29CE16E3
    ensures MixAll(h, [114, 105, 98, 117] + rest) == MixAll(0x29CE16E37C475C36, rest)
  {
    assert Mix(0x8910A11F29CE16E3, 114) == 0xEF5EE0D631E91C84 && Mix(0xEF5EE0D631E91C84, 105) == 0xA11F29CE16E37C47;
    assert Mix(0xA11F29CE16E37C47, 98) == 0xE0D631E91C83B8A4 && Mix(0xE0D631E91C83B8A4, 117) == 0x29CE16E37C475C36;
    MixFour(0x8910A11F29CE16E3, 114, 105, 98, 117, rest);
  }

  lemma {:induction false} Block8(h: Word, rest: bytes)
    requires h == 0x29CE16E37C475C36
    ensures MixAll(h, [116, 101, 50, 6] + rest) == MixAll(0x83B8A3C93900FBCC, rest)
  {
    assert Mix(0x29CE16E37C475C36, 116) == 0xCE16E37C475C36C7 && Mix(0xCE16E37C475C36C7, 101) == 0xE91C83B8A3C93901;
    assert Mix(0xE91C83B8A3C93901, 50) == 0xE37C475C36C6FF04 && Mix(0xE37C475C36C6FF04, 6) == 0x83B8A3C93900FBCC;
    MixFour(0x29CE16E37C475C36, 116, 101, 50, 6, rest);
  }

  lemma {:induction false} Block9(h: Word, rest: bytes)
    requires h == 0x83B8A3C93900FBCC
    ensures MixAll(h, [105, 110, 116, 56] + rest) == MixAll(0xC6FF043370FD2CA5, rest)
  {
    assert Mix(0x83B8A3C93900FBCC, 105) == 0x475C36C6FF043370 && Mix(0x475C36C6FF043370, 110) == 0x5C36C6FF043370FC;
    assert Mix(0x5C36C6FF043370FC, 116) == 0x36C6FF043370FD2C && Mix(0x36C6FF043370FD2C, 56) == 0xC6FF043370FD2CA5;
    MixFour(0x83B8A3C93900FBCC, 105, 110, 116, 56, rest);
  }

  lemma {:induction false} Twelve3(h: Word, rest: bytes)
    requires h == 0x8910A11F29CE16E3
    ensures MixAll(h, [114, 105, 98, 117, 116, 101, 50, 6, 105, 110, 116, 56] + rest) == MixAll(0xC6FF043370FD2CA5, rest)
  {
    var second, third := [116, 101, 50, 6], [105, 110, 116, 56];
    assert [114, 105, 98, 117, 116, 101, 50, 6, 105, 110, 116, 56] + rest == [114, 105, 98, 117] + (second + (third + rest));
    Block7(h, second + (third + rest));
    Block8(0x29CE16E37C475C36, third + rest);
    Block9(0x83B8A3C93900FBCC, rest);
  }

  lemma {:induction false} Tail1(h: Word, t: bytes)
    requires h == 0xC6FF043370FD2CA5 && t == [95, 116, 0]
    ensures MixAll(h, t) == 0x3370FD2CA5138AF7
  {
    assert Mix(0xC6FF043370FD2CA5, 95) == 0xFBCC8F02D35AEC && Mix(0xFBCC8F02D35AEC, 116) == 0xFBCC8F02D35AEC75 && Mix(0xFBCC8F02D35AEC75, 0) == 0x3370FD2CA5138AF7;
    MixThree(0xC6FF043370FD2CA5, 95, 116, 0);
  }

  lemma {:induction false} Message0State(h: Word, a: bytes, b: bytes, c: bytes, d: bytes)
    requires h == SEED
    requires a == [10, 97, 116, 116, 114, 105, 98, 117, 116, 101, 49, 7]
    requires b == [98, 111, 111, 108, 101, 97, 110, 0, 10, 97, 116, 116]
    requires c == [114, 105, 98, 117, 116, 101, 50, 6, 105, 110, 116, 56]
    requires d == [95, 116, 0]
    ensures MixAll(h, a + (b + (c + d))) == 0x3370FD2CA5138AF7
  {
    Twelve1(h, b + (c + d));
    Twelve2(0x96D20F65892819F0, c + d);
    Twelve3(0x8910A11F29CE16E3, d);
    Tail1(0xC6FF043370FD2CA5, d);
  }

  lemma {:induction false} Block10(h: Word, rest: bytes)
    requires h == 0xA61747496D20F65
    ensures MixAll(h, [116, 101, 49, 6] + rest) == MixAll(0x96D20F65892819EF, rest)
  {
    assert Mix(0xA61747496D20F65, 116) == 0x61747496D20F6588 && Mix(0x61747496D20F6588, 101) == 0x747496D20F658927;
    assert Mix(0x747496D20F658927, 49) == 0x7496D20F65892819 && Mix(0x7496D20F65892819, 6) == 0x96D20F65892819EF;
    MixFour(0xA61747496D20F65, 116, 101, 49, 6, rest);
  }

  lemma {:induction false} Twelve4(h: Word, rest: bytes)
    requires h == 0x12345678
    ensures MixAll(h, [10, 97, 116, 116, 114, 105, 98, 117, 116, 101, 49, 6] + rest) == MixAll(0x96D20F65892819EF, rest)
  {
    var second, third := [114, 105, 98, 117], [116, 101, 49, 6];
    assert [10, 97, 116, 116, 114, 105, 98, 117, 116, 101, 49, 6] + rest == [10, 97, 116, 116] + (second + (third + rest));
    Block1(h, second + (third + rest));
    Block2(0x123456780A617474, third + rest);
    Block10(0xA61747496D20F65, rest);
  }

  lemma {:induction false} Block11(h: Word, rest: bytes)
    requires h == 0x96D20F65892819EF
    ensures MixAll(h, [105, 110, 116, 56] + rest) == MixAll(0x892819EF69375603, rest)
  {
    assert Mix(0x96D20F65892819EF, 105) == 0x2DF09A76D7E61096 && Mix(0x2DF09A76D7E61096, 110) == 0xF09A76D7E61096C9;
    assert Mix(0xF09A76D7E61096C9, 116) == 0x65892819EF693755 && Mix(0x65892819EF693755, 56) == 0x892819EF69375603;
    MixFour(0x96D20F65892819EF, 105, 110, 116, 56, rest);
  }

  lemma {:induction false} Tail2(h: Word, t: bytes)
    requires h == 0x892819EF69375603 && t == [95, 116, 0]
    ensures MixAll(h, t) == 0xEF693756038F2333
  {
    assert Mix(0x892819EF69375603, 95) == 0xD7E61096C8A9FC71 && Mix(0xD7E61096C8A9FC71, 116) == 0x19EF693756038F23 && Mix(0x19EF693756038F23, 0) == 0xEF693756038F2333;
    MixThree(0x892819EF69375603, 95, 116, 0);
  }

  lemma {:induction false} Message2State(h: Word, a: bytes, b: bytes, c: bytes)
    requires h == SEED
    requires a == [10, 97, 116, 116, 114, 105, 98, 117, 116, 101, 49, 6]
    requires b == [105, 110, 116, 56]
    requires c == [95, 116, 0]
    ensures MixAll(h, a + (b + c)) == 0xEF693756038F2333
  {
    Twelve4(h, b + c);
    Block11(0x96D20F65892819EF, c);
    Tail2(0x892819EF69375603, c);
  }

  lemma {:induction false} Block12(h: Word, rest: bytes)
    requires h == 0xA61747496D20F65
    ensures MixAll(h, [116, 101, 49, 0] + rest) == MixAll(0x96D20F65892819E9, rest)
  {
    assert Mix(0xA61747496D20F65, 116) == 0x61747496D20F6588 && Mix(0x61747496D20F6588, 101) == 0x747496D20F658927;
    assert Mix(0x747496D20F658927, 49) == 0x7496D20F65892819 && Mix(0x7496D20F65892819, 0) == 0x96D20F65892819E9;
    MixFour(0xA61747496D20F65, 116, 101, 49, 0, rest);
  }

  lemma {:induction false} Twelve5(h: Word, rest: bytes)
    requires h == 0x12345678
    ensures MixAll(h, [10, 97, 116, 116, 114, 105, 98, 117, 116, 101, 49, 0] + rest) == MixAll(0x96D20F65892819E9, rest)
  {
    var second, third := [114, 105, 98, 117], [116, 101, 49, 0];
    assert [10, 97, 116, 116, 114, 105, 98, 117, 116, 101, 49, 0] + rest == [10, 97, 116, 116] + (second + (third + rest));
    Block1(h, second + (third + rest));
    Block2(0x123456780A617474, third + rest);
    Block12(0xA61747496D20F65, rest);
  }

  lemma {:induction false} Message6State(h: Word, a: bytes)
    requires h == SEED
    requires a == [10, 97, 116, 116, 114, 105, 98, 117, 116, 101, 49, 0]
    ensures MixAll(h, a) == 0x96D20F65892819E9
  {
    Twelve5(h, []);
    assert a + [] == a;
  }

  // ---------------------------------------------------------------- type names

  /**
    * Types enter the fingerprint by the names they are declared with, but for the following:
    * unsigned integers and characters count as signed ones of their width, these end in _t,
    * a truth value is a boolean, and bytes are a string.
    */
  lemma {:induction false} TypeNamesOnWire(v: Value)
    requires !v.MessageV?
    ensures TypeName(v) == match v
              case BoolV(_) => Schema.NameOf(Schema.BoolT) + "ean"
              case CharV(_) => Schema.NameOf(Schema.IntT(W8)) + "_t"
              case IntV(w, _) => Schema.NameOf(Schema.IntT(w)) + "_t"
              case UIntV(w, _) => Schema.NameOf(Schema.IntT(w)) + "_t"
              case FloatV(_) => Schema.NameOf(Schema.FloatT)
              case DoubleV(_) => Schema.NameOf(Schema.DoubleT)
              case TextV(_) => Schema.NameOf(Schema.StringT)
  {
    Schema.IntegerNames();
  }

  // ---------------------------------------------------------------- the messages

  const ATTRIBUTE1: bytes := [97, 116, 116, 114, 105, 98, 117, 116, 101, 49]
  const ATTRIBUTE2: bytes := [97, 116, 116, 114, 105, 98, 117, 116, 101, 50]

  lemma {:induction false} TypeNameBytes()
    ensures Ascii("boolean") == [98, 111, 111, 108, 101, 97, 110] && Ascii("int8_t") == [105, 110, 116, 56, 95, 116]
  {
  }

  lemma {:induction false} BooleanKind(v: Value)
    requires v.BoolV?
    ensures KindChars(v) == [7, 98, 111, 111, 108, 101, 97, 110, 0]
  {
    TypeNameBytes();
    assert TypeName(v) == "boolean";
    assert NameChars(Ascii("boolean"), Encoder) == [7] + [98, 111, 111, 108, 101, 97, 110];
  }

  lemma {:induction false} ByteKind(v: Value)
    requires v.CharV? || (v.UIntV? && v.width == W8)
    ensures KindChars(v) == [6, 105, 110, 116, 56, 95, 116, 0]
  {
    TypeNameBytes();
    assert TypeName(v) == "int8_t";
    assert NameChars(Ascii("int8_t"), Encoder) == [6] + [105, 110, 116, 56, 95, 116];
  }

  lemma {:induction false} OneFieldSum(f: Field)
    ensures NestedSum([f], Encoder) == NestedHash(f.value, Encoder)
  {
    assert [f][1..] == [] && NestedSum([], Encoder) == 0;
  }

  lemma {:induction false} TwoFields(f: Field, g: Field)
    ensures FieldsChars([f, g], Encoder) == FieldChars(f, Encoder) + FieldChars(g, Encoder)
    ensures !f.value.MessageV? && !g.value.MessageV? ==> NestedSum([f, g], Encoder) == 0
  {
    assert [f, g][1..] == [g];
    OneFieldChars(g, Encoder);
    OneFieldSum(g);
  }

  lemma {:induction false} FromState(fields: seq<Field>, h: Word, sum: Word, x: Word)
    requires MixAll(SEED, FieldsChars(fields, Encoder)) == h && NestedSum(fields, Encoder) == sum
    requires Rotate(Add(h, sum)) == x
    ensures Fingerprint(fields, Encoder) == x
  {
  }

  lemma {:induction false} FirstFieldChars(f: Field)
    requires f.name == ATTRIBUTE1 && f.value.BoolV?
    ensures FieldChars(f, Encoder)
         == [10, 97, 116, 116, 114, 105, 98, 117, 116, 101, 49, 7] + [98, 111, 111, 108, 101, 97, 110, 0]
  {
    BooleanKind(f.value);
  }

  lemma {:induction false} SecondFieldChars(f: Field)
    requires f.name == ATTRIBUTE2 && f.value.CharV?
    ensures FieldChars(f, Encoder)
         == [10, 97, 116, 116] + ([114, 105, 98, 117, 116, 101, 50, 6, 105, 110, 116, 56] + [95, 116, 0])
  {
    ByteKind(f.value);
  }

  lemma {:induction false} Message0Chars(f: Field, g: Field, a: bytes, b: bytes, c: bytes, d: bytes)
    requires f.name == ATTRIBUTE1 && g.name == ATTRIBUTE2 && f.value.BoolV? && g.value.CharV?
    requires a == [10, 97, 116, 116, 114, 105, 98, 117, 116, 101, 49, 7]
    requires b == [98, 111, 111, 108, 101, 97, 110, 0, 10, 97, 116, 116]
    requires c == [114, 105, 98, 117, 116, 101, 50, 6, 105, 110, 116, 56]
    requires d == [95, 116, 0]
    ensures FieldChars(f, Encoder) + FieldChars(g, Encoder) == a + (b + (c + d))
  {
    var b1, b2 := [98, 111, 111, 108, 101, 97, 110, 0], [10, 97, 116, 116];
    FirstFieldChars(f);
    SecondFieldChars(g);
    assert b == b1 + b2;
    Associative(a, b1, b2 + (c + d));
    Associative(b1, b2, c + d);
  }

  lemma {:induction false} Message0Fingerprint(f: Field, g: Field)
    requires f.name == ATTRIBUTE1 && g.name == ATTRIBUTE2 && f.value.BoolV? && g.value.CharV?
    ensures Fingerprint([f, g], Encoder) == 0x66E1FA594A2715EE
  {
    TwoFields(f, g);
    var a := [10, 97, 116, 116, 114, 105, 98, 117, 116, 101, 49, 7];
    var b := [98, 111, 111, 108, 101, 97, 110, 0, 10, 97, 116, 116];
    var c := [114, 105, 98, 117, 116, 101, 50, 6, 105, 110, 116, 56];
    var d := [95, 116, 0];
    Message0Chars(f, g, a, b, c, d);
    Message0State(SEED, a, b, c, d);
    FromState([f, g], 0x3370FD2CA5138AF7, 0, 0x66E1FA594A2715EE);
  }

  lemma {:induction false} Message2Fingerprint(f: Field)
    requires f.name == ATTRIBUTE1 && f.value.UIntV? && f.value.width == W8
    ensures Fingerprint([f], Encoder) == 0xDED26EAC071E4667
  {
    ByteKind(f.value);
    OneFieldChars(f, Encoder);
    OneFieldSum(f);
    var a, b, c := [10, 97, 116, 116, 114, 105, 98, 117, 116, 101, 49, 6], [105, 110, 116, 56], [95, 116, 0];
    assert FieldsChars([f], Encoder) == a + (b + c);
    Message2State(SEED, a, b, c);
    FromState([f], 0xEF693756038F2333, 0, 0xDED26EAC071E4667);
  }

  lemma {:induction false} Message6Fingerprint(f: Field, g: Field)
    requires f.name == ATTRIBUTE1 && f.value == MessageV([g])
    requires g.name == ATTRIBUTE1 && g.value.UIntV? && g.value.width == W8
    ensures Fingerprint([f], Encoder) == 0xEB48FC23208CC0A0
  {
    Message2Fingerprint(g);
    OneFieldChars(f, Encoder);
    OneFieldSum(f);
    var a := [10, 97, 116, 116, 114, 105, 98, 117, 116, 101, 49, 0];
    assert FieldsChars([f], Encoder) == a;
    Message6State(SEED, a);
    FromState([f], 0x96D20F65892819E9, 0xDED26EAC071E4667, 0xEB48FC23208CC0A0);
  }

  /** A message without fields: the seed, rotated. */
  lemma {:induction false} EmptyMessage()
    ensures Encode([]) == [0, 0, 0, 0, 0x24, 0x68, 0xAC, 0xF0]
  {
    FromState([], SEED, 0, 0x2468ACF0);
    EightBytes(0, 0, 0, 0, 0x24, 0x68, 0xAC, 0xF0, 0x2468ACF0);
  }

  lemma {:induction false} LastByte(x: nat, k: nat, q: nat, c: byte)
    requires x == q * 256 + c
    ensures BigEndian(x, k + 1) == BigEndian(q, k) + [c]
  {
  }

  lemma {:induction false} FourBytes(a: byte, b: byte, c: byte, d: byte, x1: nat, x2: nat, x: nat)
    requires x1 == a * 256 + b && x2 == x1 * 256 + c && x == x2 * 256 + d
    ensures BigEndian(x, 4) == [a, b, c, d]
  {
    LastByte(a, 0, 0, a);
    LastByte(x1, 1, a, b);
    LastByte(x2, 2, x1, c);
    LastByte(x, 3, x2, d);
  }

  lemma {:induction false} EightBytes(a: byte, b: byte, c: byte, d: byte, e: byte, f: byte, g: byte, h: byte, x: nat)
    requires x == ((((((a * 256 + b) * 256 + c) * 256 + d) * 256 + e) * 256 + f) * 256 + g) * 256 + h
    ensures BigEndian(x, 8) == [a, b, c, d, e, f, g, h]
  {
    var x2 := (a * 256 + b) * 256 + c;
    var x3 := x2 * 256 + d;
    var x4 := x3 * 256 + e;
    var x5 := x4 * 256 + f;
    var x6 := x5 * 256 + g;
    FourBytes(a, b, c, d, a * 256 + b, x2, x3);
    LastByte(x4, 4, x3, e);
    LastByte(x5, 5, x4, f);
    LastByte(x6, 6, x5, g);
    LastByte(x, 7, x6, h);
  }

  /** MyTestMessage0 with the values false and 'd'. */
  lemma {:induction false} MyTestMessage0()
    ensures Encode([Field(1, ATTRIBUTE1, BoolV(false)), Field(2, ATTRIBUTE2, CharV(100))])
         == [0x66, 0xE1, 0xFA, 0x59, 0x4A, 0x27, 0x15, 0xEE, 0, 100]
  {
    var f, g := Field(1, ATTRIBUTE1, BoolV(false)), Field(2, ATTRIBUTE2, CharV(100));
    Message0Fingerprint(f, g);
    EightBytes(0x66, 0xE1, 0xFA, 0x59, 0x4A, 0x27, 0x15, 0xEE, 0x66E1FA594A2715EE);
    assert [f, g][1..] == [g] && [g][1..] == [];
    assert EncodeFields([g]) == [100] + [];
    assert EncodeFields([f, g]) == [0] + EncodeFields([g]);
  }

  /** MyTestMessage6, which nests a MyTestMessage2 with the value 150. */
  lemma {:induction false} MyTestMessage6()
    ensures Encode([Field(3, ATTRIBUTE1, MessageV([Field(1, ATTRIBUTE1, UIntV(W8, 150))]))])
         == [0xEB, 0x48, 0xFC, 0x23, 0x20, 0x8C, 0xC0, 0xA0, 0x96]
  {
    var g := Field(1, ATTRIBUTE1, UIntV(W8, 150));
    var f := Field(3, ATTRIBUTE1, MessageV([g]));
    Message6Fingerprint(f, g);
    EightBytes(0xEB, 0x48, 0xFC, 0x23, 0x20, 0x8C, 0xC0, 0xA0, 0xEB48FC23208CC0A0);
    assert [f][1..] == [] && [g][1..] == [];
    assert BigEndian(150, 1) == BigEndian(0, 0) + [150];
    assert EncodeFields([g]) == [150] + [];
    assert EncodeFields([f]) == EncodeFields([g]) + [];
  }
}
