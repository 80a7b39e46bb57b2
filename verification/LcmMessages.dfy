/** Messages to LCM and back: a payload without names, read along the fields of the receiver. */
module LcmMessages {
  import opened Bytes
  import opened Streams
  import opened Messages
  import opened LcmHash
  import opened LcmFingerprint

  // ---------------------------------------------------------------- encoding

  /** Strings carry their length with a trailing NUL; the length is kept in 32 bits. */
  function EncodeText(s: bytes): (b: bytes) {
    BigEndian((|s| + 1) % TWO32, 4) + (s + [0])
  }

  function EncodeValue(v: Value): (b: bytes)
    decreases v, 0
  {
    match v
    case BoolV(b) => [if b then 1 else 0]
    case CharV(c) => [c]
    case IntV(w, i) => BigEndian(ToPattern(w, i), Size(w))
    case UIntV(w, u) => BigEndian(u, Size(w))
    case FloatV(bits) => BigEndian(bits, 4)
    case DoubleV(bits) => BigEndian(bits, 8)
    case TextV(s) => EncodeText(s)
    case MessageV(fields) => EncodeFields(fields)
  }

  function EncodeFields(fields: seq<Field>): (b: bytes)
    decreases fields, 1
  {
    if fields == [] then [] else EncodeValue(fields[0].value) + EncodeFields(fields[1..])
  }

  /** The fingerprint in front of the payload. */
  function Encode(fields: seq<Field>): (b: bytes) {
    BigEndian(Fingerprint(fields, Encoder), 8) + EncodeFields(fields)
  }

  // ---------------------------------------------------------------- decoding

  datatype ReadValue = ReadValue(v: Value, next: Stream)
  datatype ReadFields = ReadFields(fields: seq<Field>, next: Stream)

  function ReadUnsigned(s: Stream, w: Width): (u: nat)
    ensures IsUnsigned(w, u)
  {
    FromBigEndianBound(ReadBytes(s, Size(w)));
    Pow256Sizes();
    FromBigEndian(ReadBytes(s, Size(w)))
  }

  /** A length that is not positive as a signed number means the empty string. */
  function DecodeText(s: Stream): (r: ReadValue) {
    var length, t := FromPattern(W32, ReadUnsigned(s, W32)), Drop(s, 4);
    if length > 0 then ReadValue(TextV(ReadBytes(t, length)[..length - 1]), Drop(t, length))
    else ReadValue(TextV([]), t)
  }

  /** Single bytes are read straight into the field, which keeps its value if nothing is left. */
  function DecodeByte(target: Value, s: Stream): (r: ReadValue) {
    var c := ReadUnsigned(s, W8);
    var v := match target
      case BoolV(_) => BoolV(c != 0)
      case CharV(_) => CharV(c)
      case IntV(_, _) => IntV(W8, FromPattern(W8, c))
      case _ => UIntV(W8, c);
    ReadValue(if Drop(s, 1).good then v else target, Drop(s, 1))
  }

  predicate OneByte(v: Value) {
    v.BoolV? || v.CharV? || (v.IntV? && v.width == W8) || (v.UIntV? && v.width == W8)
  }

  function DecodeValue(target: Value, s: Stream): (r: ReadValue)
    decreases target, 0
  {
    if OneByte(target) then DecodeByte(target, s)
    else match target
      case IntV(w, _) => ReadValue(IntV(w, FromPattern(w, ReadUnsigned(s, w))), Drop(s, Size(w)))
      case UIntV(w, _) => ReadValue(UIntV(w, ReadUnsigned(s, w)), Drop(s, Size(w)))
      case FloatV(_) => ReadValue(FloatV(ReadUnsigned(s, W32)), Drop(s, 4))
      case DoubleV(_) => ReadValue(DoubleV(ReadUnsigned(s, W64)), Drop(s, 8))
      case TextV(_) => DecodeText(s)
      case MessageV(fields) => var r := DecodeFields(fields, s); ReadValue(MessageV(r.fields), r.next)
      case _ => ReadValue(target, s)
  }

  function DecodeFields(target: seq<Field>, s: Stream): (r: ReadFields)
    ensures |r.fields| == |target|
    decreases target, 1
  {
    if target == [] then ReadFields([], s)
    else
      var head := DecodeValue(target[0].value, s);
      var tail := DecodeFields(target[1..], head.next);
      ReadFields([target[0].(value := head.v)] + tail.fields, tail.next)
  }

  // ---------------------------------------------------------------- round trip

  const MAX_TEXT: nat := 0x7FFF_FFFF

  ghost predicate ShortTexts(fields: seq<Field>) {
    forall f :: f in fields ==> ShortText(f.value)
  }

  ghost predicate ShortText(v: Value) {
    match v
    case TextV(s) => |s| < MAX_TEXT
    case MessageV(fields) => ShortTexts(fields)
    case _ => true
  }

  lemma {:induction false} UnsignedRoundTrip(w: Width, u: nat, rest: bytes)
    requires IsUnsigned(w, u)
    ensures var s := Stream(BigEndian(u, Size(w)) + rest, true);
            ReadUnsigned(s, w) == u && Drop(s, Size(w)) == Stream(rest, true)
  {
    Pow256Sizes();
    BigEndianRoundTrip(u, Size(w));
    ReadPrefix(BigEndian(u, Size(w)), rest);
  }

  /** Numbers on the wire: two's complement, most significant byte first. */
  lemma {:induction false} NumberBytes(v: Value, i: nat)
    requires ValidValue(v) && i < |EncodeValue(v)|
    ensures var b := EncodeValue(v);
            match v
            case BoolV(t) => b == [if t then 1 else 0]
            case CharV(c) => b == [c]
            case IntV(w, n) =>
              |b| == Size(w) && b[i] == (if n < 0 then n + Modulus(w) else n) / Pow256(Size(w) - 1 - i) % 256
            case UIntV(w, u) => |b| == Size(w) && b[i] == u / Pow256(Size(w) - 1 - i) % 256
            case FloatV(bits) => |b| == 4 && b[i] == bits / Pow256(3 - i) % 256
            case DoubleV(bits) => |b| == 8 && b[i] == bits / Pow256(7 - i) % 256
            case _ => true
  {
    match v
    case IntV(w, n) =>
      TwosComplement(w, n);
      BigEndianDigit(ToPattern(w, n), Size(w), i);
    case UIntV(w, u) => BigEndianDigit(u, Size(w), i);
    case FloatV(bits) => BigEndianDigit(bits, 4, i);
    case DoubleV(bits) => BigEndianDigit(bits, 8, i);
    case _ =>
  }

  /** A string on the wire: the number of bytes that follow, the string, and a zero. */
  lemma {:induction false} TextBytes(s: bytes)
    requires |s| < TWO32 - 1
    ensures var b := EncodeText(s);
            && |b| == |s| + 5 && b[4..|s| + 4] == s && b[|s| + 4] == 0
            && forall i :: 0 <= i < 4 ==> b[i] == (|s| + 1) / Pow256(3 - i) % 256
  {
    var head := BigEndian(|s| + 1, 4);
    SmallMod(|s| + 1, TWO32);
    assert EncodeText(s) == head + (s + [0]);
    forall i | 0 <= i < 4 ensures EncodeText(s)[i] == (|s| + 1) / Pow256(3 - i) % 256 {
      BigEndianDigit(|s| + 1, 4, i);
    }
  }

  /** A byte read into a field: 1 is true and 0 false, and from 128 on it is negative where signed. */
  lemma {:induction false} ByteRead(target: Value, c: byte, rest: bytes)
    requires OneByte(target)
    ensures var v := DecodeValue(target, Stream([c] + rest, true)).v;
            match target
            case BoolV(_) => c <= 1 ==> v == BoolV(c == 1)
            case CharV(_) => v == CharV(c)
            case IntV(_, _) => v == IntV(W8, if c < 128 then c else c - 256)
            case UIntV(_, _) => v == UIntV(W8, c)
            case _ => true
  {
    ReadPrefix([c], rest);
    assert [c][..0] == [] && FromBigEndian([]) == 0;
    assert FromBigEndian([c]) == c;
  }

  lemma {:induction false} ByteOnWire(c: byte)
    ensures BigEndian(c, 1) == [c]
  {
    assert BigEndian(c / 256, 0) == [];
  }

  lemma {:induction false} OneByteRoundTrip(target: Value, v: Value, rest: bytes)
    requires SameType(target, v) && ValidValue(v) && OneByte(v)
    ensures DecodeValue(target, Stream(EncodeValue(v) + rest, true)) == ReadValue(v, Stream(rest, true))
  {
    match v
    case BoolV(b) =>
      ByteOnWire(if b then 1 else 0);
      UnsignedRoundTrip(W8, if b then 1 else 0, rest);
    case CharV(c) =>
      ByteOnWire(c);
      UnsignedRoundTrip(W8, c, rest);
    case IntV(_, i) =>
      PatternRoundTrip(W8, i);
      UnsignedRoundTrip(W8, ToPattern(W8, i), rest);
    case UIntV(_, u) =>
      UnsignedRoundTrip(W8, u, rest);
  }

  lemma {:induction false} WideRoundTrip(target: Value, v: Value, rest: bytes)
    requires SameType(target, v) && ValidValue(v)
    requires !OneByte(v) && !v.TextV? && !v.MessageV?
    ensures DecodeValue(target, Stream(EncodeValue(v) + rest, true)) == ReadValue(v, Stream(rest, true))
  {
    match v
    case IntV(w, i) =>
      PatternRoundTrip(w, i);
      UnsignedRoundTrip(w, ToPattern(w, i), rest);
    case UIntV(w, u) =>
      UnsignedRoundTrip(w, u, rest);
    case FloatV(bits) =>
      UnsignedRoundTrip(W32, bits, rest);
    case DoubleV(bits) =>
      UnsignedRoundTrip(W64, bits, rest);
  }

  /** What the decoder takes for the length of a string: a signed 32-bit number. */
  lemma {:induction false} LengthOnWire(n: nat, rest: bytes)
    ensures var s := Stream(BigEndian((n + 1) % TWO32, 4) + rest, true);
            && ReadUnsigned(s, W32) == (n + 1) % TWO32 && Drop(s, 4) == Stream(rest, true)
    ensures n < MAX_TEXT ==> FromPattern(W32, (n + 1) % TWO32) == n + 1
    ensures n >= MAX_TEXT ==> FromPattern(W32, (n + 1) % TWO32) <= n
  {
    UnsignedRoundTrip(W32, (n + 1) % TWO32, rest);
  }

  lemma {:induction false} TextRoundTrip(t: bytes, rest: bytes)
    requires |t| < MAX_TEXT
    ensures DecodeText(Stream(EncodeText(t) + rest, true)) == ReadValue(TextV(t), Stream(rest, true))
  {
    Associative(BigEndian((|t| + 1) % TWO32, 4), t + [0], rest);
    LengthOnWire(|t|, t + [0] + rest);
    ReadPrefix(t + [0], rest);
    assert (t + [0])[..|t|] == t;
  }

  /** A string too long for a signed length does not come back. */
  lemma {:induction false} LongTextIsLost(t: bytes, rest: bytes)
    requires |t| >= MAX_TEXT
    ensures DecodeText(Stream(EncodeText(t) + rest, true)).v != TextV(t)
  {
    Associative(BigEndian((|t| + 1) % TWO32, 4), t + [0], rest);
    LengthOnWire(|t|, t + [0] + rest);
  }

  lemma {:induction false} ValueReadBackIff(target: Value, v: Value, rest: bytes)
    requires SameType(target, v) && ValidValue(v)
    ensures var r := DecodeValue(target, Stream(EncodeValue(v) + rest, true));
            && (r.v == v <==> ShortText(v))
            && (ShortText(v) ==> r.next == Stream(rest, true))
    decreases target, 0
  {
    if v.TextV? {
      if |v.s| < MAX_TEXT {
        TextRoundTrip(v.s, rest);
      } else {
        LongTextIsLost(v.s, rest);
      }
    } else if v.MessageV? {
      FieldsReadBackIff(target.fields, v.fields, rest);
    } else if OneByte(v) {
      OneByteRoundTrip(target, v, rest);
    } else {
      WideRoundTrip(target, v, rest);
    }
  }

  lemma {:induction false} TailFacts(target: seq<Field>, fields: seq<Field>)
    requires SameShape(target, fields) && ValidFields(fields) && fields != []
    ensures SameType(target[0].value, fields[0].value) && ValidValue(fields[0].value)
    ensures target[0].id == fields[0].id && target[0].name == fields[0].name
    ensures SameShape(target[1..], fields[1..]) && ValidFields(fields[1..])
    ensures ShortTexts(fields) <==> ShortText(fields[0].value) && ShortTexts(fields[1..])
  {
    assert fields[0] in fields;
    forall f | f in fields ensures f == fields[0] || f in fields[1..] {
      var i :| 0 <= i < |fields| && fields[i] == f;
      assert i > 0 ==> fields[1..][i - 1] == f;
    }
  }

  /** The first field decides about itself and, if it is fine, about where the others start. */
  lemma {:induction false} HeadAndTail(target: seq<Field>, fields: seq<Field>, rest: bytes)
    requires target != [] && |fields| == |target|
    requires target[0].id == fields[0].id && target[0].name == fields[0].name
    ensures var s := Stream(EncodeFields(fields) + rest, true);
            var t := Stream(EncodeValue(fields[0].value) + (EncodeFields(fields[1..]) + rest), true);
            var head := DecodeValue(target[0].value, t);
            var tail := DecodeFields(target[1..], head.next);
            && DecodeFields(target, s).next == tail.next
            && (DecodeFields(target, s).fields == fields <==> head.v == fields[0].value && tail.fields == fields[1..])
  {
    Associative(EncodeValue(fields[0].value), EncodeFields(fields[1..]), rest);
    var s := Stream(EncodeFields(fields) + rest, true);
    var r := DecodeFields(target, s).fields;
    assert r == fields <==> r[0] == fields[0] && r[1..] == fields[1..] by {
      assert fields == [fields[0]] + fields[1..] && r == [r[0]] + r[1..];
    }
  }

  /**
    * For every receiver and every suffix: the values come back if and only if all strings
    * are shorter than 2^31 - 1 bytes, and then exactly the encoded bytes are consumed.
    */
  lemma {:induction false} FieldsReadBackIff(target: seq<Field>, fields: seq<Field>, rest: bytes)
    requires SameShape(target, fields) && ValidFields(fields)
    ensures var r := DecodeFields(target, Stream(EncodeFields(fields) + rest, true));
            && (r.fields == fields <==> ShortTexts(fields))
            && (ShortTexts(fields) ==> r.next == Stream(rest, true))
    decreases target, 1
  {
    if fields == [] {
      assert EncodeFields(fields) + rest == rest;
    } else {
      TailFacts(target, fields);
      HeadAndTail(target, fields, rest);
      ValueReadBackIff(target[0].value, fields[0].value, EncodeFields(fields[1..]) + rest);
      FieldsReadBackIff(target[1..], fields[1..], rest);
    }
  }

  // ---------------------------------------------------------------- accepting more than once

  /** A decoder after decodeFrom: the hash it read, the payload, and how far that has been read. */
  datatype DecoderState = DecoderState(expected: Word, payload: bytes, stream: Stream)

  function Start(b: bytes): (d: DecoderState) {
    var s := Stream(b, true);
    var payload := Drop(s, 8).rest;
    DecoderState(ReadUnsigned(s, W64), payload, Stream(payload, true))
  }

  /** Visiting a message: only a decoder that has read a hash other than zero starts over. */
  function AcceptStart(d: DecoderState): (s: Stream) {
    if d.expected != 0 then Stream(d.payload, true) else d.stream
  }

  function AcceptState(d: DecoderState, target: seq<Field>): (e: DecoderState) {
    d.(stream := DecodeFields(target, AcceptStart(d)).next)
  }

  function AcceptFields(d: DecoderState, target: seq<Field>): (fields: seq<Field>) {
    DecodeFields(target, AcceptStart(d)).fields
  }

  lemma {:induction false} StartState(fields: seq<Field>)
    ensures Start(Encode(fields))
         == DecoderState(Fingerprint(fields, Encoder), EncodeFields(fields), Stream(EncodeFields(fields), true))
  {
    UnsignedRoundTrip(W64, Fingerprint(fields, Encoder), EncodeFields(fields));
  }

  /**
    * A decoder fed with an encoded message fills any receiver of its type, and with a
    * fingerprint other than zero it does so again for every further receiver. With the
    * fingerprint zero it goes on reading where it stopped: at the end.
    */
  lemma {:induction false} AcceptTwice(fields: seq<Field>, target: seq<Field>, second: seq<Field>)
    requires SameShape(target, fields) && SameShape(second, fields)
    requires ValidFields(fields) && ShortTexts(fields)
    ensures var d := Start(Encode(fields));
            var e := AcceptState(d, target);
            && AcceptFields(d, target) == fields
            && (Fingerprint(fields, Encoder) != 0 ==> AcceptFields(e, second) == fields)
            && (Fingerprint(fields, Encoder) == 0 ==>
                  AcceptFields(e, second) == DecodeFields(second, Stream([], true)).fields)
  {
    StartState(fields);
    FieldsReadBackIff(target, fields, []);
    FieldsReadBackIff(second, fields, []);
    assert EncodeFields(fields) + [] == EncodeFields(fields);
  }

  // ---------------------------------------------------------------- the visitors

  lemma {:induction false} OneFieldChars(f: Field, side: Side)
    ensures FieldsChars([f], side) == FieldChars(f, side)
  {
    assert [f][1..] == [];
    assert FieldChars(f, side) + [] == FieldChars(f, side);
  }

  lemma {:induction false} CharsSnoc(fields: seq<Field>, i: nat, side: Side)
    requires i < |fields|
    ensures FieldsChars(fields[..i + 1], side) == FieldsChars(fields[..i], side) + FieldChars(fields[i], side)
    decreases i
  {
    if i == 0 {
      assert fields[..1] == [fields[0]] && fields[..0] == [];
      OneFieldChars(fields[0], side);
    } else {
      var tail := fields[1..];
      assert fields[..i + 1][1..] == tail[..i] && fields[..i][1..] == tail[..i - 1];
      CharsSnoc(tail, i - 1, side);
      Associative(FieldChars(fields[0], side), FieldsChars(tail[..i - 1], side), FieldChars(fields[i], side));
    }
  }

  /** The fingerprints of the nested messages, in order of their fields. */
  function NestedHashes(fields: seq<Field>, side: Side): (hs: seq<Word>) {
    if fields == [] then []
    else
      var last := fields[|fields| - 1].value;
      NestedHashes(fields[..|fields| - 1], side) + (if last.MessageV? then [NestedHash(last, side)] else [])
  }

  function SumFrom(h: Word, hs: seq<Word>): (x: Word)
    decreases |hs|
  {
    if hs == [] then h else SumFrom(Add(h, hs[0]), hs[1..])
  }

  lemma {:induction false} SumFromSnoc(h: Word, hs: seq<Word>, x: Word)
    ensures SumFrom(h, hs + [x]) == Add(SumFrom(h, hs), x)
    decreases |hs|
  {
    if hs == [] {
      assert hs + [x] == [x] && [x][1..] == [];
    } else {
      assert (hs + [x])[1..] == hs[1..] + [x];
      SumFromSnoc(Add(h, hs[0]), hs[1..], x);
    }
  }

  lemma {:induction false} SumSnoc(fields: seq<Field>, side: Side)
    requires fields != []
    ensures var n := |fields| - 1;
            NestedSum(fields, side) == Add(NestedSum(fields[..n], side), NestedHash(fields[n].value, side))
    decreases |fields|
  {
    var n := |fields| - 1;
    if n == 0 {
      assert fields[1..] == [] == fields[..0];
    } else {
      var tail := fields[1..];
      SumSnoc(tail, side);
      assert tail[..n - 1] == fields[..n][1..] && tail[n - 1] == fields[n];
      AddSwap(NestedSum(tail[..n - 1], side), NestedHash(fields[n].value, side), NestedHash(fields[0].value, side));
    }
  }

  lemma {:induction false} AddAssociative(h: Word, a: Word, b: Word)
    ensures Add(h, Add(a, b)) == Add(Add(h, a), b)
  {
    AddTwice(h, a, b);
    AddTwice(a, b, h);
  }

  lemma {:induction false} AddZero(a: Word)
    ensures Add(a, 0) == a
  {
  }

  /** Adding up the collected hashes one after the other gives the sum of the fingerprint. */
  lemma {:induction false} HashesSum(h: Word, fields: seq<Field>, side: Side)
    ensures SumFrom(h, NestedHashes(fields, side)) == Add(h, NestedSum(fields, side))
    decreases |fields|
  {
    AddZero(h);
    if fields != [] {
      var n := |fields| - 1;
      var front, last := fields[..n], fields[n].value;
      HashesSum(h, front, side);
      SumSnoc(fields, side);
      var sum, hash := NestedSum(front, side), NestedHash(last, side);
      AddAssociative(h, sum, hash);
      AddZero(sum);
      if last.MessageV? {
        assert NestedHashes(fields, side) == NestedHashes(front, side) + [hash];
        SumFromSnoc(h, NestedHashes(front, side), hash);
      } else {
        assert NestedHashes(fields, side) == NestedHashes(front, side) + [] == NestedHashes(front, side);
      }
    }
  }

  /** The hashing part of both visitors. */
  class Hasher {
    const side: Side
    var hash: Word
    var hashes: seq<Word>

    constructor (side: Side)
      ensures this.side == side && hash == SEED && hashes == []
    {
      this.side := side;
      hash, hashes := SEED, [];
    }

    method CalculateHashChar(c: byte)
      modifies this`hash
      ensures hash == Mix(old(hash), c)
    {
      hash := Mix(hash, c);
    }

    method CalculateHash(s: bytes)
      modifies this`hash
      ensures hash == MixAll(old(hash), NameChars(s, side))
    {
      var chars := NameChars(s, side);
      for i := 0 to |chars|
        invariant MixAll(hash, chars[i..]) == MixAll(old(hash), chars)
      {
        assert chars[i..][1..] == chars[i + 1..];
        CalculateHashChar(chars[i]);
      }
    }

    /** hash(): the own state, the collected hashes, and the rotation. */
    method Hash() returns (h: Word)
      ensures h == Rotate(SumFrom(hash, hashes))
    {
      var tmp := hash;
      for i := 0 to |hashes|
        invariant SumFrom(tmp, hashes[i..]) == SumFrom(hash, hashes)
      {
        assert hashes[i..][1..] == hashes[i + 1..];
        tmp := Add(tmp, hashes[i]);
      }
      h := Rotate(tmp);
    }
  }

  lemma {:induction false} KindOfScalar(h: Word, v: Value, side: Side)
    requires !v.MessageV?
    ensures MixAll(h, KindChars(v)) == Mix(MixAll(h, NameChars(Ascii(TypeName(v)), side)), 0)
  {
    var name := NameChars(Ascii(TypeName(v)), side);
    MixAllConcat(h, name, [0]);
    assert MixAll(MixAll(h, name), [0]) == Mix(MixAll(h, name), 0);
  }

  lemma {:induction false} HashesSnoc(fields: seq<Field>, i: nat, side: Side)
    requires i < |fields|
    ensures NestedHashes(fields[..i + 1], side)
         == NestedHashes(fields[..i], side) + CollectedHash(fields[i].value, side)
  {
    assert fields[..i + 1][..i] == fields[..i];
  }

  function CollectedHash(v: Value, side: Side): (hs: seq<Word>) {
    if v.MessageV? then [NestedHash(v, side)] else []
  }

  lemma {:induction false} FingerprintFromState(fields: seq<Field>, side: Side)
    ensures Rotate(SumFrom(MixAll(SEED, FieldsChars(fields, side)), NestedHashes(fields, side)))
         == Fingerprint(fields, side)
  {
    HashesSum(MixAll(SEED, FieldsChars(fields, side)), fields, side);
  }

  lemma {:induction false} FieldsSnoc(fields: seq<Field>, i: nat)
    requires i < |fields|
    ensures EncodeFields(fields[..i + 1]) == EncodeFields(fields[..i]) + EncodeValue(fields[i].value)
    decreases i
  {
    if i == 0 {
      assert fields[..1] == [fields[0]] && fields[..0] == [] && [fields[0]][1..] == [];
      assert EncodeValue(fields[0].value) + [] == EncodeValue(fields[0].value);
    } else {
      var tail := fields[1..];
      assert fields[..i + 1][1..] == tail[..i] && fields[..i][1..] == tail[..i - 1];
      FieldsSnoc(tail, i - 1);
      Associative(EncodeValue(fields[0].value), EncodeFields(tail[..i - 1]), EncodeValue(fields[i].value));
    }
  }

  lemma {:induction false} FieldsStep(done: seq<Field>, target: seq<Field>, i: nat, s: Stream)
    requires i < |target|
    ensures var head := DecodeValue(target[i].value, s);
            var tail := DecodeFields(target[i + 1..], head.next);
            && done + DecodeFields(target[i..], s).fields == done + [target[i].(value := head.v)] + tail.fields
            && DecodeFields(target[i..], s).next == tail.next
  {
    assert target[i..][1..] == target[i + 1..];
    var head := DecodeValue(target[i].value, s);
    Associative(done, [target[i].(value := head.v)], DecodeFields(target[i + 1..], head.next).fields);
  }

  class ToLCMVisitor {
    const hasher: Hasher
    var buffer: bytes

    constructor ()
      ensures fresh(hasher) && hasher.side == Encoder && hasher.hash == SEED && hasher.hashes == []
      ensures buffer == []
    {
      hasher := new Hasher(Encoder);
      buffer := [];
    }

    method EncodedData(withHash: bool) returns (b: bytes)
      ensures b == (if withHash then BigEndian(Rotate(SumFrom(hasher.hash, hasher.hashes)), 8) else []) + buffer
    {
      var hash := hasher.Hash();
      b := (if withHash then BigEndian(hash, 8) else []) + buffer;
    }

    static method EncodeNested(fields: seq<Field>) returns (data: bytes, hash: Word)
      ensures data == EncodeFields(fields) && hash == Fingerprint(fields, Encoder)
      decreases fields, 3
    {
      var nested := new ToLCMVisitor();
      EmptyFirst(NestedHashes(fields, Encoder));
      EmptyFirst(EncodeFields(fields));
      nested.Accept(fields);
      data := nested.EncodedData(false);
      hash := nested.hasher.Hash();
      FingerprintFromState(fields, Encoder);
    }

    method Visit(f: Field)
      requires hasher.side == Encoder
      modifies this`buffer, hasher
      ensures hasher.hash == MixAll(old(hasher.hash), FieldChars(f, Encoder))
      ensures hasher.hashes == old(hasher.hashes) + CollectedHash(f.value, Encoder)
      ensures buffer == old(buffer) + EncodeValue(f.value)
      decreases f.value, 1
    {
      MixAllConcat(hasher.hash, NameChars(f.name, Encoder), KindChars(f.value));
      hasher.CalculateHash(f.name);
      if f.value.MessageV? {
        hasher.CalculateHashChar(0);
        var data, hash := EncodeNested(f.value.fields);
        buffer := buffer + data;
        hasher.hashes := hasher.hashes + [hash];
      } else {
        KindOfScalar(hasher.hash, f.value, Encoder);
        hasher.CalculateHash(Ascii(TypeName(f.value)));
        hasher.CalculateHashChar(0);
        buffer := buffer + EncodeValue(f.value);
      }
    }

    /** Visiting a message adds to the state, which is not reset between messages. */
    method Accept(fields: seq<Field>)
      requires hasher.side == Encoder
      modifies this`buffer, hasher
      ensures hasher.hash == MixAll(old(hasher.hash), FieldsChars(fields, Encoder))
      ensures hasher.hashes == old(hasher.hashes) + NestedHashes(fields, Encoder)
      ensures buffer == old(buffer) + EncodeFields(fields)
      decreases fields, 2
    {
      for i := 0 to |fields|
        invariant hasher.hash == MixAll(old(hasher.hash), FieldsChars(fields[..i], Encoder))
        invariant hasher.hashes == old(hasher.hashes) + NestedHashes(fields[..i], Encoder)
        invariant buffer == old(buffer) + EncodeFields(fields[..i])
      {
        CharsSnoc(fields, i, Encoder);
        MixAllConcat(old(hasher.hash), FieldsChars(fields[..i], Encoder), FieldChars(fields[i], Encoder));
        HashesSnoc(fields, i, Encoder);
        FieldsSnoc(fields, i);
        Associative(old(hasher.hashes), NestedHashes(fields[..i], Encoder), CollectedHash(fields[i].value, Encoder));
        Associative(old(buffer), EncodeFields(fields[..i]), EncodeValue(fields[i].value));
        Visit(fields[i]);
      }
      assert fields[..|fields|] == fields;
    }
  }

  method EncodeMessage(fields: seq<Field>) returns (b: bytes)
    ensures b == Encode(fields)
  {
    var visitor := new ToLCMVisitor();
    EmptyFirst(NestedHashes(fields, Encoder));
    EmptyFirst(EncodeFields(fields));
    visitor.Accept(fields);
    b := visitor.EncodedData(true);
    FingerprintFromState(fields, Encoder);
  }

  class FromLCMVisitor {
    const hasher: Hasher
    var stream: InStream
    var expectedHash: Word

    constructor ()
      ensures fresh(hasher) && fresh(stream) && Valid()
      ensures expectedHash == 0 && hasher.hash == SEED && hasher.hashes == []
    {
      hasher := new Hasher(Decoder);
      stream := new InStream([]);
      expectedHash := 0;
    }

    /** The decoder of a nested message goes on reading the payload of its parent. */
    constructor Nested(parent: InStream)
      requires parent.Valid()
      ensures fresh(hasher) && stream == parent && Valid()
      ensures expectedHash == 0 && hasher.hash == SEED && hasher.hashes == []
    {
      hasher := new Hasher(Decoder);
      stream := parent;
      expectedHash := 0;
    }

    ghost predicate Valid()
      reads this, stream
    {
      hasher.side == Decoder && stream.Valid()
    }

    ghost function State(): (d: DecoderState)
      reads this, stream
      requires Valid()
    {
      DecoderState(expectedHash, stream.data, stream.View())
    }

    method DecodeFrom(b: bytes)
      requires Valid()
      modifies this`stream, this`expectedHash
      ensures Valid() && fresh(stream) && State() == Start(b)
    {
      var s := Stream(b, true);
      expectedHash := ReadUnsigned(s, W64);
      stream := new InStream(Drop(s, 8).rest);
    }

    method DecodeNested(target: seq<Field>) returns (fields: seq<Field>, hash: Word)
      requires Valid()
      modifies stream
      ensures Valid() && hash == Fingerprint(target, Decoder)
      ensures ReadFields(fields, stream.View()) == DecodeFields(target, old(stream.View()))
      decreases target, 3
    {
      var nested := new FromLCMVisitor.Nested(stream);
      EmptyFirst(NestedHashes(target, Decoder));
      fields := nested.VisitAll(target);
      hash := nested.hasher.Hash();
      FingerprintFromState(target, Decoder);
    }

    /** One visit: mixes name and type into the hash and takes the field's value off the payload. */
    method Visit(f: Field) returns (v: Value)
      requires Valid()
      modifies hasher, stream
      ensures Valid()
      ensures var r := DecodeValue(f.value, old(stream.View())); v == r.v && stream.View() == r.next
      ensures hasher.hash == MixAll(old(hasher.hash), FieldChars(f, Decoder))
      ensures hasher.hashes == old(hasher.hashes) + CollectedHash(f.value, Decoder)
      decreases f.value, 1
    {
      MixAllConcat(hasher.hash, NameChars(f.name, Decoder), KindChars(f.value));
      hasher.CalculateHash(f.name);
      if f.value.MessageV? {
        hasher.CalculateHashChar(0);
        var fields, hash := DecodeNested(f.value.fields);
        hasher.hashes := hasher.hashes + [hash];
        v := MessageV(fields);
      } else {
        KindOfScalar(hasher.hash, f.value, Decoder);
        hasher.CalculateHash(Ascii(TypeName(f.value)));
        hasher.CalculateHashChar(0);
        v := ReadScalar(f.value);
      }
    }

    method ReadWidth(w: Width) returns (u: nat)
      requires Valid()
      modifies stream
      ensures Valid() && IsUnsigned(w, u)
      ensures u == ReadUnsigned(old(stream.View()), w) && stream.View() == Drop(old(stream.View()), Size(w))
    {
      ghost var s := stream.View();
      var b, _ := stream.Read(Size(w));
      u := FromBigEndian(b);
      assert u == ReadUnsigned(s, w);
    }

    method ReadText() returns (s: bytes)
      requires Valid()
      modifies stream
      ensures Valid()
      ensures ReadValue(TextV(s), stream.View()) == DecodeText(old(stream.View()))
    {
      var u := ReadWidth(W32);
      var length := FromPattern(W32, u);
      s := [];
      if length > 0 {
        var b, _ := stream.Read(length);
        s := b[..length - 1];
      }
    }

    method ReadByte(target: Value) returns (v: Value)
      requires Valid() && OneByte(target)
      modifies stream
      ensures Valid()
      ensures ReadValue(v, stream.View()) == DecodeByte(target, old(stream.View()))
    {
      var c := ReadWidth(W8);
      v := target;
      if stream.good {
        match target {
          case BoolV(_) => v := BoolV(c != 0);
          case CharV(_) => v := CharV(c);
          case IntV(_, _) => v := IntV(W8, FromPattern(W8, c));
          case UIntV(_, _) => v := UIntV(W8, c);
        }
      }
    }

    /** The visit overloads for everything but nested messages. */
    method ReadScalar(target: Value) returns (v: Value)
      requires Valid() && !target.MessageV?
      modifies stream
      ensures Valid()
      ensures ReadValue(v, stream.View()) == DecodeValue(target, old(stream.View()))
    {
      if OneByte(target) {
        v := ReadByte(target);
      } else {
        match target {
          case IntV(w, _) =>
            var u := ReadWidth(w);
            v := IntV(w, FromPattern(w, u));
          case UIntV(w, _) =>
            var u := ReadWidth(w);
            v := UIntV(w, u);
          case FloatV(_) =>
            var u := ReadWidth(W32);
            v := FloatV(u);
          case DoubleV(_) =>
            var u := ReadWidth(W64);
            v := DoubleV(u);
          case TextV(_) =>
            var s := ReadText();
            v := TextV(s);
        }
      }
    }

    method VisitAll(target: seq<Field>) returns (fields: seq<Field>)
      requires Valid()
      modifies hasher, stream
      ensures Valid()
      ensures var r := DecodeFields(target, old(stream.View())); fields == r.fields && stream.View() == r.next
      ensures hasher.hash == MixAll(old(hasher.hash), FieldsChars(target, Decoder))
      ensures hasher.hashes == old(hasher.hashes) + NestedHashes(target, Decoder)
      decreases target, 2
    {
      ghost var all := DecodeFields(target, stream.View());
      fields := [];
      for i := 0 to |target|
        invariant Valid()
        invariant all.fields == fields + DecodeFields(target[i..], stream.View()).fields
        invariant all.next == DecodeFields(target[i..], stream.View()).next
        invariant hasher.hash == MixAll(old(hasher.hash), FieldsChars(target[..i], Decoder))
        invariant hasher.hashes == old(hasher.hashes) + NestedHashes(target[..i], Decoder)
      {
        CharsSnoc(target, i, Decoder);
        MixAllConcat(old(hasher.hash), FieldsChars(target[..i], Decoder), FieldChars(target[i], Decoder));
        HashesSnoc(target, i, Decoder);
        Associative(old(hasher.hashes), NestedHashes(target[..i], Decoder), CollectedHash(target[i].value, Decoder));
        FieldsStep(fields, target, i, stream.View());
        var v := Visit(target[i]);
        fields := fields + [target[i].(value := v)];
      }
      assert target[..|target|] == target && target[|target|..] == [];
    }

    /** accept: preVisit, the visits, and postVisit's verdict on the fingerprint. */
    method Accept(target: seq<Field>) returns (fields: seq<Field>, mismatch: bool)
      requires Valid()
      modifies hasher, stream
      ensures Valid()
      ensures fields == AcceptFields(old(State()), target) && State() == AcceptState(old(State()), target)
      ensures mismatch <==> expectedHash != 0 && expectedHash != Fingerprint(target, Decoder)
    {
      if expectedHash != 0 {
        stream.pos, stream.good := 0, true;
        hasher.hash, hasher.hashes := SEED, [];
        EmptyFirst(NestedHashes(target, Decoder));
      }
      fields := VisitAll(target);
      var hash := hasher.Hash();
      FingerprintFromState(target, Decoder);
      mismatch := expectedHash != 0 && expectedHash != hash;
    }
  }
}
