/** Messages to MessagePack and back: the typed visitors over the key/value maps. */
module MsgPackMessages {
  import opened Bytes
  import opened Streams
  import opened Messages
  import opened MsgPack
  import opened MsgPackRoundTrip
  import MsgPackLimits
  import MsgPackDecoder

  // ---------------------------------------------------------------- encoding

  /** Integers are written unsigned unless negative; a char is a string of one byte. */
  function ToItem(v: Value): (item: Item)
    decreases v, 0
  {
    match v
    case BoolV(b) => Flag(b)
    case CharV(c) => Str([c])
    case IntV(_, i) => if i < 0 then SNum(i) else UNum(i)
    case UIntV(_, u) => UNum(u)
    case FloatV(bits) => Float(bits)
    case DoubleV(bits) => Double(bits)
    case TextV(s) => Str(s)
    case MessageV(fields) => Dict(Pack(fields))
  }

  /** The pairs a message is written as. */
  function Pack(fields: seq<Field>): (entries: seq<Entry>)
    ensures |entries| == |fields|
    ensures forall i :: 0 <= i < |fields| ==> entries[i] == Entry(fields[i].name, ToItem(fields[i].value))
    decreases fields, 1
  {
    if fields == [] then []
    else [Entry(fields[0].name, ToItem(fields[0].value))] + Pack(fields[1..])
  }

  function Encode(fields: seq<Field>): (b: bytes) {
    EncodeMap(Pack(fields))
  }

  // ---------------------------------------------------------------- decoding

  /** A visited field takes the stored value if the cast succeeds, and keeps its own otherwise. */
  function Assign(target: Value, node: Node): (v: Value)
    decreases target, 0
  {
    match (target, node)
    case (BoolV(_), Leaf(Flag(b))) => BoolV(b)
    case (CharV(_), Leaf(Str(s))) => if s == [] then target else CharV(s[0])
    case (IntV(w, _), Leaf(SNum(i))) => IntV(w, FromPattern(w, ToPattern(w, i)))
    case (IntV(w, _), Leaf(UNum(u))) => IntV(w, FromPattern(w, ToPattern(w, u)))
    case (UIntV(w, _), Leaf(UNum(u))) => UIntV(w, ToPattern(w, u))
    case (FloatV(_), Leaf(Float(bits))) => FloatV(bits)
    case (DoubleV(_), Leaf(Double(bits))) => DoubleV(bits)
    case (TextV(_), Leaf(Str(s))) => TextV(s)
    case (MessageV(fields), Branch(kv)) => MessageV(VisitAll(fields, kv))
    case _ => target
  }

  /** Visiting every field of a message with the decoder's map. */
  function VisitAll(target: seq<Field>, kv: KeyValues): (r: seq<Field>)
    ensures |r| == |target|
    ensures forall i :: 0 <= i < |r| ==>
              r[i] == if target[i].name in kv then target[i].(value := Assign(target[i].value, kv[target[i].name]))
                      else target[i]
    decreases target, 1
  {
    if target == [] then []
    else
      var f := target[0];
      [if f.name in kv then f.(value := Assign(f.value, kv[f.name])) else f] + VisitAll(target[1..], kv)
  }

  function DecodeInto(target: seq<Field>, b: bytes): (r: seq<Field>) {
    VisitAll(target, Index(ReadMap(Stream(b, true)).entries))
  }

  // ---------------------------------------------------------------- round trip

  /** A message whose packed form the decoder can read, in names and in sizes. */
  ghost predicate Packable(fields: seq<Field>) {
    && ValidFields(fields) && DistinctNames(fields)
    && Clean(Pack(fields)) && Sized(Pack(fields))
  }

  lemma {:induction false} ItemValid(v: Value)
    requires ValidValue(v)
    ensures ValidItem(ToItem(v))
    decreases v, 0
  {
    match v
    case IntV(w, i) => assert Modulus(w) <= Modulus(W64);
    case UIntV(w, u) => assert Modulus(w) <= Modulus(W64);
    case MessageV(fields) => PackValid(fields);
    case _ =>
  }

  lemma {:induction false} PackValid(fields: seq<Field>)
    requires ValidFields(fields)
    ensures ValidEntries(Pack(fields))
    decreases fields, 1
  {
    var entries := Pack(fields);
    forall i | 0 <= i < |entries| ensures ValidItem(entries[i].item) {
      assert fields[i] in fields;
      ItemValid(fields[i].value);
    }
  }

  lemma {:induction false} IntSurvives(target: Value, w: Width, i: int)
    requires target.IntV? && target.width == w && IsSigned(w, i)
    ensures Assign(target, ToNode(ToItem(IntV(w, i)))) == IntV(w, i)
  {
    PatternRoundTrip(w, i);
  }

  lemma {:induction false} ScalarRoundTrip(target: Value, v: Value)
    requires SameType(target, v) && ValidValue(v) && !v.MessageV?
    ensures Assign(target, ToNode(ToItem(v))) == v
  {
    match v
    case IntV(w, i) => IntSurvives(target, w, i);
    case UIntV(w, u) => SmallMod(u, Modulus(w));
    case _ =>
  }

  lemma {:induction false} FieldIndexed(fields: seq<Field>, i: nat)
    requires DistinctNames(fields) && i < |fields|
    ensures var kv := Index(Pack(fields));
            fields[i].name in kv && kv[fields[i].name] == ToNode(ToItem(fields[i].value))
  {
    MsgPackLimits.IndexDistinct(Pack(fields), i);
  }

  /**
    * A message visited with the map of another message of its type equals that message,
    * every integer surviving the switch between the signed and the unsigned form.
    */
  lemma {:induction false} VisitRoundTrip(target: seq<Field>, fields: seq<Field>)
    requires SameShape(target, fields) && ValidFields(fields) && DistinctNames(fields)
    ensures VisitAll(target, Index(Pack(fields))) == fields
    decreases target, 1
  {
    var kv := Index(Pack(fields));
    forall i | 0 <= i < |fields| ensures VisitAll(target, kv)[i] == fields[i] {
      FieldIndexed(fields, i);
      assert fields[i] in fields;
      AssignRoundTrip(target[i].value, fields[i].value);
    }
  }

  lemma {:induction false} AssignRoundTrip(target: Value, v: Value)
    requires SameType(target, v) && ValidValue(v)
    requires v.MessageV? ==> DistinctNames(v.fields)
    ensures Assign(target, ToNode(ToItem(v))) == v
    decreases target, 0
  {
    if v.MessageV? {
      VisitRoundTrip(target.fields, v.fields);
    } else {
      ScalarRoundTrip(target, v);
    }
  }

  /** Decoding the encoding of a message into any instance of its type makes the two equal. */
  lemma {:induction false} RoundTrip(target: seq<Field>, fields: seq<Field>)
    requires SameShape(target, fields) && Packable(fields)
    ensures DecodeInto(target, Encode(fields)) == fields
  {
    PackValid(fields);
    MapRoundTrip(Pack(fields), []);
    assert Encode(fields) + [] == Encode(fields);
    VisitRoundTrip(target, fields);
  }

  // ---------------------------------------------------------------- bytes on the wire

  /** The number of bytes an unsigned number takes behind its marker. */
  function Extra(u: nat): (k: nat) {
    if u < 0x80 then 0 else if u < 0x100 then 1 else if u < 0x1_0000 then 2 else if u < TWO32 then 4 else 8
  }

  /** Unsigned numbers: themselves below 128, and otherwise 0xCC to 0xCF and 1, 2, 4 or 8 bytes. */
  lemma {:induction false} UintBytes(u: nat, j: nat)
    requires u < TWO64 && j < Extra(u)
    ensures var b, k := EncodeUint(u), Extra(u);
            && |b| == 1 + k && b[1 + j] == u / Pow256(k - 1 - j) % 256
            && b[0] == (if k == 1 then 0xCC else if k == 2 then 0xCD else if k == 4 then 0xCE else 0xCF)
  {
    BigEndianDigit(u, Extra(u), j);
  }

  /** The number of bytes a negative number takes behind its marker; -32 takes one too many. */
  function ExtraNegative(i: int): (k: nat) {
    if -32 < i then 0 else if -0x80 <= i then 1 else if -0x8000 <= i then 2 else if -0x8000_0000 <= i then 4 else 8
  }

  /** Negative numbers: one byte above -32, and otherwise 0xD0 to 0xD3 and a two's complement. */
  lemma {:induction false} IntBytes(i: int, j: nat)
    requires IsSigned(W64, i) && i < 0
    ensures ExtraNegative(i) == 0 ==> EncodeInt(i) == [256 + i]
    ensures var b, k := EncodeInt(i), ExtraNegative(i);
            j < k ==>
              && |b| == 1 + k && b[1 + j] == (i + Pow256(k)) / Pow256(k - 1 - j) % 256
              && b[0] == (if k == 1 then 0xD0 else if k == 2 then 0xD1 else if k == 4 then 0xD2 else 0xD3)
  {
    var k := ExtraNegative(i);
    if k == 0 {
      SmallMod(256 + i, 256);
    } else if j < k {
      PatternDigit(if k == 1 then W8 else if k == 2 then W16 else if k == 4 then W32 else W64, i, j);
    }
  }

  lemma {:induction false} PatternDigit(w: Width, i: int, j: nat)
    requires IsSigned(w, i) && i < 0 && j < Size(w)
    ensures 0 <= i + Pow256(Size(w))
    ensures BigEndian(ToPattern(w, i), Size(w))[j] == (i + Pow256(Size(w))) / Pow256(Size(w) - 1 - j) % 256
  {
    TwosComplement(w, i);
    Pow256Sizes();
    BigEndianDigit(ToPattern(w, i), Size(w), j);
  }

  /** Strings: a marker with the length in it or before it, and the bytes. */
  lemma {:induction false} StringBytes(s: bytes)
    requires |s| < TWO32
    ensures var b, n := EncodeString(s), |s|;
            && (n < 32 ==> b == [0xA0 + n] + s)
            && (32 <= n < 0x100 ==> b == [0xD9] + BigEndian(n, 1) + s)
            && (0x100 <= n < 0x1_0000 ==> b == [0xDA] + BigEndian(n, 2) + s)
            && (0x1_0000 <= n ==> b == [0xDB] + BigEndian(n, 4) + s)
  {
    SmallMod(|s|, TWO32);
    assert s[..|s|] == s;
  }

  /** Maps: a marker with the number of pairs in it or before it, and the pairs. */
  lemma {:induction false} MapBytes(fields: seq<Field>)
    requires |fields| < TWO32
    ensures var b, n, pairs := Encode(fields), |fields|, EncodeEntries(Pack(fields));
            && (n < 16 ==> b == [0x80 + n] + pairs)
            && (16 <= n < 0x1_0000 ==> b == [0xDE] + BigEndian(n, 2) + pairs)
            && (0x1_0000 <= n ==> b == [0xDF] + BigEndian(n, 4) + pairs)
  {
    SmallMod(|fields|, TWO32);
  }

  /** The other values, and which form an integer takes: that of negative numbers only below zero. */
  lemma {:induction false} ValueBytes(v: Value)
    ensures var b := EncodeItem(ToItem(v));
            match v
            case BoolV(t) => b == [if t then 0xC3 else 0xC2]
            case CharV(c) => b == [0xA1, c]
            case IntV(_, i) => if i < 0 then b == EncodeInt(i) else b == EncodeUint(i)
            case UIntV(_, u) => b == EncodeUint(u)
            case FloatV(bits) => b == [0xCA] + BigEndian(bits, 4)
            case DoubleV(bits) => b == [0xCB] + BigEndian(bits, 8)
            case TextV(s) => b == EncodeString(s)
            case MessageV(fields) => |Encode(fields)| < TWO32 ==> b == Encode(fields)
  {
    match v
    case CharV(c) => StringBytes([c]);
    case MessageV(fields) =>
      var b := Encode(fields);
      if |b| < TWO32 { assert b[..|b| % TWO32] == b; }
    case _ =>
  }

  /** What a number does to an integer field: its low bits remain; unsigned fields take no negative form. */
  lemma {:induction false} NumberAssigned(target: Value, u: nat, i: int)
    ensures var v, s := Assign(target, Leaf(UNum(u))), Assign(target, Leaf(SNum(i)));
            match target
            case UIntV(w, _) =>
              v.UIntV? && v.width == w && v.u < Modulus(w) && (u - v.u) % Modulus(w) == 0 && s == target
            case IntV(w, _) =>
              && v.IntV? && v.width == w && IsSigned(w, v.i) && (u - v.i) % Modulus(w) == 0
              && s.IntV? && s.width == w && IsSigned(w, s.i) && (i - s.i) % Modulus(w) == 0
            case _ => v == target && s == target
  {
    match target
    case UIntV(w, _) => LowBits(w, u);
    case IntV(w, _) =>
      LowBits(w, u);
      LowBits(w, i);
    case _ =>
  }

  /** What the decoder makes of a marker and the number behind it. */
  lemma {:induction false} MarkedValue(c: byte, b: bytes, rest: bytes)
    ensures var item, n := ReadItem(Stream([c] + (b + rest), true)), FromBigEndian(b);
            && (c <= 0x7F && b == [] ==> item == ReadValue(UNum(c), Stream(rest, true)))
            && (c == 0xCC && |b| == 1 ==> item == ReadValue(UNum(n), Stream(rest, true)))
            && (c == 0xCD && |b| == 2 ==> item == ReadValue(UNum(n), Stream(rest, true)))
            && (c == 0xCE && |b| == 4 ==> item == ReadValue(UNum(n), Stream(rest, true)))
            && (c == 0xCF && |b| == 8 ==> item == ReadValue(UNum(n), Stream(rest, true)))
            && (c == 0xCA && |b| == 4 ==> item == ReadValue(Float(n), Stream(rest, true)))
            && (c == 0xCB && |b| == 8 ==> item == ReadValue(Double(n), Stream(rest, true)))
            && (c == 0xC2 && b == [] ==> item == ReadValue(Flag(false), Stream(rest, true)))
            && (c == 0xC3 && b == [] ==> item == ReadValue(Flag(true), Stream(rest, true)))
  {
    Marker(c, b + rest);
    ReadPrefix(b, rest);
  }

  /** A number from a bit pattern of so many bytes. */
  function PatternValue(b: bytes): (i: int) {
    if FromBigEndian(b) < Pow256(|b|) / 2 then FromBigEndian(b) else FromBigEndian(b) - Pow256(|b|)
  }

  lemma {:induction false} MarkedInteger(c: byte, b: bytes, rest: bytes)
    ensures var item := ReadItem(Stream([c] + (b + rest), true));
            && (c >= 0xE0 && b == [] ==> item == ReadValue(SNum(c - 256), Stream(rest, true)))
            && (c == 0xD0 && |b| == 1 ==> item == ReadValue(SNum(PatternValue(b)), Stream(rest, true)))
            && (c == 0xD1 && |b| == 2 ==> item == ReadValue(SNum(PatternValue(b)), Stream(rest, true)))
            && (c == 0xD2 && |b| == 4 ==> item == ReadValue(SNum(PatternValue(b)), Stream(rest, true)))
            && (c == 0xD3 && |b| == 8 ==> item == ReadValue(SNum(PatternValue(b)), Stream(rest, true)))
  {
    Marker(c, b + rest);
    ReadPrefix(b, rest);
    FromBigEndianBound(b);
    Pow256Sizes();
  }

  // ---------------------------------------------------------------- the visitors

  class ToMsgPackVisitor {
    var buffer: bytes
    var numberOfFields: nat

    constructor ()
      ensures buffer == [] && numberOfFields == 0
    {
      buffer, numberOfFields := [], 0;
    }

    function EncodedData(): (b: bytes)
      reads this
    {
      MapHeader(numberOfFields) + buffer
    }

    method EncodeValue(v: Value) returns (b: bytes)
      ensures b == EncodeItem(ToItem(v))
      decreases v, 0
    {
      match v {
        case MessageV(fields) =>
          var nested := new ToMsgPackVisitor();
          nested.Accept(fields);
          var data := nested.EncodedData();
          b := data[..|data| % TWO32];
        case _ =>
          b := EncodeItem(ToItem(v));
      }
    }

    method Visit(f: Field)
      modifies this
      ensures buffer == old(buffer) + (EncodeString(f.name) + EncodeItem(ToItem(f.value)))
      ensures numberOfFields == old(numberOfFields) + 1
      decreases f.value, 1
    {
      var value := EncodeValue(f.value);
      buffer := buffer + (EncodeString(f.name) + value);
      numberOfFields := numberOfFields + 1;
    }

    /** preVisit resets the encoder, so one encoder can be used for many messages. */
    method Accept(fields: seq<Field>)
      modifies this
      ensures EncodedData() == Encode(fields)
      decreases fields, 2
    {
      buffer, numberOfFields := [], 0;
      ghost var entries := Pack(fields);
      for i := 0 to |fields|
        invariant numberOfFields == i
        invariant buffer == EncodeEntries(entries[..i])
      {
        EntriesSnoc(entries[..i], entries[i]);
        TakeNext(entries, i);
        Visit(fields[i]);
      }
      assert entries[..|fields|] == entries;
    }
  }

  class FromMsgPackVisitor {
    var keyValues: KeyValues

    constructor (preset: KeyValues)
      ensures keyValues == preset
    {
      keyValues := preset;
    }

    method DecodeFrom(stream: InStream)
      requires stream.Valid()
      modifies this, stream
      ensures stream.Valid()
      ensures var r := ReadMap(old(stream.View())); keyValues == Index(r.entries) && stream.View() == r.next
    {
      keyValues := MsgPackDecoder.ReadKeyValues(stream);
    }

    method Visit(f: Field) returns (v: Value)
      ensures v == if f.name in keyValues then Assign(f.value, keyValues[f.name]) else f.value
      decreases f.value, 0
    {
      v := f.value;
      if f.name in keyValues {
        var node := keyValues[f.name];
        if f.value.MessageV? {
          if node.Branch? {
            var nested := new FromMsgPackVisitor(node.kv);
            var visited := nested.Accept(f.value.fields);
            v := MessageV(visited);
          }
        } else {
          v := Assign(f.value, node);
        }
      }
    }

    method Accept(target: seq<Field>) returns (fields: seq<Field>)
      ensures fields == VisitAll(target, keyValues)
      decreases target, 1
    {
      ghost var all := VisitAll(target, keyValues);
      fields := [];
      for i := 0 to |target|
        invariant fields == all[..i]
      {
        var v := Visit(target[i]);
        TakeNext(all, i);
        fields := fields + [target[i].(value := v)];
      }
    }
  }
}
