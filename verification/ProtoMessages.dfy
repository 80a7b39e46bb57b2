/** Messages to Protocol Buffers and back: the typed visitors over the record stream. */
module ProtoMessages {
  import opened Bytes
  import opened Streams
  import opened VarInts
  import opened Proto
  import opened Messages

  // ---------------------------------------------------------------- encoding

  function ToAny(v: Value): (a: Any)
    decreases v, 0
  {
    match v
    case BoolV(b) => Number(if b then 1 else 0)
    case CharV(c) => Number(c)
    case IntV(w, i) => if IsSigned(w, i) then Number(ToZigZag(w, i)) else Number(0)
    case UIntV(_, u) => Number(u)
    case FloatV(bits) => Four(bits)
    case DoubleV(bits) => Eight(bits)
    case TextV(s) => Chunk(s)
    case MessageV(fields) => Chunk(EncodeRecords(ToRecords(fields)))
  }

  function ToRecords(fields: seq<Field>): (rs: seq<Record>)
    ensures |rs| == |fields|
    ensures forall i :: 0 <= i < |fields| ==> rs[i] == Record(fields[i].id, ToAny(fields[i].value))
    decreases fields, 1
  {
    if fields == [] then []
    else [Record(fields[0].id, ToAny(fields[0].value))] + ToRecords(fields[1..])
  }

  function Encode(fields: seq<Field>): (b: bytes) {
    EncodeRecords(ToRecords(fields))
  }

  // ---------------------------------------------------------------- decoding

  /** A visited field takes the stored value if its kind fits, and keeps its own otherwise. */
  function Assign(target: Value, a: Any): (v: Value)
    decreases target, 0
  {
    match (target, a)
    case (BoolV(_), Number(n)) => BoolV(n != 0)
    case (CharV(_), Number(n)) => CharV(n % 256)
    case (IntV(w, _), Number(n)) => IntV(w, FromZigZag(w, n % Modulus(w)))
    case (UIntV(w, _), Number(n)) => UIntV(w, n % Modulus(w))
    case (FloatV(_), Four(bits)) => FloatV(bits)
    case (DoubleV(_), Eight(bits)) => DoubleV(bits)
    case (TextV(_), Chunk(s)) => TextV(s)
    case (MessageV(fields), Chunk(s)) => MessageV(VisitAll(fields, Proto.Decode(Stream(s, true), map[])))
    case _ => target
  }

  /** Visiting every field of a message with the decoder's map. */
  function VisitAll(target: seq<Field>, m: AnyMap): (r: seq<Field>)
    ensures |r| == |target|
    ensures forall i :: 0 <= i < |r| ==>
              r[i] == if target[i].id in m then target[i].(value := Assign(target[i].value, m[target[i].id]))
                      else target[i]
    decreases target, 1
  {
    if target == [] then []
    else
      var f := target[0];
      [if f.id in m then f.(value := Assign(f.value, m[f.id])) else f] + VisitAll(target[1..], m)
  }

  function DecodeInto(target: seq<Field>, b: bytes): (r: seq<Field>) {
    VisitAll(target, Proto.Decode(Stream(b, true), map[]))
  }

  // ---------------------------------------------------------------- round trip

  lemma {:induction false} ChunkSize(rs: seq<Record>, i: nat)
    requires i < |rs| && rs[i].value.Chunk?
    ensures |rs[i].value.s| <= |EncodeRecords(rs)|
  {
    if i > 0 {
      ChunkSize(rs[1..], i - 1);
    }
  }

  lemma {:induction false} AnyValid(v: Value)
    requires ValidValue(v)
    requires v.TextV? ==> |v.s| < TWO64
    requires v.MessageV? ==> |Encode(v.fields)| < TWO64
    ensures ValidAny(ToAny(v))
  {
    match v
    case UIntV(w, u) => assert Modulus(w) <= TWO64;
    case IntV(w, i) => assert Modulus(w) <= TWO64;
    case _ =>
  }

  lemma {:induction false} RecordValid(fields: seq<Field>, i: nat)
    requires ValidFields(fields) && |Encode(fields)| < TWO64 && i < |fields|
    ensures ValidRecord(ToRecords(fields)[i])
  {
    var f, r := fields[i], ToRecords(fields)[i];
    assert f in fields;
    if f.value.TextV? || f.value.MessageV? {
      ChunkSize(ToRecords(fields), i);
    }
    AnyValid(f.value);
  }

  lemma {:induction false} RecordsValid(fields: seq<Field>)
    requires ValidFields(fields) && |Encode(fields)| < TWO64
    ensures forall r :: r in ToRecords(fields) ==> ValidRecord(r)
  {
    var rs := ToRecords(fields);
    forall i | 0 <= i < |rs| ensures ValidRecord(rs[i]) {
      RecordValid(fields, i);
    }
  }

  ghost predicate IdsFit(fields: seq<Field>) {
    forall f :: f in fields ==>
      f.id < MAX_IDS && (f.value.MessageV? ==> IdsFit(f.value.fields))
  }

  /** The identifiers of a message itself, not of those nested in it. */
  ghost predicate OwnIdsFit(fields: seq<Field>) {
    forall f :: f in fields ==> f.id < MAX_IDS
  }

  lemma {:induction false} FiledUnder(fields: seq<Field>, j: nat)
    requires OwnIdsFit(fields) && j < |fields|
    ensures ToRecords(fields)[j].id % MAX_IDS == fields[j].id
  {
    assert fields[j] in fields;
  }

  lemma {:induction false} FirstOfItsId(fields: seq<Field>, i: nat)
    requires DistinctIds(fields) && OwnIdsFit(fields) && i < |fields|
    ensures IsFirst(ToRecords(fields), i, fields[i].id)
  {
    var rs := ToRecords(fields);
    FiledUnder(fields, i);
    forall j | 0 <= j < i ensures rs[j].id % MAX_IDS != fields[i].id {
      FiledUnder(fields, j);
    }
  }

  /** What the encoder needs of a message for its identifiers and lengths to survive. */
  ghost predicate Encodable(fields: seq<Field>) {
    && ValidFields(fields) && DistinctIds(fields) && IdsFit(fields)
    && |Encode(fields)| < TWO64
  }

  /** Under distinct small identifiers the decoder's map holds every field's own value. */
  lemma {:induction false} DecodedMap(fields: seq<Field>, i: nat)
    requires ValidFields(fields) && DistinctIds(fields) && OwnIdsFit(fields)
    requires |Encode(fields)| < TWO64 && i < |fields|
    ensures var m := Proto.Decode(Stream(Encode(fields), true), map[]);
            fields[i].id in m && m[fields[i].id] == ToAny(fields[i].value)
  {
    RecordsValid(fields);
    RecordStreamRoundTrip(ToRecords(fields), map[]);
    FirstOfItsId(fields, i);
    FirstOccurrencesMeaning(ToRecords(fields), map[], fields[i].id);
  }

  lemma {:induction false} FieldEncodable(fields: seq<Field>, i: nat)
    requires Encodable(fields) && i < |fields|
    ensures ValidValue(fields[i].value)
    ensures fields[i].value.MessageV? ==> Encodable(fields[i].value.fields)
  {
    assert fields[i] in fields;
    if fields[i].value.MessageV? {
      ChunkSize(ToRecords(fields), i);
    }
  }

  lemma {:induction false} ScalarRoundTrip(target: Value, v: Value)
    requires SameType(target, v) && ValidValue(v) && !v.MessageV?
    ensures Assign(target, ToAny(v)) == v
  {
    match v
    case IntV(w, i) =>
      ZigZagRoundTrip(w, i);
      SmallMod(ToZigZag(w, i), Modulus(w));
    case UIntV(w, u) =>
      SmallMod(u, Modulus(w));
    case _ =>
  }

  lemma {:induction false} AssignRoundTrip(target: Value, v: Value)
    requires SameType(target, v) && ValidValue(v)
    requires v.MessageV? ==> Encodable(v.fields)
    ensures Assign(target, ToAny(v)) == v
    decreases target, 0
  {
    if v.MessageV? {
      RoundTrip(target.fields, v.fields);
    } else {
      ScalarRoundTrip(target, v);
    }
  }

  /**
    * Whatever an instance of the message type holds, decoding the encoding of another
    * instance into it makes the two equal, nested messages included.
    */
  lemma {:induction false} RoundTrip(target: seq<Field>, fields: seq<Field>)
    requires SameShape(target, fields) && Encodable(fields)
    ensures DecodeInto(target, Encode(fields)) == fields
    decreases target, 1
  {
    var m := Proto.Decode(Stream(Encode(fields), true), map[]);
    forall i | 0 <= i < |fields| ensures VisitAll(target, m)[i] == fields[i] {
      DecodedMap(fields, i);
      FieldEncodable(fields, i);
      AssignRoundTrip(target[i].value, fields[i].value);
    }
  }

  // ---------------------------------------------------------------- bytes on the wire

  /** The low three bits of the key of a value. */
  function KindBits(v: Value): (n: nat) {
    match v
    case FloatV(_) => 5
    case DoubleV(_) => 1
    case TextV(_) => 2
    case MessageV(_) => 2
    case _ => 0
  }

  /** Every record starts with eight times its identifier plus what stands for the kind of its value. */
  lemma {:induction false} RecordKey(id: nat, v: Value)
    requires id < MAX_IDS
    ensures EncodeRecord(Record(id, ToAny(v))) == VarInt(8 * id + KindBits(v)) + EncodePayload(ToAny(v))
    ensures id < 16 ==> EncodeRecord(Record(id, ToAny(v)))[0] == 8 * id + KindBits(v)
  {
    SmallMod(id * 8, TWO32);
    if id < 16 {
      SmallVarInt(8 * id + KindBits(v));
    }
  }

  /** What follows the key, byte by byte. */
  lemma {:induction false} PayloadBytes(v: Value)
    requires ValidValue(v)
    ensures var b := EncodePayload(ToAny(v));
            match v
            case BoolV(t) => b == [if t then 1 else 0]
            case CharV(c) => b == VarInt(c)
            case UIntV(_, u) => b == VarInt(u)
            case IntV(_, i) => b == VarInt(if i < 0 then -2 * i - 1 else 2 * i)
            case FloatV(bits) => |b| == 4 && forall i :: 0 <= i < 4 ==> b[i] == bits / Pow256(i) % 256
            case DoubleV(bits) => |b| == 8 && forall i :: 0 <= i < 8 ==> b[i] == bits / Pow256(i) % 256
            case TextV(s) => b == VarInt(|s|) + s
            case MessageV(fields) => b == VarInt(|Encode(fields)|) + Encode(fields)
  {
    match v
    case IntV(w, i) => ZigZagRoundTrip(w, i);
    case FloatV(bits) =>
      forall i | 0 <= i < 4 ensures EncodePayload(ToAny(v))[i] == bits / Pow256(i) % 256 {
        LittleEndianDigit(bits, 4, i);
      }
    case DoubleV(bits) =>
      forall i | 0 <= i < 8 ensures EncodePayload(ToAny(v))[i] == bits / Pow256(i) % 256 {
        LittleEndianDigit(bits, 8, i);
      }
    case _ =>
  }

  /** What a number does to a field: any number but zero is true, and integers keep its low bits. */
  lemma {:induction false} NumberAssigned(target: Value, n: nat)
    ensures var v := Assign(target, Number(n));
            match target
            case BoolV(_) => v == BoolV(n > 0)
            case CharV(_) => v.CharV? && (n - v.c) % 256 == 0
            case UIntV(w, _) => v.UIntV? && v.width == w && v.u < Modulus(w) && (n - v.u) % Modulus(w) == 0
            case IntV(w, _) => v.IntV? && v.width == w && IsSigned(w, v.i)
                               && (n - (if v.i < 0 then -2 * v.i - 1 else 2 * v.i)) % Modulus(w) == 0
            case _ => v == target
  {
    match target
    case CharV(_) => LowBits(W8, n);
    case UIntV(w, _) => LowBits(w, n);
    case IntV(w, _) =>
      LowBits(w, n);
      ZigZagInverse(w, n % Modulus(w));
      ZigZagRoundTrip(w, FromZigZag(w, n % Modulus(w)));
    case _ =>
  }

  // ---------------------------------------------------------------- large identifiers

  /** No encoded message files anything under an identifier from 2^29 on. */
  lemma {:induction false} LargeIdsAreAbsent(fields: seq<Field>, id: nat)
    requires ValidFields(fields) && |Encode(fields)| < TWO64 && id >= MAX_IDS
    ensures id !in Proto.Decode(Stream(Encode(fields), true), map[])
  {
    RecordsValid(fields);
    RecordStreamRoundTrip(ToRecords(fields), map[]);
    FirstOccurrencesMeaning(ToRecords(fields), map[], id);
  }

  /** So a field with such an identifier keeps what the receiver holds. */
  lemma {:induction false} LargeIdKeepsReceiver(target: seq<Field>, fields: seq<Field>, i: nat)
    requires ValidFields(fields) && |Encode(fields)| < TWO64
    requires i < |target| && target[i].id >= MAX_IDS
    ensures DecodeInto(target, Encode(fields))[i] == target[i]
  {
    LargeIdsAreAbsent(fields, target[i].id);
  }

  /** There is something in the value that can differ: a scalar, at some depth. */
  ghost predicate Carries(v: Value) {
    v.MessageV? ==> exists i :: 0 <= i < |v.fields| && Carries(v.fields[i].value)
  }

  /** Every field with a large identifier carries something; small ones may be empty messages. */
  ghost predicate LargeIdsCarry(fields: seq<Field>) {
    forall f :: f in fields ==>
      && (f.id >= MAX_IDS ==> Carries(f.value))
      && (f.value.MessageV? ==> LargeIdsCarry(f.value.fields))
  }

  lemma {:induction false} ShapedLikeItself(fields: seq<Field>)
    ensures SameShape(fields, fields)
    decreases fields
  {
    forall i | 0 <= i < |fields| ensures SameType(fields[i].value, fields[i].value) {
      if fields[i].value.MessageV? {
        ShapedLikeItself(fields[i].value.fields);
      }
    }
  }

  lemma {:induction false} ReplacedShape(fields: seq<Field>, i: nat, v: Value)
    requires i < |fields| && SameType(v, fields[i].value)
    ensures SameShape(fields[i := fields[i].(value := v)], fields)
  {
    ShapedLikeItself(fields);
  }

  /** A different value of the same type. */
  lemma {:induction false} OtherValue(v: Value) returns (w: Value)
    requires Carries(v)
    ensures SameType(w, v) && w != v
    decreases v
  {
    match v
    case BoolV(b) => w := BoolV(!b);
    case CharV(c) => w := CharV(if c == 0 then 1 else 0);
    case IntV(width, i) => w := IntV(width, if i == 0 then 1 else 0);
    case UIntV(width, u) => w := UIntV(width, if u == 0 then 1 else 0);
    case FloatV(bits) => w := FloatV(if bits == 0 then 1 else 0);
    case DoubleV(bits) => w := DoubleV(if bits == 0 then 1 else 0);
    case TextV(s) => w := TextV(if s == [] then [0] else []);
    case MessageV(fields) =>
      var i :| 0 <= i < |fields| && Carries(fields[i].value);
      var u := OtherValue(fields[i].value);
      ReplacedShape(fields, i, u);
      w := MessageV(fields[i := fields[i].(value := u)]);
      assert w.fields[i].value != fields[i].value;
  }

  function Replaced(fields: seq<Field>, i: nat, v: Value): (r: seq<Field>)
    requires i < |fields|
  {
    fields[i := fields[i].(value := v)]
  }

  lemma {:induction false} OwnIdLoses(fields: seq<Field>, i: nat, v: Value)
    requires ValidFields(fields) && |Encode(fields)| < TWO64
    requires i < |fields| && fields[i].id >= MAX_IDS && v != fields[i].value
    ensures DecodeInto(Replaced(fields, i, v), Encode(fields)) != fields
  {
    LargeIdKeepsReceiver(Replaced(fields, i, v), fields, i);
  }

  lemma {:induction false} NestedIdLoses(fields: seq<Field>, i: nat, nested: seq<Field>)
    requires ValidFields(fields) && DistinctIds(fields) && OwnIdsFit(fields) && |Encode(fields)| < TWO64
    requires i < |fields| && fields[i].value.MessageV?
    requires DecodeInto(nested, Encode(fields[i].value.fields)) != fields[i].value.fields
    ensures DecodeInto(Replaced(fields, i, MessageV(nested)), Encode(fields)) != fields
  {
    var f := fields[i];
    DecodedMap(fields, i);
    assert DecodeInto(Replaced(fields, i, MessageV(nested)), Encode(fields))[i].value
        == MessageV(DecodeInto(nested, Encode(f.value.fields)));
  }

  lemma {:induction false} NestedFacts(fields: seq<Field>, i: nat)
    requires ValidFields(fields) && DistinctIds(fields) && |Encode(fields)| < TWO64 && LargeIdsCarry(fields)
    requires i < |fields| && fields[i].value.MessageV?
    ensures var nested := fields[i].value.fields;
            ValidFields(nested) && DistinctIds(nested) && |Encode(nested)| < TWO64 && LargeIdsCarry(nested)
  {
    assert fields[i] in fields;
    ChunkSize(ToRecords(fields), i);
  }

  lemma {:induction false} WhereIdsDoNotFit(fields: seq<Field>) returns (i: nat)
    requires !IdsFit(fields)
    ensures i < |fields|
    ensures if OwnIdsFit(fields) then fields[i].value.MessageV? && !IdsFit(fields[i].value.fields)
            else fields[i].id >= MAX_IDS
  {
    if OwnIdsFit(fields) {
      var f :| f in fields && f.value.MessageV? && !IdsFit(f.value.fields);
      i :| i < |fields| && fields[i] == f;
    } else {
      var f :| f in fields && f.id >= MAX_IDS;
      i :| i < |fields| && fields[i] == f;
    }
  }

  /** Unless the identifiers fit, a receiver that does not become equal to the message decoded into it. */
  lemma {:induction false} LargeIdLoses(fields: seq<Field>) returns (target: seq<Field>)
    requires ValidFields(fields) && DistinctIds(fields) && |Encode(fields)| < TWO64
    requires LargeIdsCarry(fields)
    ensures !IdsFit(fields) ==> SameShape(target, fields) && DecodeInto(target, Encode(fields)) != fields
    decreases fields
  {
    target := fields;
    if !IdsFit(fields) {
      var i := WhereIdsDoNotFit(fields);
      assert fields[i] in fields;
      if OwnIdsFit(fields) {
        NestedFacts(fields, i);
        var nested := LargeIdLoses(fields[i].value.fields);
        NestedIdLoses(fields, i, nested);
        ReplacedShape(fields, i, MessageV(nested));
        target := Replaced(fields, i, MessageV(nested));
      } else {
        var v := OtherValue(fields[i].value);
        OwnIdLoses(fields, i, v);
        ReplacedShape(fields, i, v);
        target := Replaced(fields, i, v);
      }
    }
  }

  /**
    * A message whose fields carry something is decoded into every receiver of its type
    * exactly when all its identifiers, at any depth, are below 2^29.
    */
  lemma {:induction false} ReadsBackIffIdsFit(fields: seq<Field>)
    requires ValidFields(fields) && DistinctIds(fields) && |Encode(fields)| < TWO64
    requires LargeIdsCarry(fields)
    ensures (forall target :: SameShape(target, fields) ==> DecodeInto(target, Encode(fields)) == fields)
       <==> IdsFit(fields)
  {
    if IdsFit(fields) {
      forall target | SameShape(target, fields) ensures DecodeInto(target, Encode(fields)) == fields {
        RoundTrip(target, fields);
      }
    } else {
      var target := LargeIdLoses(fields);
    }
  }

  // ---------------------------------------------------------------- the visitors

  lemma {:induction false} RecordsFrom(rs: seq<Record>, i: nat)
    requires i < |rs|
    ensures EncodeRecords(rs[i..]) == EncodeRecord(rs[i]) + EncodeRecords(rs[i + 1..])
  {
    assert rs[i..][1..] == rs[i + 1..];
  }

  class ToProtoVisitor {
    var buffer: bytes

    constructor ()
      ensures buffer == []
    {
      buffer := [];
    }

    /** The encode overloads. */
    static method EncodeValue(v: Value) returns (b: bytes)
      requires ValidValue(v) && ValidAny(ToAny(v))
      ensures b == EncodePayload(ToAny(v))
      decreases v, 0
    {
      match v {
        case FloatV(bits) =>
          b := LittleEndian(bits, 4);
        case DoubleV(bits) =>
          b := LittleEndian(bits, 8);
        case TextV(s) =>
          b := EncodeChunk(s);
        case MessageV(fields) =>
          var nested := new ToProtoVisitor();
          EmptyFirst(Encode(fields));
          nested.Accept(fields);
          b := EncodeChunk(nested.buffer);
        case _ =>
          var n, _ := ToVarInt(ToAny(v).v);
          b := n;
      }
    }

    static method EncodeChunk(s: bytes) returns (b: bytes)
      requires |s| < TWO64
      ensures b == EncodePayload(Chunk(s))
    {
      var length, _ := ToVarInt(|s|);
      b := length + s;
    }

    method Visit(f: Field)
      requires f.id < TWO32 && ValidValue(f.value) && ValidAny(ToAny(f.value))
      modifies this
      ensures buffer == old(buffer) + EncodeRecord(Record(f.id, ToAny(f.value)))
      decreases f.value, 1
    {
      var key, _ := ToVarInt(EncodeKey(f.id, WireType(ToAny(f.value))));
      var payload := EncodeValue(f.value);
      buffer := buffer + (key + payload);
    }

    method Accept(fields: seq<Field>)
      requires ValidFields(fields) && |Encode(fields)| < TWO64
      modifies this
      ensures buffer == old(buffer) + Encode(fields)
      decreases fields, 2
    {
      var rs := ToRecords(fields);
      RecordsValid(fields);
      for i := 0 to |fields|
        invariant buffer + EncodeRecords(rs[i..]) == old(buffer) + Encode(fields)
      {
        assert fields[i] in fields && rs[i] in rs;
        RecordsFrom(rs, i);
        Associative(buffer, EncodeRecord(rs[i]), EncodeRecords(rs[i + 1..]));
        Visit(fields[i]);
      }
    }
  }

  class FromProtoVisitor {
    var mapOfKeyValues: AnyMap

    constructor ()
      ensures mapOfKeyValues == map[]
    {
      mapOfKeyValues := map[];
    }

    method DecodeFrom(stream: InStream)
      requires stream.Valid()
      modifies this, stream
      ensures stream.Valid()
      ensures mapOfKeyValues == Proto.Decode(old(stream.View()), map[])
    {
      mapOfKeyValues := Proto.DecodeFrom(stream);
    }

    /** The visit overloads: the value a field holds after being visited. */
    method Visit(f: Field) returns (v: Value)
      ensures v == if f.id in mapOfKeyValues then Assign(f.value, mapOfKeyValues[f.id]) else f.value
      decreases f.value, 0
    {
      v := f.value;
      if f.id in mapOfKeyValues {
        var a := mapOfKeyValues[f.id];
        match f.value {
          case MessageV(fields) =>
            if a.Chunk? {
              var stream := new InStream(a.s);
              var nested := new FromProtoVisitor();
              nested.DecodeFrom(stream);
              var visited := nested.Accept(fields);
              v := MessageV(visited);
            }
          case _ =>
            v := Assign(f.value, a);
        }
      }
    }

    method Accept(target: seq<Field>) returns (fields: seq<Field>)
      ensures fields == VisitAll(target, mapOfKeyValues)
      decreases target, 1
    {
      ghost var all := VisitAll(target, mapOfKeyValues);
      fields := [];
      for i := 0 to |target|
        invariant fields == all[..i]
      {
        var v := Visit(target[i]);
        TakeNext(all, i);
        fields := fields + [target[i].(value := v)];
      }
    }
  }
}
