/**
  * The Protocol Buffers record stream: keys, wire types, and the decoder's map from
  * field identifiers to untyped values.
  */
module Proto {
  import opened Bytes
  import opened Streams
  import opened VarInts

  /** What the decoder stores for a record before a typed field asks for it. */
  datatype Any = Number(v: nat) | Four(bits: nat) | Eight(bits: nat) | Chunk(s: bytes)

  datatype Record = Record(id: nat, value: Any)

  type AnyMap = map<nat, Any>

  predicate ValidAny(a: Any) {
    match a
    case Number(v) => v < TWO64
    case Four(bits) => bits < TWO32
    case Eight(bits) => bits < TWO64
    case Chunk(s) => |s| < TWO64
  }

  predicate ValidRecord(r: Record) {
    r.id < TWO32 && ValidAny(r.value)
  }

  const VARINT: nat := 0
  const EIGHT_BYTES: nat := 1
  const LENGTH_DELIMITED: nat := 2
  const FOUR_BYTES: nat := 5

  /** Keys hold 29 bits of field identifier: the shift happens in 32 bits. */
  const MAX_IDS: nat := 0x2000_0000

  function WireType(a: Any): (t: nat)
    ensures t < 8
  {
    match a
    case Number(_) => VARINT
    case Eight(_) => EIGHT_BYTES
    case Chunk(_) => LENGTH_DELIMITED
    case Four(_) => FOUR_BYTES
  }

  /** (id << 3) | type in 32 bits; the low three bits of the shifted value are zero. */
  function EncodeKey(id: nat, wireType: nat): (key: nat)
    requires wireType < 8
    ensures key < TWO32
  {
    id * 8 % TWO32 + wireType
  }

  /** A key always gives its wire type back, and its identifier exactly when 29 bits are enough. */
  lemma {:induction false} KeyRoundTrip(id: nat, wireType: nat)
    requires wireType < 8
    ensures EncodeKey(id, wireType) % 8 == wireType
    ensures EncodeKey(id, wireType) / 8 == EncodeKey(id, wireType) / 8 % TWO32 == id % MAX_IDS
    ensures EncodeKey(id, wireType) / 8 == id <==> id < MAX_IDS
  {
    var q := id / MAX_IDS;
    assert id * 8 == q * TWO32 + id % MAX_IDS * 8;
    assert id * 8 % TWO32 == id % MAX_IDS * 8;
  }

  function EncodePayload(a: Any): (b: bytes) {
    match a
    case Number(v) => VarInt(v)
    case Four(bits) => LittleEndian(bits, 4)
    case Eight(bits) => LittleEndian(bits, 8)
    case Chunk(s) => VarInt(|s|) + s
  }

  function EncodeRecord(r: Record): (b: bytes) {
    VarInt(EncodeKey(r.id, WireType(r.value))) + EncodePayload(r.value)
  }

  function EncodeRecords(rs: seq<Record>): (b: bytes) {
    if rs == [] then [] else EncodeRecord(rs[0]) + EncodeRecords(rs[1..])
  }

  // ---------------------------------------------------------------- decoding

  /** unordered_map::emplace leaves an entry that is already there alone. */
  function Emplace(m: AnyMap, id: nat, a: Any): (r: AnyMap) {
    if id in m then m else m[id := a]
  }

  datatype Payload = Payload(value: Any, next: Stream) | NoPayload(next: Stream)

  /** Reads what follows a key of the given wire type; other wire types have no value here. */
  function DecodePayload(wireType: nat, s: Stream): (p: Payload)
    ensures Fuel(p.next) <= Fuel(s)
  {
    if wireType == VARINT then
      var n := FromVarInt(s); Payload(Number(n.value), n.next)
    else if wireType == EIGHT_BYTES then
      Payload(Eight(FromLittleEndian(ReadBytes(s, 8))), Drop(s, 8))
    else if wireType == FOUR_BYTES then
      Payload(Four(FromLittleEndian(ReadBytes(s, 4))), Drop(s, 4))
    else if wireType == LENGTH_DELIMITED then
      var n := FromVarInt(s); Payload(Chunk(ReadBytes(n.next, n.value)), Drop(n.next, n.value))
    else
      NoPayload(s)
  }

  function Decode(s: Stream, m: AnyMap): (r: AnyMap)
    decreases Fuel(s)
  {
    if !s.good then m
    else
      var key := FromVarInt(s);
      var payload := DecodePayload(key.value % 8, key.next);
      var id := key.value / 8 % TWO32;
      Decode(payload.next, if payload.Payload? then Emplace(m, id, payload.value) else m)
  }

  // ---------------------------------------------------------------- record stream

  /** The map a record list stands for: of the records with one identifier the first one counts. */
  function FirstOccurrences(rs: seq<Record>, m: AnyMap): (r: AnyMap) {
    if rs == [] then m
    else FirstOccurrences(rs[1..], Emplace(m, rs[0].id % MAX_IDS, rs[0].value))
  }

  /** Record i is the first one that the decoder files under this identifier. */
  ghost predicate IsFirst(rs: seq<Record>, i: int, id: nat) {
    && 0 <= i < |rs|
    && rs[i].id % MAX_IDS == id
    && forall j :: 0 <= j < i ==> rs[j].id % MAX_IDS != id
  }

  lemma {:induction false} FirstOccurrencesMeaning(rs: seq<Record>, m: AnyMap, id: nat)
    ensures var r := FirstOccurrences(rs, m);
            && (id in m ==> id in r && r[id] == m[id])
            && (id in r <==> id in m || exists i :: IsFirst(rs, i, id))
            && forall i :: IsFirst(rs, i, id) && id !in m ==> id in r && r[id] == rs[i].value
  {
    if rs != [] {
      var first, tail := rs[0].id % MAX_IDS, rs[1..];
      FirstOccurrencesMeaning(tail, Emplace(m, first, rs[0].value), id);
      forall i | IsFirst(rs, i, id)
        ensures if i == 0 then first == id else first != id && IsFirst(tail, i - 1, id)
      {
        assert i > 0 ==> tail[i - 1] == rs[i];
        forall j | 0 <= j < i - 1 ensures tail[j].id % MAX_IDS != id {
          assert tail[j] == rs[j + 1];
        }
      }
      if first == id {
        assert IsFirst(rs, 0, id);
      } else {
        forall i | IsFirst(tail, i, id) ensures IsFirst(rs, i + 1, id) {
          assert forall j :: 0 < j <= i ==> rs[j] == tail[j - 1];
        }
      }
    }
  }

  lemma {:induction false} PayloadRoundTrip(a: Any, rest: bytes)
    requires ValidAny(a)
    ensures DecodePayload(WireType(a), Stream(EncodePayload(a) + rest, true)) == Payload(a, Stream(rest, true))
  {
    match a
    case Number(v) =>
      VarIntRoundTrip(v, rest);
    case Four(bits) =>
      Pow256Sizes();
      LittleEndianRoundTrip(bits, 4);
      ReadPrefix(LittleEndian(bits, 4), rest);
    case Eight(bits) =>
      Pow256Sizes();
      LittleEndianRoundTrip(bits, 8);
      ReadPrefix(LittleEndian(bits, 8), rest);
    case Chunk(s) =>
      assert EncodePayload(a) + rest == VarInt(|s|) + (s + rest);
      VarIntRoundTrip(|s|, s + rest);
      ReadPrefix(s, rest);
  }

  /** One turn of the decoder's loop over a key kb and a payload pb. */
  lemma {:induction false} DecodeStep(kb: bytes, pb: bytes, rest: bytes, m: AnyMap, key: nat, a: Any)
    requires FromVarInt(Stream(kb + (pb + rest), true)) == Decoded(key, |kb|, Stream(pb + rest, true))
    requires DecodePayload(key % 8, Stream(pb + rest, true)) == Payload(a, Stream(rest, true))
    ensures Decode(Stream(kb + pb + rest, true), m)
         == Decode(Stream(rest, true), Emplace(m, key / 8 % TWO32, a))
  {
    Associative(kb, pb, rest);
  }

  /** One record in front of anything adds one entry and leaves the rest to be read. */
  lemma {:induction false} RecordStep(r: Record, rest: bytes, m: AnyMap)
    requires ValidRecord(r)
    ensures Decode(Stream(EncodeRecord(r) + rest, true), m)
         == Decode(Stream(rest, true), Emplace(m, r.id % MAX_IDS, r.value))
  {
    var key := EncodeKey(r.id, WireType(r.value));
    VarIntRoundTrip(key, EncodePayload(r.value) + rest);
    KeyRoundTrip(r.id, WireType(r.value));
    PayloadRoundTrip(r.value, rest);
    DecodeStep(VarInt(key), EncodePayload(r.value), rest, m, key, r.value);
  }

  /** Reading on at the end of the input adds no entry. */
  lemma {:induction false} DecodeAtEnd(m: AnyMap)
    ensures Decode(Stream([], true), m) == m
  {
    VarIntAtEnd(Stream([], true));
    assert Decode(Stream([], false), m) == m;
  }

  /** Decoding the concatenation of any records yields the first occurrence of every identifier. */
  lemma {:induction false} RecordStreamRoundTrip(rs: seq<Record>, m: AnyMap)
    requires forall r :: r in rs ==> ValidRecord(r)
    ensures Decode(Stream(EncodeRecords(rs), true), m) == FirstOccurrences(rs, m)
  {
    if rs == [] {
      DecodeAtEnd(m);
    } else {
      RecordStep(rs[0], EncodeRecords(rs[1..]), m);
      RecordStreamRoundTrip(rs[1..], Emplace(m, rs[0].id % MAX_IDS, rs[0].value));
    }
  }

  // ---------------------------------------------------------------- bytes on the wire

  lemma {:induction false} SmallVarInt(v: nat)
    requires v < 128
    ensures VarInt(v) == [v]
  {
  }

  /** A key of one byte, and what the decoder makes of the bytes behind it. */
  lemma {:induction false} KeyByte(c: byte, b: bytes, m: AnyMap, p: Payload)
    requires c < 128 && p == DecodePayload(c % 8, Stream(b, true)) && p.Payload?
    ensures Decode(Stream([c] + b, true), m) == Decode(p.next, Filed(m, c / 8, p.value))
  {
    SmallVarInt(c);
    VarIntRoundTrip(c, b);
    SmallMod(c / 8, TWO32);
  }

  /** Four bytes as a number, the first one least. */
  function Little(a: nat, b: nat, c: nat, d: nat): (n: nat) {
    a + 256 * b + 65536 * c + 16777216 * d
  }

  lemma {:induction false} ByteValue(b: bytes)
    requires b != []
    ensures FromLittleEndian(b) == b[0] + 256 * FromLittleEndian(b[1..])
  {
  }

  lemma {:induction false} FourValues(b: bytes)
    requires |b| >= 4
    ensures FromLittleEndian(b) == Little(b[0], b[1], b[2], b[3]) + 4294967296 * FromLittleEndian(b[4..])
  {
    ByteValue(b);
    ByteValue(b[1..]);
    ByteValue(b[2..]);
    ByteValue(b[3..]);
    assert b[1..][1..] == b[2..] && b[2..][1..] == b[3..] && b[3..][1..] == b[4..];
  }

  lemma {:induction false} FourBytesRead(b: bytes, rest: bytes)
    requires |b| == 4
    ensures DecodePayload(5, Stream(b + rest, true)) == Payload(Four(Little(b[0], b[1], b[2], b[3])), Stream(rest, true))
  {
    ReadPrefix(b, rest);
    FourValues(b);
  }

  lemma {:induction false} EightBytesRead(b: bytes, rest: bytes, n: nat)
    requires |b| == 8 && n == Little(b[0], b[1], b[2], b[3]) + 4294967296 * Little(b[4], b[5], b[6], b[7])
    ensures DecodePayload(1, Stream(b + rest, true)) == Payload(Eight(n), Stream(rest, true))
  {
    ReadPrefix(b, rest);
    FourValues(b);
    FourValues(b[4..]);
  }

  /** The first record of an identifier counts. */
  function Filed(m: AnyMap, id: nat, a: Any): (r: AnyMap)
    ensures id in r && r[id] == if id in m then m[id] else a
    ensures forall k :: k != id ==> (k in r <==> k in m) && (k in m ==> r[k] == m[k])
  {
    Emplace(m, id, a)
  }

  /** A key with the low bits 5 is followed by four bytes. */
  lemma {:induction false} DecodesFour(id: nat, b: bytes, rest: bytes, m: AnyMap)
    requires id < 16 && |b| == 4
    ensures Decode(Stream([8 * id + 5] + (b + rest), true), m)
         == Decode(Stream(rest, true), Filed(m, id, Four(Little(b[0], b[1], b[2], b[3]))))
  {
    FourBytesRead(b, rest);
    DivJoin(id, 5, 8);
    KeyByte(8 * id + 5, b + rest, m, Payload(Four(Little(b[0], b[1], b[2], b[3])), Stream(rest, true)));
  }

  /** A key with the low bits 1 is followed by eight bytes. */
  lemma {:induction false} DecodesEight(id: nat, b: bytes, rest: bytes, m: AnyMap, n: nat)
    requires id < 16 && |b| == 8
    requires n == Little(b[0], b[1], b[2], b[3]) + 4294967296 * Little(b[4], b[5], b[6], b[7])
    ensures Decode(Stream([8 * id + 1] + (b + rest), true), m) == Decode(Stream(rest, true), Filed(m, id, Eight(n)))
  {
    EightBytesRead(b, rest, n);
    DivJoin(id, 1, 8);
    KeyByte(8 * id + 1, b + rest, m, Payload(Eight(n), Stream(rest, true)));
  }

  /** A key with the low bits 0 is followed by a varint. */
  lemma {:induction false} DecodesNumber(id: nat, v: nat, rest: bytes, m: AnyMap)
    requires id < 16 && v < TWO64
    ensures Decode(Stream([8 * id] + (VarInt(v) + rest), true), m)
         == Decode(Stream(rest, true), Filed(m, id, Number(v)))
  {
    VarIntRoundTrip(v, rest);
    DivJoin(id, 0, 8);
    KeyByte(8 * id, VarInt(v) + rest, m, Payload(Number(v), Stream(rest, true)));
  }

  /** A key with the low bits 2 is followed by a length and as many bytes. */
  lemma {:induction false} DecodesChunk(id: nat, s: bytes, rest: bytes, m: AnyMap)
    requires id < 16 && |s| < TWO64
    ensures Decode(Stream([8 * id + 2] + (VarInt(|s|) + (s + rest)), true), m)
         == Decode(Stream(rest, true), Filed(m, id, Chunk(s)))
  {
    VarIntRoundTrip(|s|, s + rest);
    ReadPrefix(s, rest);
    DivJoin(id, 2, 8);
    KeyByte(8 * id + 2, VarInt(|s|) + (s + rest), m, Payload(Chunk(s), Stream(rest, true)));
  }

  // ---------------------------------------------------------------- the decoder's loops

  const CHUNK_SIZE: nat := 1024

  datatype ReadResult = ReadResult(b: bytes, next: Stream)

  /** The bytes one in.read of at most a chunk delivers. */
  function ChunkCount(s: Stream, left: nat): (n: nat) {
    var chunk := if left > CHUNK_SIZE then CHUNK_SIZE else left;
    if chunk <= |s.rest| then chunk else |s.rest|
  }

  /** The stream after that in.read. */
  function AfterChunk(s: Stream, left: nat): (t: Stream) {
    Drop(s, if left > CHUNK_SIZE then CHUNK_SIZE else left)
  }

  /** readBytesFromStream: chunk after chunk until enough is read or the stream fails. */
  function ReadChunks(s: Stream, left: nat): (r: ReadResult)
    decreases s.good, left
  {
    if left == 0 || !s.good then ReadResult(Zeros(left), s)
    else
      var count := ChunkCount(s, left);
      var tail := ReadChunks(AfterChunk(s, left), left - count);
      ReadResult(s.rest[..count] + tail.b, tail.next)
  }

  /** Chunked reading gives the same bytes and the same stream as reading one slice. */
  lemma {:induction false} ChunksMakeOneSlice(s: Stream, left: nat)
    ensures ReadChunks(s, left) == ReadResult(ReadBytes(s, left), Drop(s, left))
    decreases s.good, left
  {
    if left != 0 && s.good {
      var count, t := ChunkCount(s, left), AfterChunk(s, left);
      ChunksMakeOneSlice(t, left - count);
      if left <= |s.rest| {
        assert s.rest[..left] == s.rest[..count] + s.rest[count..][..left - count];
        assert s.rest[left..] == s.rest[count..][left - count..];
      } else if t.good {
        assert s.rest == s.rest[..count] + s.rest[count..];
        Associative(s.rest[..count], s.rest[count..], Zeros(left - |s.rest|));
      }
    }
  }

  lemma {:induction false} NoMoreChunks(s: Stream, left: nat)
    requires left == 0 || !s.good
    ensures ReadChunks(s, left) == ReadResult(Zeros(left), s)
  {
  }

  /** One turn of the chunk loop. */
  lemma {:induction false} ChunkStep(buffer: bytes, s: Stream, left: nat)
    requires left > 0 && s.good
    ensures var count := ChunkCount(s, left);
            var later := ReadChunks(AfterChunk(s, left), left - count);
            && buffer + ReadChunks(s, left).b == buffer + s.rest[..count] + later.b
            && ReadChunks(s, left).next == later.next
  {
    var count := ChunkCount(s, left);
    Associative(buffer, s.rest[..count], ReadChunks(AfterChunk(s, left), left - count).b);
  }

  /** One in.read of at most a chunk, and the bytes it delivered. */
  method ReadChunk(stream: InStream, left: nat) returns (b: bytes)
    requires stream.Valid() && stream.good
    modifies stream
    ensures stream.Valid() && stream.View() == AfterChunk(old(stream.View()), left)
    ensures |b| == ChunkCount(old(stream.View()), left) && b == old(stream.View()).rest[..|b|]
    ensures |b| <= left && (stream.good && left > 0 ==> |b| > 0)
  {
    var bytesRead, count := stream.Read(if left > CHUNK_SIZE then CHUNK_SIZE else left);
    b := bytesRead[..count];
  }

  method ReadBytesFromStream(stream: InStream, n: nat) returns (buffer: bytes)
    requires stream.Valid()
    modifies stream
    ensures stream.Valid()
    ensures buffer == ReadBytes(old(stream.View()), n)
    ensures stream.View() == Drop(old(stream.View()), n)
  {
    ghost var s := stream.View();
    ghost var all := ReadChunks(s, n);
    ChunksMakeOneSlice(s, n);
    EmptyFirst(all.b);
    buffer := [];
    var left: nat := n;
    while 0 < left && stream.good
      invariant stream.Valid()
      invariant all.b == buffer + ReadChunks(stream.View(), left).b
      invariant all.next == ReadChunks(stream.View(), left).next
      decreases stream.good, left
    {
      ChunkStep(buffer, stream.View(), left);
      var b := ReadChunk(stream, left);
      buffer, left := buffer + b, left - |b|;
    }
    NoMoreChunks(stream.View(), left);
    buffer := buffer + Zeros(left);
  }

  method DecodeFrom(stream: InStream) returns (mapOfKeyValues: AnyMap)
    requires stream.Valid()
    modifies stream
    ensures stream.Valid() && !stream.good
    ensures mapOfKeyValues == Decode(old(stream.View()), map[])
  {
    mapOfKeyValues := map[];
    while stream.good
      invariant stream.Valid()
      invariant Decode(stream.View(), mapOfKeyValues) == Decode(old(stream.View()), map[])
      decreases Fuel(stream.View())
    {
      var key, size := ReadVarInt(stream);
      var wireType, id := key % 8, key / 8 % TWO32;
      if wireType == VARINT {
        var value, _ := ReadVarInt(stream);
        mapOfKeyValues := Emplace(mapOfKeyValues, id, Number(value));
      } else if wireType == EIGHT_BYTES {
        var b := ReadBytesFromStream(stream, 8);
        mapOfKeyValues := Emplace(mapOfKeyValues, id, Eight(FromLittleEndian(b)));
      } else if wireType == FOUR_BYTES {
        var b := ReadBytesFromStream(stream, 4);
        mapOfKeyValues := Emplace(mapOfKeyValues, id, Four(FromLittleEndian(b)));
      } else if wireType == LENGTH_DELIMITED {
        var length, _ := ReadVarInt(stream);
        var s := ReadBytesFromStream(stream, length);
        mapOfKeyValues := Emplace(mapOfKeyValues, id, Chunk(s));
      }
    }
  }
}
