/**
  * MessagePack: the encoder's tree of key/value pairs, the recursive-descent decoder, and
  * the map of key/values it returns.
  */
module MsgPack {
  import opened Bytes
  import opened Streams

  /** A value on the wire. `Unknown` is the empty value stored for an unsupported format. */
  datatype Item =
    | Flag(b: bool)
    | UNum(u: nat)
    | SNum(i: int)
    | Float(bits: nat)
    | Double(bits: nat)
    | Str(s: bytes)
    | Dict(entries: seq<Entry>)
    | Unknown

  datatype Entry = Entry(key: bytes, item: Item)

  /** What the decoder hands out: nested maps by key instead of pairs in wire order. */
  datatype Node = Leaf(item: Item) | Branch(kv: KeyValues)

  type KeyValues = map<bytes, Node>

  function ToNode(item: Item): (n: Node)
    decreases item, 0
  {
    if item.Dict? then Branch(Index(item.entries)) else Leaf(item)
  }

  /** std::map assignment in wire order: of the pairs with one key the last one counts. */
  function Index(entries: seq<Entry>): (kv: KeyValues)
    decreases entries, 1
  {
    if entries == [] then map[]
    else
      var last := entries[|entries| - 1];
      Index(entries[..|entries| - 1])[last.key := ToNode(last.item)]
  }

  // ---------------------------------------------------------------- format families

  datatype Family = UnknownF | BoolF | UIntF | IntF | FloatF | StrF | MapF

  const FIXSTR: byte := 0xA0
  const FIXSTR_END: byte := 0xBF
  const FIXMAP: byte := 0x80
  const FIXMAP_END: byte := 0x8F

  /** The decoder treats both END markers as exclusive bounds. */
  function FormatFamily(c: byte): (f: Family) {
    if c == 0xC2 || c == 0xC3 then BoolF
    else if c <= 0x7F || 0xCC <= c <= 0xCF then UIntF
    else if 0xE0 <= c || 0xD0 <= c <= 0xD3 then IntF
    else if c == 0xCA || c == 0xCB then FloatF
    else if FIXSTR <= c < FIXSTR_END || 0xD9 <= c <= 0xDB then StrF
    else if FIXMAP <= c < FIXMAP_END || c == 0xDE || c == 0xDF then MapF
    else UnknownF
  }

  // ---------------------------------------------------------------- encoding

  /** Marker and length of a string; lengths are kept in 32 bits. */
  function StringHeader(n: nat): (b: bytes) {
    var l := n % TWO32;
    if l < 32 then [FIXSTR + l]
    else if l <= 0xFF then [0xD9] + BigEndian(l, 1)
    else if l <= 0xFFFF then [0xDA] + BigEndian(l, 2)
    else [0xDB] + BigEndian(l, 4)
  }

  function EncodeString(s: bytes): (b: bytes) {
    StringHeader(|s|) + s[..|s| % TWO32]
  }

  function EncodeUint(v: nat): (b: bytes) {
    if v <= 0x7F then [v]
    else if v <= 0xFF then [0xCC] + BigEndian(v, 1)
    else if v <= 0xFFFF then [0xCD] + BigEndian(v, 2)
    else if v <= 0xFFFF_FFFF then [0xCE] + BigEndian(v, 4)
    else [0xCF] + BigEndian(v, 8)
  }

  /** Only called for negative numbers. */
  function EncodeInt(v: int): (b: bytes) {
    if -31 <= v then [v % 256]
    else if -0x80 <= v then [0xD0] + BigEndian(ToPattern(W8, v), 1)
    else if -0x8000 <= v then [0xD1] + BigEndian(ToPattern(W16, v), 2)
    else if -0x8000_0000 <= v then [0xD2] + BigEndian(ToPattern(W32, v), 4)
    else [0xD3] + BigEndian(ToPattern(W64, v), 8)
  }

  function MapHeader(n: nat): (b: bytes) {
    var l := n % TWO32;
    if l <= 0xF then [FIXMAP + l]
    else if l <= 0xFFFF then [0xDE] + BigEndian(l, 2)
    else [0xDF] + BigEndian(l, 4)
  }

  function EncodeItem(item: Item): (b: bytes)
    decreases item, 0
  {
    match item
    case Flag(b) => [if b then 0xC3 else 0xC2]
    case UNum(u) => EncodeUint(u)
    case SNum(i) => EncodeInt(i)
    case Float(bits) => [0xCA] + BigEndian(bits, 4)
    case Double(bits) => [0xCB] + BigEndian(bits, 8)
    case Str(s) => EncodeString(s)
    case Dict(entries) =>
      var b := MapHeader(|entries|) + EncodeEntries(entries);
      b[..|b| % TWO32]
    case Unknown => []
  }

  function EncodeEntries(entries: seq<Entry>): (b: bytes)
    decreases entries, 1
  {
    if entries == [] then []
    else EncodeString(entries[0].key) + EncodeItem(entries[0].item) + EncodeEntries(entries[1..])
  }

  function EncodeMap(entries: seq<Entry>): (b: bytes) {
    MapHeader(|entries|) + EncodeEntries(entries)
  }

  // ---------------------------------------------------------------- decoding

  datatype Counted = Counted(n: nat, next: Stream)
  datatype Signed = Signed(i: int, next: Stream)
  datatype Text = Text(s: bytes, next: Stream)
  datatype ReadValue = ReadValue(item: Item, next: Stream)
  datatype Parsed = Parsed(entries: seq<Entry>, next: Stream)

  /** A big-endian number of k bytes. */
  function ReadNumber(s: Stream, k: nat): (r: Counted)
    ensures Fuel(r.next) <= Fuel(s) && (r.next.good ==> s.good)
  {
    Counted(FromBigEndian(ReadBytes(s, k)), Drop(s, k))
  }

  function ReadUint(s: Stream): (r: Counted)
    ensures Fuel(r.next) <= Fuel(s) && (r.next.good ==> s.good)
  {
    if !s.good then Counted(0, s)
    else
      var c, t := Peek(s), Skip(s);
      if c <= 0x7F then Counted(c, t)
      else if c == 0xCC then ReadNumber(t, 1)
      else if c == 0xCD then ReadNumber(t, 2)
      else if c == 0xCE then ReadNumber(t, 4)
      else if c == 0xCF then ReadNumber(t, 8)
      else Counted(0, t)
  }

  function ReadPattern(s: Stream, w: Width): (r: Signed)
    ensures Fuel(r.next) <= Fuel(s) && (r.next.good ==> s.good)
  {
    var u := ReadNumber(s, Size(w));
    FromBigEndianBound(ReadBytes(s, Size(w)));
    Pow256Sizes();
    Signed(FromPattern(w, u.n), u.next)
  }

  function ReadInt(s: Stream): (r: Signed)
    ensures Fuel(r.next) <= Fuel(s) && (r.next.good ==> s.good)
  {
    if !s.good then Signed(0, s)
    else
      var c, t := Peek(s), Skip(s);
      if 0xE0 <= c then Signed(FromPattern(W8, c), t)
      else if c == 0xD0 then ReadPattern(t, W8)
      else if c == 0xD1 then ReadPattern(t, W16)
      else if c == 0xD2 then ReadPattern(t, W32)
      else if c == 0xD3 then ReadPattern(t, W64)
      else Signed(0, t)
  }

  /** The length behind a string marker. */
  function ReadStringLength(c: byte, s: Stream): (r: Counted)
    ensures Fuel(r.next) <= Fuel(s) && (r.next.good ==> s.good)
  {
    if FIXSTR <= c < FIXSTR_END then Counted(c - FIXSTR, s)
    else if c == 0xD9 then ReadNumber(s, 1)
    else if c == 0xDA then ReadNumber(s, 2)
    else ReadNumber(s, 4)
  }

  /** Anything but a string marker is skipped and read as the empty string. */
  function ReadString(s: Stream): (r: Text)
    ensures Fuel(r.next) <= Fuel(s) && (r.next.good ==> s.good)
  {
    if !s.good then Text([], s)
    else if FormatFamily(Peek(s)) != StrF then Text([], Skip(s))
    else
      var length := ReadStringLength(Peek(s), Skip(s));
      Text(ReadBytes(length.next, length.n), Drop(length.next, length.n))
  }

  /** The number of pairs behind a map marker. */
  function ReadMapSize(c: byte, s: Stream): (r: Counted)
    ensures Fuel(r.next) <= Fuel(s) && (r.next.good ==> s.good)
  {
    if FIXMAP <= c < FIXMAP_END then Counted(c - FIXMAP, s)
    else if c == 0xDE then ReadNumber(s, 2)
    else ReadNumber(s, 4)
  }

  /**
    * readKeyValues: skips bytes up to a map marker and reads the announced pairs. The
    * bytes left shrink with every recursive call, although markers are put back.
    */
  function ReadMap(s: Stream): (r: Parsed)
    ensures Fuel(r.next) <= Fuel(s) && (r.next.good ==> s.good)
    decreases Fuel(s), 0, 0
  {
    if !s.good then Parsed([], s)
    else if FormatFamily(Peek(s)) != MapF then ReadMap(Skip(s))
    else
      var size := ReadMapSize(Peek(s), Skip(s));
      ReadEntries(size.next, size.n)
  }

  function ReadEntries(s: Stream, n: nat): (r: Parsed)
    ensures Fuel(r.next) <= Fuel(s) && (r.next.good ==> s.good)
    ensures |r.entries| == n
    decreases Fuel(s), 2, n
  {
    if n == 0 then Parsed([], s)
    else
      var key := ReadString(s);
      var value := ReadItem(key.next);
      var tail := ReadEntries(value.next, n - 1);
      Parsed([Entry(key.s, value.item)] + tail.entries, tail.next)
  }

  function ReadItem(s: Stream): (r: ReadValue)
    ensures Fuel(r.next) <= Fuel(s) && (r.next.good ==> s.good)
    decreases Fuel(s), 1, 0
  {
    var c := Peek(s);
    match FormatFamily(c)
    case BoolF => ReadValue(Flag(c == 0xC3), Skip(s))
    case UIntF => var r := ReadUint(Reread(s)); ReadValue(UNum(r.n), r.next)
    case IntF => var r := ReadInt(Reread(s)); ReadValue(SNum(r.i), r.next)
    case FloatF =>
      if c == 0xCA then var r := ReadNumber(Skip(s), 4); ReadValue(Float(r.n), r.next)
      else var r := ReadNumber(Skip(s), 8); ReadValue(Double(r.n), r.next)
    case StrF => var r := ReadString(Reread(s)); ReadValue(Str(r.s), r.next)
    case MapF => var r := ReadMap(Reread(s)); ReadValue(Dict(r.entries), r.next)
    case UnknownF => ReadValue(Unknown, Skip(s))
  }
}
