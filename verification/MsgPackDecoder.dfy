/** The MessagePack decoder as it runs: loops over a stream that put markers back. */
module MsgPackDecoder {
  import opened Bytes
  import opened Streams
  import opened MsgPack

  /** get() followed by unget(): the marker, with the stream put back in front of it. */
  method PeekMarker(stream: InStream) returns (c: byte)
    requires stream.Valid()
    modifies stream
    ensures stream.Valid() && c == Peek(old(stream.View())) && stream.View() == Reread(old(stream.View()))
  {
    c := stream.Get();
    stream.Unget();
  }

  method ReadNumberFrom(stream: InStream, k: nat) returns (n: nat)
    requires stream.Valid()
    modifies stream
    ensures stream.Valid() && Counted(n, stream.View()) == ReadNumber(old(stream.View()), k)
  {
    var b, _ := stream.Read(k);
    n := FromBigEndian(b);
  }

  method ReadUintFrom(stream: InStream) returns (u: nat)
    requires stream.Valid()
    modifies stream
    ensures stream.Valid() && Counted(u, stream.View()) == ReadUint(old(stream.View()))
  {
    u := 0;
    if stream.good {
      var c := stream.Get();
      if c <= 0x7F {
        u := c;
      } else if c == 0xCC {
        u := ReadNumberFrom(stream, 1);
      } else if c == 0xCD {
        u := ReadNumberFrom(stream, 2);
      } else if c == 0xCE {
        u := ReadNumberFrom(stream, 4);
      } else if c == 0xCF {
        u := ReadNumberFrom(stream, 8);
      }
    }
  }

  method ReadPatternFrom(stream: InStream, w: Width) returns (i: int)
    requires stream.Valid()
    modifies stream
    ensures stream.Valid() && Signed(i, stream.View()) == ReadPattern(old(stream.View()), w)
  {
    ghost var s := stream.View();
    var n := ReadNumberFrom(stream, Size(w));
    FromBigEndianBound(ReadBytes(s, Size(w)));
    Pow256Sizes();
    i := FromPattern(w, n);
  }

  method ReadIntFrom(stream: InStream) returns (i: int)
    requires stream.Valid()
    modifies stream
    ensures stream.Valid() && Signed(i, stream.View()) == ReadInt(old(stream.View()))
  {
    i := 0;
    if stream.good {
      var c := stream.Get();
      if 0xE0 <= c {
        i := FromPattern(W8, c);
      } else if c == 0xD0 {
        i := ReadPatternFrom(stream, W8);
      } else if c == 0xD1 {
        i := ReadPatternFrom(stream, W16);
      } else if c == 0xD2 {
        i := ReadPatternFrom(stream, W32);
      } else if c == 0xD3 {
        i := ReadPatternFrom(stream, W64);
      }
    }
  }

  method ReadStringFrom(stream: InStream) returns (s: bytes)
    requires stream.Valid()
    modifies stream
    ensures stream.Valid() && Text(s, stream.View()) == ReadString(old(stream.View()))
  {
    s := [];
    if stream.good {
      var c := stream.Get();
      if FormatFamily(c) == StrF {
        var length: nat;
        if FIXSTR <= c < FIXSTR_END {
          length := c - FIXSTR;
        } else if c == 0xD9 {
          length := ReadNumberFrom(stream, 1);
        } else if c == 0xDA {
          length := ReadNumberFrom(stream, 2);
        } else {
          length := ReadNumberFrom(stream, 4);
        }
        var b, _ := stream.Read(length);
        s := b;
      }
    }
  }

  method ReadSizeFrom(stream: InStream, c: byte) returns (n: nat)
    requires stream.Valid()
    modifies stream
    ensures stream.Valid() && Counted(n, stream.View()) == ReadMapSize(c, old(stream.View()))
  {
    if FIXMAP <= c < FIXMAP_END {
      n := c - FIXMAP;
    } else if c == 0xDE {
      n := ReadNumberFrom(stream, 2);
    } else {
      n := ReadNumberFrom(stream, 4);
    }
  }

  method ReadValueFrom(stream: InStream) returns (node: Node)
    requires stream.Valid()
    modifies stream
    ensures stream.Valid()
    ensures var r := ReadItem(old(stream.View())); node == ToNode(r.item) && stream.View() == r.next
    decreases Fuel(stream.View()), 1
  {
    var c := PeekMarker(stream);
    match FormatFamily(c) {
      case BoolF =>
        c := stream.Get();
        node := Leaf(Flag(c == 0xC3));
      case UIntF =>
        var u := ReadUintFrom(stream);
        node := Leaf(UNum(u));
      case IntF =>
        var i := ReadIntFrom(stream);
        node := Leaf(SNum(i));
      case FloatF =>
        c := stream.Get();
        if c == 0xCA {
          var bits := ReadNumberFrom(stream, 4);
          node := Leaf(Float(bits));
        } else {
          var bits := ReadNumberFrom(stream, 8);
          node := Leaf(Double(bits));
        }
      case StrF =>
        var s := ReadStringFrom(stream);
        node := Leaf(Str(s));
      case MapF =>
        var kv := ReadKeyValues(stream);
        node := Branch(kv);
      case UnknownF =>
        c := stream.Get();
        node := Leaf(Unknown);
    }
  }

  /** Assigning pair after pair into a map that is being filled. */
  function Insert(kv: KeyValues, entries: seq<Entry>): (r: KeyValues)
    decreases |entries|
  {
    if entries == [] then kv
    else Insert(kv[entries[0].key := ToNode(entries[0].item)], entries[1..])
  }

  lemma {:induction false} IndexSnoc(entries: seq<Entry>, e: Entry)
    ensures Index(entries + [e]) == Index(entries)[e.key := ToNode(e.item)]
  {
    assert (entries + [e])[..|entries|] == entries;
  }

  /** Filling pair by pair gives the map of all pairs, later ones winning. */
  lemma {:induction false} InsertIndexes(done: seq<Entry>, entries: seq<Entry>)
    ensures Insert(Index(done), entries) == Index(done + entries)
    decreases |entries|
  {
    if entries == [] {
      assert done + entries == done;
    } else {
      var e, tail := entries[0], entries[1..];
      assert entries == [e] + tail;
      Associative(done, [e], tail);
      IndexSnoc(done, e);
      InsertIndexes(done + [e], tail);
    }
  }

  datatype Filled = Filled(kv: KeyValues, next: Stream)

  /** The pair loop on values: n more pairs into a map that is being filled. */
  function Fill(kv: KeyValues, s: Stream, n: nat): (r: Filled)
    decreases n
  {
    if n == 0 then Filled(kv, s)
    else
      var key := ReadString(s);
      var value := ReadItem(key.next);
      Fill(kv[key.s := ToNode(value.item)], value.next, n - 1)
  }

  lemma {:induction false} FillInserts(kv: KeyValues, s: Stream, n: nat)
    ensures var r := ReadEntries(s, n); Fill(kv, s, n) == Filled(Insert(kv, r.entries), r.next)
    decreases n
  {
    if n != 0 {
      var key := ReadString(s);
      var value := ReadItem(key.next);
      var e, tail := Entry(key.s, value.item), ReadEntries(value.next, n - 1);
      FillInserts(kv[key.s := ToNode(value.item)], value.next, n - 1);
      assert ([e] + tail.entries)[1..] == tail.entries;
    }
  }

  /** Fills the map with as many key/value pairs as the marker announced. */
  method ReadPairs(stream: InStream, size: nat) returns (keyValues: KeyValues)
    requires stream.Valid()
    modifies stream
    ensures stream.Valid()
    ensures var r := ReadEntries(old(stream.View()), size);
            keyValues == Index(r.entries) && stream.View() == r.next
    decreases Fuel(stream.View()), 2
  {
    ghost var s := stream.View();
    keyValues := map[];
    var tokensToRead := size;
    while 0 < tokensToRead
      invariant stream.Valid() && Fuel(stream.View()) <= Fuel(s)
      invariant Fill(keyValues, stream.View(), tokensToRead) == Fill(map[], s, size)
    {
      var key := ReadStringFrom(stream);
      var value := ReadValueFrom(stream);
      keyValues := keyValues[key := value];
      tokensToRead := tokensToRead - 1;
    }
    ghost var entries := ReadEntries(s, size).entries;
    FillInserts(map[], s, size);
    InsertIndexes([], entries);
    assert [] + entries == entries;
  }

  /** Skips to the first map marker and reads the pairs behind it. */
  method ReadKeyValues(stream: InStream) returns (keyValues: KeyValues)
    requires stream.Valid()
    modifies stream
    ensures stream.Valid()
    ensures var r := ReadMap(old(stream.View())); keyValues == Index(r.entries) && stream.View() == r.next
    decreases Fuel(stream.View()), 0
  {
    keyValues := map[];
    ghost var all := ReadMap(stream.View());
    var found := false;
    while stream.good && !found
      invariant stream.Valid()
      invariant !found ==> all == ReadMap(stream.View()) && keyValues == map[]
      invariant !found ==> Fuel(stream.View()) <= Fuel(old(stream.View()))
      invariant found ==> keyValues == Index(all.entries) && stream.View() == all.next
      decreases !found, Fuel(stream.View())
    {
      var c := stream.Get();
      if FormatFamily(c) == MapF {
        found := true;
        var tokensToRead := ReadSizeFrom(stream, c);
        keyValues := ReadPairs(stream, tokensToRead);
      }
    }
  }
}
