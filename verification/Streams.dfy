/**
  * Input streams as the decoders use them. A stream is what is left to read plus the
  * state of `good()`. Reading past the end clears `good`; from then on nothing is read.
  */
module Streams {
  import opened Bytes

  datatype Stream = Stream(rest: bytes, good: bool)

  /** How far a decoding loop guarded by `good()` can still run. */
  function Fuel(s: Stream): (n: nat) {
    |s.rest| + if s.good then 1 else 0
  }

  /** The byte `get()` returns; the end-of-file value is all ones, seen as a byte 0xFF. */
  function Peek(s: Stream): (c: byte) {
    if s.good && s.rest != [] then s.rest[0] else 0xFF
  }

  /** The stream after `get()`. */
  function Skip(s: Stream): (t: Stream)
    ensures |t.rest| <= |s.rest|
    ensures s.good ==> Fuel(t) < Fuel(s)
    ensures t.good ==> s.good && |t.rest| + 1 == |s.rest|
  {
    if s.good && s.rest != [] then Stream(s.rest[1..], true) else Stream(s.rest, false)
  }

  /** The stream after `get()` and `unget()`: a failed `get` cannot be taken back. */
  function Reread(s: Stream): (t: Stream)
    ensures t == s || !t.good
  {
    if Skip(s).good then s else Skip(s)
  }

  function Zeros(n: nat): (b: bytes)
    ensures |b| == n
  {
    seq(n, _ => 0)
  }

  /** What `read(buffer, n)` leaves in a zero-initialised buffer of n bytes. */
  function ReadBytes(s: Stream, n: nat): (b: bytes)
    ensures |b| == n
  {
    if !s.good then Zeros(n)
    else if n <= |s.rest| then s.rest[..n]
    else s.rest + Zeros(n - |s.rest|)
  }

  /** The stream after `read(buffer, n)`. */
  function Drop(s: Stream, n: nat): (t: Stream)
    ensures |t.rest| <= |s.rest|
    ensures Fuel(t) <= Fuel(s)
    ensures t.good ==> s.good && |t.rest| + n == |s.rest|
  {
    if !s.good then s
    else if n <= |s.rest| then Stream(s.rest[n..], true)
    else Stream([], false)
  }

  lemma {:induction false} ReadPrefix(b: bytes, rest: bytes)
    ensures ReadBytes(Stream(b + rest, true), |b|) == b
    ensures Drop(Stream(b + rest, true), |b|) == Stream(rest, true)
  {
    assert (b + rest)[..|b|] == b;
    assert (b + rest)[|b|..] == rest;
  }

  /** The stream object the decoders advance. */
  class InStream {
    const data: bytes
    var pos: nat
    var good: bool

    ghost predicate Valid()
      reads this
    {
      pos <= |data|
    }

    ghost function View(): (s: Stream)
      reads this
      requires Valid()
    {
      Stream(data[pos..], good)
    }

    constructor (data: bytes)
      ensures Valid() && View() == Stream(data, true)
      ensures this.data == data && pos == 0
    {
      this.data := data;
      pos, good := 0, true;
    }

    method Get() returns (c: byte)
      requires Valid()
      modifies this
      ensures Valid() && View() == Skip(old(View())) && c == Peek(old(View()))
      ensures pos == old(pos) + if good then 1 else 0
    {
      if good && pos < |data| {
        c := data[pos];
        pos := pos + 1;
      } else {
        c := 0xFF;
        good := false;
      }
    }

    method Unget()
      requires Valid()
      modifies this
      ensures Valid()
      ensures !old(good) ==> View() == old(View())
      ensures old(good) && old(pos) > 0 ==> pos == old(pos) - 1 && good
      ensures old(good) && old(pos) == 0 ==> pos == 0 && !good
    {
      if good {
        if pos > 0 {
          pos := pos - 1;
        } else {
          good := false;
        }
      }
    }

    /** Reads n bytes into a zero-initialised buffer; `count` is what gcount() reports. */
    method Read(n: nat) returns (b: bytes, count: nat)
      requires Valid()
      modifies this
      ensures Valid() && View() == Drop(old(View()), n) && b == ReadBytes(old(View()), n)
      ensures count == if !old(good) then 0 else if n <= |data| - old(pos) then n else |data| - old(pos)
    {
      if !good {
        b, count := Zeros(n), 0;
      } else if n <= |data| - pos {
        b, count := data[pos..pos + n], n;
        pos := pos + n;
      } else {
        b, count := data[pos..] + Zeros(n - (|data| - pos)), |data| - pos;
        pos, good := |data|, false;
      }
    }
  }
}
