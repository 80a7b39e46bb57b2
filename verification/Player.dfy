/** The player as it is implemented, reading its file sequentially, step by step against the replay machine. */
module Player {
  import opened Bytes
  import opened Recordings
  import opened Replay
  import opened ReplayRuns

  class Player {
    // The recording: what the file holds, the index over it, and the mode.
    var file: map<nat, Envelope>
    var recFileValid: bool
    var autoRewind: bool
    var index: seq<IndexEntry>
    var desiredInitialLevel: nat
    var seekLevel: nat
    // Where the replay stands.
    var prevPrev: nat
    var prev: nat
    var cur: nat
    var nextRead: nat
    var cache: Cache
    var returned: nat
    var storedDelay: nat

    ghost function Rec(): (r: Recording)
      reads this
    {
      Recording(index, file, desiredInitialLevel, seekLevel, autoRewind, recFileValid)
    }

    ghost function View(): (s: State)
      reads this
    {
      State(prevPrev, prev, cur, nextRead, cache, returned, storedDelay)
    }

    ghost predicate Valid()
      reads this
    {
      Consistent(Rec()) && Inv(Rec(), View())
    }

    /** Indexes the envelopes found in the file, and fills the cache. */
    constructor (scan: seq<Located>, estimate: nat, seekLevel: nat, autoRewind: bool, valid: bool)
      requires InFileOrder(scan) && (scan != [] ==> valid) && IsPartOf(seekLevel, CacheLevel(estimate))
      ensures Rec() == RecordingOf(scan, estimate, seekLevel, autoRewind, valid)
      ensures View() == Initial(Rec()) && Valid()
      ensures (forall l :: l in scan ==> Normal(l.envelope.sampleTimeStamp)) ==>
                forall i, j :: 0 <= i < j < |index| ==> InTime(Rec(), i, j)
    {
      this.file, this.recFileValid, this.autoRewind := FileOf(scan), valid, autoRewind;
      index, desiredInitialLevel, this.seekLevel := [], 0, seekLevel;
      prevPrev, prev, cur, nextRead := 0, 0, 0, 0;
      cache, returned, storedDelay := map[], 0, 0;
      new;
      for i := 0 to |scan|
        invariant index == BuildIndex(scan[..i])
        invariant Rec() == Recording(index, FileOf(scan), 0, seekLevel, autoRewind, valid)
        invariant View() == State(0, 0, 0, 0, map[], 0, 0)
      {
        assert scan[..i + 1][..i] == scan[..i];
        index := Insert(index, EntryOf(scan[i]));
      }
      assert scan[..|scan|] == scan;
      prevPrev := |index|;
      if scan != [] {
        desiredInitialLevel := CacheLevel(estimate);
      }
      ScanConsistent(scan, estimate, seekLevel, autoRewind, valid);
      ComputeInitialCacheLevelAndFillCache();
      InitialInv(Rec());
      if forall l :: l in scan ==> Normal(l.envelope.sampleTimeStamp) {
        forall i, j | 0 <= i < j < |index| ensures InTime(Rec(), i, j) {
          OrderedBySampleTime(scan, estimate, seekLevel, autoRewind, valid, i, j);
        }
      }
    }

    method ResetCaches()
      modifies this`storedDelay, this`returned, this`cache
      ensures View() == old(View()).(delay := 0, returned := 0, cache := map[])
    {
      storedDelay := 0;
      returned := 0;
      cache := map[];
    }

    method ResetIterators()
      modifies this`nextRead, this`prev, this`cur, this`prevPrev
      ensures View() == old(View()).(nextRead := 0, prev := 0, cur := 0, prevPrev := |index|)
    {
      nextRead, prev, cur := 0, 0, 0;
      prevPrev := |index|;
    }

    method ComputeInitialCacheLevelAndFillCache()
      requires Consistent(Rec())
      modifies this
      ensures Rec() == old(Rec()) && View() == Rewind(Rec(), old(View()))
    {
      if recFileValid && |index| > 0 {
        ResetCaches();
        ResetIterators();
        var entries := FillEnvelopeCache(desiredInitialLevel);
      }
    }

    /** Reads the entries from the read-ahead cursor on, up to a number of them. */
    method FillEnvelopeCache(maxNumberOfEntries: nat) returns (entries: nat)
      requires Consistent(Rec())
      modifies this`cache, this`nextRead
      ensures View() == Fill(Rec(), old(View()), maxNumberOfEntries)
      ensures nextRead == old(nextRead) + entries && entries <= maxNumberOfEntries
    {
      entries := 0;
      if recFileValid && maxNumberOfEntries > 0 {
        while nextRead < |index| && entries < maxNumberOfEntries
          invariant entries <= maxNumberOfEntries && nextRead == old(nextRead) + entries
          invariant Fill(Rec(), old(View()), maxNumberOfEntries) == Fill(Rec(), View(), maxNumberOfEntries - entries)
        {
          var pos := index[nextRead].pos;
          cache := Emplace(cache, pos, file[pos]);
          nextRead := nextRead + 1;
          entries := entries + 1;
        }
      }
    }

    /** Waits for an entry in the cache; there is always one. */
    method CheckAvailability() returns (numberOfEntries: nat)
      requires Valid() && cur < |index|
      ensures numberOfEntries == |cache| && 0 < numberOfEntries <= desiredInitialLevel + 1
    {
      numberOfEntries := |cache|;
      NeverWaits(Rec(), View());
    }

    /** operator[]: what the cache holds at a position, where it puts a blank envelope if need be. */
    method TakeFromCache(pos: nat) returns (envelope: Envelope)
      modifies this`cache
      ensures envelope == (if pos in old(cache) then old(cache)[pos] else BLANK)
      ensures cache == old(cache)[pos := envelope]
    {
      if pos !in cache {
        cache := cache[pos := BLANK];
      }
      envelope := cache[pos];
    }

    /** Erases a position from the cache, if it is there. */
    method EraseFromCache(pos: nat)
      modifies this`cache
      ensures cache == old(cache) - {pos}
    {
      if pos in cache {
        cache := cache - {pos};
      }
    }

    /** The part under the lock. */
    method CopyAndAdvance() returns (envelope: Envelope)
      requires cur < |index| && prev < |index|
      modifies this
      ensures Rec() == old(Rec())
      ensures envelope == Lookup(Rec(), old(View())) && View() == Advance(Rec(), old(View()))
    {
      envelope := TakeFromCache(index[cur].pos);
      storedDelay := (index[cur].time - index[prev].time) % TWO32;
      if prevPrev != |index| {
        EraseFromCache(index[prev].pos);
      }
      prevPrev := prev;
      prev := cur;
      cur := cur + 1;
      returned := returned + 1;
    }

    /** A replay of the current entry: wait, copy, read one more entry. */
    method ReplayCurrent() returns (envelope: Envelope)
      requires Valid() && cur < |index|
      modifies this
      ensures Rec() == old(Rec()) && Valid()
      ensures Played(true, envelope, View()) == Next(Rec(), old(View()))
      ensures envelope == Fresh(Rec(), old(cur))
    {
      NextEffect(Rec(), View());
      var entries := CheckAvailability();
      envelope := CopyAndAdvance();
      var more := FillEnvelopeCache(1);
    }

    /** The next envelope, and whether there is one. */
    method GetNextEnvelopeToBeReplayed() returns (found: bool, envelope: Envelope)
      requires Valid()
      modifies this
      ensures Rec() == old(Rec()) && Valid()
      ensures Played(found, envelope, View()) == Next(Rec(), old(View()))
      ensures found <==> old(HasMoreDataNow()) && index != []
      ensures found ==> envelope == Fresh(Rec(), if old(cur) < |index| then old(cur) else 0)
    {
      HasMoreDataMeaning(Rec(), View());
      found, envelope := false, BLANK;
      if cur == |index| {
        if !autoRewind {
          return;
        }
        RewindInv(Rec(), View());
        RewindToStart();
      }
      if cur != |index| {
        envelope := ReplayCurrent();
        found := true;
      }
    }

    method RewindToStart()
      requires Valid()
      modifies this
      ensures Rec() == old(Rec()) && Valid()
      ensures View() == Rewind(Rec(), old(View()))
    {
      RewindInv(Rec(), View());
      ComputeInitialCacheLevelAndFillCache();
    }

    /** Moves to a part of the recording; the product is that of the ratio and the number of entries. */
    method SeekTo(ratio: real, product: nat)
      requires Valid() && Seekable(Rec(), ratio, product)
      modifies this
      ensures Rec() == old(Rec()) && Valid()
      ensures View() == Seek(Rec(), old(View()), ratio, product)
      ensures 0.0 < ratio < 1.0 && product <= |index| ==> cur == product
      ensures ratio == 1.0 ==> cur == product - 1
    {
      SeekEffect(Rec(), View(), ratio, product);
      if !(ratio < 0.0) && !(ratio > 1.0) {
        MoveAndFill(ratio, product);
        if 0.0 < ratio < 1.0 {
          SoughtPlace(Rec(), ratio, product);
          var found, envelope := GetNextEnvelopeToBeReplayed();
        }
      }
    }

    method MoveAndFill(ratio: real, product: nat)
      requires Consistent(Rec()) && 0.0 <= ratio <= 1.0
      modifies this
      ensures Rec() == old(Rec()) && View() == SeekPlace(Rec(), SeekSteps(ratio, product))
    {
      ResetCaches();
      ResetIterators();
      if 0.0 < ratio {
        FastForward(ratio, product);
      }
      nextRead, prev := cur, cur;
      cache := map[];
      var entries := FillEnvelopeCache(seekLevel);
    }

    /** Counts the replayed envelopes up to one less than the place, in 32 bits. */
    method FastForward(ratio: real, product: nat)
      requires 0.0 < ratio && cur == 0
      modifies this`cur, this`returned
      ensures cur == returned == SeekSteps(ratio, product)
    {
      var steps := (product - 1) % TWO32;
      returned := 0;
      while returned < steps
        invariant cur == returned <= steps
      {
        cur := cur + 1;
        returned := returned + 1;
      }
    }

    ghost predicate HasMoreDataNow()
      reads this
    {
      ReplayRuns.HasMoreData(Rec(), View())
    }

    method HasMoreData() returns (more: bool)
      requires Valid()
      ensures more == HasMoreDataNow() && (more && index != [] <==> Next(Rec(), View()).found)
    {
      HasMoreDataMeaning(Rec(), View());
      more := recFileValid && (autoRewind || cur != |index|);
    }

    method Delay() returns (d: nat)
      ensures d == Reported(View().delay)
      ensures if storedDelay <= 1000000 then d == storedDelay else d == 1000000
    {
      d := if storedDelay < MAX_DELAY_IN_MICROSECONDS then storedDelay else MAX_DELAY_IN_MICROSECONDS;
    }
  }

}
