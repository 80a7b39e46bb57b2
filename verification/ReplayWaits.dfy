/**
  * When the player's wait before a replay is enough to keep it behind the filling thread: only
  * while the filling thread has nothing left to do.
  */
module ReplayWaits {
  import opened Bytes
  import opened Recordings
  import opened Replay
  import opened ReplayRuns
  import opened ThreadedReplay

  // ---------------------------------------------------------------- what the wait achieves

  /** What the player waits for tells it nothing: after a replay the entry before is still cached. */
  lemma {:induction false} WaitNeverWaits(r: Recording, t: Threaded)
    requires Consistent(r) && ThreadedInv(r, t) && t.base.cur < |r.index|
    ensures Enabled(r, t, PlayEvent) <==> t.base.prevPrev != |r.index| || Ready(t)
  {
    CacheSize(r, t.base.prev, Filled(t));
  }

  ghost predicate Unsought(events: seq<Event>) {
    forall e :: e in events ==> !e.SeekEvent?
  }

  lemma {:induction false} RewindFills(r: Recording, s: State)
    requires Consistent(r) && r.index != []
    ensures Rewind(r, s).nextRead == Min(r.level, |r.index|)
  {
    EmptyCache(r, 0);
    FillEffect(r, Reset(r), r.level);
  }

  /** Once everything has been read, it stays that way, and replays are always ready. */
  lemma {:induction false} CompleteIsReady(r: Recording, t: Threaded, events: seq<Event>)
    requires Consistent(r) && |r.index| <= r.level && Filled(t) == |r.index|
    requires Possible(r, t, events) && Unsought(events)
    ensures AlwaysReady(r, t, events)
    decreases |events|
  {
    if events != [] {
      var e, u := events[0], Fire(r, t, events[0]);
      assert e in events;
      if e.RewindEvent? && r.index != [] {
        RewindFills(r, t.base);
      }
      CompleteIsReady(r, u, events[1..]);
    }
  }

  function Replays(k: nat): (events: seq<Event>)
    ensures |events| == k
  {
    seq(k, _ => PlayEvent)
  }

  lemma {:induction false} ReplaysTail(k: nat)
    ensures Replays(k + 1)[0] == PlayEvent && Replays(k + 1)[1..] == Replays(k)
  {
  }

  lemma {:induction false} ReplaysStep(r: Recording, t: Threaded, k: nat)
    requires Enabled(r, t, PlayEvent) && Possible(r, Fire(r, t, PlayEvent), Replays(k))
    ensures Possible(r, t, Replays(k + 1))
    ensures AlwaysReady(r, t, Replays(k + 1)) ==> Ready(t) && AlwaysReady(r, Fire(r, t, PlayEvent), Replays(k))
  {
    ReplaysTail(k);
  }

  /** Replays that outrun the filling thread: they are let through, and one is not ready. */
  lemma {:induction false} Outrun(r: Recording, t: Threaded, k: nat)
    requires Consistent(r) && ThreadedInv(r, t) && Filled(t) < |r.index|
    requires t.base.cur + k == Filled(t) && (t.base.prevPrev == |r.index| ==> k > 0)
    ensures Possible(r, t, Replays(k + 1)) && !AlwaysReady(r, t, Replays(k + 1))
    decreases k
  {
    WaitNeverWaits(r, t);
    if k > 0 {
      PlayKeepsInv(r, t);
      Outrun(r, Fire(r, t, PlayEvent), k - 1);
    }
    ReplaysStep(r, t, k);
  }

  lemma {:induction false} NoSeeksInReplays(k: nat)
    ensures Unsought(Replays(k))
  {
  }

  ghost predicate SafeRun(r: Recording, events: seq<Event>) {
    Possible(r, Started(r), events) && Unsought(events) ==> AlwaysReady(r, Started(r), events)
  }

  /**
    * The wait keeps every run without seeks in order exactly when the whole recording fits
    * into the cache at the start.
    */
  lemma {:induction false} WaitSufficesIffAllCached(r: Recording)
    requires Consistent(r)
    ensures (forall events :: SafeRun(r, events)) <==> |r.index| <= r.level
    ensures |r.index| <= 5000 ==> forall events :: SafeRun(r, events)
  {
    InitialInv(r);
    FromInv(r, Initial(r));
    if r.index != [] {
      RewindFills(r, Reset(r));
    }
    if |r.index| <= r.level {
      forall events ensures SafeRun(r, events) {
        if Possible(r, Started(r), events) && Unsought(events) {
          CompleteIsReady(r, Started(r), events);
        }
      }
    } else {
      Outrun(r, Started(r), r.level);
      NoSeeksInReplays(r.level + 1);
      assert !SafeRun(r, Replays(r.level + 1));
    }
  }


  // ---------------------------------------------------------------- with seeks

  ghost predicate SeeksFit(r: Recording, events: seq<Event>) {
    forall e :: e in events && e.SeekEvent? ==> Seekable(r, e.ratio, e.product)
  }

  /** On a recording that fits into the part read around a place, a seek reads all of it. */
  lemma {:induction false} SeekFills(r: Recording, s: State, ratio: real, product: nat)
    requires Consistent(r) && |r.index| <= r.seekLevel
    requires 0.0 <= ratio <= 1.0 && Seekable(r, ratio, product)
    ensures Seek(r, s, ratio, product).nextRead == |r.index|
  {
    var place := SeekSteps(ratio, product);
    SoughtPlace(r, ratio, product);
    EmptyCache(r, place);
    FillEffect(r, State(|r.index|, place, place, place, map[], place, 0), r.seekLevel);
    assert SeekPlace(r, place).nextRead == |r.index|;
    if 0.0 < ratio < 1.0 {
      FullNext(r, SeekPlace(r, place));
    }
  }

  lemma {:induction false} FullNext(r: Recording, s: State)
    requires Consistent(r) && |r.index| <= r.seekLevel && s.nextRead == |r.index|
    ensures Next(r, s).next.nextRead == |r.index|
  {
    if r.index != [] {
      RewindFills(r, s);
    }
  }

  lemma {:induction false} FireKeepsComplete(r: Recording, t: Threaded, e: Event)
    requires Consistent(r) && |r.index| <= r.seekLevel
    requires Filled(t) == |r.index| && Enabled(r, t, e) && (e.SeekEvent? ==> Seekable(r, e.ratio, e.product))
    ensures Filled(Fire(r, t, e)) == |r.index|
  {
    match e
    case RewindEvent =>
      if r.index != [] { RewindFills(r, t.base); }
    case SeekEvent(ratio, product) =>
      if 0.0 <= ratio <= 1.0 { SeekFills(r, t.base, ratio, product); }
    case _ =>
  }

  lemma {:induction false} CompleteStaysReady(r: Recording, t: Threaded, events: seq<Event>)
    requires Consistent(r) && |r.index| <= r.seekLevel && Filled(t) == |r.index|
    requires Possible(r, t, events) && SeeksFit(r, events)
    ensures AlwaysReady(r, t, events)
    decreases |events|
  {
    if events != [] {
      assert events[0] in events;
      FireKeepsComplete(r, t, events[0]);
      CompleteStaysReady(r, Fire(r, t, events[0]), events[1..]);
    }
  }

  ghost predicate SafeSoughtRun(r: Recording, events: seq<Event>) {
    Possible(r, Started(r), events) && SeeksFit(r, events) ==> AlwaysReady(r, Started(r), events)
  }

  /** A seek to the start, and then more replays than were read there. */
  function SeekAndReplays(k: nat): (events: seq<Event>) {
    [SeekEvent(0.0, 0)] + Replays(k)
  }

  lemma {:induction false} OutrunAfterSeek(r: Recording)
    requires Consistent(r) && r.seekLevel < |r.index|
    ensures !SafeSoughtRun(r, SeekAndReplays(r.seekLevel + 1))
  {
    var k := r.seekLevel;
    var t, events := Started(r), SeekAndReplays(k + 1);
    InitialInv(r);
    FromInv(r, Initial(r));
    SeekThreaded(r, t, 0.0, 0);
    var u := Fire(r, t, SeekEvent(0.0, 0));
    EmptyCache(r, 0);
    FillEffect(r, State(|r.index|, 0, 0, 0, map[], 0, 0), k);
    Outrun(r, u, k);
    assert events[0] == SeekEvent(0.0, 0) && events[1..] == Replays(k + 1);
    assert SeeksFit(r, events);
  }

  /** With seeks, the wait is enough exactly when the recording fits into what a seek reads. */
  lemma {:induction false} WaitSufficesIffSeekReadsAll(r: Recording)
    requires Consistent(r)
    ensures (forall events :: SafeSoughtRun(r, events)) <==> |r.index| <= r.seekLevel
  {
    InitialInv(r);
    if r.index != [] {
      RewindFills(r, Reset(r));
    }
    if |r.index| <= r.seekLevel {
      forall events ensures SafeSoughtRun(r, events) {
        if Possible(r, Started(r), events) && SeeksFit(r, events) {
          CompleteStaysReady(r, Started(r), events);
        }
      }
    } else {
      OutrunAfterSeek(r);
    }
  }
}
