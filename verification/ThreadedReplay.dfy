/**
  * The player with a filling thread, as a machine over interleaved steps. The filling thread
  * adds an entry to the cache under the lock and moves its cursor afterwards, without it.
  */
module ThreadedReplay {
  import opened Bytes
  import opened Recordings
  import opened Replay
  import opened ReplayRuns

  /** pending: the filling thread has added an entry and not yet moved its cursor. */
  datatype Threaded = Threaded(base: State, pending: bool)

  /** Rewinds and seeks stop the filling thread, work alone, and start it again. */
  datatype Event = AddEvent | MoveEvent | PlayEvent | RewindEvent | SeekEvent(ratio: real, product: nat)

  /** How many entries, from the start of the index, have gone into the cache. */
  function Filled(t: Threaded): (n: nat) {
    t.base.nextRead + if t.pending then 1 else 0
  }

  /** What the player itself waits for, namely some entry in the cache. */
  predicate Enabled(r: Recording, t: Threaded, e: Event) {
    match e
    case AddEvent => !t.pending && t.base.nextRead < |r.index|
    case MoveEvent => t.pending
    case PlayEvent => t.base.cur < |r.index| && t.base.prev < |r.index| && |t.base.cache| > 0
    case RewindEvent => !t.pending
    case SeekEvent(_, _) => !t.pending
  }

  function Fire(r: Recording, t: Threaded, e: Event): (u: Threaded)
    requires Enabled(r, t, e)
  {
    var s := t.base;
    match e
    case AddEvent =>
      Threaded(s.(cache := Emplace(s.cache, r.index[s.nextRead].pos, Fresh(r, s.nextRead))), true)
    case MoveEvent => Threaded(s.(nextRead := s.nextRead + 1), false)
    case PlayEvent => Threaded(Advance(r, s), t.pending)
    case RewindEvent => Threaded(Rewind(r, s), false)
    case SeekEvent(ratio, product) => Threaded(Seek(r, s, ratio, product), false)
  }

  /** Events that can happen one after the other. */
  predicate Possible(r: Recording, t: Threaded, events: seq<Event>)
    decreases |events|
  {
    events == [] || (Enabled(r, t, events[0]) && Possible(r, Fire(r, t, events[0]), events[1..]))
  }

  /** What callers see over a run; the steps of the filling thread show nothing. */
  function Outputs(r: Recording, t: Threaded, events: seq<Event>): (seen: seq<Seen>)
    requires Possible(r, t, events)
    decreases |events|
  {
    if events == [] then []
    else
      var u := Fire(r, t, events[0]);
      var now := match events[0]
        case AddEvent => []
        case MoveEvent => []
        case PlayEvent => [Seen(true, Lookup(r, t.base), Reported(u.base.delay))]
        case RewindEvent => [Seen(false, BLANK, Reported(u.base.delay))]
        case SeekEvent(_, _) => [Seen(false, BLANK, Reported(u.base.delay))];
      now + Outputs(r, u, events[1..])
  }

  function Last(r: Recording, t: Threaded, events: seq<Event>): (u: Threaded)
    requires Possible(r, t, events)
    decreases |events|
  {
    if events == [] then t else Last(r, Fire(r, t, events[0]), events[1..])
  }

  /** The callers' part of a run. */
  function CallsOf(events: seq<Event>): (ops: seq<Op>) {
    if events == [] then []
    else
      var now := match events[0]
        case AddEvent => []
        case MoveEvent => []
        case PlayEvent => [NextOp]
        case RewindEvent => [RewindOp]
        case SeekEvent(ratio, product) => [SeekOp(ratio, product)];
      now + CallsOf(events[1..])
  }

  // ---------------------------------------------------------------- the invariant

  /** As without threads, but up to what has been added, and possibly nothing ahead of the cursor. */
  ghost predicate ThreadedInv(r: Recording, t: Threaded) {
    && Chained(r, t.base)
    && t.base.cur <= Filled(t) <= |r.index|
    && t.base.cache == CacheOf(r, t.base.prev, Filled(t))
    && t.base.returned == t.base.cur && t.base.delay < TWO32
  }

  /** The entry to be replayed has been added to the cache. */
  predicate Ready(t: Threaded) {
    t.base.cur < Filled(t)
  }

  lemma {:induction false} AddKeepsInv(r: Recording, t: Threaded)
    requires Consistent(r) && ThreadedInv(r, t) && Enabled(r, t, AddEvent)
    ensures ThreadedInv(r, Fire(r, t, AddEvent))
  {
    var s := t.base;
    CacheMember(r, s.prev, s.nextRead, s.nextRead);
  }

  lemma {:induction false} MoveKeepsInv(r: Recording, t: Threaded)
    requires ThreadedInv(r, t) && Enabled(r, t, MoveEvent)
    ensures ThreadedInv(r, Fire(r, t, MoveEvent))
  {
  }

  /** Cursors and delay move as those of the simple player do. */
  lemma {:induction false} PlayMoves(r: Recording, t: Threaded)
    requires Chained(r, t.base) && Enabled(r, t, PlayEvent)
    ensures var q := SimpleNext(r, Abstract(r, t.base));
            q.found && q.envelope == Fresh(r, t.base.cur) && Abstract(r, Fire(r, t, PlayEvent).base) == q.next
  {
    ZeroGap(r, t.base.cur);
  }

  lemma {:induction false} PlayKeepsInv(r: Recording, t: Threaded)
    requires Consistent(r) && ThreadedInv(r, t) && Enabled(r, t, PlayEvent) && Ready(t)
    ensures ThreadedInv(r, Fire(r, t, PlayEvent))
  {
    AdvanceCache(r, t.base, Filled(t));
  }

  /** A replay of an entry that is ready is a replay of the simple player, and keeps the invariant. */
  lemma {:induction false} ReadyPlay(r: Recording, t: Threaded)
    requires Consistent(r) && ThreadedInv(r, t) && Enabled(r, t, PlayEvent) && Ready(t)
    ensures var u, q := Fire(r, t, PlayEvent), SimpleNext(r, Abstract(r, t.base));
            && ThreadedInv(r, u) && Abstract(r, u.base) == q.next
            && q.found && Lookup(r, t.base) == q.envelope
  {
    LookupIsFresh(r, t.base, Filled(t));
    PlayKeepsInv(r, t);
    PlayMoves(r, t);
  }

  /** A replay of an entry that is not ready returns a blank envelope. */
  lemma {:induction false} UnreadyPlay(r: Recording, t: Threaded)
    requires Consistent(r) && ThreadedInv(r, t) && Enabled(r, t, PlayEvent) && !Ready(t)
    ensures Lookup(r, t.base) == BLANK
    ensures SimpleNext(r, Abstract(r, t.base)).envelope == Fresh(r, t.base.cur)
  {
    CacheMember(r, t.base.prev, Filled(t), t.base.cur);
  }

  lemma {:induction false} FromInv(r: Recording, s: State)
    requires Inv(r, s)
    ensures ThreadedInv(r, Threaded(s, false))
  {
  }

  lemma {:induction false} RewindThreaded(r: Recording, t: Threaded)
    requires Consistent(r) && ThreadedInv(r, t) && !t.pending
    ensures var u := Fire(r, t, RewindEvent);
            ThreadedInv(r, u) && Abstract(r, u.base) == SimpleStep(r, Abstract(r, t.base), RewindOp).next
  {
    if r.index != [] {
      PlaceInv(r, 0, r.level);
      FromInv(r, Rewind(r, t.base));
    }
  }

  /** A seek within bounds forgets the state it starts from. */
  lemma {:induction false} SeekThreaded(r: Recording, t: Threaded, ratio: real, product: nat)
    requires Consistent(r) && ThreadedInv(r, t) && !t.pending && Seekable(r, ratio, product)
    ensures var u := Fire(r, t, SeekEvent(ratio, product));
            ThreadedInv(r, u) && Abstract(r, u.base) == SimpleSeek(r, Abstract(r, t.base), ratio, product)
  {
    if 0.0 <= ratio <= 1.0 {
      var s := Initial(r);
      InitialInv(r);
      SeekRefines(r, s, ratio, product);
      FromInv(r, Seek(r, s, ratio, product));
    }
  }

  // ---------------------------------------------------------------- whole runs

  /** Every replay of the run finds its entry ready. */
  predicate AlwaysReady(r: Recording, t: Threaded, events: seq<Event>)
    requires Possible(r, t, events)
    decreases |events|
  {
    events == [] || ((events[0].PlayEvent? ==> Ready(t)) && AlwaysReady(r, Fire(r, t, events[0]), events[1..]))
  }

  /** One step of a run, seen by the simple player; only a replay can go wrong. */
  lemma {:induction false} FireRefines(r: Recording, t: Threaded, e: Event)
    requires Consistent(r) && ThreadedInv(r, t) && Enabled(r, t, e) && Allowed(r, CallsOf([e]))
    requires e.PlayEvent? ==> Ready(t)
    ensures var u, m := Fire(r, t, e), Abstract(r, t.base);
            && ThreadedInv(r, u)
            && Outputs(r, t, [e]) == SimpleRun(r, m, CallsOf([e]))
            && (CallsOf([e]) == [] ==> Abstract(r, u.base) == m)
            && (CallsOf([e]) != [] ==> Abstract(r, u.base) == SimpleStep(r, m, CallsOf([e])[0]).next)
  {
    match e
    case AddEvent => AddKeepsInv(r, t);
    case MoveEvent => MoveKeepsInv(r, t);
    case PlayEvent => ReadyPlay(r, t);
    case RewindEvent => RewindThreaded(r, t);
    case SeekEvent(ratio, product) =>
      assert CallsOf([e])[0] == SeekOp(ratio, product);
      SeekThreaded(r, t, ratio, product);
  }

  lemma {:induction false} OutputsStep(r: Recording, t: Threaded, events: seq<Event>)
    requires events != [] && Possible(r, t, events)
    ensures Outputs(r, t, events)
         == Outputs(r, t, [events[0]]) + Outputs(r, Fire(r, t, events[0]), events[1..])
    ensures |Outputs(r, t, [events[0]])| == |CallsOf([events[0]])| <= 1
  {
    assert [events[0]][1..] == [] && CallsOf([]) == [];
  }

  lemma {:induction false} CallsStep(events: seq<Event>)
    requires events != []
    ensures CallsOf(events) == CallsOf([events[0]]) + CallsOf(events[1..])
  {
  }

  lemma {:induction false} SimpleRunStep(r: Recording, m: Simple, now: seq<Op>, later: seq<Op>)
    requires |now| <= 1
    ensures var m' := if now == [] then m else SimpleStep(r, m, now[0]).next;
            SimpleRun(r, m, now + later) == SimpleRun(r, m, now) + SimpleRun(r, m', later)
    ensures |SimpleRun(r, m, now)| == |now|
  {
    if now == [] {
      assert now + later == later;
    } else {
      assert (now + later)[1..] == later;
    }
  }

  lemma {:induction false} AllowedParts(r: Recording, now: seq<Op>, later: seq<Op>)
    requires Allowed(r, now + later)
    ensures Allowed(r, now) && Allowed(r, later)
  {
    forall op | op in now && op.SeekOp? ensures Seekable(r, op.ratio, op.product) { assert op in now + later; }
    forall op | op in later && op.SeekOp? ensures Seekable(r, op.ratio, op.product) { assert op in now + later; }
  }

  /**
    * However the filling thread is interleaved with the callers: while every replay finds its
    * entry ready, callers see what the simple player shows, and the invariant holds.
    */
  lemma {:induction false} ReadyRunsAreFaithful(r: Recording, t: Threaded, events: seq<Event>)
    requires Consistent(r) && ThreadedInv(r, t) && Possible(r, t, events) && Allowed(r, CallsOf(events))
    requires AlwaysReady(r, t, events)
    ensures Outputs(r, t, events) == SimpleRun(r, Abstract(r, t.base), CallsOf(events))
    ensures ThreadedInv(r, Last(r, t, events))
    decreases |events|
  {
    if events != [] {
      var e, rest := events[0], events[1..];
      CallsStep(events);
      AllowedParts(r, CallsOf([e]), CallsOf(rest));
      FireRefines(r, t, e);
      OutputsStep(r, t, events);
      SimpleRunStep(r, Abstract(r, t.base), CallsOf([e]), CallsOf(rest));
      ReadyRunsAreFaithful(r, Fire(r, t, e), rest);
    }
  }

  // ---------------------------------------------------------------- every run

  /** An entry is cached, as a fresh read would return it, exactly when it has been added. */
  ghost predicate CachedIfAdded(r: Recording, t: Threaded, i: nat)
    requires i < |r.index|
  {
    var pos := r.index[i].pos;
    && (pos in t.base.cache <==> i < Filled(t))
    && (i < Filled(t) ==> t.base.cache[pos] == Fresh(r, i))
  }

  /** What remains of the invariant once a replay has outrun the filling thread. */
  ghost predicate AheadInv(r: Recording, t: Threaded) {
    && Chained(r, t.base) && t.base.cur <= |r.index| && Filled(t) <= |r.index|
    && forall i :: t.base.cur <= i < |r.index| ==> CachedIfAdded(r, t, i)
  }

  lemma {:induction false} AheadFromInv(r: Recording, t: Threaded)
    requires Consistent(r) && ThreadedInv(r, t)
    ensures AheadInv(r, t)
  {
    forall i | t.base.cur <= i < |r.index| ensures CachedIfAdded(r, t, i) {
      CacheMember(r, t.base.prev, Filled(t), i);
    }
  }

  lemma {:induction false} AddKeepsAhead(r: Recording, t: Threaded)
    requires Consistent(r) && AheadInv(r, t) && Enabled(r, t, AddEvent)
    ensures AheadInv(r, Fire(r, t, AddEvent))
  {
    var u, k := Fire(r, t, AddEvent), t.base.nextRead;
    forall i | t.base.cur <= i < |r.index| ensures CachedIfAdded(r, u, i) {
      assert CachedIfAdded(r, t, i);
      assert i != k ==> r.index[i].pos != r.index[k].pos;
    }
  }

  lemma {:induction false} MoveKeepsAhead(r: Recording, t: Threaded)
    requires AheadInv(r, t) && Enabled(r, t, MoveEvent)
    ensures AheadInv(r, Fire(r, t, MoveEvent))
  {
    var u := Fire(r, t, MoveEvent);
    forall i | t.base.cur <= i < |r.index| ensures CachedIfAdded(r, u, i) {
      assert CachedIfAdded(r, t, i);
    }
  }

  lemma {:induction false} PlayKeepsAhead(r: Recording, t: Threaded)
    requires Consistent(r) && AheadInv(r, t) && Enabled(r, t, PlayEvent)
    ensures AheadInv(r, Fire(r, t, PlayEvent))
  {
    var u, cur, prev := Fire(r, t, PlayEvent), t.base.cur, t.base.prev;
    forall i | cur < i < |r.index| ensures CachedIfAdded(r, u, i) {
      assert CachedIfAdded(r, t, i);
      assert r.index[cur].pos != r.index[i].pos && r.index[prev].pos != r.index[i].pos;
    }
  }

  /** A default-constructed envelope: nothing in it. */
  predicate Blank(e: Envelope) {
    && e.dataType == 0 && e.serializedData == [] && e.senderStamp == 0
    && e.sent == e.received == e.sampleTimeStamp == TimeStamp(0, 0)
  }

  /** Whenever a replay happens: a fresh envelope if it has been added, and a blank one if not. */
  lemma {:induction false} AnyPlay(r: Recording, t: Threaded)
    requires Consistent(r) && AheadInv(r, t) && Enabled(r, t, PlayEvent)
    ensures var u, q := Fire(r, t, PlayEvent), SimpleNext(r, Abstract(r, t.base));
            && AheadInv(r, u) && Abstract(r, u.base) == q.next && q.found
            && Lookup(r, t.base) == (if Ready(t) then q.envelope else BLANK)
            && (!Ready(t) ==> Blank(Lookup(r, t.base)))
  {
    assert CachedIfAdded(r, t, t.base.cur);
    PlayKeepsAhead(r, t);
    PlayMoves(r, t);
  }

  lemma {:induction false} AnyRewind(r: Recording, t: Threaded)
    requires Consistent(r) && AheadInv(r, t) && !t.pending
    ensures var u := Fire(r, t, RewindEvent);
            AheadInv(r, u) && Abstract(r, u.base) == SimpleStep(r, Abstract(r, t.base), RewindOp).next
  {
    if r.index != [] {
      PlaceInv(r, 0, r.level);
      FromInv(r, Rewind(r, t.base));
      AheadFromInv(r, Fire(r, t, RewindEvent));
    }
  }

  lemma {:induction false} AnySeek(r: Recording, t: Threaded, ratio: real, product: nat)
    requires Consistent(r) && AheadInv(r, t) && !t.pending && Seekable(r, ratio, product)
    ensures var u := Fire(r, t, SeekEvent(ratio, product));
            AheadInv(r, u) && Abstract(r, u.base) == SimpleSeek(r, Abstract(r, t.base), ratio, product)
  {
    if 0.0 <= ratio <= 1.0 {
      var s := Initial(r);
      InitialInv(r);
      SeekRefines(r, s, ratio, product);
      FromInv(r, Seek(r, s, ratio, product));
      AheadFromInv(r, Fire(r, t, SeekEvent(ratio, product)));
    }
  }

  /** What the player without cache shows, except that a replay out of turn shows a blank envelope. */
  function Expected(r: Recording, t: Threaded, m: Simple, events: seq<Event>): (seen: seq<Seen>)
    requires Possible(r, t, events)
    decreases |events|
  {
    if events == [] then []
    else
      var u := Fire(r, t, events[0]);
      if CallsOf([events[0]]) == [] then Expected(r, u, m, events[1..])
      else
        var q := SimpleStep(r, m, CallsOf([events[0]])[0]);
        var envelope := if events[0].PlayEvent? && !Ready(t) then BLANK else q.envelope;
        [Seen(q.found, envelope, Reported(q.next.delay))] + Expected(r, u, q.next, events[1..])
  }

  lemma {:induction false} AnyFire(r: Recording, t: Threaded, e: Event)
    requires Consistent(r) && AheadInv(r, t) && Enabled(r, t, e) && Allowed(r, CallsOf([e]))
    ensures var u, m := Fire(r, t, e), Abstract(r, t.base);
            && AheadInv(r, u)
            && (CallsOf([e]) == [] ==> Outputs(r, t, [e]) == [] && Abstract(r, u.base) == m)
            && (CallsOf([e]) != [] ==>
                  var q := SimpleStep(r, m, CallsOf([e])[0]);
                  && Abstract(r, u.base) == q.next
                  && Outputs(r, t, [e])
                  == [Seen(q.found, if e.PlayEvent? && !Ready(t) then BLANK else q.envelope, Reported(q.next.delay))])
  {
    match e
    case AddEvent => AddKeepsAhead(r, t);
    case MoveEvent => MoveKeepsAhead(r, t);
    case PlayEvent => AnyPlay(r, t);
    case RewindEvent => AnyRewind(r, t);
    case SeekEvent(ratio, product) =>
      assert CallsOf([e])[0] == SeekOp(ratio, product);
      AnySeek(r, t, ratio, product);
  }

  lemma {:induction false} AsExpectedFrom(r: Recording, t: Threaded, events: seq<Event>)
    requires Consistent(r) && AheadInv(r, t) && Possible(r, t, events) && Allowed(r, CallsOf(events))
    ensures Outputs(r, t, events) == Expected(r, t, Abstract(r, t.base), events)
    ensures AheadInv(r, Last(r, t, events))
    decreases |events|
  {
    if events != [] {
      var e, rest := events[0], events[1..];
      CallsStep(events);
      AllowedParts(r, CallsOf([e]), CallsOf(rest));
      AnyFire(r, t, e);
      OutputsStep(r, t, events);
      AsExpectedFrom(r, Fire(r, t, e), rest);
    }
  }

  /**
    * For every interleaving, also after replays have outrun the filling thread: every replay
    * returns its entry if that has been added and a blank envelope otherwise, and cursor and
    * delays are those of the player without cache.
    */
  lemma {:induction false} EveryRunIsAsExpected(r: Recording, events: seq<Event>)
    requires Consistent(r) && Possible(r, Started(r), events) && Allowed(r, CallsOf(events))
    ensures Outputs(r, Started(r), events) == Expected(r, Started(r), SimpleStart(), events)
    ensures AheadInv(r, Last(r, Started(r), events))
  {
    InitialInv(r);
    FromInv(r, Initial(r));
    AheadFromInv(r, Started(r));
    AsExpectedFrom(r, Started(r), events);
  }

  // ---------------------------------------------------------------- faithful runs

  ghost predicate NoBlanks(r: Recording) {
    forall i :: 0 <= i < |r.index| ==> Fresh(r, i) != BLANK
  }

  lemma {:induction false} ConcatEqual<T>(a: seq<T>, b: seq<T>, c: seq<T>, d: seq<T>)
    requires |a| == |c| && a + b == c + d
    ensures a == c && b == d
  {
    assert a == (a + b)[..|a|] && b == (a + b)[|a|..];
    assert c == (c + d)[..|c|] && d == (c + d)[|c|..];
  }

  lemma {:induction false} UnreadyDiffers(r: Recording, t: Threaded)
    requires Consistent(r) && NoBlanks(r) && ThreadedInv(r, t) && Enabled(r, t, PlayEvent) && !Ready(t)
    ensures Outputs(r, t, [PlayEvent]) != SimpleRun(r, Abstract(r, t.base), CallsOf([PlayEvent]))
  {
    UnreadyPlay(r, t);
    var m := Abstract(r, t.base);
    assert CallsOf([PlayEvent]) == [NextOp];
    assert Outputs(r, t, [PlayEvent])[0].envelope == BLANK;
    assert SimpleRun(r, m, [NextOp])[0].envelope == SimpleNext(r, m).envelope;
  }

  lemma {:induction false} FaithfulRunsAreReady(r: Recording, t: Threaded, events: seq<Event>)
    requires Consistent(r) && NoBlanks(r)
    requires ThreadedInv(r, t) && Possible(r, t, events) && Allowed(r, CallsOf(events))
    requires Outputs(r, t, events) == SimpleRun(r, Abstract(r, t.base), CallsOf(events))
    ensures AlwaysReady(r, t, events)
    decreases |events|
  {
    if events != [] {
      var e, rest := events[0], events[1..];
      var m, u := Abstract(r, t.base), Fire(r, t, e);
      CallsStep(events);
      AllowedParts(r, CallsOf([e]), CallsOf(rest));
      OutputsStep(r, t, events);
      SimpleRunStep(r, m, CallsOf([e]), CallsOf(rest));
      var m' := if CallsOf([e]) == [] then m else SimpleStep(r, m, CallsOf([e])[0]).next;
      ConcatEqual(Outputs(r, t, [e]), Outputs(r, u, rest),
                  SimpleRun(r, m, CallsOf([e])), SimpleRun(r, m', CallsOf(rest)));
      if e.PlayEvent? && !Ready(t) {
        UnreadyDiffers(r, t);
      } else {
        FireRefines(r, t, e);
        FaithfulRunsAreReady(r, u, rest);
      }
    }
  }

  function Started(r: Recording): (t: Threaded) {
    Threaded(Initial(r), false)
  }

  /**
    * From the start, on a recording without blank envelopes, a run shows what the simple player
    * shows exactly when every replay of it finds its entry ready.
    */
  lemma {:induction false} FaithfulIffReady(r: Recording, events: seq<Event>)
    requires Consistent(r) && NoBlanks(r) && Possible(r, Started(r), events) && Allowed(r, CallsOf(events))
    ensures Outputs(r, Started(r), events) == SimpleRun(r, SimpleStart(), CallsOf(events))
       <==> AlwaysReady(r, Started(r), events)
  {
    InitialInv(r);
    FromInv(r, Initial(r));
    if AlwaysReady(r, Started(r), events) {
      ReadyRunsAreFaithful(r, Started(r), events);
    } else if Outputs(r, Started(r), events) == SimpleRun(r, SimpleStart(), CallsOf(events)) {
      FaithfulRunsAreReady(r, Started(r), events);
    }
  }

  predicate OnePass(events: seq<Event>) {
    events == [] || (!events[0].RewindEvent? && !events[0].SeekEvent? && OnePass(events[1..]))
  }

  /** Outputs of a pass from a place in the index: its entries, one after the other. */
  ghost predicate InOrder(r: Recording, place: nat, seen: seq<Seen>) {
    && place + |seen| <= |r.index|
    && forall j :: 0 <= j < |seen| ==> seen[j].found && seen[j].envelope == Fresh(r, place + j)
  }

  ghost predicate OnlyNext(ops: seq<Op>) {
    forall i :: 0 <= i < |ops| ==> ops[i].NextOp?
  }

  /** A pass consists of replays, and there are no more of them than entries are left. */
  lemma {:induction false} PassCalls(r: Recording, t: Threaded, events: seq<Event>)
    requires Possible(r, t, events) && OnePass(events) && t.base.cur <= |r.index|
    ensures t.base.cur + |CallsOf(events)| <= |r.index| && OnlyNext(CallsOf(events))
    decreases |events|
  {
    if events != [] {
      PassCalls(r, Fire(r, t, events[0]), events[1..]);
      CallsStep(events);
    }
  }

  lemma {:induction false} InOrderCons(r: Recording, place: nat, first: Seen, later: seq<Seen>)
    requires place < |r.index| && first.found && first.envelope == Fresh(r, place)
    requires InOrder(r, place + 1, later)
    ensures InOrder(r, place, [first] + later)
  {
    var seen := [first] + later;
    forall j | 0 <= j < |seen| ensures seen[j].found && seen[j].envelope == Fresh(r, place + j) {
      if j > 0 { assert seen[j] == later[j - 1]; }
    }
  }

  lemma {:induction false} SimplePass(r: Recording, m: Simple, ops: seq<Op>)
    requires OnlyNext(ops) && m.place + |ops| <= |r.index|
    ensures InOrder(r, m.place, SimpleRun(r, m, ops))
    decreases |ops|
  {
    if ops != [] {
      var p := SimpleStep(r, m, ops[0]);
      SimplePass(r, p.next, ops[1..]);
      InOrderCons(r, m.place, Seen(p.found, p.envelope, Reported(p.next.delay)), SimpleRun(r, p.next, ops[1..]));
    }
  }

  /** In one pass, the replays return the index in order: nothing lost, repeated or made up. */
  lemma {:induction false} PassInOrder(r: Recording, t: Threaded, events: seq<Event>)
    requires Consistent(r) && ThreadedInv(r, t) && Possible(r, t, events) && OnePass(events)
    requires AlwaysReady(r, t, events)
    ensures InOrder(r, t.base.cur, Outputs(r, t, events))
    ensures |Outputs(r, t, events)| == |CallsOf(events)|
  {
    PassCalls(r, t, events);
    ReadyRunsAreFaithful(r, t, events);
    SimplePass(r, Abstract(r, t.base), CallsOf(events));
    RunLength(r, Abstract(r, t.base), CallsOf(events));
  }
}
