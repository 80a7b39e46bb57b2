/** Whole runs of the player, against a player without a cache that reads the index in order. */
module ReplayRuns {
  import opened Bytes
  import opened Recordings
  import opened Replay

  datatype Op = NextOp | RewindOp | SeekOp(ratio: real, product: nat)

  /** What a caller sees of an operation: the envelope, if any, and the delay reported after it. */
  datatype Seen = Seen(found: bool, envelope: Envelope, delay: nat)

  const MAX_DELAY_IN_MICROSECONDS: nat := 1000000

  /** delay(): the stored delay, capped. */
  function Reported(delay: nat): (d: nat)
    ensures if delay <= 1000000 then d == delay else d == 1000000
  {
    Min(delay, MAX_DELAY_IN_MICROSECONDS)
  }

  // ---------------------------------------------------------------- the player

  function Step(r: Recording, s: State, op: Op): (p: Played) {
    match op
    case NextOp => Next(r, s)
    case RewindOp => Played(false, BLANK, Rewind(r, s))
    case SeekOp(ratio, product) => Played(false, BLANK, Seek(r, s, ratio, product))
  }

  function Run(r: Recording, s: State, ops: seq<Op>): (seen: seq<Seen>)
    decreases |ops|
  {
    if ops == [] then []
    else
      var p := Step(r, s, ops[0]);
      [Seen(p.found, p.envelope, Reported(p.next.delay))] + Run(r, p.next, ops[1..])
  }

  function After(r: Recording, s: State, ops: seq<Op>): (t: State)
    decreases |ops|
  {
    if ops == [] then s else After(r, Step(r, s, ops[0]).next, ops[1..])
  }

  // ---------------------------------------------------------------- the simple player

  /** Without cache: where it stands, whether the entry before has just been played, and the delay. */
  datatype Simple = Simple(place: nat, running: bool, delay: nat)

  datatype SimplePlayed = SimplePlayed(found: bool, envelope: Envelope, next: Simple)

  function SimpleStart(): (m: Simple) { Simple(0, false, 0) }

  function SimpleNext(r: Recording, m: Simple): (p: SimplePlayed) {
    var t := if m.place == |r.index| && r.autoRewind && r.index != [] then SimpleStart() else m;
    if t.place < |r.index| then
      SimplePlayed(true, Fresh(r, t.place),
        Simple(t.place + 1, true, if t.running && t.place > 0 then Gap(r, t.place - 1, t.place) else 0))
    else SimplePlayed(false, BLANK, t)
  }

  /** Goes to the place before the product and, short of the whole, plays the entry there unseen. */
  function SimpleSeek(r: Recording, m: Simple, ratio: real, product: nat): (t: Simple) {
    if ratio < 0.0 || 1.0 < ratio then m
    else if ratio == 0.0 || product == 0 then SimpleStart()
    else if ratio < 1.0 then SimpleNext(r, Simple(product - 1, false, 0)).next
    else Simple(product - 1, false, 0)
  }

  function SimpleStep(r: Recording, m: Simple, op: Op): (p: SimplePlayed) {
    match op
    case NextOp => SimpleNext(r, m)
    case RewindOp => SimplePlayed(false, BLANK, if r.index != [] then SimpleStart() else m)
    case SeekOp(ratio, product) => SimplePlayed(false, BLANK, SimpleSeek(r, m, ratio, product))
  }

  function SimpleRun(r: Recording, m: Simple, ops: seq<Op>): (seen: seq<Seen>)
    decreases |ops|
  {
    if ops == [] then []
    else
      var p := SimpleStep(r, m, ops[0]);
      [Seen(p.found, p.envelope, Reported(p.next.delay))] + SimpleRun(r, p.next, ops[1..])
  }

  // ---------------------------------------------------------------- refinement

  /** What the simple player keeps of the state. */
  ghost function Abstract(r: Recording, s: State): (m: Simple) {
    Simple(s.cur, s.prevPrev != |r.index|, s.delay)
  }

  ghost predicate Allowed(r: Recording, ops: seq<Op>) {
    forall op :: op in ops && op.SeekOp? ==> Seekable(r, op.ratio, op.product)
  }

  lemma {:induction false} ZeroGap(r: Recording, i: nat)
    requires i < |r.index|
    ensures Gap(r, i, i) == 0
  {
  }

  /** One replay step does what the simple player does. */
  lemma {:induction false} PlayRefines(r: Recording, s: State)
    requires Consistent(r) && Inv(r, s) && s.cur < |r.index|
    ensures var p, q := Next(r, s), SimpleNext(r, Abstract(r, s));
            && Inv(r, p.next) && Abstract(r, p.next) == q.next
            && p.found == q.found && p.envelope == q.envelope
  {
    NextEffect(r, s);
    ZeroGap(r, s.cur);
  }

  lemma {:induction false} NextRefines(r: Recording, s: State)
    requires Consistent(r) && Inv(r, s)
    ensures var p, q := Next(r, s), SimpleNext(r, Abstract(r, s));
            && Inv(r, p.next) && Abstract(r, p.next) == q.next
            && p.found == q.found && p.envelope == q.envelope
  {
    if s.cur < |r.index| {
      PlayRefines(r, s);
    } else if r.autoRewind && r.index != [] {
      var t := Rewind(r, s);
      RewindInv(r, s);
      PlayRefines(r, t);
      assert Next(r, s) == Next(r, t);
    } else {
      RewindInv(r, s);
    }
  }

  lemma {:induction false} SeekRefines(r: Recording, s: State, ratio: real, product: nat)
    requires Consistent(r) && Inv(r, s) && Seekable(r, ratio, product)
    ensures Inv(r, Seek(r, s, ratio, product))
    ensures Abstract(r, Seek(r, s, ratio, product)) == SimpleSeek(r, Abstract(r, s), ratio, product)
  {
    SeekEffect(r, s, ratio, product);
    if 0.0 <= ratio <= 1.0 {
      SoughtPlace(r, ratio, product);
      NextRefines(r, SeekPlace(r, SeekSteps(ratio, product)));
    }
  }

  lemma {:induction false} StepRefines(r: Recording, s: State, op: Op)
    requires Consistent(r) && Inv(r, s) && Allowed(r, [op])
    ensures var p, q := Step(r, s, op), SimpleStep(r, Abstract(r, s), op);
            && Inv(r, p.next) && Abstract(r, p.next) == q.next
            && p.found == q.found && p.envelope == q.envelope
  {
    match op
    case NextOp => NextRefines(r, s);
    case RewindOp => RewindInv(r, s);
    case SeekOp(ratio, product) =>
      assert op in [op];
      SeekRefines(r, s, ratio, product);
  }

  lemma {:induction false} RunRefinesFrom(r: Recording, s: State, ops: seq<Op>)
    requires Consistent(r) && Inv(r, s) && Allowed(r, ops)
    ensures Run(r, s, ops) == SimpleRun(r, Abstract(r, s), ops)
    ensures Inv(r, After(r, s, ops))
    decreases |ops|
  {
    if ops != [] {
      assert ops[0] in ops;
      StepRefines(r, s, ops[0]);
      RunRefinesFrom(r, Step(r, s, ops[0]).next, ops[1..]);
    }
  }

  /**
    * Over every run of replays, rewinds and seeks, the caching player is indistinguishable
    * from the one that reads the index in order, and the invariant holds in every state.
    */
  lemma {:induction false} RunRefines(r: Recording, ops: seq<Op>)
    requires Consistent(r) && Allowed(r, ops)
    ensures Run(r, Initial(r), ops) == SimpleRun(r, SimpleStart(), ops)
    ensures Inv(r, After(r, Initial(r), ops))
  {
    InitialInv(r);
    RunRefinesFrom(r, Initial(r), ops);
  }

  /** hasMoreData(). */
  predicate HasMoreData(r: Recording, s: State) {
    r.valid && (r.autoRewind || s.cur != |r.index|)
  }

  /** More data announced means that the next replay delivers, except from an empty recording. */
  lemma {:induction false} HasMoreDataMeaning(r: Recording, s: State)
    requires Consistent(r) && Inv(r, s)
    ensures Next(r, s).found <==> HasMoreData(r, s) && r.index != []
  {
    NextRefines(r, s);
  }

  // ---------------------------------------------------------------- playing only

  function Plays(k: nat): (ops: seq<Op>)
    ensures |ops| == k
  {
    seq(k, _ => NextOp)
  }

  lemma {:induction false} PlaysTail(k: nat)
    requires k > 0
    ensures Plays(k)[0] == NextOp && Plays(k)[1..] == Plays(k - 1)
  {
  }

  function Modulo(i: nat, n: nat): (m: nat)
    requires n > 0
    ensures m < n
  {
    i % n
  }

  lemma {:induction false} ModuloStep(i: nat, n: nat)
    requires n > 0
    ensures Modulo(i + 1, n) == if Modulo(i, n) + 1 == n then 0 else Modulo(i, n) + 1
  {
    var q, m := i / n, i % n;
    assert i == q * n + m;
    if m + 1 == n {
      DivJoin(q + 1, 0, n);
    } else {
      DivJoin(q, m + 1, n);
    }
  }

  /** The simple player after i plays from the start, i > 0, on an endless loop. */
  lemma {:induction false} LoopedRun(r: Recording, i: nat, k: nat, m: Simple, j: nat)
    requires r.index != [] && r.autoRewind && j < k
    requires m.place == Modulo(i, |r.index|) || (m.place == |r.index| && Modulo(i, |r.index|) == 0)
    ensures var seen := SimpleRun(r, m, Plays(k));
            |seen| == k && seen[j].found && seen[j].envelope == Fresh(r, Modulo(i + j, |r.index|))
    decreases k
  {
    PlaysTail(k);
    var n, p := |r.index|, SimpleNext(r, m);
    ModuloStep(i, n);
    RunLength(r, p.next, Plays(k - 1));
    if j > 0 {
      LoopedRun(r, i + 1, k - 1, p.next, j - 1);
    }
  }

  lemma {:induction false} RunLength(r: Recording, m: Simple, ops: seq<Op>)
    ensures |SimpleRun(r, m, ops)| == |ops|
    decreases |ops|
  {
    if ops != [] {
      RunLength(r, SimpleStep(r, m, ops[0]).next, ops[1..]);
    }
  }

  lemma {:induction false} PlaysAllowed(r: Recording, k: nat)
    ensures Allowed(r, Plays(k))
  {
  }

  /** With auto-rewind, call number j returns entry j modulo n, for ever. */
  lemma {:induction false} AutoRewindLoops(r: Recording, k: nat, j: nat)
    requires Consistent(r) && 0 < |r.index| && r.autoRewind && j < k
    ensures var seen := Run(r, Initial(r), Plays(k));
            |seen| == k && seen[j].found && seen[j].envelope == Fresh(r, j % |r.index|)
  {
    PlaysAllowed(r, k);
    RunRefines(r, Plays(k));
    SmallMod(0, |r.index|);
    LoopedRun(r, 0, k, SimpleStart(), j);
  }

  lemma {:induction false} SingleRun(r: Recording, k: nat, m: Simple, j: nat)
    requires !r.autoRewind && j < k && m.place <= |r.index|
    ensures var seen := SimpleRun(r, m, Plays(k));
            && |seen| == k
            && (seen[j].found <==> m.place + j < |r.index|)
            && (m.place + j < |r.index| ==> seen[j].envelope == Fresh(r, m.place + j))
    decreases k
  {
    PlaysTail(k);
    var p := SimpleNext(r, m);
    RunLength(r, p.next, Plays(k - 1));
    if j > 0 {
      SingleRun(r, k - 1, p.next, j - 1);
    }
  }

  /** Without auto-rewind, exactly n calls succeed, in index order, and all later ones fail. */
  lemma {:induction false} SinglePass(r: Recording, k: nat, j: nat)
    requires Consistent(r) && !r.autoRewind && j < k
    ensures var seen := Run(r, Initial(r), Plays(k));
            && |seen| == k && (seen[j].found <==> j < |r.index|)
            && (j < |r.index| ==> seen[j].envelope == Fresh(r, j))
  {
    PlaysAllowed(r, k);
    RunRefines(r, Plays(k));
    SingleRun(r, k, SimpleStart(), j);
  }

  // ---------------------------------------------------------------- delays

  /** The delays stored over the first k replays of a pass, added up. */
  ghost function DelaySum(r: Recording, s: State, k: nat): (sum: nat)
    decreases k
  {
    if k == 0 then 0
    else var t := Next(r, s).next; t.delay + DelaySum(r, t, k - 1)
  }

  ghost predicate GapFits(r: Recording, i: nat)
    requires 0 < i < |r.index|
  {
    r.index[i].time - r.index[i - 1].time < TWO32
  }

  ghost predicate SmallGaps(r: Recording) {
    forall i :: 0 < i < |r.index| ==> GapFits(r, i)
  }

  ghost predicate GapExact(r: Recording, i: nat)
    requires 0 < i < |r.index|
  {
    Gap(r, i - 1, i) == LastTime(r, i + 1) - LastTime(r, i)
  }

  ghost predicate ExactGaps(r: Recording) {
    forall i :: 0 < i < |r.index| ==> GapExact(r, i)
  }

  /** The time of the entry before a place. */
  ghost function LastTime(r: Recording, place: nat): (t: int)
    requires 0 < place <= |r.index|
  {
    r.index[place - 1].time
  }

  lemma {:induction false} SmallGapsAreExact(r: Recording)
    requires Consistent(r) && SmallGaps(r)
    ensures ExactGaps(r)
  {
    forall i: nat | 0 < i < |r.index| ensures GapExact(r, i) {
      assert Before(r.index[i - 1], r.index[i]) && GapFits(r, i);
      SmallMod(r.index[i].time - r.index[i - 1].time, TWO32);
    }
  }

  ghost function SimpleDelaySum(r: Recording, m: Simple, k: nat): (sum: nat)
    decreases k
  {
    if k == 0 then 0
    else var t := SimpleNext(r, m).next; t.delay + SimpleDelaySum(r, t, k - 1)
  }

  lemma {:induction false} DelaySumRefines(r: Recording, s: State, k: nat)
    requires Consistent(r) && Inv(r, s)
    ensures DelaySum(r, s, k) == SimpleDelaySum(r, Abstract(r, s), k)
    decreases k
  {
    if k > 0 {
      NextRefines(r, s);
      DelaySumRefines(r, Next(r, s).next, k - 1);
    }
  }

  lemma {:induction false} DelaysFrom(r: Recording, m: Simple, k: nat)
    requires ExactGaps(r) && m.running && 0 < m.place && m.place + k <= |r.index|
    ensures SimpleDelaySum(r, m, k) == LastTime(r, m.place + k) - LastTime(r, m.place)
    decreases k
  {
    if k > 0 {
      assert GapExact(r, m.place);
      DelaysFrom(r, SimpleNext(r, m).next, k - 1);
    }
  }

  /**
    * While no gap reaches 2^32 microseconds, the delays of a pass add up to the time between
    * its first and its last entry, and the first of them is zero.
    */
  lemma {:induction false} DelaysAddUp(r: Recording, k: nat)
    requires Consistent(r) && SmallGaps(r) && 0 < k <= |r.index|
    ensures Next(r, Initial(r)).next.delay == 0
    ensures DelaySum(r, Initial(r), k) == r.index[k - 1].time - r.index[0].time
  {
    var s := Initial(r);
    InitialInv(r);
    NextRefines(r, s);
    SmallGapsAreExact(r);
    DelaySumRefines(r, s, k);
    DelaysFrom(r, SimpleNext(r, Abstract(r, s)).next, k - 1);
  }
}
