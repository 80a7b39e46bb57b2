/**
  * The replay state machine: three replay cursors, a read-ahead cursor and a cache of
  * envelopes keyed by file position, as one value and the steps between such values.
  */
module Replay {
  import opened Bytes
  import opened Recordings

  type Cache = map<nat, Envelope>

  /** Cursors are places in the index; |index| is its end. */
  datatype State = State(
    prevPrev: nat, prev: nat, cur: nat, nextRead: nat,
    cache: Cache, returned: nat, delay: nat)

  // ---------------------------------------------------------------- steps

  /** map::emplace keeps an entry that is already there. */
  function Emplace(cache: Cache, pos: nat, e: Envelope): (r: Cache) {
    if pos in cache then cache else cache[pos := e]
  }

  /** resetCaches and resetIterators. */
  function Reset(r: Recording): (s: State) {
    State(|r.index|, 0, 0, 0, map[], 0, 0)
  }

  /** fillEnvelopeCache: up to k more entries from the file. */
  function Fill(r: Recording, s: State, k: nat): (t: State)
    decreases k
  {
    if k == 0 || s.nextRead >= |r.index| then s
    else
      var cache := Emplace(s.cache, r.index[s.nextRead].pos, Fresh(r, s.nextRead));
      Fill(r, s.(cache := cache, nextRead := s.nextRead + 1), k - 1)
  }

  /** computeInitialCacheLevelAndFillCache, which is also what rewind does. */
  function Rewind(r: Recording, s: State): (t: State) {
    if r.valid && r.index != [] then Fill(r, Reset(r), r.level) else s
  }

  /** The envelope the replay step copies: operator[] makes up a blank one if there is none. */
  function Lookup(r: Recording, s: State): (e: Envelope)
    requires s.cur < |r.index|
  {
    var pos := r.index[s.cur].pos;
    if pos in s.cache then s.cache[pos] else BLANK
  }

  /** The gap to the entry replayed before, in 32 bits. */
  function Gap(r: Recording, from: nat, to: nat): (d: nat)
    requires from < |r.index| && to < |r.index|
    ensures d < TWO32
  {
    (r.index[to].time - r.index[from].time) % TWO32
  }

  /** The part of a replay that runs under the lock: copy, forget the entry before last, move on. */
  function Advance(r: Recording, s: State): (t: State)
    requires s.cur < |r.index| && s.prev < |r.index|
  {
    var pos := r.index[s.cur].pos;
    var cache := s.cache[pos := Lookup(r, s)];
    State(s.prev, s.cur, s.cur + 1, s.nextRead,
          if s.prevPrev != |r.index| then cache - {r.index[s.prev].pos} else cache,
          s.returned + 1, Gap(r, s.prev, s.cur))
  }

  datatype Played = Played(found: bool, envelope: Envelope, next: State)

  /** getNextEnvelopeToBeReplayed without a filling thread. */
  function Next(r: Recording, s: State): (p: Played) {
    var t := if s.cur == |r.index| && r.autoRewind then Rewind(r, s) else s;
    if t.cur < |r.index| && t.prev < |r.index| then Played(true, Lookup(r, t), Fill(r, Advance(r, t), 1))
    else Played(false, BLANK, t)
  }

  /**
    * How many times seekTo moves the cursor: one less than the product of the number of
    * entries and the ratio, counted in 32 bits. The product is a single-precision number
    * cut off to 32 bits; whatever rounding makes of it, it comes as an argument.
    */
  function SeekSteps(ratio: real, product: nat): (n: nat) {
    if 0.0 < ratio then (product - 1) % TWO32 else 0
  }

  function SeekPlace(r: Recording, place: nat): (t: State) {
    Fill(r, State(|r.index|, place, place, place, map[], place, 0), r.seekLevel)
  }

  function Seek(r: Recording, s: State, ratio: real, product: nat): (t: State) {
    if ratio < 0.0 || 1.0 < ratio then s
    else
      var t := SeekPlace(r, SeekSteps(ratio, product));
      if 0.0 < ratio < 1.0 then Next(r, t).next else t
  }

  /** The constructor's state. */
  function Initial(r: Recording): (s: State) {
    Rewind(r, Reset(r))
  }

  // ---------------------------------------------------------------- the invariant

  /** The cache that re-reading the entries from lo to hi would give. */
  ghost function CacheOf(r: Recording, lo: nat, hi: nat): (c: Cache)
    requires lo <= hi <= |r.index|
    decreases hi - lo
  {
    if lo == hi then map[] else CacheOf(r, lo, hi - 1)[r.index[hi - 1].pos := Fresh(r, hi - 1)]
  }

  /** The replay cursors follow one another; before the first replay they coincide. */
  ghost predicate Chained(r: Recording, s: State) {
    if s.prevPrev == |r.index| then s.prev == s.cur else s.prevPrev < |r.index| && s.prev + 1 == s.cur
  }

  /**
    * The joint invariant of cursors and cache: the cache holds exactly the entries from the
    * one replayed last up to the read-ahead cursor, as a fresh read would return them, the
    * entry to be replayed next among them.
    */
  ghost predicate Inv(r: Recording, s: State) {
    var n := |r.index|;
    && Chained(r, s)
    && s.cur <= s.nextRead <= n && (s.cur < n ==> s.cur < s.nextRead)
    && s.cache == CacheOf(r, s.prev, s.nextRead)
    && s.nextRead - s.prev <= r.level + (if s.prevPrev == n then 0 else 1)
    && s.returned == s.cur && s.delay < TWO32
  }

  lemma {:induction false} CacheMember(r: Recording, lo: nat, hi: nat, i: nat)
    requires Consistent(r) && lo <= hi <= |r.index| && i < |r.index|
    ensures r.index[i].pos in CacheOf(r, lo, hi) <==> lo <= i < hi
    ensures lo <= i < hi ==> CacheOf(r, lo, hi)[r.index[i].pos] == Fresh(r, i)
    decreases hi - lo
  {
    if lo < hi {
      CacheMember(r, lo, hi - 1, i);
      if i != hi - 1 {
        assert r.index[i].pos != r.index[hi - 1].pos;
      }
    }
  }

  lemma {:induction false} CacheKeys(r: Recording, lo: nat, hi: nat, p: nat)
    requires lo <= hi <= |r.index|
    ensures p in CacheOf(r, lo, hi) <==> exists i :: lo <= i < hi && r.index[i].pos == p
    decreases hi - lo
  {
    if lo < hi {
      CacheKeys(r, lo, hi - 1, p);
    }
  }

  /** The number of cached entries is the distance of the two cursors. */
  lemma {:induction false} CacheSize(r: Recording, lo: nat, hi: nat)
    requires Consistent(r) && lo <= hi <= |r.index|
    ensures |CacheOf(r, lo, hi)| == hi - lo
    decreases hi - lo
  {
    if lo < hi {
      CacheSize(r, lo, hi - 1);
      CacheMember(r, lo, hi - 1, hi - 1);
    }
  }

  lemma {:induction false} CacheWithoutFirst(r: Recording, lo: nat, hi: nat)
    requires Consistent(r) && lo < hi <= |r.index|
    ensures CacheOf(r, lo, hi) - {r.index[lo].pos} == CacheOf(r, lo + 1, hi)
    decreases hi - lo
  {
    if lo + 1 == hi {
      assert CacheOf(r, lo, lo) == map[];
    } else {
      CacheWithoutFirst(r, lo, hi - 1);
      assert r.index[lo].pos != r.index[hi - 1].pos;
    }
  }

  // ---------------------------------------------------------------- filling

  function Min(a: nat, b: nat): (m: nat) {
    if a < b then a else b
  }

  /** Filling moves the read-ahead cursor and extends the cache to match, nothing else. */
  lemma {:induction false} FillEffect(r: Recording, s: State, k: nat)
    requires Consistent(r) && s.prev <= s.nextRead <= |r.index|
    requires s.cache == CacheOf(r, s.prev, s.nextRead)
    ensures var hi := Min(s.nextRead + k, |r.index|);
            Fill(r, s, k) == s.(nextRead := hi, cache := CacheOf(r, s.prev, hi))
    decreases k
  {
    if k != 0 && s.nextRead < |r.index| {
      CacheMember(r, s.prev, s.nextRead, s.nextRead);
      var cache := Emplace(s.cache, r.index[s.nextRead].pos, Fresh(r, s.nextRead));
      FillEffect(r, s.(cache := cache, nextRead := s.nextRead + 1), k - 1);
    }
  }

  lemma {:induction false} EmptyCache(r: Recording, i: nat)
    requires i <= |r.index|
    ensures CacheOf(r, i, i) == map[]
  {
  }

  /** Starting afresh at a place establishes the invariant. */
  lemma {:induction false} PlaceInv(r: Recording, place: nat, k: nat)
    requires Consistent(r) && place <= |r.index| && (place < |r.index| ==> 1 <= k <= r.level)
    ensures var t := Fill(r, State(|r.index|, place, place, place, map[], place, 0), k);
            Inv(r, t) && t.prevPrev == |r.index| && t.cur == place && t.delay == 0
  {
    EmptyCache(r, place);
    FillEffect(r, State(|r.index|, place, place, place, map[], place, 0), k);
  }

  lemma {:induction false} RewindInv(r: Recording, s: State)
    requires Consistent(r) && Inv(r, s)
    ensures Inv(r, Rewind(r, s))
    ensures r.index != [] ==> Rewind(r, s).prevPrev == |r.index| && Rewind(r, s).cur == 0 && Rewind(r, s).delay == 0
    ensures r.index == [] ==> Rewind(r, s) == s
  {
    if r.index != [] {
      PlaceInv(r, 0, r.level);
    }
  }

  lemma {:induction false} InitialInv(r: Recording)
    requires Consistent(r)
    ensures Inv(r, Initial(r))
    ensures r.index != [] ==> Initial(r).prevPrev == |r.index| && Initial(r).cur == 0 && Initial(r).delay == 0
    ensures r.index == [] ==> Initial(r) == Reset(r)
  {
    EmptyCache(r, 0);
    if r.index != [] {
      PlaceInv(r, 0, r.level);
    }
  }

  // ---------------------------------------------------------------- replaying

  /** A cached entry is copied as a fresh read would return it. */
  lemma {:induction false} LookupIsFresh(r: Recording, s: State, hi: nat)
    requires Consistent(r) && Chained(r, s) && s.cur < hi <= |r.index|
    requires s.cache == CacheOf(r, s.prev, hi)
    ensures Lookup(r, s) == Fresh(r, s.cur)
  {
    CacheMember(r, s.prev, hi, s.cur);
  }

  lemma {:induction false} SetPresent(c: Cache, p: nat)
    requires p in c
    ensures c[p := c[p]] == c
  {
  }

  lemma {:induction false} AdvanceCache(r: Recording, s: State, hi: nat)
    requires Consistent(r) && Chained(r, s) && s.cur < hi <= |r.index|
    requires s.cache == CacheOf(r, s.prev, hi)
    ensures Advance(r, s).cache == CacheOf(r, s.cur, hi)
  {
    var n, pos := |r.index|, r.index[s.cur].pos;
    CacheMember(r, s.prev, hi, s.cur);
    SetPresent(s.cache, pos);
    if s.prevPrev != n {
      CacheWithoutFirst(r, s.prev, hi);
    }
  }

  /** A replay step returns the current entry as the file holds it and keeps the invariant. */
  lemma {:induction false} NextEffect(r: Recording, s: State)
    requires Consistent(r) && Inv(r, s) && s.cur < |r.index|
    ensures var p := Next(r, s);
            && p.found && p.envelope == Fresh(r, s.cur)
            && Inv(r, p.next) && p.next.cur == s.cur + 1 && p.next.prevPrev != |r.index|
            && p.next.delay == Gap(r, s.prev, s.cur)
  {
    LookupIsFresh(r, s, s.nextRead);
    AdvanceCache(r, s, s.nextRead);
    FillEffect(r, Advance(r, s), 1);
  }

  /** The wait for a non-empty cache ends at once. */
  lemma {:induction false} NeverWaits(r: Recording, s: State)
    requires Consistent(r) && Inv(r, s) && s.cur < |r.index|
    ensures 0 < |s.cache| <= r.level + 1
  {
    CacheSize(r, s.prev, s.nextRead);
  }

  // ---------------------------------------------------------------- seeking

  /** Ratios that seekTo ignores, the ratio zero, and products from one entry to the end of the index. */
  predicate Seekable(r: Recording, ratio: real, product: nat) {
    ratio < 0.0 || 1.0 < ratio || ratio == 0.0 || (1 <= product <= |r.index| + 1 && product < TWO32)
  }

  /**
    * The cursor stays inside the index or at its end exactly then. For a product below one
    * entry the number of steps wraps around to 2^32 - 1, and the cursor runs past the end.
    */
  lemma {:induction false} SeekStaysInside(r: Recording, ratio: real, product: nat)
    requires |r.index| < TWO32 - 1 && product < TWO32 && 0.0 <= ratio <= 1.0
    ensures SeekSteps(ratio, product) <= |r.index| <==> Seekable(r, ratio, product)
    ensures 0.0 < ratio && product == 0 ==> SeekSteps(ratio, product) == TWO32 - 1
  {
    if product == 0 {
      assert (product - 1) % TWO32 == TWO32 - 1;
    } else {
      SmallMod(product - 1, TWO32);
    }
  }

  lemma {:induction false} SoughtPlace(r: Recording, ratio: real, product: nat)
    requires Consistent(r) && 0.0 <= ratio <= 1.0 && Seekable(r, ratio, product)
    ensures var place := SeekSteps(ratio, product);
            && place == (if ratio == 0.0 then 0 else product - 1) && place <= |r.index|
            && Inv(r, SeekPlace(r, place)) && SeekPlace(r, place).prevPrev == |r.index|
            && SeekPlace(r, place).cur == place && SeekPlace(r, place).delay == 0
  {
    if ratio != 0.0 {
      SmallMod(product - 1, TWO32);
    }
    PlaceInv(r, SeekSteps(ratio, product), r.seekLevel);
  }

  /** What a replay at the end does: nothing, or the first entry over again. */
  lemma {:induction false} NextAtEnd(r: Recording, s: State)
    requires Consistent(r) && Inv(r, s) && s.cur == |r.index|
    ensures Inv(r, Next(r, s).next)
    ensures Next(r, s).next.cur == if r.autoRewind && r.index != [] then 1 else |r.index|
  {
    RewindInv(r, s);
    if r.autoRewind && r.index != [] {
      assert Next(r, s) == Next(r, Rewind(r, s));
      NextEffect(r, Rewind(r, s));
    }
  }

  /**
    * Seeking keeps the invariant, for every product. The next replay returns the entry the
    * product names, the one before it for the ratio 1, and the first one for the ratio 0.
    * One entry further is the end of the recording.
    */
  lemma {:induction false} SeekEffect(r: Recording, s: State, ratio: real, product: nat)
    requires Consistent(r) && Inv(r, s) && Seekable(r, ratio, product)
    ensures Inv(r, Seek(r, s, ratio, product))
    ensures var t := Seek(r, s, ratio, product);
            && (ratio < 0.0 || 1.0 < ratio ==> t == s)
            && (ratio == 0.0 ==> t.cur == 0 && t.prevPrev == |r.index| && t.delay == 0)
            && (ratio == 1.0 ==> t.cur == product - 1 && t.prevPrev == |r.index| && t.delay == 0)
            && (0.0 < ratio < 1.0 && product <= |r.index| ==>
                  t.cur == product && t.prevPrev != |r.index| && t.delay == 0)
            && (0.0 < ratio < 1.0 && product > |r.index| ==>
                  t.cur == if r.autoRewind && r.index != [] then 1 else |r.index|)
  {
    if 0.0 <= ratio <= 1.0 {
      SoughtPlace(r, ratio, product);
      var t := SeekPlace(r, SeekSteps(ratio, product));
      if 0.0 < ratio < 1.0 {
        if product <= |r.index| { NextEffect(r, t); } else { NextAtEnd(r, t); }
      }
    }
  }
}
