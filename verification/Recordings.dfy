/** Recordings: envelopes in a file, and the index that orders them by sample time. */
module Recordings {
  import opened Bytes

  datatype TimeStamp = TimeStamp(seconds: int, microseconds: int)

  datatype Envelope = Envelope(
    dataType: int, serializedData: bytes,
    sent: TimeStamp, received: TimeStamp, sampleTimeStamp: TimeStamp, senderStamp: nat)

  /** What a default-constructed envelope holds. */
  const BLANK := Envelope(0, [], TimeStamp(0, 0), TimeStamp(0, 0), TimeStamp(0, 0), 0)

  function ToMicroseconds(t: TimeStamp): (us: int) {
    t.seconds * 1000000 + t.microseconds
  }

  datatype IndexEntry = IndexEntry(time: int, pos: nat)

  /** An envelope and where it starts in the file. */
  datatype Located = Located(pos: nat, envelope: Envelope)

  function EntryOf(l: Located): (e: IndexEntry) {
    IndexEntry(ToMicroseconds(l.envelope.sampleTimeStamp), l.pos)
  }

  /** By time, and for equal times by place in the file. */
  predicate Before(a: IndexEntry, b: IndexEntry) {
    a.time < b.time || (a.time == b.time && a.pos < b.pos)
  }

  ghost predicate Ordered(index: seq<IndexEntry>) {
    forall i, j :: 0 <= i < j < |index| ==> Before(index[i], index[j])
  }

  // ---------------------------------------------------------------- building the index

  /** multimap::emplace: behind all entries that are not later. */
  function Insert(index: seq<IndexEntry>, e: IndexEntry): (r: seq<IndexEntry>)
    ensures |r| == |index| + 1
  {
    if index == [] || index[|index| - 1].time <= e.time then index + [e]
    else Insert(index[..|index| - 1], e) + [index[|index| - 1]]
  }

  function BuildIndex(scan: seq<Located>): (index: seq<IndexEntry>)
    ensures |index| == |scan|
  {
    if scan == [] then []
    else Insert(BuildIndex(scan[..|scan| - 1]), EntryOf(scan[|scan| - 1]))
  }

  /** Reading a file front to back meets its envelopes at increasing positions. */
  ghost predicate InFileOrder(scan: seq<Located>) {
    forall i, j :: 0 <= i < j < |scan| ==> scan[i].pos < scan[j].pos
  }

  lemma {:induction false} InsertElements(index: seq<IndexEntry>, e: IndexEntry)
    ensures multiset(Insert(index, e)) == multiset(index) + multiset{e}
  {
    if index == [] || index[|index| - 1].time <= e.time {
    } else {
      var front, last := index[..|index| - 1], index[|index| - 1];
      InsertElements(front, e);
      assert index == front + [last];
    }
  }

  lemma {:induction false} InsertMember(index: seq<IndexEntry>, e: IndexEntry, x: IndexEntry)
    ensures x in Insert(index, e) <==> x == e || x in index
  {
    InsertElements(index, e);
    assert x in Insert(index, e) <==> x in multiset(Insert(index, e));
    assert x in index <==> x in multiset(index);
  }

  lemma {:induction false} OrderedSnoc(index: seq<IndexEntry>, last: IndexEntry)
    requires Ordered(index) && forall x :: x in index ==> Before(x, last)
    ensures Ordered(index + [last])
  {
  }

  /** Inserting an entry from further back in the file keeps the order. */
  lemma {:induction false} InsertOrdered(index: seq<IndexEntry>, e: IndexEntry)
    requires Ordered(index) && forall x :: x in index ==> x.pos < e.pos
    ensures Ordered(Insert(index, e))
  {
    if index == [] {
    } else if index[|index| - 1].time <= e.time {
      forall x | x in index ensures Before(x, e) {
        var i :| 0 <= i < |index| && index[i] == x;
      }
      OrderedSnoc(index, e);
    } else {
      var front, last := index[..|index| - 1], index[|index| - 1];
      InsertOrdered(front, e);
      forall x | x in Insert(front, e) ensures Before(x, last) {
        InsertMember(front, e, x);
        if x in front {
          var i :| 0 <= i < |front| && front[i] == x;
          assert index[i] == x;
        }
      }
      OrderedSnoc(Insert(front, e), last);
    }
  }

  lemma {:induction false} BuildMember(scan: seq<Located>, x: IndexEntry)
    ensures x in BuildIndex(scan) <==> exists i :: 0 <= i < |scan| && EntryOf(scan[i]) == x
  {
    if scan != [] {
      var front, last := scan[..|scan| - 1], scan[|scan| - 1];
      BuildMember(front, x);
      InsertMember(BuildIndex(front), EntryOf(last), x);
      assert forall i :: 0 <= i < |front| ==> front[i] == scan[i];
    }
  }

  /** The index holds every envelope of the file, by time and otherwise as recorded. */
  lemma {:induction false} IndexOrdered(scan: seq<Located>)
    requires InFileOrder(scan)
    ensures Ordered(BuildIndex(scan))
  {
    if scan != [] {
      var n := |scan| - 1;
      var front := scan[..n];
      IndexOrdered(front);
      forall x | x in BuildIndex(front) ensures x.pos < scan[n].pos {
        BuildMember(front, x);
        var i :| 0 <= i < |front| && EntryOf(front[i]) == x;
        assert front[i] == scan[i];
      }
      InsertOrdered(BuildIndex(front), EntryOf(scan[n]));
    }
  }

  // ---------------------------------------------------------------- recordings

  /**
    * What a player works on: the index, what extractEnvelope reads at a position, the
    * cache level the player aims at, the part of it that a seek reads, and its mode. Only a
    * file that could be opened has entries.
    */
  datatype Recording = Recording(
    index: seq<IndexEntry>, file: map<nat, Envelope>, level: nat, seekLevel: nat, autoRewind: bool, valid: bool)

  const MIN_ENTRIES_FOR_LOOK_AHEAD: nat := 5000

  ghost predicate Consistent(r: Recording) {
    && Ordered(r.index)
    && (forall i :: 0 <= i < |r.index| ==> r.index[i].pos in r.file)
    && (forall i, j :: 0 <= i < j < |r.index| ==> r.index[i].pos != r.index[j].pos)
    && (r.index != [] ==> r.valid && r.level >= MIN_ENTRIES_FOR_LOOK_AHEAD && 1 <= r.seekLevel <= r.level)
  }

  /** Reading the file again at the i-th entry of the index. */
  function Fresh(r: Recording, i: nat): (e: Envelope)
    requires i < |r.index|
  {
    if r.index[i].pos in r.file then r.file[r.index[i].pos] else BLANK
  }

  /** The level asked for: an estimate from the recording's density, but never below a minimum. */
  function CacheLevel(estimate: nat): (n: nat)
    ensures n >= 5000 && n >= estimate && (n == 5000 || n == estimate)
  {
    if estimate > MIN_ENTRIES_FOR_LOOK_AHEAD then estimate else MIN_ENTRIES_FOR_LOOK_AHEAD
  }

  function FileOf(scan: seq<Located>): (file: map<nat, Envelope>) {
    if scan == [] then map[]
    else FileOf(scan[..|scan| - 1])[scan[|scan| - 1].pos := scan[|scan| - 1].envelope]
  }

  /** Three tenths of a level, in single precision: something between one and the level. */
  predicate IsPartOf(seekLevel: nat, level: nat) {
    1 <= seekLevel <= level
  }

  function RecordingOf(scan: seq<Located>, estimate: nat, seekLevel: nat, autoRewind: bool, valid: bool): (r: Recording) {
    Recording(BuildIndex(scan), FileOf(scan), if scan == [] then 0 else CacheLevel(estimate), seekLevel, autoRewind, valid)
  }

  lemma {:induction false} FileAt(scan: seq<Located>, i: nat)
    requires InFileOrder(scan) && i < |scan|
    ensures scan[i].pos in FileOf(scan) && FileOf(scan)[scan[i].pos] == scan[i].envelope
  {
    var n := |scan| - 1;
    if i < n {
      assert scan[..n][i] == scan[i];
      FileAt(scan[..n], i);
    }
  }

  lemma {:induction false} ScanConsistent(scan: seq<Located>, estimate: nat, seekLevel: nat, autoRewind: bool, valid: bool)
    requires InFileOrder(scan) && (scan != [] ==> valid) && IsPartOf(seekLevel, CacheLevel(estimate))
    ensures Consistent(RecordingOf(scan, estimate, seekLevel, autoRewind, valid))
  {
    var r := RecordingOf(scan, estimate, seekLevel, autoRewind, valid);
    IndexOrdered(scan);
    forall i | 0 <= i < |r.index| ensures r.index[i].pos in r.file {
      BuildMember(scan, r.index[i]);
      var j :| 0 <= j < |scan| && EntryOf(scan[j]) == r.index[i];
      FileAt(scan, j);
    }
    forall i, j | 0 <= i < j < |r.index| ensures r.index[i].pos != r.index[j].pos {
      BuildMember(scan, r.index[i]);
      BuildMember(scan, r.index[j]);
      SamePlaceSameEntry(scan, r.index[i], r.index[j]);
    }
  }

  lemma {:induction false} SamePlaceSameEntry(scan: seq<Located>, a: IndexEntry, b: IndexEntry)
    requires InFileOrder(scan) && Before(a, b)
    requires exists i :: 0 <= i < |scan| && EntryOf(scan[i]) == a
    requires exists i :: 0 <= i < |scan| && EntryOf(scan[i]) == b
    ensures a.pos != b.pos
  {
    var i :| 0 <= i < |scan| && EntryOf(scan[i]) == a;
    var j :| 0 <= j < |scan| && EntryOf(scan[j]) == b;
    assert i != j;
  }

  // ---------------------------------------------------------------- what the index means

  /** A time stamp as it should be: microseconds are less than a second. */
  predicate Normal(t: TimeStamp) {
    0 <= t.microseconds < 1000000
  }

  predicate Earlier(a: TimeStamp, b: TimeStamp) {
    a.seconds < b.seconds || (a.seconds == b.seconds && a.microseconds < b.microseconds)
  }

  /** Which of the scanned envelopes an entry of the index stands for. */
  lemma {:induction false} EntrySource(scan: seq<Located>, estimate: nat, seekLevel: nat, autoRewind: bool, valid: bool, i: nat) returns (k: nat)
    requires InFileOrder(scan)
    requires i < |scan|
    ensures var r := RecordingOf(scan, estimate, seekLevel, autoRewind, valid);
            && k < |scan| && r.index[i].pos == scan[k].pos && Fresh(r, i) == scan[k].envelope
            && var t := scan[k].envelope.sampleTimeStamp; r.index[i].time == 1000000 * t.seconds + t.microseconds
  {
    var r := RecordingOf(scan, estimate, seekLevel, autoRewind, valid);
    BuildMember(scan, r.index[i]);
    k :| k < |scan| && EntryOf(scan[k]) == r.index[i];
    FileAt(scan, k);
  }

  /** Two entries of the index in order: by their envelopes' sample time stamps, then by position. */
  predicate InTime(r: Recording, i: nat, j: nat)
    requires i < |r.index| && j < |r.index|
  {
    var a, b := Fresh(r, i).sampleTimeStamp, Fresh(r, j).sampleTimeStamp;
    Earlier(a, b) || (a == b && r.index[i].pos < r.index[j].pos)
  }

  /**
    * A recording is replayed by the sample time stamps of its envelopes, and as recorded where
    * these are equal. The times in the index differ as the stamps do, in microseconds.
    */
  lemma {:induction false} OrderedBySampleTime(
      scan: seq<Located>, estimate: nat, seekLevel: nat, autoRewind: bool, valid: bool, i: nat, j: nat)
    requires InFileOrder(scan) && i < j < |scan|
    requires forall l :: l in scan ==> Normal(l.envelope.sampleTimeStamp)
    ensures var r := RecordingOf(scan, estimate, seekLevel, autoRewind, valid);
            var a, b := Fresh(r, i).sampleTimeStamp, Fresh(r, j).sampleTimeStamp;
            && InTime(r, i, j)
            && r.index[j].time - r.index[i].time
            == 1000000 * (b.seconds - a.seconds) + (b.microseconds - a.microseconds)
  {
    var k := EntrySource(scan, estimate, seekLevel, autoRewind, valid, i);
    var l := EntrySource(scan, estimate, seekLevel, autoRewind, valid, j);
    assert scan[k] in scan && scan[l] in scan;
    IndexOrdered(scan);
    assert Before(BuildIndex(scan)[i], BuildIndex(scan)[j]);
  }

  /** What an entry of the index finds in a file. */
  function Found(file: map<nat, Envelope>, e: IndexEntry): (l: Located) {
    Located(e.pos, if e.pos in file then file[e.pos] else BLANK)
  }

  function AllFound(file: map<nat, Envelope>, index: seq<IndexEntry>): (s: seq<Located>)
    ensures |s| == |index|
  {
    seq(|index|, i requires 0 <= i < |index| => Found(file, index[i]))
  }

  lemma {:induction false} FoundSnoc(file: map<nat, Envelope>, index: seq<IndexEntry>, e: IndexEntry)
    ensures AllFound(file, index + [e]) == AllFound(file, index) + [Found(file, e)]
  {
  }

  lemma {:induction false} InsertFound(file: map<nat, Envelope>, index: seq<IndexEntry>, e: IndexEntry)
    ensures multiset(AllFound(file, Insert(index, e))) == multiset(AllFound(file, index)) + multiset{Found(file, e)}
  {
    if index == [] || index[|index| - 1].time <= e.time {
      FoundSnoc(file, index, e);
    } else {
      var front, last := index[..|index| - 1], index[|index| - 1];
      InsertFound(file, front, e);
      FoundSnoc(file, Insert(front, e), last);
      FoundSnoc(file, front, last);
      assert index == front + [last];
    }
  }

  lemma {:induction false} BuildFound(file: map<nat, Envelope>, scan: seq<Located>)
    requires forall i :: 0 <= i < |scan| ==> scan[i].pos in file && file[scan[i].pos] == scan[i].envelope
    ensures multiset(AllFound(file, BuildIndex(scan))) == multiset(scan)
  {
    if scan != [] {
      var n := |scan| - 1;
      BuildFound(file, scan[..n]);
      InsertFound(file, BuildIndex(scan[..n]), EntryOf(scan[n]));
      assert Found(file, EntryOf(scan[n])) == scan[n];
      assert scan == scan[..n] + [scan[n]];
    }
  }

  /** Reading the file along the index gives every scanned envelope, once, at its own position. */
  lemma {:induction false} IndexComplete(scan: seq<Located>, estimate: nat, seekLevel: nat, autoRewind: bool, valid: bool)
    requires InFileOrder(scan)
    ensures var r := RecordingOf(scan, estimate, seekLevel, autoRewind, valid);
            var read := seq(|r.index|, i requires 0 <= i < |r.index| => Located(r.index[i].pos, Fresh(r, i)));
            multiset(read) == multiset(scan)
  {
    var r := RecordingOf(scan, estimate, seekLevel, autoRewind, valid);
    var read := seq(|r.index|, i requires 0 <= i < |r.index| => Located(r.index[i].pos, Fresh(r, i)));
    forall i | 0 <= i < |scan| ensures scan[i].pos in r.file && r.file[scan[i].pos] == scan[i].envelope {
      FileAt(scan, i);
    }
    BuildFound(r.file, scan);
    assert read == AllFound(r.file, r.index);
  }
}
