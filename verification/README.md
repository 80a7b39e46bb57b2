# libcluon in Dafny

libcluon moves messages between microservices. It describes them in a small message
specification language, encodes them as Protocol Buffers, MessagePack, LCM or JSON, records them
in files, and replays such files in the order of their sample time stamps. This project models
the parts of it in which much has to fit together, and proves what they promise:

* **Replaying a recording.** The `Player` keeps four cursors into a time-sorted index and a cache
  keyed by file position. `Recordings` builds the index, `Replay` is the state machine with its
  joint invariant, `ReplayRuns` compares whole runs with a player that has no cache, `Player` is
  the class itself, step by step, `ThreadedReplay` interleaves callers with the thread that fills
  the cache, and `ReplayWaits` says when waiting for that thread is enough.
* **Wire formats.** `VarInts`, `Proto` and `ProtoMessages` are the Protocol Buffers visitors;
  `MsgPack`, `MsgPackRoundTrip`, `MsgPackWeights`, `MsgPackLimits`, `MsgPackDecoder` and
  `MsgPackMessages` the MessagePack ones; `LcmHash`, `LcmFingerprint` and `LcmMessages` the LCM ones, with messages of
  the test suite in `LcmVectors`; `Base64` is what the JSON visitors use for strings. Besides the
  laws that relate encoders and decoders, the bytes on the wire are stated as such. `Bytes`, `Streams` and `Messages` are their vocabulary.
* **Specifications.** `Schema` is the pass that rejects duplicate declarations and the numbering
  of fields, `GenericMessages` creates messages from specifications at run time, and
  `Transcoding` puts everything together: from an accepted declaration to a message that survives
  any chain of formats.

Encoders, decoders and the player are modelled as classes and methods with loops where the source
works by changing state; each is proved against a function on values, and the theorems are about
these functions. Integers have the width of the source where it matters, and conversions wrap
around as they do there. Characters are signed, shifts of negative numbers are arithmetic.
`dafny verify dfyconfig.toml` checks the whole project.

## Where the code differs from what it promises

The model follows the code. In these places the expected law does not hold of it; the exact
condition under which it does is proved.

* MessagePack strings of 31 bytes and maps of 15 pairs are written with the markers 0xBF and 0x8F,
  which the MessagePack specification assigns to them. The decoder compares markers with exactly
  these two constants as exclusive bounds (`libcluon/include/cluon/MsgPackConstants.hpp:31`, `:36`)
  and rejects them: `MsgPackLimits.ReadsBackIffClean`, `MsgPackLimits.ThirtyOneBytesAreLost`,
  `MsgPackLimits.FifteenPairsAreLost`.
* With a filling thread, the wait before a replay tests that the cache is not empty, but the entry
  replayed before is still in it. A replay can outrun the filling thread and returns a blank
  envelope then: `ReplayWaits.WaitNeverWaits`, `ThreadedReplay.FaithfulIffReady`,
  `ReplayWaits.WaitSufficesIffAllCached`, `ReplayWaits.WaitSufficesIffSeekReadsAll`.
* A seek whose ratio is above zero but whose product with the number of entries is cut off to
  zero moves the cursor 2^32 - 1 times: `Replay.SeekStaysInside`.
* Field numbers are shifted in 32 bits, so that they survive below 2^29 only, and fields with
  larger ones are not decoded: `Proto.KeyRoundTrip`, `ProtoMessages.ReadsBackIffIdsFit`.
* MessagePack maps nested in others are cut off at their size modulo 2^32:
  `MsgPackLimits.ReadsBackIffClean`.
* The LCM encoder mixes all characters of a name into the fingerprint, the decoder the first 255:
  `LcmFingerprint.AgreementIffShortNames`, `LcmFingerprint.LongNamesDisagree`. LCM strings of
  2^31 - 1 bytes and more are not read back: `LcmMessages.FieldsReadBackIff`.
* Messages that contain themselves, directly or through others, pass the uniqueness pass, but
  creating a generic message from them never ends: `GenericMessages.EndsIffNoCycle`.
* The uniqueness pass looks at the first identifier of a field and does not see the numbers given
  to fields without one, while numbering uses the last identifier: `Schema.DistinctIffNoClash`,
  `Schema.AcceptedButClashing`.

## Model

| member | source | states |
|---|---|---|
| `Recordings.OrderedBySampleTime` | libcluon/src/Player.cpp:99-117 | along the index the envelopes' sample time stamps, seconds before microseconds, never fall, and where they are equal the file positions rise; times in the index differ as the stamps do, in microseconds |
| `Recordings.IndexComplete` | libcluon/src/Player.cpp:99-117 | reading the file along the index gives every scanned envelope exactly once, at its own position |
| `Recordings.CacheLevel` | libcluon/src/Player.cpp:157-160 | the level is the larger of the estimate and 5000 |
| `Recordings.ScanConsistent` | libcluon/src/Player.cpp:83-127 | indexed positions are distinct and can be read again, so a scanned file is a recording the player's invariant can be established on |
| `Replay.CacheMember` | libcluon/src/Player.cpp:170-197 | an entry is cached exactly when it lies between the two cursors, and its cached value is what reading the file again gives |
| `Replay.CacheKeys` | libcluon/src/Player.cpp:170-197 | the cached positions are those of the entries between the cursors and no others |
| `Replay.FillEffect` | libcluon/src/Player.cpp:170-197 | filling moves the read-ahead cursor by the number asked for or to the end, extends the cache by exactly these entries, and changes nothing else |
| `Replay.InitialInv` | libcluon/src/Player.cpp:32-62 | a new player satisfies the joint invariant of cursors and cache |
| `Replay.RewindInv` | libcluon/src/Player.cpp:148-168 | rewinding re-establishes the invariant at the first entry with delay 0, and does nothing to an empty recording |
| `Replay.NextEffect` | libcluon/src/Player.cpp:212-248 | a replay returns the current entry as a fresh read would, keeps the invariant, moves on by one entry, and stores the gap to the entry before |
| `Replay.NeverWaits` | libcluon/src/Player.cpp:252-266 | without threads the cache is never empty when an entry is due, and never holds more than the level plus one |
| `Replay.SeekStaysInside` | libcluon/src/Player.cpp:318-327 | for every product of ratio and number of entries that single precision may yield: the seek loop stays inside the index or at its end if and only if the ratio is 0 or the product is at least 1 and at most one more than the number of entries; a product of 0 wraps around to 2^32 - 1 steps |
| `Replay.SeekEffect` | libcluon/src/Player.cpp:297-350 | for every product up to the end of the index, whatever its rounding: seeking keeps the invariant; the next entry is the one the product names, the one before it for ratio 1, the first one for ratio 0; ratios below 0 or above 1 change nothing |
| `ReplayRuns.StepRefines` | libcluon/src/Player.cpp:129-350 | every operation does to the caching player what the corresponding one does to a player without cache, and keeps the invariant |
| `ReplayRuns.RunRefines` | libcluon/src/Player.cpp:129-350 | over every sequence of replays, rewinds and seeks the caching player shows the same envelopes, results and delays as a player that reads the index in order, and the invariant holds afterwards |
| `ReplayRuns.HasMoreDataMeaning` | libcluon/src/Player.cpp:352-362 | a replay succeeds exactly when more data is announced and the recording is not empty |
| `ReplayRuns.AutoRewindLoops` | libcluon/src/Player.cpp:199-250 | with auto-rewind call number j returns entry j modulo n, for ever |
| `ReplayRuns.SinglePass` | libcluon/src/Player.cpp:199-250 | without auto-rewind exactly the first n calls succeed, in index order |
| `ReplayRuns.DelaysAddUp` | libcluon/src/Player.cpp:222-233 | the first delay of a pass is 0 and, while gaps fit into 32 bits, the first k delays add up to the time between entry 0 and entry k - 1, for every k |
| `Player.Player.constructor` | libcluon/src/Player.cpp:32-62 | indexes the scanned envelopes by their sample time stamps and starts in the state machine's initial state, with the invariant |
| `Player.Player.FillEnvelopeCache` | libcluon/src/Player.cpp:170-197 | the loop computes the state machine's fill step and counts the entries read |
| `Player.Player.CheckAvailability` | libcluon/src/Player.cpp:252-266 | the wait ends at once with a bounded, non-empty cache |
| `Player.Player.CopyAndAdvance` | libcluon/src/Player.cpp:217-236 | the locked part copies the current entry, forgets the entry before last and moves the cursors |
| `Player.Player.ReplayCurrent` | libcluon/src/Player.cpp:212-248 | waits, copies the current entry as a fresh read would return it, reads one more, and keeps the invariant |
| `Player.Player.GetNextEnvelopeToBeReplayed` | libcluon/src/Player.cpp:199-250 | returns the entry at the cursor, or the first one after an auto-rewind, exactly when there is one, and keeps the invariant |
| `Player.Player.RewindToStart` | libcluon/src/Player.cpp:281-295 | computes the state machine's rewind and keeps the invariant |
| `Player.Player.SeekTo` | libcluon/src/Player.cpp:297-350 | computes the state machine's seek for any product, ends at the place it names, and keeps the invariant |
| `Player.Player.FastForward` | libcluon/src/Player.cpp:318-327 | the loop moves the cursor and the counter together, one step less than the product, in 32 bits |
| `Player.Player.HasMoreData` | libcluon/src/Player.cpp:352-362 | announces data exactly when the next replay delivers, except for an empty recording |
| `Player.Player.Delay` | libcluon/src/Player.cpp:275-279 | reports the stored delay up to 1000000 microseconds, and 1000000 above |
| `ThreadedReplay.AddKeepsInv` | libcluon/src/Player.cpp:176-193 | adding an entry under the lock keeps the invariant although the cursor has not been moved yet |
| `ThreadedReplay.ReadyPlay` | libcluon/src/Player.cpp:215-236 | a replay of an entry that has been added returns it as a fresh read would and keeps the invariant, also between the two halves of a fill step |
| `ThreadedReplay.UnreadyPlay` | libcluon/src/Player.cpp:215-236 | a replay of an entry that has not been added returns a default-constructed envelope |
| `ThreadedReplay.SeekThreaded` | libcluon/src/Player.cpp:297-350 | a seek by a player with threads ends where that of the player without cache ends, with the invariant |
| `ThreadedReplay.ReadyRunsAreFaithful` | libcluon/src/Player.cpp:170-433 | for every interleaving in which replays find their entry added, callers see what the player without cache shows, and the invariant holds at the end |
| `ThreadedReplay.FaithfulIffReady` | libcluon/src/Player.cpp:170-433 | a run from the start shows what the player without cache shows if and only if every replay finds its entry added |
| `ThreadedReplay.AnyPlay` | libcluon/src/Player.cpp:215-236 | whenever a replay happens, also after others have outrun the filling thread: it returns the entry if that has been added and a default-constructed envelope if not, and moves cursors and delay as the player without cache does |
| `ThreadedReplay.EveryRunIsAsExpected` | libcluon/src/Player.cpp:170-433 | for every interleaving whatsoever the outputs are those of the player without cache, with a default-constructed envelope exactly where a replay came too early |
| `ThreadedReplay.PassInOrder` | libcluon/src/Player.cpp:199-250 | in a pass the outputs, one for each replay, are the index in order, nothing lost, repeated or made up |
| `ReplayWaits.WaitNeverWaits` | libcluon/src/Player.cpp:252-266 | the wait lets a replay through exactly when some replay has happened since the last start or the entry has been added |
| `ReplayWaits.WaitSufficesIffAllCached` | libcluon/src/Player.cpp:252-266 | the wait keeps every run without seeks in order if and only if the whole recording fits into the initial cache, as it does up to 5000 entries |
| `ReplayWaits.WaitSufficesIffSeekReadsAll` | libcluon/src/Player.cpp:252-350 | with seeks the same holds if and only if the recording fits into the part of the cache that a seek reads |
| `VarInts.ToVarInt` | libcluon/src/ToProtoVisitor.cpp:204-220 | the loop writes the base 128 form and returns its length |
| `VarInts.ReadVarInt` | libcluon/src/FromProtoVisitor.cpp:307-326 | the loop computes value, size and remaining stream of the decoding function, on every stream |
| `VarInts.VarIntRoundTrip` | libcluon/src/FromProtoVisitor.cpp:307-326 | every 64-bit value comes back in front of any suffix, both sides counting the same bytes |
| `VarInts.VarIntDigit` | libcluon/src/ToProtoVisitor.cpp:204-220 | byte i holds the seven bits from 7i on, and exactly the bytes before the last are marked |
| `VarInts.VarIntPrefixFree` | libcluon/src/ToProtoVisitor.cpp:204-220 | no encoding is a prefix of another one |
| `VarInts.VarIntSize` | libcluon/src/ToProtoVisitor.cpp:204-220 | k bytes are enough if and only if the value is below 128^k |
| `VarInts.VarIntSizeBounds` | libcluon/src/ToProtoVisitor.cpp:204-220 | a 64-bit value takes 1 to 10 bytes |
| `VarInts.VarIntShortest` | libcluon/src/FromProtoVisitor.cpp:307-326 | whatever bytes a value is decoded from, the encoder would not use more |
| `VarInts.VarIntAtEnd` | libcluon/src/FromProtoVisitor.cpp:316-323 | reading at the end of the input gives 0x7f, a key with the unassigned wire type 7, and ends the stream |
| `VarInts.ZigZagRoundTrip` | libcluon/src/ToProtoVisitor.cpp:184-198 | ZigZag numbers signed values alternately, and decoding gives every value back, at each width |
| `VarInts.ZigZagInverse` | libcluon/src/FromProtoVisitor.cpp:291-305 | every unsigned value is the ZigZag of its decoding, so the mapping is a bijection at each width |
| `VarInts.SignedVarIntSize` | libcluon/src/ToProtoVisitor.cpp:119-153 | a signed value takes at most k bytes if and only if it lies in [-2^(7k-1), 2^(7k-1)) |
| `Proto.KeyRoundTrip` | libcluon/src/ToProtoVisitor.cpp:200-202 | a key gives back its wire type always and its identifier if and only if that is below 2^29 |
| `Proto.DecodesNumber` | libcluon/src/FromProtoVisitor.cpp:35-80 | behind a key byte 8 * id a varint is read and filed under id, unless id is taken |
| `Proto.DecodesEight` | libcluon/src/FromProtoVisitor.cpp:35-80 | behind a key byte 8 * id + 1 eight bytes are read, least significant first |
| `Proto.DecodesChunk` | libcluon/src/FromProtoVisitor.cpp:35-80 | behind a key byte 8 * id + 2 a length and as many bytes are read |
| `Proto.DecodesFour` | libcluon/src/FromProtoVisitor.cpp:35-80 | behind a key byte 8 * id + 5 four bytes are read, least significant first |
| `Proto.PayloadRoundTrip` | libcluon/src/FromProtoVisitor.cpp:35-80 | every payload is read back by its wire type in front of any suffix |
| `Proto.RecordStreamRoundTrip` | libcluon/src/FromProtoVisitor.cpp:35-89 | decoding any concatenation of encoded records gives the map of first occurrences |
| `Proto.FirstOccurrencesMeaning` | libcluon/src/FromProtoVisitor.cpp:35-89 | that map holds exactly the identifiers that occur, each with the value of its first record |
| `Proto.DecodeAtEnd` | libcluon/src/FromProtoVisitor.cpp:35-89 | the extra key read at the end of the input adds no entry |
| `Proto.ChunksMakeOneSlice` | libcluon/src/FromProtoVisitor.cpp:17-33 | reading in chunks of 1024 bytes equals reading one slice, also when the stream ends early |
| `Proto.ReadBytesFromStream` | libcluon/src/FromProtoVisitor.cpp:17-33 | the chunk loop returns the next n bytes and leaves the stream behind them |
| `Proto.DecodeFrom` | libcluon/src/FromProtoVisitor.cpp:35-89 | the decoding loop computes the map of the decoding function on every stream, and ends |
| `ProtoMessages.RoundTrip` | libcluon/src/FromProtoVisitor.cpp:99-287 | decoding an encoded message into any message of its type makes the two equal, nested messages included |
| `ProtoMessages.RecordKey` | libcluon/src/ToProtoVisitor.cpp:28-113 | a record starts with 8 * id plus 5 for float, 1 for double, 2 for text and nested messages, 0 otherwise; in one byte below 16 |
| `ProtoMessages.PayloadBytes` | libcluon/src/ToProtoVisitor.cpp:115-182 | what follows the key: varints of the value itself, of 2i or -2i - 1 for signed ones, bit patterns least significant byte first, and lengths before texts and messages |
| `ProtoMessages.NumberAssigned` | libcluon/src/FromProtoVisitor.cpp:99-245 | any received number but zero is true, and integer fields keep its low bits, signed ones after ZigZag |
| `ProtoMessages.LargeIdKeepsReceiver` | libcluon/src/ToProtoVisitor.cpp:200-202 | a field with an identifier from 2^29 on keeps what the receiver holds |
| `ProtoMessages.ReadsBackIffIdsFit` | libcluon/src/FromProtoVisitor.cpp:35-287 | a valid message with distinct identifiers is decoded into every receiver of its type if and only if all identifiers, at any depth, are below 2^29 |
| `ProtoMessages.DecodedMap` | libcluon/src/FromProtoVisitor.cpp:35-89 | with distinct identifiers below 2^29 the decoder holds every field's own value |
| `ProtoMessages.ToProtoVisitor.Accept` | libcluon/src/ToProtoVisitor.cpp:28-182 | visiting a message appends its encoding to the buffer |
| `ProtoMessages.FromProtoVisitor.Accept` | libcluon/src/FromProtoVisitor.cpp:99-287 | visiting a message with a decoder gives every field the decoded value, if its kind fits |
| `MsgPackRoundTrip.UintRoundTrip` | libcluon/src/ToMsgPackVisitor.cpp:66-94 | every 64-bit unsigned value comes back from the form chosen for it, in front of any suffix |
| `MsgPackRoundTrip.IntRoundTrip` | libcluon/src/ToMsgPackVisitor.cpp:96-124 | every negative 64-bit value comes back from the form chosen for it, in front of any suffix |
| `MsgPackRoundTrip.MapRoundTrip` | libcluon/src/FromMsgPackVisitor.cpp:179-256 | every clean nested map comes back pair by pair in front of any suffix, and exactly the suffix is left |
| `MsgPackLimits.ReadsBackIffClean` | libcluon/src/FromMsgPackVisitor.cpp:28-256 | for every tree of named values and every suffix: the map comes back if and only if no string has 31 bytes, no map has 15 pairs, lengths and sizes fit into 32 bits, and no nested map takes 4 GiB |
| `MsgPackLimits.MapEncodingWeight` | libcluon/src/ToMsgPackVisitor.cpp:22-124 | what the encoder writes is never heavier than the lightest form the decoder could read, and lighter as soon as any part, at any depth, is one of these |
| `MsgPackWeights.MapReadWeight` | libcluon/src/FromMsgPackVisitor.cpp:179-256 | whatever bytes the decoder reads a map from, clean or not, they weigh at least as much as what it returns |
| `MsgPackLimits.ThirtyOneBytesAreLost` | libcluon/src/FromMsgPackVisitor.cpp:138-177 | 31 bytes are read as an unknown value or an empty string, and the bytes as what follows |
| `MsgPackLimits.FifteenPairsAreLost` | libcluon/src/FromMsgPackVisitor.cpp:179-200 | the marker of 15 pairs is skipped and the search for a map goes on inside them |
| `MsgPack.ReadMap` | libcluon/src/FromMsgPackVisitor.cpp:179-256 | reading ends on every byte sequence: no recursive call leaves more bytes than it was given, although markers are put back |
| `MsgPackDecoder.ReadUintFrom` | libcluon/src/FromMsgPackVisitor.cpp:78-106 | computes value and remaining stream of the decoding function |
| `MsgPackDecoder.ReadIntFrom` | libcluon/src/FromMsgPackVisitor.cpp:108-136 | computes value and remaining stream of the decoding function |
| `MsgPackDecoder.ReadStringFrom` | libcluon/src/FromMsgPackVisitor.cpp:138-177 | computes string and remaining stream of the decoding function |
| `MsgPackDecoder.ReadKeyValues` | libcluon/src/FromMsgPackVisitor.cpp:179-256 | the mutually recursive loops end on every stream with the map of the decoding function, where later pairs replace earlier ones |
| `MsgPackMessages.UintBytes` | libcluon/src/ToMsgPackVisitor.cpp:66-94 | unsigned numbers from 128 on take the markers 0xCC to 0xCF and 1, 2, 4 or 8 bytes, most significant first |
| `MsgPackMessages.IntBytes` | libcluon/src/ToMsgPackVisitor.cpp:96-124 | negative numbers take one byte above -32 and otherwise the markers 0xD0 to 0xD3 and a two's complement |
| `MsgPackMessages.StringBytes` | libcluon/src/ToMsgPackVisitor.cpp:42-64 | strings take the markers 0xA0 + n, 0xD9, 0xDA or 0xDB by their length, and then their bytes |
| `MsgPackMessages.MapBytes` | libcluon/src/ToMsgPackVisitor.cpp:22-40 | messages take the markers 0x80 + n, 0xDE or 0xDF by their number of fields, and then the pairs |
| `MsgPackMessages.ValueBytes` | libcluon/src/ToMsgPackVisitor.cpp:137-264 | true and false are 0xC3 and 0xC2, floats follow 0xCA and doubles 0xCB, a character is a string of one byte, integers are unsigned unless negative |
| `MsgPackMessages.MarkedValue` | libcluon/src/FromMsgPackVisitor.cpp:179-256 | what the decoder makes of each of these markers and the bytes behind it |
| `MsgPackMessages.MarkedInteger` | libcluon/src/FromMsgPackVisitor.cpp:108-136 | the same for the markers of negative numbers |
| `MsgPackMessages.NumberAssigned` | libcluon/src/FromMsgPackVisitor.cpp:294-400 | integer fields keep the low bits of a received number; unsigned ones ignore the signed form |
| `MsgPackMessages.VisitRoundTrip` | libcluon/src/FromMsgPackVisitor.cpp:272-433 | every field gets its value back by name, every integer surviving the switch between signed and unsigned form |
| `MsgPackMessages.RoundTrip` | libcluon/src/FromMsgPackVisitor.cpp:258-433 | decoding an encoded message into any message of its type makes the two equal, nested messages included |
| `MsgPackMessages.ToMsgPackVisitor.Accept` | libcluon/src/ToMsgPackVisitor.cpp:126-264 | visiting a message leaves its encoding in the encoder, also in one that has been used before |
| `MsgPackMessages.FromMsgPackVisitor.Accept` | libcluon/src/FromMsgPackVisitor.cpp:272-433 | visiting a message with a decoder gives every field the decoded value, if the cast succeeds |
| `LcmHash.MixBijective` | libcluon/src/ToLCMVisitor.cpp:188-190 | for every character the mixing step is a bijection on 64-bit states |
| `LcmHash.SpreadIsExclusiveOr` | libcluon/src/ToLCMVisitor.cpp:188-190 | every bit of the shifted state is the exclusive or of the left and the arithmetic right shift |
| `LcmHash.RotateBits` | libcluon/src/ToLCMVisitor.cpp:178-186 | the final step moves every bit up by one and the highest one to the bottom |
| `LcmHash.NoCollision` | libcluon/src/ToLCMVisitor.cpp:178-197 | from any seed, streams of equal length that differ in one character never collide |
| `LcmVectors.MyTestMessage0` | libcluon/testsuites/TestMyTestMessagesToLCM.cpp:26-51 | the ten bytes of a message with a truth value and a character |
| `LcmVectors.MyTestMessage6` | libcluon/testsuites/TestMyTestMessagesToLCM.cpp:381-405 | the nine bytes of a message that nests another one |
| `LcmVectors.EmptyMessage` | libcluon/src/ToLCMVisitor.cpp:21-32 | the eight bytes of a message without fields |
| `LcmVectors.TypeNamesOnWire` | libcluon/src/ToLCMVisitor.cpp:42-174 | the type names that enter the fingerprint, in terms of those of the specification language |
| `LcmFingerprint.SameFingerprint` | libcluon/src/FromLCMVisitor.cpp:224-243 | for names of at most 255 bytes encoder and decoder agree on the fingerprint, which depends neither on values nor on identifiers nor on signedness |
| `LcmFingerprint.DecoderIsBlind` | libcluon/src/FromLCMVisitor.cpp:238-243 | the decoder's fingerprint does not depend on what names hold beyond their first 255 characters, at any depth |
| `LcmFingerprint.LongNamesDisagree` | libcluon/src/ToLCMVisitor.cpp:192-197 | of two messages that differ in one such character, at any depth, encoder and decoder disagree on at least one |
| `LcmFingerprint.AgreementIffShortNames` | libcluon/src/FromLCMVisitor.cpp:238-243 | for every message: encoder and decoder agree on it, whatever its names hold beyond 255 characters, if and only if no name at any depth has more than 255 |
| `LcmFingerprint.RenamingIsDetected` | libcluon/src/ToLCMVisitor.cpp:178-197 | changing one character of one field name, at any depth, changes the fingerprint |
| `LcmMessages.NumberBytes` | libcluon/src/ToLCMVisitor.cpp:42-160 | numbers are written as two's complements, most significant byte first, in as many bytes as their type has |
| `LcmMessages.TextBytes` | libcluon/src/ToLCMVisitor.cpp:162-174 | a string is written as its length plus one, most significant byte first, its bytes and a zero |
| `LcmMessages.ByteRead` | libcluon/src/FromLCMVisitor.cpp:65-99 | a received 1 is true and 0 false, and bytes from 128 on are negative in signed fields |
| `LcmMessages.FieldsReadBackIff` | libcluon/src/FromLCMVisitor.cpp:65-220 | for every receiver and suffix the values come back if and only if all strings are shorter than 2^31 - 1 bytes, and then exactly the encoded bytes are consumed |
| `LcmMessages.AcceptTwice` | libcluon/src/FromLCMVisitor.cpp:31-63 | a decoder fills any receiver of the type, and every further one too when the fingerprint is not zero; with fingerprint zero it reads on at the end of its payload |
| `LcmMessages.Hasher.CalculateHash` | libcluon/src/ToLCMVisitor.cpp:192-197 | the loop mixes length and characters into the state |
| `LcmMessages.Hasher.Hash` | libcluon/src/ToLCMVisitor.cpp:178-186 | adds up the hashes of nested messages and rotates; see `LcmHash.RotateBits` |
| `LcmMessages.ToLCMVisitor.Accept` | libcluon/src/ToLCMVisitor.cpp:34-174 | visiting a message appends its values and mixes its fields into the state, whatever was visited before |
| `LcmMessages.EncodeMessage` | libcluon/src/ToLCMVisitor.cpp:21-174 | a visited message is encoded as its fingerprint followed by its values |
| `LcmMessages.FromLCMVisitor.DecodeFrom` | libcluon/src/FromLCMVisitor.cpp:31-42 | takes the expected hash off the front and keeps the rest as payload |
| `LcmMessages.FromLCMVisitor.Visit` | libcluon/src/FromLCMVisitor.cpp:65-220 | takes one value off the payload and mixes name and type into the hash |
| `LcmMessages.FromLCMVisitor.Accept` | libcluon/src/FromLCMVisitor.cpp:44-63 | fills the receiver from the payload and reports a mismatch exactly when a non-zero hash was read and differs from the receiver's |
| `Base64.Alphabet` | libcluon/src/ToJSONVisitor.cpp:128-133 | the alphabet is that of section 4 of RFC 4648 |
| `Base64.Examples` | libcluon/testsuites/TestToJSONVisitor.cpp:21-25 | texts of one to four bytes |
| `Base64.RoundTrip` | libcluon/src/FromJSONVisitor.cpp:116-138 | decoding inverts encoding on every byte string |
| `Base64.ReencodesIffCanonical` | libcluon/src/FromJSONVisitor.cpp:116-138 | encoding inverts decoding on a text if and only if it is canonical |
| `Base64.EncodedLength` | libcluon/src/ToJSONVisitor.cpp:128-161 | n bytes become 4 * ceil(n / 3) characters |
| `Base64.PaddingAtEnd` | libcluon/src/ToJSONVisitor.cpp:128-161 | padding occurs in the last two places only |
| `Base64.EncodeBase64` | libcluon/src/ToJSONVisitor.cpp:128-161 | the loop computes the encoding |
| `Base64.DecodeBase64` | libcluon/src/FromJSONVisitor.cpp:116-138 | the loop with its buffer of four computes the decoding of any text |
| `Schema.FindDuplicate` | libcluon/src/MessageParser.cpp:129-137 | the search finds a value that occurs twice, and nothing exactly when all values are distinct |
| `Schema.CheckedDistinct` | libcluon/src/MessageParser.cpp:162-177 | the collected identifiers are distinct if and only if the fields that have some differ in the first one |
| `Schema.UniquenessPass.VisitMessage` | libcluon/src/MessageParser.cpp:110-161 | accepts a message if and only if its explicit field identifiers and its field names are pairwise distinct |
| `Schema.UniquenessPass.VisitSpecification` | libcluon/src/MessageParser.cpp:72-108 | accepts a specification if and only if that holds of every message and message identifiers and names are pairwise distinct |
| `Schema.CreateMetaMessage` | libcluon/src/MessageParser.cpp:188-258 | the loop describes every field by name, type and produced identifier |
| `Schema.TypesAndNames` | libcluon/src/MessageParser.cpp:226-248 | a name stands for a built-in type if and only if it is that type's name, integers being named by their width in bits, and for a message in all other cases |
| `Schema.ProducedMeaning` | libcluon/src/MessageParser.cpp:221-252 | a field gets its last identifier, or else its number among the fields that have none |
| `Schema.DistinctIffNoClash` | libcluon/src/MessageParser.cpp:188-258 | produced identifiers are distinct if and only if the given ones are and none of them is a number a field without one receives |
| `Schema.AcceptedIsDistinct` | libcluon/src/MessageParser.cpp:188-258 | in an accepted message whose fields all have one identifier, or none, produced identifiers are distinct |
| `Schema.AcceptedButClashing` | libcluon/src/MessageParser.cpp:166-176 | an accepted mixture, and an accepted field with two identifiers, produce the same identifier twice |
| `GenericMessages.GenericMessage.CreateFrom` | libcluon/src/GenericMessage.cpp:301-401 | over an acyclic scope creation ends, and leaves a tree in which visitors meet nothing but zeros |
| `GenericMessages.ScopeMeaning` | libcluon/src/GenericMessage.cpp:308-309 | the scope knows every name declared, by its last declaration |
| `GenericMessages.UnknownName` | libcluon/src/GenericMessage.cpp:308-309 | the scope knows no name that is not declared |
| `GenericMessages.EndsIffAcyclic` | libcluon/src/GenericMessage.cpp:391-398 | creation nests to a bounded depth if and only if the messages it meets can be ranked so that fields refer to lower ranks only |
| `GenericMessages.EndsIffNoCycle` | libcluon/src/GenericMessage.cpp:391-398 | creation ends if and only if no chain of references comes back to a message it has met, and then it nests no deeper than the scope has messages |
| `GenericMessages.CycleNeverEnds` | libcluon/src/GenericMessage.cpp:391-398 | no depth is enough once a cycle of any length can be reached |
| `GenericMessages.RanksDoNotMatter` | libcluon/src/GenericMessage.cpp:301-401 | what is created does not depend on how the scope is shown to be acyclic |
| `GenericMessages.CreatedDomain` | libcluon/src/GenericMessage.cpp:312-400 | values are stored for exactly the identifiers of scalar and resolvable fields |
| `GenericMessages.CreatedValue` | libcluon/src/GenericMessage.cpp:312-400 | an identifier holds the value created for the last field that has it |
| `GenericMessages.CreatedIsZero` | libcluon/src/GenericMessage.cpp:312-400 | whatever the specification, every value of a new message is false, zero or empty, at every depth |
| `GenericMessages.NewMessageShows` | libcluon/src/GenericMessage.cpp:312-400 | a field of the specification is seen in a new message if and only if it has one of the fourteen built-in types or is a message the scope knows |
| `GenericMessages.NewMessageIsInstance` | libcluon/include/cluon/GenericMessage.hpp:435-534 | a visitor of a new message meets exactly the fields its specification demands, in order, at every depth |
| `GenericMessages.FilledIsSeen` | libcluon/include/cluon/GenericMessage.hpp:435-534 | what a visitor has set through the references it was given is what the next visitor sees, at every depth |
| `Transcoding.AcceptedIsProper` | libcluon/src/MessageParser.cpp:299-316 | an accepted message becomes a specification the formats can carry if and only if its numbering does not clash and stays below 2^29 |
| `Transcoding.InstanceIsProper` | libcluon/src/GenericMessage.cpp:301-401 | messages of a specification with distinct names and distinct identifiers below 2^29 have them at every depth |
| `Transcoding.ProperIsDistinguished` | libcluon/src/MessageParser.cpp:299-316 | for messages of such specifications a format sets limits on values only |
| `Transcoding.ReceivedIsSeen` | libcluon/include/cluon/GenericMessage.hpp:38-69 | a message within the limits of a format, decoded from it into a new generic message of its specification, is seen there by the next visitor |
| `Transcoding.RelayIsIdentity` | libcluon/include/cluon/GenericMessage.hpp:139-168 | for every acyclic specification with distinct identifiers, every chain of formats and every message within the limits of the formats in it, the message arrives at the end unchanged, each hop decoding into a new generic message |
| `Transcoding.TranscodingIsIdentity` | libcluon/include/cluon/GenericMessage.hpp:139-168 | bytes of any format's encoder come out again after decoding them, relaying the message through any formats, and encoding it; only the limits of the formats used matter |

## Left out

- Sockets, sessions, shared memory, signal handling and the command line tools.
- JSON and CSV text other than Base64, which rest on regular expressions and number printing.
- The grammar of message specifications and the code generators; the model starts from declarations. Options that set default values, package names, and the white space around names are not part of it.
- The sort before the search for duplicates, and which duplicate is printed: neither decides whether a specification is accepted.
- Envelope framing in recordings: reading an envelope at an indexed position is a map from positions to envelopes, and succeeds there. The scan that fills it is a list of located envelopes.
- Decoding Protocol Buffers directly into a message while reading the stream.
- The contents that decoders invent for truncated or malformed input, beyond what the decoding functions say: missing bytes are zeros there, groups of a varint beyond the tenth byte add nothing, and an empty MessagePack string leaves a character as it is.
- Player.Player: models the player without threads; with threads it is the state machine of `ThreadedReplay`, where batches of the filling thread have any size and locks make the steps. Time, sleeping, listeners, statistics and the availability flag of index entries are not part of it.
- Player.Player.CheckAvailability: is not a loop, because the cache is proved not to be empty when it is called.
- Player.Player.SeekTo: takes the product of ratio and number of entries, cut off to 32 bits, as an argument, so that nothing depends on its rounding, and requires it to be one that stays inside the index; others run past its end, see `Replay.SeekStaysInside`. A ratio that is not a number behaves like 0 and has no value of its own.
- Player.Player.constructor: takes the part of the cache that a seek reads, three tenths in single precision, as any number from one to the level.
- Recordings.CacheLevel: takes the estimated number of entries per second as an argument.
- ReplayRuns.DelaysAddUp: is about stored delays; gaps of 2^32 microseconds and more wrap around.
- MsgPackLimits.ReadsBackIffClean: requires the names of a map to be distinct and not empty, as the uniqueness pass and the grammar leave them, and leaves open the trees that have both a nested map of 4 GiB and a name of 2 GiB or more.
- ProtoMessages.ReadsBackIffIdsFit: requires fields with an identifier from 2^29 on to hold a scalar at some depth; messages nested under such an identifier that hold none have only one value and keep it.
- Base64.EncodeBase64: requires fewer than 2^32 bytes, since its index has 32 bits; Base64.DecodeBase64 likewise for characters.
- GenericMessages.GenericMessage.CreateFrom: takes ranks as evidence that the messages it meets are acyclic; creation does not end otherwise, see `GenericMessages.EndsIffAcyclic` and `GenericMessages.EndsIffNoCycle`. Generic messages made from a concrete message are not modelled.
- GenericMessages.FilledIsSeen: is about messages without repeated identifiers; with those, a visitor could change the type that a later field of the same identifier finds.
- Schema.CreateMetaMessage: identifiers beyond 2^31, which the conversion from text refuses, are not modelled.
