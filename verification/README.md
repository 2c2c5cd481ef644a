# TokMesh session store: a verified model

TokMesh keeps login sessions in memory, with an index by token hash and one by user. Every change is first written
to a segmented write-ahead log; snapshots checkpoint the store, a compactor trims the log, and recovery rebuilds the
store from a snapshot and the rest of the log. This project models that machinery, layer by layer, and proves what
holds across the layers. Six further components are modelled on their own: the consistent-hash ring, the nonce
cache, the API-key cache, the glob matcher, the RESP2 reader and writer, and the rate limiter.

`dafny verify dfyconfig.toml` checks everything.

## How it is built

| layer | modules |
|---|---|
| values | `Domain` (sessions and their validation), `Bytes`, `Sorting`, `Lru` (list and map of an LRU cache) |
| store | `StoreModel` (what each operation does to the three maps), `StoreRuns` (whole runs), `StoreAnswers` (what callers see), `MemoryStore` (the objects) |
| log | `Codec` (frames), `LogReader`, `LogWriter`, `LogTheorems`, `LogRuns`, `LogSegments`, `LogOffsets` (machines and runs), `WalFiles` (the objects), `Compactor`, `Snapshot` |
| engine | `Entries` (entries and replay), `LiveRuns`, `Recovery`, `RecoveryTheorem`, `Overlap`, `Skipping`, `ReplayCounts`, `RecoveryLimits`, `Durability`, `StorageEngine` (the object) |
| ring | `HashRing` |
| services | `NonceModel`, `NonceCache`, `AuthModel`, `AuthAnswers`, `AuthService` |
| Redis server | `Glob`, `Resp`, `RespTheorems`, `RespReader`, `TokenBucket` |

State that the Go code updates in place is a class whose methods are proved against a function on values; the
theorems over whole runs are about those functions. JSON, base64, CRC-32, SHA-256, the cipher, Argon2, IP parsing,
the virtual-node hash and splitting text at white space are parameters; the laws they must obey are written out (`Lawful`), and
nothing else is assumed about them. A Go string is a sequence of bytes; here each byte is a character, so that lengths
are Go's. Each operation reads the clock once, and the reading is a parameter.

## What a sound run is

The recovery theorems speak of ordinary runs (`Recovery.Ordinary`): an id is created once, updates keep the session's
user and token and have a version one ahead of the expected one, and a deletion by user logs the sessions it lists.
Exact recovery asks three things more of a run (`Recovery.Sound`):

- a CREATE that a replay would keep was accepted by the live store;
- what leaves the store without a log entry (expired sessions, on cleanup and on deletion by user) was not created to
  outlive the recovery clock;
- no update expects a version ahead of the stored one (the store may still refuse it);

and `RecoveryTheorem.RecoveryIsExact` further asks that nothing the snapshot holds has left the store unlogged since.
Expiry may be changed freely by updates. `RecoveryTheorem.RebuiltFollowsIff` says what happens in every ordinary run,
sound or not: sessions that left unlogged are ghosts in the rebuilt store, and recovery follows the live store, ghosts
aside, exactly while the rebuilt store gives every CREATE the verdict that the live one gave. It takes for granted that
replaying what the snapshot already covers is harmless, and `Overlap.HarmlessIff` says exactly when that is so. The
witnesses in `RecoveryLimits` show each condition failing.

## Where the code differs from its promises

- Every offset that the writer reports lies inside a segment (`Durability.OffsetIsInside`), and the reader still asks
  there for the magic (src/internal/storage/wal/reader.go:84, 213), so recovery replays nothing behind a snapshot:
  `Durability.NothingBehindTheSnapshot`. The exact reading of such a section is `LogReader.SeekIntoSegment`. Replay of
  a log suffix is therefore stated over the sequence of entries, and the byte-level theorems start at offset 0.
- The expired shortcut tests the CREATE entry's own expiry (src/internal/storage/engine.go:245-249): sessions renewed
  later, and sessions that never expire, are lost. `Skipping.SkippingRefinesIff` and `RecoveryTheorem.LostIffSkipped`
  say exactly when.
- A refused CREATE is in the log and can come back (`RecoveryLimits.RefusedCreateComesBack`), exactly when
  `Skipping.RefusedComesBackIff` says. Cleanup is not logged, which the comment at src/internal/storage/engine.go:536-540
  calls harmless; `RecoveryLimits.ExpiredSnapshotCostsALiveSession` and, without a snapshot,
  `RecoveryLimits.ShortenedSessionCostsALiveSession` show that it is not, and `RecoveryTheorem.RebuiltFollowsIff` exactly
  when it is.
- UpdateSession logs an UPDATE, which a replay stores one version higher than memory did
  (`RecoveryLimits.UpdateSessionDiverges`, and exactly when not: `RecoveryLimits.UpdateSessionReplaysIff`).
- Update on a token conflict has already dropped the old mapping, and never re-indexes a changed user
  (`StoreModel.UpdateKeepsIndexedIff`).
- Segment names are padded to eight digits, so their order breaks at 10^8 (`Compactor.NamesInOrderIff`).
- A segment shorter than its magic ends the replay of all later ones (`LogReader.StreamOfFile`), and frames behind a torn
  tail are unreachable unless the mixture checks out (`LogTheorems.TornTailHidesLaterFrames`).
- A crash between the creation of a segment and its magic leaves a file that NewWriter refuses, so that the engine does
  not start again (`LogRuns.CrashReopensIff`); the log itself reads as before (`LogTheorems.CrashPrefix`).
- An encrypted snapshot that is read without a cipher loads as an empty one, and hides all older snapshots
  (`Snapshot.CipherMustMatch`).
- Create tests the quota before the id, so that replaying a CREATE whose session is already there is reported as a
  failure when its user's quota is full (`ReplayCounts.CountsIff`).
- Compaction goes by the newest snapshot, but Load can fall back to an older one (`Compactor.OlderSnapshotIff`).
- The default nonce ttl is exactly twice the timestamp window, which is one millisecond too short
  (`NonceModel.NeverTwiceIff`, `NonceModel.ShortTtlAcceptsTwice`). With a capacity of zero or less, the eviction loop never
  ends (`NonceModel.EvictionEndsIff`).
- RemoveNode deletes hashes that another node has taken over (`HashRing.RemoveIsMinimalIff`,
  `HashRing.SharedHashMovesAnother`, `HashRing.AddThenRemoveRestoresIff`).

## Model

| member | source | states |
|---|---|---|
| `RecoveryTheorem.RecoveryIsExact` | src/internal/storage/engine.go:154-314 | for every sound run, every snapshot of it listed in any order of which nothing left the store unlogged since, and every log position not beyond what the snapshot covers: loading and replaying gives exact indexes and, up to three unlogged fields, precisely the live sessions that the snapshot holds or whose CREATE had not expired |
| `RecoveryTheorem.RebuiltFollowsIff` | src/internal/storage/engine.go:219-314 | for every ordinary run, with or without a snapshot, and every harmless overlap: after every operation since the snapshot, the rebuilt store is the live one (cut down the same way) plus the ghosts, that is the sessions a replay holds on to although they left the live store unlogged, if and only if every CREATE that a replay keeps gets from the rebuilt store the verdict that the live one gave |
| `RecoveryTheorem.RecoveryWithGhosts` | src/internal/storage/engine.go:154-314 | so with the same verdicts, what Recover builds has exact indexes and differs from exact recovery by the ghosts alone |
| `RecoveryTheorem.ValidComeBackIff` | src/internal/storage/engine.go:219-268 | then, without a snapshot, every session still valid comes back if and only if none of their CREATEs had expired, and what else is rebuilt are the ghosts; for runs with bulk deletion and unlogged cleanup |
| `RecoveryTheorem.StepFollowsIff` | src/internal/storage/engine.go:273-441 | one live operation of any kind and the replay of its entries keep that relation exactly when a CREATE among them gets the same verdict |
| `RecoveryTheorem.ReplayAcceptsIffRoom` | src/internal/storage/memory/store.go:108-142 | an acceptable CREATE, whatever the live store said, is accepted on the rebuilt store if and only if the rebuilt sessions of its user, ghosts included, are fewer than the quota and none of them has its id or token |
| `RecoveryTheorem.OverlapIsHarmless` | src/internal/storage/engine.go:452-459 | replaying log entries that a snapshot already covers, from any position, leaves the snapshot's store unchanged |
| `Overlap.HarmlessIff` | src/internal/storage/engine.go:452-459 | for every ordinary run, replaying what a snapshot covers, from any position on, leaves the snapshot as it is if and only if no update replayed expects the version at which the snapshot holds its session and every session created again is deleted again |
| `Overlap.OverlapRun` | src/internal/storage/engine.go:273-314 | until an update hits a session of the snapshot, its sessions stay untouched beside those created again; from then on one has run ahead for good |
| `RecoveryTheorem.RecoveryWithoutSnapshot` | src/internal/storage/engine.go:219-268 | without a snapshot the rebuilt store is exactly the live one cut down to the sessions whose CREATE had not expired at the recovery clock |
| `RecoveryTheorem.LostIffSkipped` | src/internal/storage/engine.go:245-250 | a stored session is lost if and only if the replay skips its CREATE entry, however it was renewed since |
| `Recovery.RunKeepsInvariant` | src/internal/storage/engine.go:319-445 | over every sound run: exact indexes, quota, deleted ids stay gone, stored versions are ahead of every logged update, every created session that a replay keeps is stored or has a later DELETE |
| `Recovery.RemovalIsLogged` | src/internal/storage/engine.go:418-441 | a session that a replay keeps leaves the store only with a DELETE in the log |
| `Recovery.OnTimeCleanupIsSound` | src/internal/storage/engine.go:536-543 | the unlogged cleanup satisfies the recovery condition when it does not run ahead of the recovery clock and no session was shortened across it |
| `LiveRuns.ReplayEqualsLive` | src/internal/storage/engine.go:273-400 | for every run of Create, Update and Delete under the version law, refused operations included, folding applyEntry over the whole log rebuilds sessions, versions and both indexes up to the three unlogged fields |
| `LiveRuns.StepReplays` | src/internal/storage/engine.go:289-300 | applying the entry that one operation logs does to the stripped store what the operation did to the live one |
| `LiveRuns.LoggedIs` | src/internal/storage/wal/entry.go:62-90 | what each operation logs, field by field |
| `RecoveryLimits.UpdateReplaysIff` | src/internal/storage/engine.go:286-300 | an accepted update that keeps its token replays to the same store if and only if session.Version is one ahead of the expected version, or the update changes nothing |
| `Skipping.SkippingIsRestrictionIff` | src/internal/storage/engine.go:230-263 | for every log whose updates keep token and user: replay with the expired shortcut is, after every entry, the full replay minus exactly the sessions left out, if and only if no refused CREATE comes back |
| `Skipping.RefusedComesBackIff` | src/internal/storage/engine.go:244-263 | a CREATE that the live store refused, and the shortcut does not skip, is taken in by the replay if and only if it fits beside the live sessions without those left out: quota, id and token |
| `Skipping.AcceptedIffFits` | src/internal/storage/memory/store.go:108-142 | with exact indexes Create accepts exactly the acceptable sessions whose user is below the quota and whose id and token no stored session has |
| `Skipping.SkippingRefinesIff` | src/internal/storage/engine.go:244-250 | the shortcut agrees with full replay on every session still valid if and only if no session it left out is still valid |
| `Skipping.RunRecoversIff` | src/internal/storage/engine.go:219-268 | for live runs: recovery brings back every session still valid if and only if none of the sessions left out is |
| `RecoveryLimits.UpdateSessionReplaysIff` | src/internal/storage/engine.go:367-381 | an accepted UpdateSession replays to the same store if and only if it changes nothing that the log carries |
| `RecoveryLimits.RenewedSessionIsLost` | src/internal/storage/engine.go:245-249 | witness: a session renewed past the clock is lost when its CREATE carried an earlier expiry |
| `RecoveryLimits.RefusedCreateComesBack` | src/internal/storage/engine.go:319-333 | witness: a CREATE that the quota refused is in the log and is accepted at replay once an older expired session is skipped |
| `RecoveryLimits.ExpiredSnapshotCostsALiveSession` | src/internal/storage/engine.go:536-543 | witness: an expired session removed without a log entry returns from the snapshot, takes up the quota, and a live session is refused at replay |
| `RecoveryLimits.ShortenedSessionCostsALiveSession` | src/internal/storage/engine.go:536-543 | witness without a snapshot: a session created to outlive the clock, renewed for a shorter time and removed by the unlogged cleanup comes back, takes up the quota, and a live session is refused at replay |
| `Recovery.OrdinaryKeeps` | src/internal/storage/engine.go:319-445 | every ordinary run, sound or not, keeps exact indexes, the quota, owners and a well-formed log |
| `RecoveryLimits.UpdateAheadComesThrough` | src/internal/storage/engine.go:348-364 | witness: an update refused because it expected too high a version is applied after all when the overlap is replayed over a snapshot that has reached that version |
| `RecoveryLimits.UpdateSessionDiverges` | src/internal/storage/engine.go:367-381 | witness family: after UpdateSession the replayed version is one ahead, and the next regular update is dropped by the replay |
| `ReplayCounts.CountsIff` | src/internal/storage/engine.go:273-314 | which entries count as applied, told from the sessions: a CREATE unless invalid, over quota (also when it is already there) or with another's token; an UPDATE unless invalid or taking another's token; a DELETE always; an entry without its session never |
| `ReplayCounts.AppliedIsBounded` | src/internal/storage/engine.go:230-263 | all entries are counted if and only if each is neither skipped nor refused |
| `Entries.ReplayAppend` | src/internal/storage/engine.go:234-263 | replaying a concatenation of logs is replaying one after the other |
| `Durability.CleanRestartRecovers` | src/internal/storage/engine.go:95-216 | bytes included: any sound run, any placement of flushes and restarts, a Close, and an engine that starts on that directory (its writer opening a new segment first), scans it and recovers without a snapshot rebuilds exactly the sessions whose CREATE had not expired |
| `Durability.CrashRecovers` | src/internal/storage/engine.go:95-216 | for every sound run and whatever part of the open segment survives a crash, inside its magic or behind it, the recovered store has exact indexes and is the live store after some earlier operation, minus the sessions of a bulk deletion whose DELETEs survive; if all flushed bytes survive, only the entries of a batch that was not full are missing; a writer opens again if and only if the magic survived |
| `Durability.PrefixIsARun` | src/internal/storage/engine.go:319-441 | every prefix of the log is the log of some first operations and a beginning of what the next one logs |
| `Durability.OffsetIsInside` | src/internal/storage/wal/writer.go:174-178 | every offset that a good open writer reports lies behind the magic of its segment |
| `Durability.NothingBehindTheSnapshot` | src/internal/storage/wal/reader.go:55-110 | with a snapshot offset inside a segment, unless the magic recurs at a multiple of eight, nothing is replayed and the recovered store is the snapshot alone |
| `Durability.RestartHoldsTheSnapshot` | src/internal/storage/engine.go:154-216 | a restart whose newest snapshot file has just been written, and whose log brings nothing behind it, holds exactly the sessions stored at the snapshot, every field and both indexes included |
| `Durability.SnapshotOffsetIsAPosition` | src/internal/storage/engine.go:452-459 | the offset a snapshot carries stands for a log position k not beyond what the snapshot covers, and what lies behind it at any later time are the logged entries from k on |
| `Durability.BehindSnapshotIsCompleteIff` | src/internal/storage/wal/reader.go:55-110 | over whole runs, without a chance magic: recovery behind a snapshot replays nothing, and is complete if and only if nothing was flushed since |
| `StorageEngine.Engine.Append` | src/internal/storage/engine.go:319-326 | the writer machine takes exactly one Append step |
| `StorageEngine.Engine.Create` | src/internal/storage/engine.go:319-333 | log first, then memory; a refused append changes nothing, a refused store change stays in the log, only success moves lastWALOffset |
| `StorageEngine.Engine.Update` | src/internal/storage/engine.go:348-364 | the same for Update |
| `StorageEngine.Engine.UpdateSession` | src/internal/storage/engine.go:367-381 | the same for UpdateSession, which logs an UPDATE |
| `StorageEngine.Engine.Delete` | src/internal/storage/engine.go:386-400 | the same for Delete |
| `StorageEngine.Engine.DeleteExpired` | src/internal/storage/engine.go:536-543 | the store loses exactly its expired sessions; nothing is logged; the count is their number |
| `StorageEngine.Engine.DeleteByUserID` | src/internal/storage/engine.go:418-441 | one DELETE per unexpired session of the user goes to the log, then all of the user's sessions leave the store; the count is their number |
| `StorageEngine.Engine.ApplyEntry` | src/internal/storage/engine.go:273-314 | the store changes as the replay function says, and the entry counts as applied exactly when its error is a tolerated one |
| `StorageEngine.Engine.ReplayEntry` | src/internal/storage/engine.go:244-263 | one turn of the loop: skipped or applied; lastWALOffset moves exactly when applied |
| `StorageEngine.Engine.ReplayWAL` | src/internal/storage/engine.go:219-268 | terminates on every directory content; the store is the replay of the stream from the offset, `applied` counts the applied entries, lastWALOffset moves if any was |
| `StorageEngine.Engine.LoadSessions` | src/internal/storage/engine.go:179-187 | every session of a snapshot goes through Create in order, refusals passed over |
| `StorageEngine.Engine.Recover` | src/internal/storage/engine.go:154-216 | the choice is the one Load makes: the newest readable snapshot, newer ones being damaged by checksum or magic only, failing exactly when the newest other file fails otherwise; then the replay from its offset; lastWALOffset is the writer's if an entry was applied, else the snapshot's, else unchanged |
| `StorageEngine.Engine.SnapshotFile` | src/internal/storage/engine.go:452-459 | the file holds each stored session once and the last successful operation's offset |
| `LogRuns.Conservation` | src/internal/storage/wal/writer.go:181-428 | in every run of appends, flushes, rotations and restarts, decoding the segments in id order and then the buffer gives exactly the appended entries in order |
| `LogRuns.AppendedIsRead` | src/internal/storage/wal/reader.go:74-125 | after any run and a Close, a reader from offset 0 returns exactly the appended entries |
| `LogRuns.CrashLosesABoundedTail` | src/internal/storage/wal/writer.go:181-202 | a crash, cutting the open segment anywhere, leaves a prefix of what was appended; if no flushed byte is lost, fewer than BatchCount entries and fewer than BatchBytes bytes are missing |
| `LogRuns.RestartKeepsLog` | src/internal/storage/wal/writer.go:109-148 | Close and reopen continue the same log in a new segment |
| `LogRuns.RestartIsRead` | src/internal/storage/wal/writer.go:109-148 | after Close and reopen, the new segment included, a reader from offset 0 returns the log |
| `LogRuns.CrashReopensIff` | src/internal/storage/wal/writer.go:293-345 | after a crash a writer opens again if and only if the magic of the open segment survived; it continues that segment and changes no file |
| `LogRuns.CrashThenAppend` | src/internal/storage/wal/writer.go:293-345 | a run with a crash between two frames: what survived and everything appended afterwards is read back in order |
| `LogRuns.ConservationFrom` | src/internal/storage/wal/writer.go:181-428 | conservation from any good writer on, so also after crashes |
| `LogOffsets.OffsetStandsFor` | src/internal/storage/wal/writer.go:174-178 | an offset reported in any state of a run stands for the number of entries in the segments by then; in every later state what lies behind it decodes to exactly the entries from there on |
| `LogOffsets.RunExtends` | src/internal/storage/wal/writer.go:210-291 | no later operation changes what was written: earlier segments stay, the segment itself goes on behind it |
| `LogSegments.AppendFlushesIff` | src/internal/storage/wal/writer.go:181-202 | an accepted append reaches the disk exactly when it fills the batch by count or bytes; until then no file changes |
| `LogSegments.FlushRotatesIff` | src/internal/storage/wal/writer.go:210-252 | a flush opens a new segment exactly when the open one would exceed its size or its number of entries, and what either way the files and counters are |
| `LogSegments.SegmentsHoldFew` | src/internal/storage/wal/writer.go:210-252 | in every run from an empty directory no segment decodes to more entries than the larger of MaxEntryCount and one batch |
| `LogSegments.SegmentsHoldFewFrom` | src/internal/storage/wal/writer.go:210-345 | the same from any good writer on, counting in a reopened segment from the reopening |
| `LogSegments.SegmentBegins` | src/internal/storage/wal/writer.go:271-291 | a new segment holds the eight bytes of the magic and nothing else |
| `LogRuns.OffsetDecodes` | src/internal/storage/wal/writer.go:174-178 | while ids and sizes fit 32 bits, Seek and the compactor decode a composite offset exactly |
| `LogRuns.FlushAdvancesOffset` | src/internal/storage/wal/writer.go:210-252 | a flush never moves the offset back and moves it forward whenever something was buffered, rotation included |
| `LogRuns.OffsetNeverDecreases` | src/internal/storage/wal/writer.go:174-252 | over every run of appends, flushes and restarts with ids and sizes below 2^32, the reported offset never decreases |
| `LogRuns.StepNeverMovesBack` | src/internal/storage/wal/writer.go:181-291 | no single operation moves it back, and a restart moves it forward |
| `LogRuns.SegmentsStaySmall` | src/internal/storage/wal/writer.go:210-252 | every segment of every run stays within MaxFileSize, or the magic and one batch if that is larger, its digest aside |
| `LogWriter.FlushKeepsLog` | src/internal/storage/wal/writer.go:204-252 | a flush, rotating or not, keeps the decoded log and a well-formed directory |
| `LogWriter.AppendExtendsLog` | src/internal/storage/wal/writer.go:181-202 | an accepted append adds its entry, as a reader will decode it, to the end of the log; a refused one changes nothing |
| `LogWriter.CloseKeepsLog` | src/internal/storage/wal/writer.go:405-428 | Close seals the last segment and keeps the log |
| `LogTheorems.ClosedLogIsRead` | src/internal/storage/wal/reader.go:113-125 | a reader from offset 0 returns exactly what a closed writer's log holds |
| `LogTheorems.CrashPrefix` | src/internal/storage/wal/reader.go:161-258 | cutting the open segment at any byte leaves the sealed segments and exactly the frames wholly before the cut, unless the cut bytes end in their own digest |
| `LogTheorems.FramesCut` | src/internal/storage/wal/reader.go:241-258 | the frames of a cut section are the whole frames before the cut |
| `LogTheorems.FramesOfMixture` | src/internal/storage/wal/reader.go:241-258 | on arbitrary bytes the reader stops if and only if the length is missing, too small or more than is there, or the bytes fail their checksum or have a bad type |
| `LogTheorems.TornTailHidesLaterFrames` | src/internal/storage/wal/writer.go:334-342 | exactly what is read of a segment whose frame was torn at any byte and written on: nothing behind the whole frames unless the mixture checks out, and then what follows it; behind the length field the mixture claims the torn frame's length |
| `LogReader.Read` | src/internal/storage/wal/reader.go:74-110 | every read that does not report the end makes progress in (segments left, bytes left), on arbitrary contents |
| `LogReader.FirstFrame` | src/internal/storage/wal/reader.go:241-258 | a frame that is read or stepped over consumes bytes |
| `LogReader.StreamOfFile` | src/internal/storage/wal/reader.go:161-227 | on arbitrary contents: a segment with a good header contributes its frames, one with a bad header is passed over, one too short for a header ends the replay |
| `LogReader.StreamOfSection` | src/internal/storage/wal/reader.go:241-258 | behind a header, a section is read frame by frame up to the first broken one |
| `LogReader.SeekIntoSegment` | src/internal/storage/wal/reader.go:161-227 | exactly what a reader with a start offset inside a segment returns: nothing, or what follows a chance occurrence of the magic |
| `LogReader.VerifyTrailer` | src/internal/storage/wal/writer.go:487-519 | a file found sealed has the magic, and its last 32 bytes are the digest of the rest |
| `LogReader.FirstFrom` | src/internal/storage/wal/reader.go:55-71 | the first listed segment not below the wanted one |
| `Codec.FrameRoundTrip` | src/internal/storage/wal/codec.go:25-152 | decoding an encoded frame gives the entry back, minus the three fields that JSON leaves out, with or without encryption |
| `Codec.FrameIs` | src/internal/storage/wal/codec.go:25-84 | a frame byte for byte: length, checksum over type and payload, type, payload; with a cipher the session is there only as base64 of its ciphertext |
| `Codec.DecodesIff` | src/internal/storage/wal/codec.go:86-152 | exactly what a frame decodes to: checksum, readable payload, one of three types, and a session in clear or encrypted unless it is a DELETE |
| `Codec.DecodeFailsWith` | src/internal/storage/wal/codec.go:86-120 | which failure a frame is that does not decode |
| `Codec.FrameLayout` | src/internal/storage/wal/codec.go:63-83 | a frame is its length, its checksum, its type and its payload, in that order |
| `Bytes.PutUint32` | src/internal/storage/wal/codec.go:72-78 | a length reads back |
| `Bytes.BigEndian` | src/internal/storage/wal/codec.go:72-78 | its most significant byte comes first |
| `WalFiles.Writer.CurrentOffset` | src/internal/storage/wal/writer.go:174-178 | the composite offset of the writer machine |
| `WalFiles.Writer.OpenNewSegment` | src/internal/storage/wal/writer.go:271-291 | a fresh segment holding just the magic |
| `WalFiles.Writer.Finalize` | src/internal/storage/wal/writer.go:384-402 | the digest of everything written goes behind it |
| `WalFiles.Writer.RotateSegment` | src/internal/storage/wal/writer.go:229-237 | seal, next id, fresh segment; the buffer is untouched |
| `WalFiles.Writer.Flush` | src/internal/storage/wal/writer.go:204-252 | the machine's Flush on the directory |
| `WalFiles.Writer.Append` | src/internal/storage/wal/writer.go:181-202 | the machine's Append: encode, buffer, flush at a batch threshold |
| `WalFiles.Writer.Close` | src/internal/storage/wal/writer.go:405-428 | the machine's Close |
| `WalFiles.NewWriter` | src/internal/storage/wal/writer.go:109-148 | any directory: a sealed latest segment is followed by a new one, an open one is continued, one that is neither sealed nor begins with the magic is refused and nothing changes |
| `WalFiles.FindLatest` | src/internal/storage/wal/writer.go:443-485 | the highest segment id of the directory, or 0 when there is none |
| `WalFiles.Reader.Seek` | src/internal/storage/wal/reader.go:55-71 | the reader's state after a seek, for every offset |
| `WalFiles.Reader.OpenNextSegment` | src/internal/storage/wal/reader.go:161-215 | the next segment opens, is refused, or there is none |
| `WalFiles.Reader.Read` | src/internal/storage/wal/reader.go:74-110 | the retry loop is the reader machine's Read |
| `WalFiles.ScanIsInOrder` | src/internal/storage/wal/reader.go:132-159 | the sorted scan of a directory lists the segments' contents in id order |
| `Compactor.CompactionIsInvisible` | src/internal/storage/wal/compactor.go:53-99 | a reader that seeks to the snapshot offset is in the same state and reads the same stream before and after compaction |
| `Compactor.CompactedDirectoryReadsTheSame` | src/internal/storage/wal/compactor.go:53-99 | a reader that scans the directory afresh after Compact and seeks to the snapshot offset reads the same stream as before |
| `Compactor.OlderSnapshotIff` | src/internal/storage/wal/compactor.go:53-99 | for an older snapshot, to which Load can fall back, seeking is unchanged by compaction if and only if no more was removed than that seek skips |
| `Compactor.RescanIsTheRest` | src/internal/storage/wal/compactor.go:53-99 | a fresh scan of what Compact leaves lists exactly the segments it kept |
| `Compactor.ListingIsTheScan` | src/internal/storage/wal/compactor.go:136-158 | below 10^8 the listing by name that Compact works on is the reader's listing by id |
| `Compactor.CompactRemovesOldest` | src/internal/storage/wal/compactor.go:66-90 | exactly the oldest segments strictly below the snapshot's go, as many as leave `retain` files |
| `Compactor.Select` | src/internal/storage/wal/compactor.go:66-90 | the list to delete: the older segments minus the last ones that retention needs |
| `Compactor.Compact` | src/internal/storage/wal/compactor.go:53-99 | the directory loses exactly those files |
| `Compactor.NamesInOrderIff` | src/internal/storage/wal/compactor.go:136-158 | file names up to id n sort by id if and only if n is below 10^8 |
| `Compactor.NameSortedIsAscending` | src/internal/storage/wal/compactor.go:136-158 | a listing sorted by name is ascending in id below 10^8 |
| `Snapshot.SnapshotRoundTrip` | src/internal/storage/snapshot/manager.go:182-431 | loading a created snapshot returns all sessions in order with every field and the offset, encrypted or not |
| `Snapshot.FileLayout` | src/internal/storage/snapshot/manager.go:182-262 | a snapshot file byte for byte: magic, header, sessions, each with its length, and the digest; with a cipher the sessions are in it encrypted only |
| `Snapshot.DamageIs` | src/internal/storage/snapshot/manager.go:321-361 | when a file counts as damaged by checksum or by magic |
| `Snapshot.CipherMustMatch` | src/internal/storage/snapshot/manager.go:393-420 | an encrypted snapshot read without a cipher loads as its header and no sessions; a plain one read with a cipher is an error |
| `Snapshot.NewestIsChosen` | src/internal/storage/snapshot/manager.go:298-319 | a snapshot just written is the one loaded, whatever the older files are |
| `Snapshot.ChoiceIsUnique` | src/internal/storage/snapshot/manager.go:298-319 | the files determine what Load chooses |
| `Snapshot.Load` | src/internal/storage/snapshot/manager.go:298-319 | the newest readable file wins, newer ones being damaged only by checksum or magic; any other error ends the search; no snapshot exactly when all are damaged |
| `Snapshot.KeepPaths` | src/internal/storage/snapshot/manager.go:479-508 | the keep map holds exactly the retained files |
| `Snapshot.Prune` | src/internal/storage/snapshot/manager.go:470-516 | exactly the files that no rule retains go: the newest, the last RetentionCount and those after the cutoff stay |
| `StoreRuns.RunsKeepIndexesIff` | src/internal/storage/memory/store.go:86-250 | in every run, both indexes are exact in every state if and only if no update takes the breaking branch; then the quota holds too |
| `StoreRuns.StepKeepsIndexedIff` | src/internal/storage/memory/store.go:108-250 | from exact indexes one operation leads to exact indexes precisely when it is respectful |
| `StoreModel.UpdateKeepsIndexedIff` | src/internal/storage/memory/store.go:145-189 | Update keeps the indexes exact if and only if it changes no user id and does not end in the token conflict that has already dropped the old mapping |
| `StoreRuns.UpdateSessionKeepsIndexedIff` | src/internal/storage/memory/store.go:540-558 | UpdateSession keeps them if and only if user and token are unchanged |
| `StoreModel.IndexedIsScan` | src/internal/storage/memory/store.go:24-43 | index agreement means that both indexes are what a full scan of the sessions computes, with no empty user set |
| `StoreModel.IndexedDeterminesStore` | src/internal/storage/memory/store.go:24-43 | two stores with exact indexes and the same sessions are equal |
| `StoreRuns.StepKeepsQuota` | src/internal/storage/memory/store.go:116-121 | no operation takes a user above the quota |
| `StoreRuns.GetByTokenIsScan` | src/internal/storage/memory/store.go:86-105 | with exact indexes the orphan branch is unreachable, and exactly the unexpired session with the hash is found |
| `StoreRuns.DeleteByTokenIsDelete` | src/internal/storage/memory/store.go:211-228 | with exact indexes deleting by token is deleting the session that carries it |
| `StoreRuns.LoadIsExact` | src/internal/storage/memory/store.go:451-472 | loading a healthy store's sessions in any order, through Create or without checks, rebuilds it |
| `StoreRuns.EvictThenCreate` | src/internal/storage/memory/store.go:108-142 | a session that just left is accepted back and the store is what it was |
| `StoreAnswers.ReadAfterWrite` | src/internal/storage/memory/store.go:86-189 | in every run that keeps the indexes, a session that was created or updated is found by its token with every field as written, one version on after an update, until an operation touches it or it expires |
| `StoreAnswers.CreateAnswers` | src/internal/storage/memory/store.go:108-142 | one cause per refusal, in order: invalid, quota full, id taken, token taken; otherwise the session is stored as it is |
| `StoreAnswers.UpdateAnswers` | src/internal/storage/memory/store.go:145-189 | one cause per refusal, in order: invalid, missing, another version, token of another session; otherwise every field is stored with the version one on, and no other session changes |
| `StoreAnswers.UpdateSessionAnswers` | src/internal/storage/memory/store.go:540-558 | refuses an invalid or missing session, otherwise stores it as it is |
| `StoreAnswers.DeleteByTokenAnswers` | src/internal/storage/memory/store.go:211-228 | removes the session that carries the token, refuses when none does |
| `StoreAnswers.GetByTokenAnswers` | src/internal/storage/memory/store.go:86-105 | found, expired or unknown, told from the sessions; an expiry of zero or not yet past is valid |
| `StoreAnswers.OrphanIsDropped` | src/internal/storage/memory/store.go:86-105 | a mapping to a missing session is answered as unknown and goes, nothing else changes |
| `StoreAnswers.BulkAnswers` | src/internal/storage/memory/store.go:388-518 | cleanup keeps exactly what has no expiry or is not past it, deletion by user the other users' sessions, and listing names the user's valid ones |
| `StoreModel.DeleteByUserIsScan` | src/internal/storage/memory/store.go:388-412 | with exact indexes it removes exactly the user's sessions with their tokens |
| `StoreModel.CountIsScan` | src/internal/storage/memory/store.go:420-428 | the index count is the number of the user's sessions |
| `StoreModel.EvictAllKeepsIndexed` | src/internal/storage/memory/store.go:493-518 | removing any set of sessions as the bulk operations do keeps the indexes exact |
| `MemoryStore.Store.Create` | src/internal/storage/memory/store.go:108-142 | three maps and outcome as the model says, every refusal included |
| `MemoryStore.Store.Update` | src/internal/storage/memory/store.go:145-189 | the same, with the old token dropped before the conflict test, and the new version |
| `MemoryStore.Store.UpdateSession` | src/internal/storage/memory/store.go:540-558 | the session is replaced without version check or index maintenance |
| `MemoryStore.Store.Delete` | src/internal/storage/memory/store.go:192-208 | session, token and user entry go |
| `MemoryStore.Store.DeleteByToken` | src/internal/storage/memory/store.go:211-228 | token first, then the session |
| `MemoryStore.Store.GetByToken` | src/internal/storage/memory/store.go:86-105 | lookup, with the orphan branch dropping the mapping |
| `MemoryStore.Store.ListByUserID` | src/internal/storage/memory/store.go:231-250 | each unexpired session of the user once |
| `MemoryStore.Store.DeleteByUserID` | src/internal/storage/memory/store.go:388-412 | the loop removes the user's sessions and counts them |
| `MemoryStore.Store.CleanupExpired` | src/internal/storage/memory/store.go:493-518 | exactly the expired sessions go, with tokens and user entries |
| `MemoryStore.Store.LoadFromSnapshot` | src/internal/storage/memory/store.go:451-472 | the maps are rebuilt from the list |
| `MemoryStore.Store.All` | src/internal/storage/memory/store.go:440-447 | each session once |
| `MemoryStore.UserIndex.Add` | src/internal/storage/memory/index.go:80-84 | the id joins the user's set |
| `MemoryStore.UserIndex.Remove` | src/internal/storage/memory/index.go:87-99 | the id leaves, and an empty set goes with it |
| `MemoryStore.UserIndex.Clear` | src/internal/storage/memory/index.go:120-122 | the user goes |
| `Domain.StripLosesThree` | src/internal/core/domain/session.go:79-86 | the log's JSON loses ShardID, TTL and IsDeleted and nothing else |
| `Domain.Validate` | src/internal/core/domain/session.go:192-228 | accepts exactly the sessions within all limits |
| `Domain.ValidateData` | src/internal/core/domain/session.go:230-252 | accepts exactly the data maps whose keys, values and total size are within limits, in any iteration order |
| `HashRing.ShardMap.GetNodeForHash` | src/internal/server/clusterserver/shard.go:129-151 | binary search with wrap answers the node at the ring successor of the hash |
| `HashRing.SuccessorExists` | src/internal/server/clusterserver/shard.go:129-151 | a non-empty ring has a successor for every hash |
| `HashRing.SuccessorIsUnique` | src/internal/server/clusterserver/shard.go:129-151 | and only one |
| `HashRing.AddMovesOnlyToNewNode` | src/internal/server/clusterserver/shard.go:92-104 | adding a node moves lookups only to that node, whatever collides |
| `HashRing.RemoveMovesOnlyOwnLookups` | src/internal/server/clusterserver/shard.go:107-126 | removing a node that shares no hash moves only lookups it owned |
| `HashRing.RemoveIsMinimalIff` | src/internal/server/clusterserver/shard.go:107-126 | removal moves only own lookups if and only if, on the ring before, each of its hashes that another node has taken is followed, the node's own hashes aside, by a position of that same other node |
| `HashRing.SharedHashMovesAnother` | src/internal/server/clusterserver/shard.go:107-126 | witness, for any number of virtual nodes: two nodes share a hash and a third one's position comes next; removing the first moves a lookup from the second to the third |
| `HashRing.AddThenRemoveRestoresIff` | src/internal/server/clusterserver/shard.go:92-126 | adding and removing restores the ring if and only if none of the hashes was taken |
| `HashRing.ShardMap.AddNode` | src/internal/server/clusterserver/shard.go:92-104 | the node holds its 256 virtual hashes, every other one is held as before, sorted list in step, version up by one |
| `HashRing.ShardMap.RemoveNode` | src/internal/server/clusterserver/shard.go:107-126 | the ring without its 256 hashes, the node's shards gone, version up by one |
| `HashRing.ShardMap.RebuildSortedHashes` | src/internal/server/clusterserver/shard.go:167-175 | the sorted list of the ring's hashes |
| `NonceModel.NonceAtMostOnce` | src/internal/core/service/token.go:193-221 | with ttl above twice the window and a monotone clock, a nonce and timestamp pass twice only if at least `capacity` distinct other nonces reached the cache in between |
| `NonceModel.NeverTwiceIff` | src/internal/core/service/token.go:193-221 | that guarantee holds over every run if and only if the ttl exceeds twice the window (or the window lets nothing through) |
| `NonceModel.ShortTtlAcceptsTwice` | src/internal/core/service/token.go:57-63 | witness for every smaller ttl, the default of exactly twice the window included: two requests in a row with the same nonce and timestamp are both accepted |
| `NonceModel.NoFalseReplay` | src/internal/core/service/token.go:214-217 | a refusal as a replay names an earlier accepted request with that nonce, less than the ttl old |
| `NonceModel.ReplayIsCaught` | src/internal/core/service/token.go:302-321 | a nonce that reached the cache, accepted or as a replay, is refused as a replay while its entry is fresh and fewer than `capacity` others reached the cache since |
| `NonceModel.VerdictIff` | src/internal/core/service/token.go:193-221 | the cause of each verdict: empty or over 256 bytes, further than the window from the clock, listed and younger than the ttl |
| `NonceModel.StaysGuarded` | src/internal/core/service/token.go:302-372 | an accepted nonce stays listed behind only nonces touched since, until `capacity` others were touched |
| `NonceModel.RunKeepsList` | src/internal/core/service/token.go:325-350 | in every run the list holds each nonce once and at most `capacity` entries |
| `NonceModel.EvictionEndsIff` | src/internal/core/service/token.go:333-342 | the eviction loop ends if and only if the capacity is at least one |
| `NonceCache.Cache.AddIfAbsent` | src/internal/core/service/token.go:302-321 | map and list stay one collection; result and list as the model says |
| `NonceCache.Cache.AddLocked` | src/internal/core/service/token.go:325-350 | a listed nonce moves to the front; otherwise clean up, evict from the back, push to the front |
| `NonceCache.Cache.CollectExpired` | src/internal/core/service/token.go:355-364 | exactly the expired entries, found from the back |
| `NonceCache.Cache.CleanupExpired` | src/internal/core/service/token.go:355-372 | exactly the expired entries go, order kept |
| `NonceCache.TokenService.CheckNonce` | src/internal/core/service/token.go:193-221 | length, then window, then cache; every verdict as the model says |
| `AuthModel.CacheIsInvisible` | src/internal/core/service/auth.go:101-171 | in every run of validate, create, enable/disable, rotate and invalidate over any repository, each outcome, returned key included, is that of validation straight from the repository |
| `AuthModel.StepRefines` | src/internal/core/service/auth.go:101-171 | one operation keeps every cached key equal to the stored one but for its last use, and active |
| `AuthModel.HitIsExact` | src/internal/core/service/auth.go:103-127 | the verdict on a hit is the one the repository path would give, although it tests in another order |
| `AuthAnswers.ValidIff` | src/internal/core/service/auth.go:101-171 | over every run of the cached service: Valid if and only if the key is stored at that point, active, unexpired, the combined allowlist is empty or the parsed address matches an entry, and the secret fits the current hash or the previous one in its grace period; the stored key is returned, last used now |
| `AuthAnswers.RefusalIff` | src/internal/core/service/auth.go:101-171 | the cause of each refusal: no such key, not active, expired or wrong secret, address |
| `AuthAnswers.StoredAfter` | src/internal/core/service/auth.go:517-665 | what each operation of a run leaves in the repository, field by field |
| `AuthAnswers.NewKeyWorksIff` | src/internal/core/service/auth.go:517-540 | a new key validates, until disabled or rotated, exactly for the secret behind its hash from globally allowed addresses |
| `AuthAnswers.EnableIsImmediate` | src/internal/core/service/auth.go:603-630 | from an enabling until the next disabling no validation is refused as disabled |
| `AuthAnswers.CachedForTheTtl` | src/internal/core/service/auth.go:352-419 | what was cached is served for the ttl and no longer, what was deleted is not |
| `AuthAnswers.ManagementForgets` | src/internal/core/service/auth.go:208-211 | enabling, disabling, rotating and invalidating take the key out of the cache |
| `AuthAnswers.LookupKeepsTheRest` | src/internal/core/service/auth.go:352-373 | a lookup changes no other key's |
| `AuthAnswers.SetCostsTheOldest` | src/internal/core/service/auth.go:377-408 | a set loses exactly the least recently used slot of a full cache, and nothing otherwise |
| `AuthAnswers.CacheStaysSmall` | src/internal/core/service/auth.go:377-408 | in every run each key is cached once and at most `capacity` are |
| `AuthModel.DisableIsImmediate` | src/internal/core/service/auth.go:603-630 | from a successful disable until the next enable, every validation of that key is refused as disabled |
| `AuthModel.OldSecretEndsWithGrace` | src/internal/core/service/auth.go:640-665 | after a rotation and until the next, only the new secret is accepted, or the previous one within 24 hours |
| `AuthService.APIKeyCache.Get` | src/internal/core/service/auth.go:352-373 | hit, miss or expiry, list and result as the model says |
| `AuthService.APIKeyCache.Set` | src/internal/core/service/auth.go:377-408 | update in place or evict and push |
| `AuthService.APIKeyCache.Delete` | src/internal/core/service/auth.go:411-419 | the key leaves map and list |
| `AuthService.APIKeyStore.Create` | src/internal/storage/memory/apikey.go:40-50 | stored unless the id is taken |
| `AuthService.APIKeyStore.Update` | src/internal/storage/memory/apikey.go:53-63 | replaced unless the id is missing |
| `AuthService.Service.CheckIPAllowlist` | src/internal/core/service/auth.go:214-256 | allowed exactly when the combined list is empty or the parsed address matches an entry |
| `AuthService.Service.ValidateAPIKey` | src/internal/core/service/auth.go:101-171 | repository, cache and outcome as one model step |
| `AuthService.Service.UpdateAPIKeyStatus` | src/internal/core/service/auth.go:603-630 | status stored, cache entry dropped, or not found |
| `AuthService.Service.InvalidateCache` | src/internal/core/service/auth.go:208-211 | the key leaves the cache, the repository is untouched |
| `AuthService.Service.RotateAPIKey` | src/internal/core/service/auth.go:640-665 | secret rotated, cache entry dropped, or not found |
| `AuthService.Service.CreateAPIKey` | src/internal/core/service/auth.go:517-540 | stored, or a storage error when the id is taken; the cache is untouched |
| `Glob.MatchGlob` | src/internal/server/redisserver/command.go:585-640 | true exactly for the strings that the pattern means, where * is any sequence and all else literal |
| `Glob.MatchParts` | src/internal/server/redisserver/command.go:611-639 | prefix, leftmost middle parts and suffix succeed exactly when the parts occur in order without overlap |
| `Glob.LeftmostIsEnough` | src/internal/server/redisserver/command.go:622-632 | taking the leftmost occurrence of a middle part loses no match |
| `Glob.MatchesIsInOrder` | src/internal/server/redisserver/command.go:611-613 | the meaning of a pattern is that its parts occur in order |
| `RespTheorems.CommandRoundTrip` | src/internal/server/redisserver/resp.go:32-158 | 1..1024 arguments of at most 512 KiB, null bulks included, read back as written, and not a byte more is consumed |
| `RespTheorems.PipelineRoundTrip` | src/internal/server/redisserver/resp.go:32-158 | commands written back to back are read one by one |
| `RespTheorems.BulkRoundTrip` | src/internal/server/redisserver/resp.go:175-192 | every bulk, null or not, reads back as written |
| `RespTheorems.InlineRoundTrip` | src/internal/server/redisserver/resp.go:42-57 | words separated by blanks and ended by CR LF, the first not beginning with an asterisk, read back as exactly those words up to 4096 bytes and leave the tail; a longer line is refused |
| `RespTheorems.BulkOfHeader` | src/internal/server/redisserver/resp.go:91-125 | what every bulk header makes of the bytes behind it: null, malformed, too long, cut off, badly ended, or the argument |
| `RespTheorems.BulkOfOtherLine` | src/internal/server/redisserver/resp.go:96-102 | a simple string is an argument, any other line is malformed |
| `RespTheorems.ArrayOfHeader` | src/internal/server/redisserver/resp.go:60-89 | what every array header makes of what follows: nothing, refused, or so many arguments |
| `RespTheorems.LongHeaderIsRefused` | src/internal/server/redisserver/resp.go:127-158 | headers of more than 64 bytes are refused |
| `RespTheorems.BytesAre` | src/internal/server/redisserver/resp.go:175-201 | the written bytes themselves |
| `RespTheorems.NumberRoundTrip` | src/internal/server/redisserver/resp.go:69-72 | printing and parsing agree on all of int64 |
| `RespTheorems.ReadLineIsFirstLine` | src/internal/server/redisserver/resp.go:127-158 | a line is returned exactly when the first line feed ends a CR LF line of legal length; the read buffer's size does not show |
| `RespTheorems.ArrayWithinLimits` | src/internal/server/redisserver/resp.go:60-125 | no accepted array command, from whatever bytes, exceeds the limits |
| `RespTheorems.CommandConsumes` | src/internal/server/redisserver/resp.go:32-57 | every read leaves a proper suffix of the stream |
| `RespTheorems.CommandIsFinal` | src/internal/server/redisserver/resp.go:32-125 | any answer but end-of-stream, errors included, is unchanged by bytes that come later, and so is the place of the next command |
| `RespReader.Reader.ReadLine` | src/internal/server/redisserver/resp.go:127-158 | the fragment loop is the line function |
| `RespReader.Reader.ReadBulkString` | src/internal/server/redisserver/resp.go:91-125 | header, null, limits, body and terminator, every error path included |
| `RespReader.Reader.ReadArrayCommand` | src/internal/server/redisserver/resp.go:60-89 | header, limits and the loop over arguments; the first error ends it |
| `RespReader.Reader.ReadCommand` | src/internal/server/redisserver/resp.go:32-58 | array or inline, on any stream |
| `RespReader.Writer.WriteBulk` | src/internal/server/redisserver/resp.go:175-192 | the bulk's bytes, or the null bulk's |
| `RespReader.Writer.WriteArrayHeader` | src/internal/server/redisserver/resp.go:198-201 | the header's bytes |
| `TokenBucket.AllowedIsBounded` | src/internal/server/redisserver/command.go:49-82 | in every run and every interval of length T an address is allowed at most rate + rate * T requests |
| `TokenBucket.RefusedIff` | src/internal/server/redisserver/command.go:49-82 | the exact verdict from the history: refused if and only if, for some earlier request i of the address, the requests allowed from i on and this one exceed rate + rate * (time since i) |
| `TokenBucket.BurstIsExact` | src/internal/server/redisserver/command.go:49-82 | of a burst at one instant exactly the first `rate` requests pass, so the bound is met |
| `TokenBucket.SpacedIsAllowed` | src/internal/server/redisserver/command.go:49-82 | a request at least 1/rate seconds after each earlier one of its address is always allowed |
| `TokenBucket.RunKeepsBuckets` | src/internal/server/redisserver/command.go:64-80 | tokens stay within zero and the rate |
| `TokenBucket.BucketsAreIndependent` | src/internal/server/redisserver/command.go:56-63 | an address's bucket depends on its own requests alone |
| `TokenBucket.VerdictsAreIndependent` | src/internal/server/redisserver/command.go:49-82 | and so do its verdicts |
| `TokenBucket.RateLimiter.Allow` | src/internal/server/redisserver/command.go:49-82 | bucket map and verdict as the model says; a rate of zero or less lets everything through |

## Left out

- Raft, gossip, mTLS, Connect RPC and shard migration (src/internal/server/clusterserver other than shard.go).
- Interleavings of goroutines: each operation is one atomic step, so a snapshot taken during a write is not covered.
- The sharding of the concurrent maps (src/pkg/cmap): they are plain maps.
- Failing file-system calls, partial writes and fsync; what survives a crash is the flushed bytes, cut anywhere.
- TriggerSnapshot as one call: the snapshot file, pruning and compaction are separate members, file names are not modelled.
- Store.List, SCAN cursors and Store.Touch; the services above the engine, except that they bump versions before Update.
- Aliasing of returned objects: the store hands out clones, so values model it; a key that ValidateAPIKey returns is
  shared with the cache, and changes a caller makes to it are not modelled.
- Deletion of API keys: the repository can do it, but no service operation does.
- Failures of random generation, JSON marshalling and encryption; generated ids, secrets and nonces are parameters.
- JSON replaces bytes that are no valid UTF-8; the law for marshalling says that every string comes back.
- Floating-point rounding in the rate limiter: tokens and seconds are reals.
- NonceCache.Contains and Add, Clear and Size of both caches, permissions and the per-key rate limiter registry.
- RESP replies other than arrays and bulks; timeouts while reading.
- LogTheorems.CrashPrefix: excludes a cut whose bytes happen to end in their own digest, because the reader would take
  them for a sealed segment; Durability.CrashRecovers likewise.
- LogRuns.CrashThenAppend: for a cut between two frames; at any other cut LogTheorems.TornTailHidesLaterFrames says what
  is read of the torn segment.
- Skipping.RunRecoversIff: for runs of Create, Update and Delete, because full replay is the live store only for those;
  the runs with bulk deletion and cleanup are those of RecoveryTheorem.ValidComeBackIff.
- A crash while a segment is being sealed, which leaves part of a digest behind the frames.
- NonceCache.Cache.AddIfAbsent: asks for a capacity of at least one, because the loop does not end otherwise.
- NonceCache.Cache.AddLocked: asks for a capacity of at least one, for the same reason.
- NonceCache.TokenService.CheckNonce: asks for a cache of capacity at least one, for the same reason.
- LogRuns.OffsetDecodes: for segment ids and sizes below 2^32, because the composite offset truncates larger ones.
- Snapshot.SnapshotRoundTrip: for headers and bodies below 4 GiB, because their length fields have 32 bits.
