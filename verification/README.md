# flyingkv in Dafny

A model of the hard parts of flyingkv and machine-checked proofs about it: the
durability stack of the store (write-ahead log, checkpoint, recovery), the
message framing of its connections, its memory pool, its token-bucket limiter
and the JSON strings of its configuration. `dafny verify dfyconfig.toml` checks
everything.

## What is modelled

- **Records** (`Codec`, `Records`): the self-checking record format of log
  segments and checkpoint files, a one-pass parse of it, and the loader that
  works batch by batch, copies an unfinished record in front of the next batch
  and calculates with 32 bits.
- **Log** (`Log`, `Segments`, `Stops`, `Opening`, `Wal`): the log as a value under
  appends, truncations and restarts; the segment files and the id-to-segment index
  that belong to it; the file operations of an append, of opening the directory and
  of a truncation one by one, and what a process that stops after any of them
  leaves; and the object `LogCleanWal`, whose methods are proved to issue exactly
  these operations and to keep memory, files and log value in step.
- **Checkpoint** (`Protocol`, `Checkpoint`): the directory as a map from names
  to bytes, saving and recovery as sequences of atomic file operations that may
  stop after any of them, and the object that issues exactly these operations.
- **Store** (`Kv`, `System`, `Losses`, `MiniKv`, `Crashes`): the map as the result
  of a history of writes, replay over a snapshot that may be newer than its id, runs
  of writes, saves, truncations and restarts, those runs that lose a write, the
  server object over the log and checkpoint objects, and runs over both directories
  in which every write, save, truncation and start may stop after any of its file
  operations.
- **Connection** (`Frames`, `Net`): frames on a byte stream, buffers, a socket
  whose kernel moves any number of bytes, blocks, closes or fails according to
  any script, and the receive and send loops.
- **Memory pool** (`MemSizes`, `MemPool`), **limiter** (`TokenBucket`) and
  **JSON strings** (`JsonSpec`, `Json`). `Arith` and `Common` are shared.

Objects that the program updates in place are classes with the same fields, and
loops are loops. What the operating system or a library decides (the answer of
the allocator, bytes moved by a call, the clock, the order a map is walked in,
the walk of the checkpoint traveller, the protobuf encoding) is a parameter.

## Where the code departs from its intent

These are results, each with the exact condition:

- A truncation stores an entry id in its marker file and initialisation reads
  it as a segment number; a truncation that removes nothing leaves the marker
  behind. Reopening gives the log back if and only if it sweeps no segment away
  (`Log.ReopenExact`), which such a marker always makes it do (`Log.MarkerSweeps`),
  and goes on with the right id if and only if a record is left
  (`Log.ReopenKeeps`); otherwise ids repeat (`Log.StaleMarkerRepeatsIds`).
  The map is whole if the snapshot reaches what is left (`System.RestartExact`). A
  write after such a truncation is lost by the next restart
  (`Losses.MarkerLosesWrite`), or skipped by the one after it
  (`Losses.MarkerSkipsWrite`).
- The interface (src/wal/iwal.h:106) says a truncation removes the ids up to the
  one given; the code removes whole segments, sparing the newest record. The two
  agree if and only if the id closes its segment and a record follows
  (`Log.TruncateExact`). A truncation that reaches past the snapshot takes exactly
  the writes in between with it (`System.UncoveredDrops`), and there is such a run
  (`Losses.TruncationLosesWrite`).
- A process that stops inside an append leaves a log that can be opened if and only
  if it stopped before the first byte of the record, behind its last one, or at the
  end (`Stops.StopExact`, `Crashes.WriteStopped`). A torn record or a new segment
  without its whole magic number makes every later start fail
  (`MiniKv.MiniKV.Start`).
- A start that is stopped leaves a log that can be opened if and only if no file it
  found was damaged, the new segment it makes where none is left is not torn, and
  it did not stop between removing the last segment and removing the marker
  (`Opening.OpenStopped`). After the latter the next start looks at the first of no
  segments (`Opening.SweepLacks`); the one after that works
  (`MiniKv.MiniKV.Start`).
- A crash between a rename and the removal of the ok flag makes every later
  initialisation fail (`Protocol.StepCommits`, `Protocol.BrokenForever`); the first
  save, stopped one step before its end, does it (`Protocol.StoppedSaveBreaks`).
- The parent of a save reports success although its child never ran, if it died
  before its first step in a directory without flags (`Protocol.ParentExact`,
  `Protocol.DeadChildReportsOk`). An entry that does not encode ends the new
  checkpoint early without notice (`Protocol.CompleteExact`).
- The sum of a length field and the size of the other fields wraps at 2^32; the
  loaders then compute an address outside their buffer. Such files are told
  apart as `OutOfBounds` (`Records.LoadBatched`); a length field of 2^32 - 17 is
  one, if at least nine bytes follow it (`Records.WildLength`).
- Replay reads the key of a delete as a C string: it does what the delete did if
  and only if the key has no zero byte (`Kv.SeenExact`). After a put and a delete of
  any key with one, a restart brings the key back (`Losses.ZeroKeyReturns`).
- A header of length zero passes the header check, but reading zero bytes is
  taken for a closed connection; no sender writes one (`Net.EndToEnd`).
- Rounding up to a slot wraps within one step of 2^32 (`MemSizes.RoundUpExact`),
  and so does the size of a page for many objects (`MemSizes.ExpandExact`).
- A truncation that fails ends the process (`MiniKv.MiniKV.CheckWal`). It fails if
  and only if the log does not hold the id, or there is nothing to remove and the
  lowest segment number is that of a segment long gone (`Log.TruncateKeeps`). After
  a save the first is the case if and only if nothing had been written when the id
  was read (`MiniKv.CutFailsExact`, `Losses.EmptyCutFails`), as long as no restart
  has swept away the records of ids still counted; one that has is enough too
  (`Losses.MarkerEndsProcess`). For the second, two checkpoints without a write in
  between are enough (`Losses.SecondTruncationFails`).
- A clock that steps back takes tokens away; the count stays in range if and only
  if it was large enough (`TokenBucket.TokenBucketLimiter.Update`).
- The computed wait is enough if and only if the time unit is no finer than a
  nanosecond, and least if and only if it is shorter than two
  (`TokenBucket.WaitSuffices`, `TokenBucket.WaitIsLeast`).
- Control characters are read as they are, though RFC 8259 rules them out
  (`JsonSpec.LiteralRead`).
- A \u escape with a character that is no hex digit is read as a zero byte
  (`JsonSpec.ReadIsSpelled`, `JsonSpec.ReadIsTokens`). A backslash in front of the closing quote can be
  met when such an escape swallowed another backslash; it is then read together
  with the quote. The output still fits (`JsonSpec.BodyFits`).

## Model

| member | source | states |
|---|---|---|
| Codec.DecEnc | src/utils/codec-utils.cc:16-85 | reading what was written gives the value back modulo the width |
| Codec.EncDec | src/utils/codec-utils.cc:16-85 | writing what was read gives the bytes back |
| Codec.WriteUInt32 | src/utils/codec-utils.cc:16-24 | exactly four cells change, to the encoding of the value |
| Codec.WriteUInt64 | src/utils/codec-utils.cc:26-42 | exactly eight cells change, to the encoding of the value |
| Codec.ReadUInt32 | src/utils/codec-utils.cc:53-64 | the value the four bytes encode |
| Codec.ReadUInt64 | src/utils/codec-utils.cc:66-85 | the value the eight bytes encode |
| Records.BuildRecord | src/wal/wals/log-clean-wal.cc:187-222 | the buffer filled field by field is the record's encoding with its start offset |
| Records.FileSnoc | src/wal/wals/log-clean-wal.cc:187-222 | appending a record to a file appends its bytes, stamped with the length the file had |
| Records.OnDisk | src/wal/wals/log-clean-wal.cc:165-236 | both file formats byte by byte: magic number, length, version, id in segments only, content, offset |
| Records.WriteThenParse | src/wal/wals/log-clean-wal.cc:394-505 | a file of written records parses to exactly these records |
| Records.AcceptedFilesAreWritten | src/wal/wals/log-clean-wal.cc:394-505 | a file is accepted if and only if it is the encoding of some records that fit and decode |
| Records.TornTail | src/wal/wals/log-clean-wal.cc:394-505 | a file cut inside its last record yields all earlier records and is reported corrupt |
| Records.ScanTakes | src/wal/wals/log-clean-wal.cc:440-483 | a step of the batch scan that takes a record takes the one the one-pass parse has there |
| Records.ScanFails | src/wal/wals/log-clean-wal.cc:440-483 | a step that fails does so with the verdict of the whole rest of the file |
| Records.ScanBatch | src/wal/wals/log-clean-wal.cc:430-500 | scanning one buffer yields the next records of the one-pass parse and stops only at an incomplete record or an error |
| Records.LoadBody | src/wal/wals/log-clean-wal.cc:394-505 | for every batch size the carry-over loop has the verdict of the one-pass parse, delivers its records on success and a prefix otherwise |
| Records.LoadBatched | src/checkpoint/checkpoints/entry-order-checkpoint.cc:107-207 | the same for a whole file in either format; batch size zero reads nothing and succeeds |
| Records.WildLength | src/wal/wals/log-clean-wal.cc:443-465 | every file whose first length field is 2^32 - 17, with at least nine bytes behind it, makes the loader read out of bounds |
| Records.LoadSegmentMaxEntryId | src/wal/wals/log-clean-wal.cc:664-724 | the look-up through the trailing offset gives the id of the last record of every file the parse accepts |
| Records.LookupAgrees | src/wal/wals/log-clean-wal.cc:664-724 | reading backwards finds the record a forward parse has last |
| Records.HeaderOnlyLookup | src/wal/wals/log-clean-wal.cc:664-724 | in a segment without records the magic number is taken for an offset, and the check behind it fails |
| Log.AppendRecords | src/wal/wals/log-clean-wal.cc:165-236 | whether or not a new segment is started, the records grow by the one appended |
| Log.TruncateKeeps | src/wal/wals/log-clean-wal.cc:238-325 | for every id: which of the three results, with nothing changed if the log does not hold the id; otherwise a prefix of segments up to the one holding it goes, and the newest record and id stay |
| Log.TruncateExact | src/wal/wals/log-clean-wal.cc:262-298 | it removes exactly the ids up to the given one if and only if that id closes its segment and a record follows |
| Log.NewestSurvives | src/wal/wals/log-clean-wal.cc:262-278 | what is left always has a record |
| Log.ReopenExact | src/wal/wals/log-clean-wal.cc:55-132 | reopening gives the log back if and only if it sweeps no segment away |
| Log.MarkerSweeps | src/wal/wals/log-clean-wal.cc:257-303 | the marker of a truncation always makes it sweep one away |
| Log.ReopenKeeps | src/wal/wals/log-clean-wal.cc:65-113 | with any marker: exactly the swept segments go, and the next id is the one that was due if and only if a record is left or nothing was swept |
| Log.RunKeeps | src/wal/wals/log-clean-wal.cc:55-325 | over every run of appends, truncations and restarts that find a record or sweep nothing, the log is the end of the history in order, with consecutive ids that never repeat |
| Log.StaleMarkerRepeatsIds | src/wal/wals/log-clean-wal.cc:257-303 | with a marker left behind, two appends get the same id |
| Log.RunRotates | src/wal/wals/log-clean-wal.cc:212-234 | over every run under one limit, a segment is closed exactly when its file reaches the limit |
| Segments.IndexIsDisk | src/wal/wals/log-clean-wal.cc:485-495 | the index names a segment for an id if and only if parsing that segment's file yields a record with the id |
| Segments.IndexAppend | src/wal/wals/log-clean-wal.cc:196-233 | one index entry more is the index of the appended log |
| Segments.IndexDrop | src/wal/wals/log-clean-wal.cc:283-324 | the index without the dropped ids is the index of the truncated log |
| Segments.IndexAllIsIndex | src/wal/wals/log-clean-wal.cc:134-162 | entering the segments one by one builds the index of the log |
| Segments.LoweredExact | src/wal/wals/log-clean-wal.cc:485-495 | the bound from which the index is cleared is the least of what was given and one below every id seen |
| Segments.ParseAllStored | src/wal/wals/log-clean-wal.cc:134-162 | the files of a stored log parse back to its segments |
| Segments.AppendStored | src/wal/wals/log-clean-wal.cc:187-236 | the files after a write are those of the appended log, new segment included |
| Segments.LastToRemove | src/wal/wals/log-clean-wal.cc:262-278 | the two decrements never both apply and give the last segment to remove |
| Segments.SortedKeys | src/wal/wals/log-clean-wal.cc:507-541 | the segment numbers found, each once, ascending |
| Stops.StopLeaves | src/wal/wals/log-clean-wal.cc:212-234 | after any operation of an append the files are those of the log without or with the record, but for one torn file that is corrupt |
| Stops.StopExact | src/wal/wals/log-clean-wal.cc:165-236 | what a stop leaves can be opened if and only if no file is torn or a marker sweeps it away; then the surviving log is found |
| Stops.FirstStop | src/wal/wals/log-clean-wal.cc:102-108 | a first segment can be opened if and only if it was not begun or has its magic number |
| Stops.KeptIsReopened | src/wal/wals/log-clean-wal.cc:71-96 | the files above the marker are those of the log as it is reopened |
| Opening.OpenStopped | src/wal/wals/log-clean-wal.cc:65-108 | a start stopped after any of its unlinks, the removal of marker and flag, or inside the new segment: the directory can be opened if and only if no file found before was damaged, the new segment is not torn and no marker is left without a segment, and exactly when that is |
| Opening.OpenFinds | src/wal/wals/log-clean-wal.cc:65-108 | what is found then is what was found before, or a new log where there was nothing |
| Opening.OpenAll | src/wal/wals/log-clean-wal.cc:65-108 | a start left to finish leaves the files found, or the first segment; no marker and no flag |
| Opening.OpenAgain | src/wal/wals/log-clean-wal.cc:71-98 | the start after it works if and only if no file found was damaged, also where it looked at the first of no segments |
| Opening.SweepLacks | src/wal/wals/log-clean-wal.cc:80-98 | one segment, a marker, and a start stopped after its first unlink: the marker is left alone |
| Opening.TruncStopped | src/wal/wals/log-clean-wal.cc:256-322 | a truncation stopped after any of its operations, the digits of the marker included: to the next start the directory is that of the log with the part of the marker written, or of the truncated log |
| Opening.IdsAbove | src/wal/wals/log-clean-wal.cc:262-278 | an id is above the number of every segment removed with it |
| Opening.MarksAre | src/wal/wals/log-clean-wal.cc:628-645 | while the marker file is written it holds the first digits of the id, one more each time |
| Wal.LogCleanWal.CreateNewSegmentFile | src/wal/wals/log-clean-wal.cc:596-626 | the next segment is created, then its magic number is written byte by byte; at the end it holds that only |
| Wal.LogCleanWal.Init | src/wal/wals/log-clean-wal.cc:55-132 | whatever the files hold: those above the marker are opened, in order, or a first one is created; a marker without any segment is removed and the first of no segments is read; exactly the operations the stop theorems speak of |
| Wal.LogCleanWal.LoadSegments | src/wal/wals/log-clean-wal.cc:134-162 | for arbitrary files: success if and only if every file is accepted, then all records, their index and the newest id; otherwise a prefix up to the first bad file |
| Wal.LogCleanWal.Load | src/wal/wals/log-clean-wal.cc:134-162 | success if and only if no file is damaged; if the files hold a log, every record comes back once, in order, and index, counters and files agree |
| Wal.LogCleanWal.WriteRecord | src/wal/wals/log-clean-wal.cc:187-234 | the record is written byte by byte, and once the file is full the next segment is made |
| Wal.LogCleanWal.AppendEntry | src/wal/wals/log-clean-wal.cc:165-236 | the error for each refusal, with nothing changed; otherwise the next id, the appended log, memory in step with the files, and exactly the operations the stop theorems speak of |
| Wal.LogCleanWal.RemoveUpTo | src/wal/wals/log-clean-wal.cc:283-298 | the files of the first segments are gone and the newest id removed is known; with none to remove, the segment below the lowest is missed |
| Wal.LogCleanWal.Truncate | src/wal/wals/log-clean-wal.cc:238-325 | state and result are those of the log value, the index is that of the files left, and exactly the operations the stop theorems speak of are issued |
| Protocol.UndigitsDigits | src/checkpoint/checkpoints/entry-order-checkpoint.cc:474-509 | the id written to the meta file is read back |
| Protocol.UndigitsExact | src/utils/common-utils.h:103-116 | a string is read as a number if and only if all its bytes are digits; leading zeros count for nothing |
| Protocol.LoadMetaExact | src/checkpoint/checkpoints/entry-order-checkpoint.cc:474-509 | no id is read if and only if the meta file is there and empty, not all digits, or above 64 bits |
| Protocol.FullSaveKeeps | src/checkpoint/checkpoints/entry-order-checkpoint.cc:271-351 | wherever the child of a save dies, the committed pair is the old one before the ok flag and the new one after it |
| Protocol.StepCommits | src/checkpoint/checkpoints/entry-order-checkpoint.cc:271-472 | for every save or initialisation, crashed or not: never a mixture; the directory breaks if and only if the crash is between a rename and the removal of the ok flag |
| Protocol.BrokenForever | src/checkpoint/checkpoints/entry-order-checkpoint.cc:393-472 | no later event mends a broken directory |
| Protocol.StoppedSaveBreaks | src/checkpoint/checkpoints/entry-order-checkpoint.cc:338-349 | the first save, stopped one step before its end, breaks the directory |
| Protocol.InitExact | src/checkpoint/checkpoints/entry-order-checkpoint.cc:393-472 | initialisation succeeds if and only if the directory is not broken, and then shows the committed pair |
| Protocol.RunCommits | src/checkpoint/checkpoints/entry-order-checkpoint.cc:271-472 | over every run with crashes, the committed pair is that of the last save that set its ok flag |
| Protocol.RecoveryExact | src/checkpoint/checkpoints/entry-order-checkpoint.cc:271-472 | after every run, the next initialisation succeeds if and only if no crash hit the window, and shows that pair whole |
| Protocol.ParentExact | src/checkpoint/checkpoints/entry-order-checkpoint.cc:244-268 | on a new id: the parent reports success if and only if the directory was not broken and the child finished, or the child never started in a clean directory; the id is that of the pair shown |
| Protocol.ParentOtherwise | src/checkpoint/checkpoints/entry-order-checkpoint.cc:244-351 | the report on every save that is not under a new id: an id already recorded, a damaged meta file |
| Protocol.DeadChildReportsOk | src/checkpoint/checkpoints/entry-order-checkpoint.cc:244-268 | a first save whose child never ran is reported as success with id 0 |
| Protocol.CompleteExact | src/checkpoint/checkpoints/entry-order-checkpoint.cc:312-312 | the new checkpoint holds all entries if and only if all of them encode |
| Checkpoint.Disk.Do | src/checkpoint/checkpoints/entry-order-checkpoint.cc:418-472 | one atomic operation, recorded in the trace |
| Checkpoint.EntryOrderCheckpoint.ReplaceOldCheckpoint | src/checkpoint/checkpoints/entry-order-checkpoint.cc:446-472 | issues the replacing operations in order up to the first that fails |
| Checkpoint.EntryOrderCheckpoint.CheckAndRecover | src/checkpoint/checkpoints/entry-order-checkpoint.cc:393-416 | issues the recovery operations of the protocol |
| Checkpoint.EntryOrderCheckpoint.Init | src/checkpoint/checkpoints/entry-order-checkpoint.cc:34-46 | success if and only if the directory was not broken, and the committed pair is in place |
| Checkpoint.EntryOrderCheckpoint.SaveNewCheckpoint | src/checkpoint/checkpoints/entry-order-checkpoint.cc:532-587 | writes the records of the entries that encode, with matching start offsets, byte by byte |
| Checkpoint.EntryOrderCheckpoint.DoSaveInChild | src/checkpoint/checkpoints/entry-order-checkpoint.cc:271-351 | issues exactly the operations the crash theorems speak of |
| Checkpoint.EntryOrderCheckpoint.DoSaveInParent | src/checkpoint/checkpoints/entry-order-checkpoint.cc:244-268 | the report for what the child left |
| Checkpoint.EntryOrderCheckpoint.Save | src/checkpoint/checkpoints/entry-order-checkpoint.cc:210-242 | a save left to finish on a new id puts the new pair in place and returns its id |
| Checkpoint.EntryOrderCheckpoint.Load | src/checkpoint/checkpoints/entry-order-checkpoint.cc:50-208 | after a save, its id and exactly its entries; otherwise the error for each damage |
| Kv.ReplayIdempotent | src/kv/mini-kv/mini-kv.cc:355-388 | replaying a suffix of the history over a later snapshot gives the final map |
| Kv.DecodeEncodeOp | src/kv/mini-kv/mini-kv.cc:324-336 | a logged write decodes to what replay will apply |
| Kv.SeenExact | src/kv/mini-kv/mini-kv.cc:366-378 | replay does what the write did, on every map, if and only if a deleted key has no zero byte |
| Kv.CStringIs | src/kv/mini-kv/mini-kv.cc:366-378 | the key of a logged delete is read up to its first zero byte |
| Kv.ReplayedDelete | src/kv/mini-kv/mini-kv.cc:366-378 | replaying it removes exactly that key |
| Kv.EntryBytes | src/kv/entries/common.h:11-15 | the type byte in front of logged puts and deletes, and which byte strings are log entries |
| Kv.ReplaySkips | src/kv/mini-kv/mini-kv.cc:355-388 | skipping entries below the applied id replays exactly a suffix |
| Kv.RebuildExact | src/kv/mini-kv/mini-kv.cc:66-84 | start-up rebuilds the map of every history if and only if the log reaches back to the snapshot |
| Kv.LostWrite | src/kv/mini-kv/mini-kv.cc:66-84 | a history whose write is lost otherwise |
| System.NextKeeps | src/kv/mini-kv/mini-kv.cc:111-427 | every write, whole or cut short behind its record, save, covered truncation and covered restart keeps log, history and checkpoint consistent |
| System.NothingLost | src/kv/mini-kv/mini-kv.cc:66-427 | over every such run, start-up rebuilds exactly the map of all writes |
| System.NothingLostFromEmpty | src/kv/mini-kv/mini-kv.cc:66-427 | the same for every run of a new store |
| System.RestartExact | src/kv/mini-kv/mini-kv.cc:66-84 | with any marker, a restart rebuilds the history from the first write that is not swept away; the map is whole if the snapshot reaches it |
| System.UncoveredLoses | src/kv/mini-kv/mini-kv.cc:399-427 | with the snapshot and log a truncation leaves that is not covered, start-up is wrong for some history of the same length |
| System.UncoveredDrops | src/kv/mini-kv/mini-kv.cc:399-427 | after a truncation not covered by the snapshot the map is that of the history without exactly the writes in between |
| Losses.TruncationLosesWrite | src/kv/mini-kv/mini-kv.cc:399-427 | a run of three writes, a save and a truncation that loses the second write |
| Losses.MarkerLosesWrite | src/wal/wals/log-clean-wal.cc:65-113 | a run of two writes with a checkpoint in between whose second write a restart loses |
| Losses.SecondTruncationFails | src/wal/wals/log-clean-wal.cc:262-303 | a run after which a checkpoint without a new write makes the truncation fail |
| Losses.MarkerSkipsWrite | src/kv/mini-kv/mini-kv.cc:355-388 | a run in which a write gets an id below the one recorded and replay skips it |
| Losses.MarkerEndsProcess | src/kv/mini-kv/mini-kv.cc:410-420 | after the same run the next checkpoint needs no save, and the truncation at the recorded id fails |
| Losses.EmptyCutFails | src/kv/mini-kv/mini-kv.cc:410-420 | so does the truncation of a checkpoint that is due before the first write |
| Losses.ZeroKeyReturns | src/kv/mini-kv/mini-kv.cc:366-378 | a put and a delete of any key with a zero byte, after which a restart brings the key back |
| System.QuietIsCovered | src/kv/mini-kv/mini-kv.cc:399-427 | without a write between snapshot and truncation, the truncation is covered |
| System.LoggedIsLogFrom | src/kv/mini-kv/mini-kv.cc:355-388 | what the log loads as is the end of the history |
| MiniKv.MiniKV.OnCheckpointLoadEntry | src/kv/mini-kv/mini-kv.cc:342-353 | the map loaded has exactly the keys of the checkpoint's pairs, each with the value of its last pair |
| MiniKv.FromListExact | src/kv/mini-kv/mini-kv.cc:342-353 | entering pairs one by one gives exactly that map |
| MiniKv.ListsOne | src/kv/mini-kv/mini-kv.cc:342-353 | and no other map has these keys and values |
| MiniKv.Walked | src/kv/mini-kv/mini-kv-traveller.cc:27-34 | every map can be walked pair by pair, each key once, so that loading gives it back |
| MiniKv.MiniKV.OnWalLoadEntries | src/kv/mini-kv/mini-kv.cc:355-388 | map and applied id are those of replay |
| MiniKv.MiniKV.LoadCheckpoint | src/kv/mini-kv/mini-kv.cc:66-84 | success if and only if the directory is not broken, then the snapshot and its id |
| MiniKv.MiniKV.LoadLog | src/kv/mini-kv/mini-kv.cc:78-84 | whatever the log found is: success if and only if no file found is damaged and no marker is left without a segment; then the log is replayed over the snapshot |
| MiniKv.MiniKV.Start | src/kv/mini-kv/mini-kv.cc:66-103 | wherever the process before stopped: fails if and only if the checkpoint directory is broken, a log file found is damaged, or a marker is left without a segment, and all but the last make the next start fail too; otherwise the map is that of snapshot and log, whatever they are, and all writes are back if the snapshot covers what a marker swept away |
| MiniKv.MiniKV.Put | src/kv/mini-kv/mini-kv.cc:111-162 | the refusals, with nothing changed; otherwise the next write of the history, logged before it is applied |
| MiniKv.MiniKV.Delete | src/kv/mini-kv/mini-kv.cc:207-259 | the same for deletes |
| MiniKv.MiniKV.SaveCheckpoint | src/kv/mini-kv/mini-kv.cc:410-413 | under an id read before: the checkpoint of the map, or the one there was if the id is not newer; the id reported |
| MiniKv.MiniKV.CheckWal | src/kv/mini-kv/mini-kv.cc:399-427 | with any writes of other threads between reading the id, the snapshot and the truncation: the process ends if and only if a save is reported and nothing had been written when the id was read or there is nothing to cut; the store goes on if the snapshot covers the truncation; otherwise exactly the writes between snapshot and log are gone from the disk |
| MiniKv.CutFailsExact | src/kv/mini-kv/mini-kv.cc:399-427 | the truncation after a save fails if and only if nothing had been written when the id was read, or there is nothing to remove and the lowest segment number is that of a segment long gone |
| MiniKv.InterleavedKeeps | src/kv/mini-kv/mini-kv.cc:399-427 | saving amid writes keeps log, history and checkpoint consistent, and the log holds the id if there was one |
| MiniKv.TruncationLeaves | src/kv/mini-kv/mini-kv.cc:414-420 | what a truncation at the recorded id leaves on disk starts up to all writes, or to all but those between snapshot and log |
| Crashes.WriteStopped | src/kv/mini-kv/mini-kv.cc:131-146 | a write stopped after any file operation: the log can be opened if and only if no file is torn or a marker sweeps it away, and then holds the history without the write or with it |
| Crashes.WriteWhole | src/kv/mini-kv/mini-kv.cc:131-146 | one that is not stopped leaves the directory of the history with it |
| Crashes.TruncationStopped | src/kv/mini-kv/mini-kv.cc:414-420 | a truncation stopped after any file operation: the log can be opened, with part of the marker, all of it, or truncated, and the system stays consistent if and only if what is left reaches back to the snapshot |
| Crashes.SaveStopped | src/kv/mini-kv/mini-kv.cc:409-413 | a save stopped after any file operation, in any directory that is not broken: it leaves it broken, or the checkpoint before it, or the one it was to make, and exactly when which |
| Crashes.RecoveryStopped | src/kv/mini-kv/mini-kv.cc:67-70 | a recovery stopped after any file operation leaves a broken directory or the checkpoint before it |
| Crashes.StoppedIdle | src/kv/mini-kv/mini-kv.cc:66-103 | a store stopped between two operations is found intact, with any marker |
| MiniKv.MiniKV.KeepsCheckpoint | src/kv/mini-kv/mini-kv.cc:66-84 | a checkpoint stays that of the history as writes are added |
| Crashes.RestartValid | src/kv/mini-kv/mini-kv.cc:66-84 | a restart keeps the system consistent if and only if the snapshot covers what it sweeps away and a record is left |
| Crashes.StepExact | src/kv/mini-kv/mini-kv.cc:66-427 | after any write, save, truncation, stop or start that gets any number of steps far, both directories hold the system if and only if the act was harmless: no torn file, no stop in the rename window or between last segment and marker, nothing removed that the snapshot lacks |
| Crashes.RunExact | src/kv/mini-kv/mini-kv.cc:66-427 | over every run of such acts they hold it all the time if and only if every act was harmless, and the history is that of the writes whose record was whole |
| Crashes.NothingLostOnDisk | src/kv/mini-kv/mini-kv.cc:66-427 | the same from two empty directories, and the map the next start comes to |
| Crashes.FirstWriteExact | src/kv/mini-kv/mini-kv.cc:66-146 | a run of a new store that starts, stops anywhere in its first write and starts again: always possible, and harmless if and only if no file is torn |
| Crashes.StartAfter | src/kv/mini-kv/mini-kv.cc:66-103 | the process after any such run starts up and has the map of exactly the writes whose record was whole, if the snapshot covers what a marker sweeps away |
| Crashes.StartAfterWrite | src/kv/mini-kv/mini-kv.cc:66-146 | a write stopped after any file operation and the start after it: success if and only if no file is torn or a marker sweeps it away, and the map without the write or with it |
| MiniKv.LastApplies | src/kv/mini-kv/mini-kv.cc:355-388 | after start-up the id applied last is that of the last write |
| Frames.HeaderRoundTrip | src/net/snd-message.cc:66-86 | a written header is accepted and read back |
| Frames.OnWire | src/net/snd-message.cc:66-86 | a message byte by byte: magic number, id, length, payload; payloads of up to 64 MiB |
| Frames.GoodHeaderIsWritten | src/net/rcv-message.cc:14-49 | every accepted header is the encoding of the id and length read |
| Frames.FirstMessage | src/net/rcv-message.cc:14-49 | a stream begins with at most one message |
| Frames.Delivered | src/net/net-protocol-stacks/nonblocking/socket/network-api/posix/tcp/net-stack-worker.cc:155-202 | however a stream is cut: the messages made of its first bytes are exactly those that lie whole in them, in order |
| Frames.NoBadFrame | src/net/rcv-message.cc:14-49 | nothing a sender writes looks like a bad header |
| Net.Buffer.MoveHeadBack | src/common/buffer.h:59-67 | the window shrinks at the front and is unavailable once empty |
| Net.Buffer.MoveTailBack | src/common/buffer.h:73-80 | the window grows at the back, or begins at the start of the memory |
| Net.Receiver.DecodeMsgHeader | src/net/rcv-message.cc:14-49 | accepted if and only if magic number and length bound hold, then id and length |
| Net.Receiver.StepHeader | src/net/net-protocol-stacks/nonblocking/socket/network-api/posix/tcp/net-stack-worker.cc:37-66 | a turn in the header states accounts for every byte taken |
| Net.Receiver.StepPayload | src/net/net-protocol-stacks/nonblocking/socket/network-api/posix/tcp/net-stack-worker.cc:68-97 | a turn in the payload states, likewise; a whole payload is handed on |
| Net.Receiver.Recv | src/net/net-protocol-stacks/nonblocking/socket/network-api/posix/tcp/net-stack-worker.cc:155-202 | for every script of the kernel: the bytes taken are the messages delivered and part of one more; it gives up only on a closed or failed connection or a bad header; it stops only when one message is in and one is wanted, nothing is waiting, the kernel would block, or part of a message is in and the kernel gave less than asked for |
| Net.Sender.Encode | src/net/snd-message.cc:43-86 | the buffer holds the encoding; it throws if and only if the payload is empty or above 64 MiB |
| Net.Sender.WriteSome | src/net/net-protocol-stacks/nonblocking/socket/network-api/posix/tcp/net-stack-worker.cc:213-237 | bytes written and bytes left make up the messages taken |
| Net.Sender.Send | src/net/net-protocol-stacks/nonblocking/socket/network-api/posix/tcp/net-stack-worker.cc:204-247 | nothing is repeated, skipped or reordered; unless the kernel blocks or fails, the queue is sent to the end |
| Net.EndToEnd | src/net/net-protocol-stacks/nonblocking/socket/network-api/posix/tcp/net-stack-worker.cc:155-247 | the messages delivered are the first ones taken off the queue, each once and in order, and every one that has arrived whole |
| Net.AllDelivered | src/net/net-protocol-stacks/nonblocking/socket/network-api/posix/tcp/net-stack-worker.cc:155-247 | once everything is sent and read, everything is delivered |
| Net.RecvAll | src/net/net-protocol-stacks/nonblocking/socket/network-api/posix/tcp/net-stack-worker.cc:155-202 | one call on a connection that carries everything sent, with a kernel that moves all it can: every message is delivered, once and in order |
| MemSizes.RoundUpExact | src/sys/mem-pool.h:183-193 | the least multiple of the step that is no smaller, if and only if it is below 2^32, and zero otherwise |
| MemSizes.ExpandExact | src/sys/mem-pool.h:199-207 | the fewest whole pages that hold the objects, if and only if they end below 2^32 |
| MemSizes.SlotFits | src/sys/mem-pool.cc:127-172 | every request finds an existing slot whose objects are large enough; it is the tiny one up to 16 bytes, a small one up to a page, wasting less than 32 bytes, and a big one above, wasting less than a page |
| MemSizes.SlotIsLeast | src/sys/mem-pool.cc:127-172 | no slot whose objects are large enough has smaller ones |
| MemSizes.PageHolds | src/sys/mem-pool.cc:176-181 | a page of every slot holds all the objects it is cut into; above the tiny size at least 32, in the fewest whole pages |
| MemPool.CellsApart | src/sys/mem-pool.cc:383-391 | the objects a page is cut into do not overlap |
| MemPool.SplitMemPage | src/sys/mem-pool.cc:383-391 | all the objects of the page, each once |
| MemPool.WhollyFree | src/sys/mem-pool.cc:267-269 | a free list is as long as the page has objects if and only if none is in use |
| MemPool.FindWhollyFree | src/sys/mem-pool.cc:267-277 | a page with all objects free, or none exists |
| MemPool.PutBack | src/sys/mem-pool.cc:281-308 | counters and lists stay exact, and only a page without an object in use is released |
| MemPool.MemPool.constructor | src/sys/mem-pool.cc:51-90 | all slots exist and nothing is in use |
| MemPool.MemPool.AllocPageObjs | src/sys/mem-pool.cc:416-429 | one page more, apart from all others, wholly free |
| MemPool.MemPool.GetFreeObj | src/sys/mem-pool.cc:431-445 | one object more in use, none other affected |
| MemPool.MemPool.Get | src/sys/mem-pool.cc:124-191 | an object not in use before, of the class for its size and the smallest size on offer that is enough, or none if the slot is empty and the allocator refuses |
| MemPool.MemPool.Put | src/sys/mem-pool.cc:236-335 | exactly this object is free again; a released page has no object in use |
| MemPool.Disjoint | src/sys/mem-pool.cc:124-335 | in every reachable state objects in use do not overlap |
| MemPool.Inside | src/sys/mem-pool.cc:124-335 | in every reachable state an object in use lies inside a page the pool owns |
| MemPool.CountIsExact | src/sys/mem-pool.cc:128-335 | the counter is the length of the free lists, and at the limit every page has an object in use |
| TokenBucket.TokenBucketLimiter.CalcTokensToAdd | src/acc/limiters/token-bucket-limiter.cc:141-149 | whatever the clock does, tokens and carried fraction grow by speed times time; the fraction stays below a token |
| TokenBucket.TokenBucketLimiter.Update | src/acc/limiters/token-bucket-limiter.cc:125-139 | the tokens are those accrued, up to the capacity, and the rest is carried; if the clock stepped back they shrink, and stay in range if and only if they were enough |
| TokenBucket.TokenBucketLimiter.ConsumeTokens | src/acc/limiters/token-bucket-limiter.cc:163-170 | all the tokens asked for or none |
| TokenBucket.TokenBucketLimiter.UpdateAndConsumeTokens | src/acc/limiters/token-bucket-limiter.cc:158-161 | success if and only if the accrued tokens are enough |
| TokenBucket.TokenBucketLimiter.CalWaitTime | src/acc/limiters/token-bucket-limiter.cc:172-181 | the least number of units in which the tokens accrue, in nanoseconds, a second being 1000000000 of them; no result if and only if the speed is zero |
| TokenBucket.TokenBucketLimiter.PutTokens | src/acc/limiters/token-bucket-limiter.cc:184-190 | added up to the capacity |
| TokenBucket.Conserved | src/acc/limiters/token-bucket-limiter.cc:116-190 | over every run of updates, requests and returns, tokens come only from time and go only by use and overflow |
| TokenBucket.NoDrift | src/acc/limiters/token-bucket-limiter.cc:125-149 | in every window, however it is cut into updates, without overflow the tokens that appeared are the whole part of what was carried and speed times time |
| TokenBucket.StepLoses | src/acc/limiters/token-bucket-limiter.cc:125-139 | exactly when a step loses something to overflow |
| TokenBucket.UsageBound | src/acc/limiters/token-bucket-limiter.cc:158-190 | use in any window without returns is at most the capacity, the whole part of speed times time, and one |
| TokenBucket.WaitSuffices | src/acc/limiters/token-bucket-limiter.cc:72-98 | the computed wait is enough if and only if the unit is no finer than a nanosecond |
| TokenBucket.WaitIsLeast | src/acc/limiters/token-bucket-limiter.cc:172-181 | with nothing carried, no shorter wait is enough if and only if a unit is shorter than two nanoseconds |
| TokenBucket.WaitThenConsume | src/acc/limiters/token-bucket-limiter.cc:72-98 | waiting that long and asking again: the tokens are granted if the unit is a second or finer, on time if and only if; with a unit of a second and nothing carried no shorter wait is enough |
| JsonSpec.Utf8Decodes | src/3rd/cjson/cJSON.c:640-689 | the bytes written for a code point are the UTF-8 of section 3 of RFC 3629 and decode to it |
| JsonSpec.PrintThenParse | src/3rd/cjson/cJSON.c:698-946 | what is printed for a zero-free string, whatever follows, is read back as that string, up to the closing quote |
| JsonSpec.LiteralRead | src/3rd/cjson/cJSON.c:698-799 | every literal by section 7 of RFC 8259, raw control characters too: bytes as they are, the eight two-character escapes, code points in hex; it is read as what its pieces mean, whatever follows |
| JsonSpec.ReadIsTokens | src/3rd/cjson/cJSON.c:744-799 | and a literal that is read is made of such pieces, or of \u with four characters that are not all digits, and means what they mean |
| JsonSpec.OtherEscapesStop | src/3rd/cjson/cJSON.c:761-795 | a backslash in front of any other character stops the reader there |
| JsonSpec.EscapeIsShortest | src/3rd/cjson/cJSON.c:854-946 | no piece that RFC 8259 allows for a byte is shorter than what is printed for it |
| JsonSpec.HexDigits | src/3rd/cjson/cJSON.c:540-573 | the value of every hex digit |
| JsonSpec.StepFits | src/3rd/cjson/cJSON.c:711-799 | no step of the reader writes more than the scan set aside for its stretch of input, even where both cut it differently |
| JsonSpec.ValueFits | src/3rd/cjson/cJSON.c:711-802 | on every literal that is accepted, value and terminator fit the space allocated |
| JsonSpec.SpelledIsRead | src/3rd/cjson/cJSON.c:577-695 | every escape that spells a code point, surrogate pairs included, is read as its UTF-8 |
| JsonSpec.ReadIsSpelled | src/3rd/cjson/cJSON.c:577-695 | an accepted escape of hex digits spells the code point written; one with another character is read as a zero byte |
| Json.ParseHex4 | src/3rd/cjson/cJSON.c:540-573 | the number four digits spell, or zero |
| Json.EncodeUtf8 | src/3rd/cjson/cJSON.c:640-689 | the UTF-8 of the code point is written behind what was there |
| Json.Utf16LiteralToUtf8 | src/3rd/cjson/cJSON.c:577-695 | length consumed and bytes written are those of the escape, zero on failure |
| Json.ScanLiteral | src/3rd/cjson/cJSON.c:711-733 | the closing quote that is not escaped, and the number of escapes |
| Json.ReadLiteral | src/3rd/cjson/cJSON.c:744-799 | every write is inside the allocation, also on literals that fail later; the value is that of the literal |
| Json.ParseString | src/3rd/cjson/cJSON.c:698-824 | value, terminator and offset on success, the offset of the failure otherwise |
| Json.CountEscapes | src/3rd/cjson/cJSON.c:854-878 | the escaped length is predicted exactly |
| Json.PrintString | src/3rd/cjson/cJSON.c:827-946 | the literal fills exactly the space predicted |

## Left out

- File-system errors other than a missing file, fsync, fork, waitpid and lock calls: a file operation is one atomic step, and a process may stop between any two.
- Codec.WriteUInt32: 16-bit values and the big-endian host variant are not modelled.
- Wal.LogCleanWal.Init: parsing of file names and the accepted forms of `strtoul` beyond plain digits are not modelled.
- Records.LoadBody: file and batch size together stay below 2^32, where the size of the read buffer would wrap.
- Records.LoadBatched: the same bound.
- Wal.LogCleanWal.LoadSegments: the same bound for every segment file.
- Wal.LogCleanWal.Load: the same.
- Wal.LogCleanWal.AppendEntry: ids fit 64 bits, and the size of the current segment and two batches 32 bits; the segment limit keeps it so unless stops between a record and the next segment recur in one segment.
- MiniKv.MiniKV.LoadLog: the same bound for every segment file; the snapshot is the map of some first part of the history.
- MiniKv.MiniKV.Start: the same; that the store runs afterwards is stated for a last segment that leaves the same room, and a history whose ids have not begun again.
- Crashes.RunExact: a write needs the same room; a child that outlives its parent and still writes is not modelled.
- Checkpoint.EntryOrderCheckpoint.Save: the new checkpoint file is below 2^32 bytes, and the snapshot is the whole map at the time of the fork.
- Protobuf: key-value messages are an abstract codec that decodes what it encodes.
- Get and Scan of the store, locking between threads.
- MiniKv.MiniKV.CheckWal: whether the log is large enough is a parameter, and so are the writes of other threads; deleted keys have no zero byte, and ids have not begun again.
- Net.Receiver.Recv: the handshake, and which handler a message is passed to, are not modelled; the payload buffer that is allocated again after a blocked first read is not tracked as a leak.
- Net.Sender.Encode: messages with 64-bit ids, as the build is configured.
- MemPool.MemPool.constructor: the thresholds are the default ones; those of the six-argument constructor are not modelled.
- MemPool.MemPool.Get: requests above the bulk threshold, whose page set is reset on every expansion, are not modelled; counters and limits do not reach 2^32; locks are not modelled.
- MemPool.MemPool.Put: an object is given back once; giving it back twice is outside the model.
- TokenBucket.TokenBucketLimiter.Update: 64-bit overflow is not modelled.
- GrantUntil of the limiter: it refuses every deadline that still lies ahead, so its loop has no useful property.
- Json.PrintString: the growth of the print buffer is not modelled; it has the room asked for.
- The rest of cJSON: numbers are printed in floating point, and the other functions add only easy members.
- Event workers, thread pool, RPC plumbing, timers: operating-system concurrency with little state to speak about.
