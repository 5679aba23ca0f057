/** The write-ahead log object: it opens a directory of segment files, loads
    them, appends to the last and removes the first ones. */
module Wal {
  import opened Codec
  import opened Common
  import opened Records
  import opened Segments
  import opened Stops
  import opened Opening
  import L = Log

  /** Segment files by number, the marker file of a truncation and its ok flag;
      and, for the proofs, every operation on any of them. */
  class Directory {
    var segs: SegFiles
    var truncMeta: Option<nat>
    var truncOk: bool
    ghost var trace: seq<FileOp>

    constructor ()
      ensures segs == map[] && truncMeta == None && !truncOk && trace == []
    {
      segs, truncMeta, truncOk, trace := map[], None, false, [];
    }

    function Value(): Dir
      reads this`segs, this`truncMeta, this`truncOk
    {
      Dir(segs, truncMeta, truncOk)
    }

    method Issue(op: FileOp)
      requires OnSegments([op])
      modifies this`segs, this`trace
      ensures Value() == DoDir(old(Value()), op) && segs == Do(old(segs), op) && trace == old(trace) + [op]
    {
      assert op in [op];
      segs, trace := Do(segs, op), trace + [op];
    }

    method Flag(op: FileOp)
      requires op.SetMeta? || op.SetOk? || op.DropMeta? || op.DropOk?
      modifies this`truncMeta, this`truncOk, this`trace
      ensures Value() == DoDir(old(Value()), op) && trace == old(trace) + [op]
    {
      trace := trace + [op];
      match op
      case SetMeta(id) => truncMeta := Some(id);
      case SetOk => truncOk := true;
      case DropMeta => truncMeta := None;
      case DropOk => truncOk := false;
    }

    method WriteFully(n: nat, bytes: seq<byte>)
      requires n in segs
      modifies this`segs, this`trace
      ensures segs == old(segs)[n := old(segs)[n] + bytes] && trace == old(trace) + Writes(n, bytes)
    {
      assert old(segs)[n] + [] == old(segs)[n];
      for i := 0 to |bytes|
        invariant segs == old(segs)[n := old(segs)[n] + bytes[..i]]
        invariant trace == old(trace) + Writes(n, bytes[..i])
      {
        Issue(Write(n, bytes[i]));
        assert bytes[..i + 1] == bytes[..i] + [bytes[i]];
        WritesConcat(n, bytes[..i], [bytes[i]]);
        assert old(segs)[n] + bytes[..i] + [bytes[i]] == old(segs)[n] + bytes[..i + 1];
      }
      assert bytes[..|bytes|] == bytes;
    }
  }

  class LogCleanWal {
    const dir: Directory
    const isEntry: seq<byte> -> bool
    const version: byte
    const segMax: nat
    const batch: nat

    var inited: bool
    var loaded: bool
    var initSegments: seq<nat>
    var index: map<nat, nat>
    var lastTruncMaxIdx: nat
    var currentEntryIdx: nat
    var curSegFileSize: nat
    var currentSegmentId: nat
    var minSegmentId: nat

    /** The log the directory holds. */
    ghost var log: L.Log

    /** The sizes the constructor insists on, and file sizes that fit 32 bits. */
    ghost predicate Config() {
      17 <= segMax && 17 <= batch && segMax + 2 * batch <= U32
    }

    constructor (dir: Directory, isEntry: seq<byte> -> bool, version: byte, segMax: nat, batch: nat)
      requires 17 <= segMax && 17 <= batch && segMax + 2 * batch <= U32
      ensures this.dir == dir && this.isEntry == isEntry && this.version == version
      ensures this.segMax == segMax && this.batch == batch && New()
    {
      this.dir, this.isEntry, this.version, this.segMax, this.batch := dir, isEntry, version, segMax, batch;
      inited, loaded, initSegments, index := false, false, [], map[];
      lastTruncMaxIdx, currentEntryIdx := 1, 1;
      curSegFileSize, currentSegmentId, minSegmentId := 0, 0, 0;
      log := L.FRESH;
    }

    ghost predicate New()
      reads this
    {
      Config() && !inited && !loaded && index == map[] && lastTruncMaxIdx == currentEntryIdx == 1
    }

    /** The directory holds exactly `log`. */
    ghost predicate Stored()
      reads this, dir
    {
      && Config() && HasRoom(log, batch)
      && dir.segs == Files(log.lo, log.segs) && !dir.truncOk
      && Storable(log, isEntry, batch)
      && currentSegmentId == log.Hi()
    }

    ghost function State(): L.State
      reads this, dir
    {
      L.State(log, minSegmentId, dir.truncMeta)
    }

    /** Opened, and not loaded yet, whatever is in the files. */
    ghost predicate Opened()
      reads this, dir
    {
      && Config() && inited && !loaded
      && !dir.truncOk && dir.truncMeta == None
      && index == map[] && lastTruncMaxIdx == currentEntryIdx == 1
      && Ascending(initSegments)
      && if initSegments == [] then
           dir.segs == map[1 := FileBytes(WAL_FORMAT, [])] && minSegmentId == currentSegmentId == 1
               && curSegFileSize == 4
         else
           && Elements(initSegments) == dir.segs.Keys
           && minSegmentId == initSegments[0] && currentSegmentId == initSegments[|initSegments| - 1]
    }

    /** Loaded, with everything in memory in step with the directory. */
    ghost predicate Valid()
      reads this, dir
    {
      && Stored() && inited && loaded && State().Valid()
      && curSegFileSize == |FileBytes(WAL_FORMAT, log.segs[|log.segs| - 1])|
      && currentEntryIdx == log.LastId()
      && index == IndexOf(log)
      && lastTruncMaxIdx <= log.first
    }

    /** The file is there before its magic number is. */
    method CreateNewSegmentFile()
      requires currentSegmentId + 1 !in dir.segs
      modifies this`currentSegmentId, this`curSegFileSize, dir`segs, dir`trace
      ensures currentSegmentId == old(currentSegmentId) + 1 && curSegFileSize == 4
      ensures dir.segs == old(dir.segs)[currentSegmentId := FileBytes(WAL_FORMAT, [])]
      ensures dir.trace == old(dir.trace) + NewSegment(currentSegmentId)
    {
      hide FileBytes, Enc, Writes, NewSegment;
      currentSegmentId := currentSegmentId + 1;
      dir.Issue(Create(currentSegmentId));
      var header := new byte[4];
      WriteUInt32(header, 0, WAL_FORMAT.magic);
      NewSegmentIs(currentSegmentId);
      assert header[..] == header[0..4];
      dir.WriteFully(currentSegmentId, header[..]);
      assert [] + header[..] == header[..];
      curSegFileSize := 4;
    }

    /** Makes the marker file of a truncation. */
    method CreateTruncInfo(id: nat)
      modifies dir`truncMeta, dir`truncOk, dir`trace
      ensures dir.truncMeta == Some(id) && dir.truncOk == old(dir.truncOk)
      ensures dir.trace == old(dir.trace) + Marks(id)
    {
      var ops := Marks(id);
      for i := 0 to |ops|
        invariant dir.truncOk == old(dir.truncOk) && (i > 0 ==> dir.truncMeta == Some(ops[i - 1].id))
        invariant dir.trace == old(dir.trace) + ops[..i]
      {
        dir.Flag(ops[i]);
      }
      assert ops[..|ops|] == ops;
    }

    method CleanTruncStatus()
      modifies dir`truncMeta, dir`truncOk, dir`trace
      ensures dir.truncMeta == None && !dir.truncOk && dir.trace == old(dir.trace) + [DropMeta, DropOk]
    {
      dir.Flag(DropMeta);
      dir.Flag(DropOk);
    }

    method FinishTruncation()
      modifies dir`truncMeta, dir`truncOk, dir`trace
      ensures dir.truncMeta == None && !dir.truncOk && dir.trace == old(dir.trace) + [SetOk, DropMeta, DropOk]
    {
      dir.Flag(SetOk);
      CleanTruncStatus();
    }

    method UnlinkFrom(from: nat, upto: int)
      modifies dir`segs, dir`trace
      ensures dir.segs == Without(old(dir.segs), from, from + |Unlinks(from, upto)|)
      ensures dir.trace == old(dir.trace) + Unlinks(from, upto)
    {
      hide Unlinks;
      var i := from;
      UnlinksNext(from, from);
      UnlinksNone(from, upto);
      while i <= upto
        invariant from <= i && (i == from || i <= upto + 1)
        invariant dir.segs == Without(old(dir.segs), from, i) && dir.trace == old(dir.trace) + Unlinks(from, i - 1)
      {
        dir.Issue(Unlink(i));
        UnlinksNext(from, i);
        i := i + 1;
      }
    }

    /** Removes the segments numbered up to the marker, from the directory and
        from the list. */
    method Sweep(found: seq<nat>, marker: nat) returns (ids: seq<nat>)
      requires Ascending(found) && Elements(found) == dir.segs.Keys && found != []
      modifies dir`segs, dir`trace
      ensures dir.segs == Kept(old(dir.segs), Some(marker))
      ensures dir.trace == old(dir.trace) + Unlinks(found[0], marker)
      ensures Ascending(ids) && Elements(ids) == dir.segs.Keys
    {
      hide Unlinks;
      ids := found;
      LeastFirst(found);
      UnlinkFrom(found[0], marker);
      assert dir.segs == Kept(old(dir.segs), Some(marker));
      while ids != [] && ids[0] <= marker
        invariant Ascending(ids)
        invariant forall n | n in old(dir.segs) :: n > marker ==> n in ids
        invariant forall n | n in ids :: n in old(dir.segs)
      {
        ids := ids[1..];
      }
      AllAbove(ids, marker);
    }

    /** Starts from the segments found, or creates the first one. */
    method StartFrom(ids: seq<nat>)
      requires New() && Ascending(ids) && Elements(ids) == dir.segs.Keys
      modifies this, dir
      ensures inited && Opened() && (initSegments == [] <==> old(dir.segs) == map[])
      ensures dir.segs == if old(dir.segs) == map[] then map[1 := FileBytes(WAL_FORMAT, [])] else old(dir.segs)
      ensures dir.truncMeta == None && !dir.truncOk
      ensures dir.trace == old(dir.trace) + [DropMeta, DropOk] + if old(dir.segs) == map[] then NewSegment(1) else []
    {
      hide FileBytes;
      NoElements(ids);
      inited := true;
      CleanTruncStatus();
      if ids == [] {
        minSegmentId, currentSegmentId := 1, 0;
        assert dir.segs == map[];
        CreateNewSegmentFile();
      } else {
        minSegmentId, currentSegmentId := ids[0], ids[|ids| - 1];
      }
      initSegments := ids;
    }

    /** Opens the directory, whatever its files hold.  A truncation marker without
        its ok flag makes it first remove every segment numbered up to the
        marker; if there is no segment at all it looks at the first one anyway. */
    method Init() returns (code: Code)
      requires New()
      modifies this, dir
      ensures inited && dir.trace == old(dir.trace) + OpenOps(old(dir.Value()))
      ensures dir.Value() == ExecDir(old(dir.Value()), OpenOps(old(dir.Value())))
      ensures var found := Found(old(dir.Value()));
              if LacksSegment(old(dir.Value())) then
                code == OutOfBounds
              else
                && code == OK && Opened() && (initSegments == [] <==> found == map[])
                && dir.segs == if found == map[] then map[1 := FileBytes(WAL_FORMAT, [])] else found
    {
      hide Sweeps, Unlinks, NewSegment, Opened, Elements, Ascending, FileBytes, Lowest, ExecDir, Files;
      NothingToSweep(dir.Value());
      OpenAll(dir.Value());
      FreshStored(isEntry, batch);
      var marker := Marker(dir.Value());
      var ids := SortedKeys(dir.segs.Keys);
      NoElements(ids);
      if marker.Some? {
        if ids == [] {
          inited := true;
          CleanTruncStatus();
          return OutOfBounds;
        }
        LeastFirst(ids);
        SweepsFrom(dir.Value(), ids[0]);
        ids := Sweep(ids, marker.value);
      }
      StartFrom(ids);
      code := OK;
    }

    /** Enters one segment's records into the index. */
    method Note(recs: seq<Record>, segId: nat)
      modifies this`index, this`currentEntryIdx, this`lastTruncMaxIdx
      ensures index == Indexed(old(index), segId, recs)
      ensures currentEntryIdx == LastIdOr(recs, old(currentEntryIdx))
      ensures lastTruncMaxIdx == Lowered(recs, old(lastTruncMaxIdx))
    {
      for i := 0 to |recs|
        invariant index == Indexed(old(index), segId, recs[..i])
        invariant currentEntryIdx == LastIdOr(recs[..i], old(currentEntryIdx))
        invariant lastTruncMaxIdx == Lowered(recs[..i], old(lastTruncMaxIdx))
      {
        var id := recs[i].id;
        index := index[id := segId];
        if id > 0 && lastTruncMaxIdx > id - 1 {
          lastTruncMaxIdx := id - 1;
        }
        currentEntryIdx := id;
        assert recs[..i + 1][..i] == recs[..i];
      }
      assert recs[..|recs|] == recs;
    }

    /** Loads the listed segments one after the other, whatever is in them, and
        stops at the first that fails. */
    method LoadSegments() returns (code: Code, delivered: seq<Record>)
      requires Config() && initSegments != [] && index == map[]
      requires forall n | n in initSegments :: n in dir.segs && |dir.segs[n]| + batch < U32
      modifies this`index, this`currentEntryIdx, this`lastTruncMaxIdx, this`curSegFileSize
      ensures lastTruncMaxIdx <= old(lastTruncMaxIdx)
      ensures code == OK <==> forall n | n in initSegments :: FileVerdict(WAL_FORMAT, isEntry, dir.segs[n]) == OK
      ensures code == OK ==>
                var ids, segs := initSegments, ParseAll(isEntry, dir.segs, initSegments);
                && delivered == L.Concat(segs) && index == IndexAll(ids, segs)
                && currentEntryIdx == LastIdOr(L.Concat(segs), old(currentEntryIdx))
                && curSegFileSize == |dir.segs[ids[|ids| - 1]]|
      ensures code != OK ==>
                exists k | 0 <= k < |initSegments| :: FailsAt(k, isEntry, dir.segs, initSegments, code, delivered)
    {
      hide ParseFile, FileVerdict, Indexed, IndexAll, L.Concat;
      var ids := initSegments;
      ghost var segs := ParseAll(isEntry, dir.segs, ids);
      delivered := [];
      IndexAllNext(ids, segs, 0);
      L.ConcatNothing<Record>();
      assert segs[..0] == [];
      for i := 0 to |ids|
        invariant forall j | 0 <= j < i :: FileVerdict(WAL_FORMAT, isEntry, dir.segs[ids[j]]) == OK
        invariant delivered == L.Concat(segs[..i]) && index == IndexAll(ids[..i], segs[..i])
        invariant currentEntryIdx == LastIdOr(delivered, old(currentEntryIdx))
        invariant lastTruncMaxIdx <= old(lastTruncMaxIdx)
        invariant i == |ids| ==> curSegFileSize == |dir.segs[ids[|ids| - 1]]|
      {
        var file := dir.segs[ids[i]];
        var more, seen;
        code, more, seen := LoadBatched(WAL_FORMAT, isEntry, file, batch);
        Note(seen, ids[i]);
        ConcatNext(segs, i);
        delivered := delivered + more;
        if code != OK {
          assert FailsAt(i, isEntry, dir.segs, ids, code, delivered);
          return;
        }
        IndexAllNext(ids, segs, i);
        if i == |ids| - 1 {
          curSegFileSize := |file|;
        }
      }
      assert ids[..|ids|] == ids && segs[..|segs|] == segs;
      code := OK;
    }

    ghost predicate Holds(found: L.Log)
      reads dir
    {
      found.segs != [] && dir.segs == Files(found.lo, found.segs) && Storable(found, isEntry, batch)
    }

    /** Loads the log, whatever is in the files: it succeeds exactly if none is
        damaged.  If they hold a log, every record comes back once, in order, and
        memory is in step with the disk. */
    method Load(ghost found: L.Log) returns (code: Code, delivered: seq<Record>)
      requires inited ==> Opened() && forall n | n in dir.segs :: |dir.segs[n]| + batch < U32
      modifies this`index, this`currentEntryIdx, this`lastTruncMaxIdx, this`curSegFileSize, this`loaded,
               this`minSegmentId, this`log
      ensures !inited ==> code == Uninited && delivered == []
      ensures inited ==> loaded && (code == OK <==> Intact(isEntry, dir.segs))
      ensures inited && code != OK ==>
                && (forall n | n in initSegments :: n in dir.segs)
                && exists k | 0 <= k < |initSegments| :: FailsAt(k, isEntry, dir.segs, initSegments, code, delivered)
      ensures inited && Holds(found) ==> code == OK && delivered == found.Records()
      ensures inited && Holds(found) && found.Valid() && HasRoom(found, batch) ==>
                Valid() && State() == L.State(found, found.lo, None)
    {
      hide ParseFile, FileVerdict, IndexUpTo, FileBytes, L.Concat, Files, Storable, IndexAll, ParseAll, FailsAt, Range;
      hide Intact, Elements, Ascending, LastIdOr;
      delivered := [];
      if !inited {
        return Uninited, delivered;
      }
      log := found;
      loaded := true;
      if initSegments == [] {
        FreshStored(isEntry, batch);
        StoredIsIntact(L.FRESH, isEntry, batch);
        FreshLoaded();
        if Holds(found) {
          FreshFound(found);
        }
        return OK, delivered;
      }
      if Holds(found) {
        ListedIs(found, isEntry, batch, initSegments);
      }
      minSegmentId := initSegments[0];
      IntactListed(isEntry, dir.segs, initSegments);
      code, delivered := LoadSegments();
    }

    /** Writes one record behind the last and moves on to a new segment once the
        current one is full. */
    method WriteRecord(r: Record)
      requires currentSegmentId in dir.segs && curSegFileSize == |dir.segs[currentSegmentId]| < U32
      requires Writable(WAL_FORMAT, r)
      requires currentSegmentId + 1 !in dir.segs
      modifies this`curSegFileSize, this`currentSegmentId, dir`segs, dir`trace
      ensures Wrote(old(dir.segs), old(currentSegmentId), r, segMax, dir.segs, currentSegmentId, curSegFileSize)
      ensures dir.trace == old(dir.trace) + AppendOps(old(dir.segs), old(currentSegmentId), r, segMax)
    {
      hide FileBytes, RecordBytes, NewSegment, Writes;
      var wb := BuildRecord(WAL_FORMAT, r, curSegFileSize);
      dir.WriteFully(currentSegmentId, wb[..]);
      curSegFileSize := curSegFileSize + wb.Length;
      if curSegFileSize >= segMax {
        CreateNewSegmentFile();
      }
    }

    /** Gives an encoded entry the next id and writes it. */
    method Write(content: seq<byte>)
      requires Valid() && log.NextId() < U64
      requires isEntry(content) && |content| + 34 <= batch
      modifies this`currentEntryIdx, this`curSegFileSize, this`index, this`currentSegmentId, this`log, dir`segs,
                dir`trace
      ensures Valid() && currentEntryIdx == old(log.NextId())
      ensures State() == old(State()).(log := L.Append(old(log), Record(version, currentEntryIdx, content), segMax))
      ensures dir.trace == old(dir.trace) + OpsOf(old(log), Record(version, currentEntryIdx, content), segMax)
    {
      hide FileBytes, RecordBytes, Files, Storable, Range, IndexUpTo, L.Append, L.Concat, Loadable, L.Log.Valid,
          L.State.Valid, Wrote;
      var r := Record(version, currentEntryIdx + 1, content);
      Widths();
      LastFile(log);
      AppendLeavesRoom(log, r, segMax, batch);
      AppendKeepsState(State(), r, segMax);
      index := index[currentEntryIdx + 1 := currentSegmentId];
      WriteRecord(r);
      AppendStored(log, r, isEntry, segMax, batch, dir.segs, currentSegmentId, curSegFileSize);
      currentEntryIdx := currentEntryIdx + 1;
      log := L.Append(log, r, segMax);
    }

    /** Appends one encoded entry.  It gets the next id, and memory stays in step
        with the disk; an entry that cannot be taken changes nothing. */
    method AppendEntry(entry: Option<seq<byte>>) returns (code: Code, id: nat)
      requires inited && loaded ==> Valid() && log.NextId() < U64
      requires entry.Some? ==> isEntry(entry.value) && |entry.value| < U32 - 17
      modifies this`currentEntryIdx, this`curSegFileSize, this`index, this`currentSegmentId, this`log, dir`segs,
                dir`trace
      ensures code == if !inited then Uninited
                      else if !loaded then Unloaded
                      else if entry.None? then EncodeEntryError
                      else if |entry.value| + 17 > batch - 17 then EntryBytesSizeOverflow
                      else OK
      ensures code != OK ==> unchanged(this) && unchanged(dir)
      ensures code == OK ==>
                && Valid() && id == old(log.NextId())
                && State() == old(State()).(log := L.Append(old(log), Record(version, id, entry.value), segMax))
                && dir.trace == old(dir.trace) + OpsOf(old(log), Record(version, id, entry.value), segMax)
    {
      id := 0;
      if !inited {
        return Uninited, id;
      }
      if !loaded {
        return Unloaded, id;
      }
      if entry.None? {
        return EncodeEntryError, id;
      }
      if |entry.value| + 17 > batch - 17 {
        return EntryBytesSizeOverflow, id;
      }
      Write(entry.value);
      return OK, currentEntryIdx;
    }

    /** Unlinks the segment files from the lowest on up to `maxSeg`, looking up
        the newest id in the last of them just before. */
    method RemoveUpTo(maxSeg: nat, ghost k: nat) returns (code: Code, maxClean: nat)
      requires Valid() && k < |log.segs| && maxSeg == log.lo + k - 1
      modifies dir`segs, dir`trace
      ensures dir.trace == old(dir.trace) + Unlinks(minSegmentId, log.lo + if k > 0 then k - 1 else -2)
      ensures if k == 0 && minSegmentId < log.lo then code == FileSystemError && dir.segs == Files(log.lo, log.segs)
              else code == OK && dir.segs == Files(log.lo + k, log.segs[k..])
                   && maxClean == if k == 0 then 0 else log.first + |L.Concat(log.segs[..k])| - 1
    {
      hide FileBytes, Range, Storable, L.Concat, IndexUpTo, Files, ParseFile, FileVerdict, Unlinks, Without, HasRoom,
          L.Log.Valid, L.SegOf, LastIdOr, IndexOf;
      maxClean := 0;
      if minSegmentId > maxSeg {
        NothingRemoved(State(), k);
      } else {
        UnlinkFrom(minSegmentId, maxSeg - 1);
        LastOfRemoved(State(), k);
        if maxSeg !in dir.segs {
          return FileSystemError, maxClean;
        }
        NewestInFile(log, isEntry, batch, k);
        code, maxClean := LoadSegmentMaxEntryId(dir.segs[maxSeg], isEntry);
        dir.Issue(Unlink(maxSeg));
      }
      code := OK;
    }

    /** Drops the removed ids from the index. */
    method Erase(maxClean: nat)
      modifies this`index
      ensures index == old(index) - (set id | id in old(index) && lastTruncMaxIdx <= id <= maxClean)
    {
      var i := lastTruncMaxIdx;
      while i <= maxClean
        invariant lastTruncMaxIdx <= i && (i <= maxClean + 1 || i == lastTruncMaxIdx)
        invariant index == old(index) - (set id | id in old(index) && lastTruncMaxIdx <= id < i)
      {
        index := index - {i};
        i := i + 1;
      }
    }

    /** Brings memory in step with the segments that are left. */
    method Forget(maxClean: nat, maxSeg: nat, ghost k: nat)
      requires 0 < k < |log.segs| && log.Valid() && L.Drop(log, k).Records() != []
      requires Config() && inited && loaded && !dir.truncOk && Storable(log, isEntry, batch) && HasRoom(log, batch)
      requires dir.segs == Files(log.lo + k, log.segs[k..]) && index == IndexOf(log)
      requires currentSegmentId == log.Hi() && currentEntryIdx == log.LastId() && lastTruncMaxIdx <= log.first
      requires curSegFileSize == |FileBytes(WAL_FORMAT, log.segs[|log.segs| - 1])|
      requires maxSeg == log.lo + k - 1 && maxClean == log.first + |L.Concat(log.segs[..k])| - 1
      modifies this`index, this`lastTruncMaxIdx, this`minSegmentId, this`log, dir`truncOk, dir`truncMeta,
               dir`trace
      ensures Valid() && State() == L.State(L.Drop(old(log), k), old(log.lo) + k, None)
      ensures dir.trace == old(dir.trace) + [SetOk, DropMeta, DropOk]
    {
      hide FileBytes, Range, Storable, L.Concat, L.SegOf, IndexUpTo, Files, L.Log.Valid, HasRoom;
      L.DropKeepsValid(log, k);
      L.DropRecords(log, k);
      DropStored(log, k, isEntry, batch);
      ErasedIndex(log, k, lastTruncMaxIdx, maxClean);
      Erase(maxClean);
      lastTruncMaxIdx, minSegmentId := maxClean + 1, maxSeg + 1;
      log := L.Drop(log, k);
      FinishTruncation();
    }

    method CutAt(id: nat, maxSeg: nat) returns (code: Code)
      requires Valid() && L.Has(log, id) && dir.truncMeta == Some(id)
      requires maxSeg == log.lo + L.Removable(log, id) - 1
      modifies this`index, this`lastTruncMaxIdx, this`minSegmentId, this`log, dir
      ensures Valid() && (State(), code) == L.Truncate(old(State()), id)
      ensures dir.trace == old(dir.trace) + TruncOps(old(State()), id)[|Marks(id)|..]
    {
      hide FileBytes, Range, Storable, L.Concat, L.SegOf, IndexUpTo, Files, L.Removable, Marks, Unlinks, TruncOps;
      hide L.Truncate, L.State.Valid, HasRoom, L.Log.Valid;
      TruncSplit(State(), id);
      CutCases(State(), id);
      ghost var k := L.Removable(log, id);
      var maxClean;
      code, maxClean := RemoveUpTo(maxSeg, k);
      if code != OK {
        return;
      }
      if maxClean == 0 {
        minSegmentId := 1;
        return;
      }
      Forget(maxClean, maxSeg, k);
    }

    /** Truncates the log at `id`: the new state and the result are those of the
        log value, and the index keeps in step with the files that remain. */
    method Truncate(id: nat) returns (code: Code)
      requires inited && loaded ==> Valid()
      modifies this`index, this`lastTruncMaxIdx, this`minSegmentId, this`log, dir
      ensures !inited ==> code == Uninited && unchanged(this) && unchanged(dir)
      ensures inited && !loaded ==> code == Unloaded && unchanged(this) && unchanged(dir)
      ensures inited && loaded ==>
                && Valid() && (State(), code) == L.Truncate(old(State()), id)
                && dir.trace == old(dir.trace) + TruncOps(old(State()), id)
    {
      hide FileBytes, Range, Storable, L.Concat, L.SegOf, IndexUpTo, Files, L.Log.Valid, L.Removable, TruncOps,
          Marks, Unlinks, HasRoom, L.Truncate;
      if !inited {
        return Uninited;
      }
      if !loaded {
        return Unloaded;
      }
      IndexKeys(log, id);
      if id !in index {
        NoSuchId(State(), id);
        return InvalidEntryId;
      }
      LastToRemove(log, id);
      TruncSplit(State(), id);
      Marked(State(), id);
      CreateTruncInfo(id);
      var maxSeg := index[id];
      if maxSeg == currentSegmentId {
        maxSeg := maxSeg - 1;
      }
      if maxSeg + 1 !in dir.segs {
        return FileSystemError;
      }
      if |dir.segs[maxSeg + 1]| == 4 {
        maxSeg := maxSeg - 1;
      }
      code := CutAt(id, maxSeg);
    }
  }

  lemma IndexKeys(log: L.Log, id: nat)
    ensures id in IndexOf(log) <==> L.Has(log, id)
  {
    assert log.segs[..|log.segs|] == log.segs;
  }

  lemma FreshLoaded()
    ensures L.FRESH.Records() == [] && L.FRESH.Valid() && IndexOf(L.FRESH) == map[]
  {
    assert L.Concat(L.FRESH.segs) == [];
    assert L.FRESH.segs[..1] == L.FRESH.segs;
    assert IndexOf(L.FRESH).Keys == {};
  }

  lemma NewestId(log: L.Log)
    requires log.Valid()
    ensures LastIdOr(log.Records(), 1) == log.LastId()
  {}

  /** Before the last unlink of a truncation there is that segment, if there is
      any to remove, and those that stay. */
  lemma {:induction false} LastOfRemoved(s: L.State, k: nat)
    requires s.Valid() && k < |s.log.segs| && s.minSeg <= s.log.lo + k - 1
    ensures var files, last := DirOf(s).segs, s.log.lo + k - 1; var ops := Unlinks(s.minSeg, last - 1);
            var left := Without(files, s.minSeg, s.minSeg + |ops|);
            && (last in left <==> k > 0)
            && (if k == 0 then left == files
                else left[last] == files[last] && left - {last} == Files(s.log.lo + k, s.log.segs[k..]))
            && Unlinks(s.minSeg, last) == ops + [Unlink(last)]
  {
    hide Files, L.Concat, Range, Unlinks, Without;
    FilesDrop(s.log.lo, s.log.segs, k);
    UnlinksNext(s.minSeg, s.log.lo + k - 1);
    WithoutLast(DirOf(s).segs, s.log.lo, |s.log.segs|, s.minSeg, k);
  }

  lemma WithoutLast(files: SegFiles, lo: nat, count: nat, from: nat, k: nat)
    requires files.Keys == Range(lo, count) && k < count && from <= lo && from <= lo + k - 1
    ensures var last := lo + k - 1; var left := Without(files, from, last);
            && (last in left <==> k > 0) && (k == 0 ==> left == files)
            && (k > 0 ==> left[last] == files[last] && left - {last} == files - Range(lo, k))
  {
    hide Range;
    assert forall n :: n in files <==> n in files.Keys;
  }

  lemma {:induction false} NewestInFile(log: L.Log, isEntry: seq<byte> -> bool, batch: nat, k: nat)
    requires log.Valid() && Storable(log, isEntry, batch) && 0 < k < |log.segs|
    ensures log.lo + k - 1 in Files(log.lo, log.segs)
    ensures var file := Files(log.lo, log.segs)[log.lo + k - 1]; var p := ParseFile(WAL_FORMAT, isEntry, file);
            && |file| < U32 && p.code == OK && p.recs != []
            && p.recs[|p.recs| - 1].id == log.first + |L.Concat(log.segs[..k])| - 1
  {
    hide FileBytes, ParseFile, Storable, L.Concat;
    ParsesBack(log, isEntry, batch, log.lo + k - 1);
    NewestRemoved(log, k);
  }

  /** A truncation whose marker is there already, case by case. */
  lemma {:induction false} CutCases(s: L.State, id: nat)
    requires s.Valid() && L.Has(s.log, id) && s.marker == Some(id)
    ensures var k := L.Removable(s.log, id);
            && s.log.Valid() && k < |s.log.segs| && s.log.segs[0..] == s.log.segs && L.Drop(s.log, k).Records() != []
            && s.log.first + |L.Concat(s.log.segs[..k])| - 1 > 0
            && s.(minSeg := 1).Valid()
            && L.Truncate(s, id) ==
               if k > 0 then (L.State(L.Drop(s.log, k), s.log.lo + k, None), OK)
               else if s.minSeg < s.log.lo then (s, FileSystemError)
               else (s.(minSeg := 1), OK)
  {
    hide L.Concat, L.SegOf;
    L.NewestSurvives(s.log, id);
  }

  lemma Marked(s: L.State, id: nat)
    requires L.Has(s.log, id)
    ensures L.Truncate(s.(marker := Some(id)), id) == L.Truncate(s, id)
  {}

  lemma NoSuchId(s: L.State, id: nat)
    requires !L.Has(s.log, id)
    ensures L.Truncate(s, id) == (s, InvalidEntryId) && TruncOps(s, id) == []
  {}

  lemma NothingRemoved(s: L.State, k: nat)
    requires s.Valid() && s.minSeg > s.log.lo + k - 1
    ensures k == 0 && Unlinks(s.minSeg, s.log.lo - 2) == [] && Files(s.log.lo, s.log.segs[0..]) == DirOf(s).segs
  {
    assert s.log.segs[0..] == s.log.segs;
  }

  lemma LeastFirst(ids: seq<nat>)
    requires Ascending(ids) && ids != []
    ensures forall n | n in ids :: ids[0] <= n
    ensures IsLeast(ids[0], Elements(ids))
  {
    forall n | n in ids
      ensures ids[0] <= n
    {
      var i :| 0 <= i < |ids| && ids[i] == n;
    }
  }

  lemma AllAbove(ids: seq<nat>, bound: nat)
    requires Ascending(ids) && (ids == [] || ids[0] > bound)
    ensures forall n | n in ids :: n > bound
  {
    if ids != [] {
      LeastFirst(ids);
    }
  }

  lemma IntactListed(isEntry: seq<byte> -> bool, files: SegFiles, ids: seq<nat>)
    requires Elements(ids) == files.Keys
    ensures forall n | n in ids :: n in files
    ensures Intact(isEntry, files) <==> forall n | n in ids :: FileVerdict(WAL_FORMAT, isEntry, files[n]) == OK
  {
    assert forall n :: n in ids <==> n in Elements(ids);
  }

  /** What loading the files of a log makes of it. */
  lemma {:induction false} ListedIs(log: L.Log, isEntry: seq<byte> -> bool, batch: nat, ids: seq<nat>)
    requires Storable(log, isEntry, batch) && log.segs != []
    requires Ascending(ids) && Elements(ids) == Files(log.lo, log.segs).Keys
    ensures var files := Files(log.lo, log.segs); var segs := log.segs;
            && Intact(isEntry, files) && |ids| == |segs| && (forall n | n in ids :: n in files)
            && ids[0] == log.lo && ids[|ids| - 1] == log.Hi()
            && ParseAll(isEntry, files, ids) == segs
            && files[log.Hi()] == FileBytes(WAL_FORMAT, segs[|segs| - 1])
            && (log.Valid() ==> IndexAll(ids, segs) == IndexOf(log) && LastIdOr(log.Records(), 1) == log.LastId())
  {
    hide ParseFile, FileVerdict, IndexUpTo, FileBytes, L.Concat, Files, Storable, IndexAll, ParseAll, Range;
    SortedRange(ids, log.lo, |log.segs|);
    ParseAllStored(log, isEntry, batch);
    StoredIsIntact(log, isEntry, batch);
    assert log.segs[..|log.segs|] == log.segs;
    LastFile(log);
    if log.Valid() {
      IndexAllIsIndex(log, |log.segs|);
      NewestId(log);
    }
  }

  lemma {:induction false} FreshFound(log: L.Log)
    requires log.segs != [] && Files(log.lo, log.segs) == map[1 := FileBytes(WAL_FORMAT, [])]
    ensures log.lo == 1 && log.segs == [[]] && log.Records() == []
    ensures log.Valid() ==> log == L.FRESH
  {
    hide FileBytes;
    var files := Files(log.lo, log.segs);
    assert log.lo in files && log.lo + |log.segs| - 1 in files;
    HeaderOnly(log.segs[0]);
    HeaderOnly([]);
    L.ConcatOne([]);
  }
}
