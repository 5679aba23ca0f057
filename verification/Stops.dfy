/** The file operations of an append, one by one, and what a process that stops
    after any of them leaves for the next one to open. */
module Stops {
  import opened Codec
  import opened Common
  import opened Records
  import opened Segments
  import L = Log

  type SegFiles = map<nat, seq<byte>>

  /** Operations on a segment file, on the marker file of a truncation, of which
      `SetMeta` is one byte more, and on its ok flag.  `Create` leaves an existing
      file alone; removing a missing one is no failure. */
  datatype FileOp =
    | Create(n: nat)
    | Write(n: nat, b: byte)
    | Unlink(n: nat)
    | SetMeta(id: nat)
    | SetOk
    | DropMeta
    | DropOk

  function Do(files: SegFiles, op: FileOp): SegFiles {
    match op
    case Create(n) => if n in files then files else files[n := []]
    case Write(n, b) => if n in files then files[n := files[n] + [b]] else files
    case Unlink(n) => files - {n}
    case _ => files
  }

  function Exec(files: SegFiles, ops: seq<FileOp>): SegFiles {
    if ops == [] then files else Do(Exec(files, ops[..|ops| - 1]), ops[|ops| - 1])
  }

  function Writes(n: nat, bytes: seq<byte>): (ops: seq<FileOp>)
    ensures |ops| == |bytes|
  {
    seq(|bytes|, i requires 0 <= i < |bytes| => Write(n, bytes[i]))
  }

  /** A new segment: the file, then its magic number. */
  function NewSegment(n: nat): (ops: seq<FileOp>)
    ensures |ops| == 5
  {
    [Create(n)] + Writes(n, Enc(WAL_FORMAT.magic, 4))
  }

  lemma NewSegmentIs(n: nat)
    ensures NewSegment(n) == [Create(n)] + Writes(n, FileBytes(WAL_FORMAT, []))
    ensures FileBytes(WAL_FORMAT, []) == Enc(WAL_FORMAT.magic, 4)
  {}

  /** The record, byte by byte; and once the file is full, a new segment. */
  function AppendOps(files: SegFiles, cur: nat, r: Record, segMax: nat): seq<FileOp>
    requires cur in files
  {
    var bytes := RecordBytes(WAL_FORMAT, r, |files[cur]|);
    Writes(cur, bytes) + if |files[cur]| + |bytes| >= segMax then NewSegment(cur + 1) else []
  }

  lemma {:induction false} ExecConcat(files: SegFiles, a: seq<FileOp>, b: seq<FileOp>)
    ensures Exec(files, a + b) == Exec(Exec(files, a), b)
    decreases |b|
  {
    if b == [] {
      assert a + b == a;
    } else {
      var n := |b| - 1;
      assert (a + b)[..|a + b| - 1] == a + b[..n];
      ExecConcat(files, a, b[..n]);
    }
  }

  lemma WritesConcat(n: nat, a: seq<byte>, b: seq<byte>)
    ensures Writes(n, a + b) == Writes(n, a) + Writes(n, b)
  {}

  lemma {:induction false} ExecWrites(files: SegFiles, n: nat, bytes: seq<byte>, k: nat)
    requires n in files && k <= |bytes|
    ensures Exec(files, Writes(n, bytes)[..k]) == files[n := files[n] + bytes[..k]]
    decreases k
  {
    var ops := Writes(n, bytes);
    if k == 0 {
      assert files[n] + bytes[..0] == files[n];
    } else {
      ExecWrites(files, n, bytes, k - 1);
      assert ops[..k][..k - 1] == ops[..k - 1];
      assert files[n] + bytes[..k - 1] + [bytes[k - 1]] == files[n] + bytes[..k];
    }
  }

  lemma {:induction false} ExecNewSegment(files: SegFiles, n: nat, j: nat)
    requires n !in files && 0 < j <= 5
    ensures Exec(files, NewSegment(n)[..j]) == files[n := Enc(WAL_FORMAT.magic, 4)[..j - 1]]
  {
    hide Enc;
    var magic := Enc(WAL_FORMAT.magic, 4);
    var created := files[n := []];
    assert NewSegment(n)[..j] == [Create(n)] + Writes(n, magic)[..j - 1];
    ExecConcat(files, [Create(n)], Writes(n, magic)[..j - 1]);
    assert [Create(n)][..0] == [] && Exec(files, [Create(n)]) == Do(Exec(files, []), Create(n)) == created;
    ExecWrites(created, n, magic, j - 1);
    assert [] + magic[..j - 1] == magic[..j - 1];
  }

  // ------------------------------------------------------ stopping in an append

  function LastOf(log: L.Log): seq<Record>
    requires log.segs != []
  {
    log.segs[|log.segs| - 1]
  }

  /** The operations of appending `r` to a stored log. */
  function OpsOf(log: L.Log, r: Record, segMax: nat): seq<FileOp>
    requires log.segs != []
  {
    LastFile(log);
    AppendOps(Files(log.lo, log.segs), log.Hi(), r, segMax)
  }

  /** The files after the first `k` operations. */
  function StoppedAt(log: L.Log, r: Record, segMax: nat, k: nat): SegFiles
    requires log.segs != [] && k <= |OpsOf(log, r, segMax)|
  {
    Exec(Files(log.lo, log.segs), OpsOf(log, r, segMax)[..k])
  }

  /** The number of the file that is begun and not finished. */
  function Torn(log: L.Log, r: Record, segMax: nat, k: nat): Option<nat>
    requires log.segs != []
  {
    var n := RecordSize(WAL_FORMAT, r);
    if 0 < k < n then Some(log.Hi())
    else if n < k < |OpsOf(log, r, segMax)| then Some(log.Hi() + 1)
    else None
  }

  /** The log that is left apart from a torn file: without the record until all
      of it is written; then with it, and with the next segment at the end. */
  function Survivor(log: L.Log, r: Record, segMax: nat, k: nat): L.Log
    requires log.segs != []
  {
    if k < RecordSize(WAL_FORMAT, r) then log else L.Append(log, r, Limit(log, r, segMax, k))
  }

  /** A segment limit under which the append would have stopped here. */
  function Limit(log: L.Log, r: Record, segMax: nat, k: nat): nat
    requires log.segs != []
  {
    if k == |OpsOf(log, r, segMax)| then segMax else |FileBytes(WAL_FORMAT, LastOf(log) + [r])| + 1
  }

  lemma {:induction false} RecordPart(log: L.Log, r: Record, segMax: nat, k: nat)
    requires log.segs != [] && k <= RecordSize(WAL_FORMAT, r)
    ensures k <= |OpsOf(log, r, segMax)|
    ensures var whole := FileBytes(WAL_FORMAT, LastOf(log));
            StoppedAt(log, r, segMax, k) ==
            Files(log.lo, log.segs)[log.Hi() := whole + RecordBytes(WAL_FORMAT, r, |whole|)[..k]]
  {
    hide FileBytes, RecordBytes, Files, Exec, NewSegment;
    LastFile(log);
    var files, cur := Files(log.lo, log.segs), log.Hi();
    var bytes := RecordBytes(WAL_FORMAT, r, |files[cur]|);
    assert OpsOf(log, r, segMax)[..k] == Writes(cur, bytes)[..k];
    ExecWrites(files, cur, bytes, k);
  }

  /** Whether the segment is full after the record. */
  predicate Fills(log: L.Log, r: Record, segMax: nat)
    requires log.segs != []
  {
    |FileBytes(WAL_FORMAT, LastOf(log) + [r])| >= segMax
  }

  /** The log with the record in its last segment. */
  function WithRecord(log: L.Log, r: Record): L.Log
    requires log.segs != []
  {
    L.Append(log, r, |FileBytes(WAL_FORMAT, LastOf(log) + [r])| + 1)
  }

  lemma {:induction false} OpsSplit(log: L.Log, r: Record, segMax: nat)
    requires log.segs != []
    ensures var n, ops := RecordSize(WAL_FORMAT, r), OpsOf(log, r, segMax);
            && n <= |ops| && ops == ops[..n] + if Fills(log, r, segMax) then NewSegment(log.Hi() + 1) else []
  {
    hide FileBytes, RecordBytes, Files, NewSegment, Writes;
    LastFile(log);
    FileSnoc(WAL_FORMAT, LastOf(log), r);
  }

  lemma {:induction false} RecordIn(log: L.Log, r: Record, segMax: nat)
    requires log.segs != []
    ensures var n, open := RecordSize(WAL_FORMAT, r), WithRecord(log, r);
            && n <= |OpsOf(log, r, segMax)|
            && StoppedAt(log, r, segMax, n) == Files(open.lo, open.segs) && open.Hi() == log.Hi()
            && L.Append(log, r, segMax) == if Fills(log, r, segMax) then open.(segs := open.segs + [[]]) else open
  {
    hide FileBytes, RecordBytes, Files, Exec, OpsOf;
    var n, last := RecordSize(WAL_FORMAT, r), LastOf(log);
    FileSnoc(WAL_FORMAT, last, r);
    RecordPart(log, r, segMax, n);
    var bytes := RecordBytes(WAL_FORMAT, r, |FileBytes(WAL_FORMAT, last)|);
    assert bytes[..n] == bytes;
    FilesReplace(log.lo, log.segs, last + [r]);
  }

  lemma {:induction false} SegmentPart(log: L.Log, r: Record, segMax: nat, j: nat)
    requires log.segs != [] && Fills(log, r, segMax) && 0 < j <= 5
    ensures var n, open := RecordSize(WAL_FORMAT, r), WithRecord(log, r);
            && |OpsOf(log, r, segMax)| == n + 5
            && StoppedAt(log, r, segMax, n + j) ==
               Files(open.lo, open.segs)[log.Hi() + 1 := Enc(WAL_FORMAT.magic, 4)[..j - 1]]
  {
    hide FileBytes, RecordBytes, Files, Exec, NewSegment, OpsOf, L.Append, Enc, Range, WithRecord, Fills;
    RecordIn(log, r, segMax);
    OpsSplit(log, r, segMax);
    var n, open := RecordSize(WAL_FORMAT, r), WithRecord(log, r);
    var files, ops, more := Files(log.lo, log.segs), OpsOf(log, r, segMax), NewSegment(log.Hi() + 1);
    assert ops[..n + j] == ops[..n] + more[..j];
    ExecConcat(files, ops[..n], more[..j]);
    InRange(open.lo, |open.segs|, log.Hi() + 1);
    ExecNewSegment(Files(open.lo, open.segs), log.Hi() + 1, j);
  }

  lemma InRange(lo: nat, count: nat, n: nat)
    ensures n in Range(lo, count) <==> lo <= n < lo + count
  {}

  /** What a stop leaves: the files of the surviving log, but for a torn one. */
  lemma {:induction false} StopLeaves(log: L.Log, r: Record, isEntry: seq<byte> -> bool, segMax: nat, k: nat)
    requires log.segs != [] && Loadable(WAL_FORMAT, isEntry, LastOf(log)) && Writable(WAL_FORMAT, r)
    requires |FileBytes(WAL_FORMAT, LastOf(log))| < U32 && RecordSize(WAL_FORMAT, r) < U32
    requires k <= |OpsOf(log, r, segMax)|
    ensures var files, left, torn := StoppedAt(log, r, segMax, k), Survivor(log, r, segMax, k), Torn(log, r, segMax, k);
            if torn.None? then files == Files(left.lo, left.segs)
            else
              && torn.value in files && FileVerdict(WAL_FORMAT, isEntry, files[torn.value]) == FileCorrupt
              && files == Files(left.lo, left.segs)[torn.value := files[torn.value]]
              && left.Hi() <= torn.value
              && |files[torn.value]| <= |FileBytes(WAL_FORMAT, LastOf(log))| + RecordSize(WAL_FORMAT, r)
  {
    hide FileBytes, RecordBytes, Files, Exec, NewSegment, OpsOf, L.Append, Enc, Range, FileVerdict, Loadable, Writable;
    var n := RecordSize(WAL_FORMAT, r);
    OpsSplit(log, r, segMax);
    if k < n {
      RecordPart(log, r, segMax, k);
      if k == 0 {
        NothingWritten(log, r);
      } else {
        TornFile(LastOf(log), r, isEntry, k);
      }
    } else {
      RecordIn(log, r, segMax);
      if k > n {
        SegmentPart(log, r, segMax, k - n);
        if k < n + 5 {
          ShortFile(isEntry, Enc(WAL_FORMAT.magic, 4)[..k - n - 1]);
        } else {
          var open := WithRecord(log, r);
          FilesPush(open.lo, open.segs, []);
          HeaderBytes();
        }
      }
    }
  }

  lemma NothingWritten(log: L.Log, r: Record)
    requires log.segs != []
    ensures var whole := FileBytes(WAL_FORMAT, LastOf(log)); var files := Files(log.lo, log.segs);
            files[log.Hi() := whole + RecordBytes(WAL_FORMAT, r, |whole|)[..0]] == files
  {
    hide FileBytes, RecordBytes, Files;
    LastFile(log);
    var whole := FileBytes(WAL_FORMAT, LastOf(log));
    assert whole + RecordBytes(WAL_FORMAT, r, |whole|)[..0] == whole;
  }

  lemma {:induction false} TornFile(recs: seq<Record>, r: Record, isEntry: seq<byte> -> bool, k: nat)
    requires Loadable(WAL_FORMAT, isEntry, recs) && Writable(WAL_FORMAT, r) && 0 < k < RecordSize(WAL_FORMAT, r)
    requires |FileBytes(WAL_FORMAT, recs)| < U32 && RecordSize(WAL_FORMAT, r) < U32
    ensures var whole := FileBytes(WAL_FORMAT, recs);
            FileVerdict(WAL_FORMAT, isEntry, whole + RecordBytes(WAL_FORMAT, r, |whole|)[..k]) == FileCorrupt
  {
    hide FileBytes, RecordBytes, Dec, Parse, RunsWild;
    var whole := FileBytes(WAL_FORMAT, recs);
    var torn := RecordBytes(WAL_FORMAT, r, |whole|)[..k];
    TornTail(WAL_FORMAT, isEntry, recs, r, k);
    assert (whole + torn)[4..][|whole| - 4..] == torn;
    TornIsTame(r, |whole|, k);
  }

  lemma {:induction false} TornIsTame(r: Record, at: nat, k: nat)
    requires RecordSize(WAL_FORMAT, r) < U32 && k < RecordSize(WAL_FORMAT, r)
    ensures !RunsWild(WAL_FORMAT, RecordBytes(WAL_FORMAT, r, at)[..k], at)
  {
    hide Dec, Enc;
    var torn := RecordBytes(WAL_FORMAT, r, at)[..k];
    if k >= 13 {
      assert torn[..4] == Enc(|r.content|, 4);
      RoundTrip32(|r.content|);
    }
  }

  lemma ShortFile(isEntry: seq<byte> -> bool, file: seq<byte>)
    requires |file| < 4
    ensures FileVerdict(WAL_FORMAT, isEntry, file) == FileCorrupt
  {}

  lemma HeaderBytes()
    ensures FileBytes(WAL_FORMAT, []) == Enc(WAL_FORMAT.magic, 4)[..4]
  {
    assert Enc(WAL_FORMAT.magic, 4)[..4] == Enc(WAL_FORMAT.magic, 4);
  }

  // ----------------------------------------------------------- opening it again

  /** The files that are left when a marker has been acted on. */
  function Kept(files: SegFiles, marker: Option<nat>): SegFiles {
    if marker.None? then files else map n | n in files && n > marker.value :: files[n]
  }

  lemma {:induction false} StoredIsIntact(log: L.Log, isEntry: seq<byte> -> bool, batch: nat)
    requires Storable(log, isEntry, batch)
    ensures Intact(isEntry, Files(log.lo, log.segs))
  {
    hide FileBytes, ParseFile, Range, FileVerdict, Storable;
    var files := Files(log.lo, log.segs);
    forall n | n in files
      ensures FileVerdict(WAL_FORMAT, isEntry, files[n]) == OK
    {
      ParsesBack(log, isEntry, batch, n);
    }
  }

  lemma {:induction false} StoredFits(log: L.Log, isEntry: seq<byte> -> bool, batch: nat)
    requires Storable(log, isEntry, batch)
    ensures var files := Files(log.lo, log.segs);
            (forall n | n in files :: |files[n]| + batch < U32) && (log.segs != [] ==> files != map[])
  {
    hide FileBytes, Loadable, Range;
    assert log.segs != [] ==> log.lo in Files(log.lo, log.segs);
  }

  lemma SomethingSurvives(log: L.Log, r: Record, segMax: nat, k: nat)
    requires log.segs != []
    ensures Survivor(log, r, segMax, k).segs != []
  {
    hide FileBytes, OpsOf;
  }

  /** Exactly: what a stop leaves can be opened if and only if no file is torn, or
      a marker has the torn one swept away with all the others.  Then the same
      is found as if the surviving log had been left. */
  lemma {:induction false} StopExact(log: L.Log, r: Record, isEntry: seq<byte> -> bool, segMax: nat, batch: nat, k: nat,
                                     marker: Option<nat>)
    requires HasRoom(log, batch) && Storable(log, isEntry, batch)
    requires Writable(WAL_FORMAT, r) && isEntry(r.content) && RecordSize(WAL_FORMAT, r) < batch
    requires k <= |OpsOf(log, r, segMax)|
    ensures var files, left, torn := StoppedAt(log, r, segMax, k), Survivor(log, r, segMax, k), Torn(log, r, segMax, k);
            && (Intact(isEntry, Kept(files, marker)) <==> torn.None? || (marker.Some? && marker.value >= torn.value))
            && (Intact(isEntry, Kept(files, marker)) ==> Kept(files, marker) == Kept(Files(left.lo, left.segs), marker))
            && Storable(left, isEntry, batch) && files != map[]
            && (forall n | n in files :: |files[n]| + batch < U32)
  {
    hide FileBytes, RecordBytes, Files, Exec, OpsOf, L.Append, FileVerdict, Loadable, Writable, Range, StoppedAt;
    hide Kept, Intact, Survivor;
    StopLeaves(log, r, isEntry, segMax, k);
    var files, left, torn := StoppedAt(log, r, segMax, k), Survivor(log, r, segMax, k), Torn(log, r, segMax, k);
    SurvivorStored(log, r, isEntry, segMax, batch, k);
    StoredIsIntact(left, isEntry, batch);
    StoredFits(left, isEntry, batch);
    SomethingSurvives(log, r, segMax, k);
    KeptIntact(isEntry, Files(left.lo, left.segs), marker);
    if torn.Some? {
      forall n | n in Files(left.lo, left.segs)
        ensures n <= torn.value
      {
        InRange(left.lo, |left.segs|, n);
      }
      TornKept(isEntry, Files(left.lo, left.segs), files, torn.value, marker);
    }
  }

  lemma {:induction false} SurvivorStored(log: L.Log, r: Record, isEntry: seq<byte> -> bool, segMax: nat, batch: nat,
        k: nat)
    requires HasRoom(log, batch) && Storable(log, isEntry, batch)
    requires Writable(WAL_FORMAT, r) && isEntry(r.content) && RecordSize(WAL_FORMAT, r) < batch
    ensures Storable(Survivor(log, r, segMax, k), isEntry, batch)
  {
    hide FileBytes, OpsOf, L.Append, Loadable, Writable, Storable;
    if k >= RecordSize(WAL_FORMAT, r) {
      AppendStorable(log, r, isEntry, Limit(log, r, segMax, k), batch);
    }
  }

  lemma KeptIntact(isEntry: seq<byte> -> bool, files: SegFiles, marker: Option<nat>)
    requires Intact(isEntry, files)
    ensures Intact(isEntry, Kept(files, marker))
  {
    hide FileVerdict;
  }

  /** A torn file above all others: only a marker that sweeps everything away mends it. */
  lemma {:induction false} TornKept(isEntry: seq<byte> -> bool, whole: SegFiles, files: SegFiles, torn: nat,
        marker: Option<nat>)
    requires torn in files && files == whole[torn := files[torn]] && (forall n | n in whole :: n <= torn)
    requires FileVerdict(WAL_FORMAT, isEntry, files[torn]) != OK
    ensures Intact(isEntry, Kept(files, marker)) <==> marker.Some? && marker.value >= torn
    ensures marker.Some? && marker.value >= torn ==> Kept(files, marker) == Kept(whole, marker)
  {
    hide FileVerdict;
    if marker.Some? && marker.value >= torn {
      assert Kept(files, marker) == map[] == Kept(whole, marker);
    } else {
      assert torn in Kept(files, marker);
    }
  }

  /** The first segment of a new directory: stopped in between, it is torn. */
  lemma {:induction false} FirstStop(isEntry: seq<byte> -> bool, j: nat)
    requires j <= 5
    ensures var files := Exec(map[], NewSegment(1)[..j]);
            && (Intact(isEntry, files) <==> j == 0 || j == 5)
            && (j == 0 ==> files == map[]) && (j == 5 ==> files == Files(L.FRESH.lo, L.FRESH.segs))
  {
    hide FileBytes, Files, FileVerdict, Enc;
    if j == 0 {
      assert NewSegment(1)[..0] == [];
    } else {
      ExecNewSegment(map[], 1, j);
      FreshStored(isEntry, 0);
      HeaderBytes();
      if j < 5 {
        ShortFile(isEntry, Enc(WAL_FORMAT.magic, 4)[..j - 1]);
        assert 1 in Exec(map[], NewSegment(1)[..j]);
      } else {
        StoredIsIntact(L.FRESH, isEntry, 0);
      }
    }
  }

  lemma {:induction false} KeptFiles(lo: nat, segs: seq<seq<Record>>, marker: Option<nat>)
    ensures var k := L.Swept(lo, |segs|, marker); Kept(Files(lo, segs), marker) == Files(lo + k, segs[k..])
  {
    hide FileBytes, Range;
    var k := L.Swept(lo, |segs|, marker);
    assert segs[0..] == segs;
    FilesDrop(lo, segs, k);
    assert Kept(Files(lo, segs), marker) == Files(lo, segs) - Range(lo, k);
  }

  /** What is found behind a marker is the log reopened. */
  lemma {:induction false} KeptIsReopened(s: L.State)
    requires s.log.segs != []
    ensures var kept, log := Kept(Files(s.log.lo, s.log.segs), s.marker), L.Reopen(s).log;
            log.segs != [] && if kept == map[] then log == L.FRESH else kept == Files(log.lo, log.segs)
  {
    hide FileBytes, Range, L.Concat, Kept;
    var lo, segs, k := s.log.lo, s.log.segs, L.SweptNow(s);
    KeptFiles(lo, segs, s.marker);
    if k < |segs| {
      assert lo + k in Files(lo + k, segs[k..]);
    } else {
      assert segs[k..] == [] && Files(lo + k, []).Keys == {};
    }
  }
}
