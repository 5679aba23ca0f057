/** Runs over both directories, in which a process may stop after any operation on
    a file and the next one starts on what it left. */
module Crashes {
  import opened Codec
  import opened Common
  import opened Records
  import opened Kv
  import opened System
  import opened Segments
  import opened Stops
  import opened Opening
  import opened MiniKv
  import L = Log
  import P = Protocol

  // --------------------------------------------------------------- stopped writes

  /** The history as it is on disk when a write is stopped after `k` operations:
      without the write until its record is whole, and then with it. */
  function StoppedIn(pb: Pb, s: System, version: byte, op: Op, segMax: nat, k: nat): (left: System)
    requires s.run.state.log.segs != []
    ensures left.run.state.log.segs != []
  {
    var log, r := s.run.state.log, RecordOf(pb, s, version, op);
    if k < RecordSize(WAL_FORMAT, r) then s else Next(pb, s, Cut(version, op, Limit(log, r, segMax, k)), segMax)
  }

  lemma {:induction false} StoppedIsValid(pb: Pb, s: System, version: byte, op: Op, segMax: nat, k: nat)
    requires s.Valid(pb) && op.key != []
    ensures var left, r := StoppedIn(pb, s, version, op, segMax, k), RecordOf(pb, s, version, op);
            && left.Valid(pb) && left.id == s.id && left.c == s.c && left.First() == s.First()
            && left.ops == (if k < RecordSize(WAL_FORMAT, r) then s.ops else s.ops + [op])
            && left.run.state == s.run.state.(log := Survivor(s.run.state.log, r, segMax, k))
  {
    hide EncodeOp, FileBytes, L.Append, L.Concat, OpsOf;
    var log, r := s.run.state.log, RecordOf(pb, s, version, op);
    NextKeeps(pb, s, Cut(version, op, Limit(log, r, segMax, k)), segMax);
    L.AppendKeepsNumbers(log, r, Limit(log, r, segMax, k));
  }

  /** The log can take the write. */
  ghost predicate Takes(kv: MiniKV, s: System, op: Op) {
    && op.key != [] && |EncodeOp(kv.pb, op)| + 34 <= kv.wal.batch && |s.ops| + 2 < U64
    && HasRoom(s.run.state.log, kv.wal.batch) && Storable(s.run.state.log, kv.wal.isEntry, kv.wal.batch)
  }

  function WriteOps(kv: MiniKV, s: System, op: Op): seq<FileOp>
    requires s.run.state.log.segs != []
  {
    OpsOf(s.run.state.log, RecordOf(kv.pb, s, kv.wal.version, op), kv.wal.segMax)
  }

  /** A file is begun and not finished, and no marker has it swept away. */
  predicate Tears(kv: MiniKV, s: System, op: Op, k: nat)
    requires s.run.state.log.segs != []
  {
    var torn := Torn(s.run.state.log, RecordOf(kv.pb, s, kv.wal.version, op), kv.wal.segMax, k);
    torn.Some? && (s.run.state.marker.None? || s.run.state.marker.value < torn.value)
  }

  /** A write that is stopped after any of its operations, with a truncation marker
      around or without: the log can be opened again exactly if no file is torn, or
      the marker has it swept away.  It is then that of the history without the
      write, or with it, depending on whether the record is whole. */
  lemma {:induction false} WriteStopped(kv: MiniKV, s: System, op: Op, k: nat)
    requires kv.Wired() && kv.wal.Config() && s.Valid(kv.pb) && Takes(kv, s, op) && k <= |WriteOps(kv, s, op)|
    ensures var left := StoppedIn(kv.pb, s, kv.wal.version, op, kv.wal.segMax, k);
            var d := ExecDir(DirOf(s.run.state), WriteOps(kv, s, op)[..k]);
            && left.Valid(kv.pb) && kv.Finds(left, d)
            && (Openable(kv.wal.isEntry, d) <==> !Tears(kv, s, op, k))
  {
    hide EncodeOp, FileBytes, L.Append, L.Concat, Files, Intact, Kept, L.Reopen, Storable, Survivor, Exec, ExecDir;
    hide OpsOf, Torn;
    var st, r, segMax := s.run.state, RecordOf(kv.pb, s, kv.wal.version, op), kv.wal.segMax;
    var left := StoppedIn(kv.pb, s, kv.wal.version, op, segMax, k);
    EntryFits(kv.pb, s, kv.wal.version, op, kv.wal.batch);
    StoppedIsValid(kv.pb, s, kv.wal.version, op, segMax, k);
    AppendOnSegments(st.log, r, segMax, k);
    ExecSegments(DirOf(st), WriteOps(kv, s, op)[..k]);
    var d := DirOf(st).(segs := StoppedAt(st.log, r, segMax, k));
    StopExact(st.log, r, kv.wal.isEntry, segMax, kv.wal.batch, k, Marker(d));
    TornAbove(st.log, r, segMax, k);
    FoundMarked(left.run.state);
    KeptIsReopened(left.run.state);
    ReopenStorable(left.run.state, kv.wal.isEntry, kv.wal.batch);
  }

  /** One that is not stopped leaves the directory of the history with it. */
  lemma {:induction false} WriteWhole(kv: MiniKV, s: System, op: Op)
    requires kv.Wired() && kv.wal.Config() && s.Valid(kv.pb) && Takes(kv, s, op)
    ensures var k := |WriteOps(kv, s, op)|;
            var left := StoppedIn(kv.pb, s, kv.wal.version, op, kv.wal.segMax, k);
            && left == Next(kv.pb, s, Wrote(kv.wal.version, op), kv.wal.segMax)
            && ExecDir(DirOf(s.run.state), WriteOps(kv, s, op)) == DirOf(left.run.state)
            && Storable(left.run.state.log, kv.wal.isEntry, kv.wal.batch) && !Tears(kv, s, op, k)
  {
    hide EncodeOp, FileBytes, RecordBytes, L.Append, L.Concat, Files, Exec, ExecDir, OpsOf, Writable, Loadable;
    var st, r, segMax := s.run.state, RecordOf(kv.pb, s, kv.wal.version, op), kv.wal.segMax;
    var ops := WriteOps(kv, s, op);
    EntryFits(kv.pb, s, kv.wal.version, op, kv.wal.batch);
    assert ops[..|ops|] == ops;
    OpsSplit(st.log, r, segMax);
    StopLeaves(st.log, r, kv.wal.isEntry, segMax, |ops|);
    AppendOnSegments(st.log, r, segMax, |ops|);
    ExecSegments(DirOf(st), ops);
    AppendStorable(st.log, r, kv.wal.isEntry, segMax, kv.wal.batch);
  }

  lemma TornAbove(log: L.Log, r: Record, segMax: nat, k: nat)
    requires log.segs != []
    ensures var torn := Torn(log, r, segMax, k); torn.Some? ==> torn.value >= log.Hi()
  {
    hide OpsOf, RecordSize;
  }

  lemma AppendOnSegments(log: L.Log, r: Record, segMax: nat, k: nat)
    requires log.segs != [] && k <= |OpsOf(log, r, segMax)|
    ensures OnSegments(OpsOf(log, r, segMax)[..k])
  {
    hide FileBytes, RecordBytes, Files;
    LastFile(log);
  }

  /** An empty marker file, as good as none, is like the number 0 in it. */
  lemma {:induction false} FoundMarked(s: L.State)
    requires s.Valid()
    ensures Found(DirOf(s)) == Kept(DirOf(s).segs, s.marker) == Kept(DirOf(s).segs, Marker(DirOf(s)))
    ensures LooksLike(s, DirOf(s))
  {
    hide FileBytes, L.Concat;
    assert s.log.lo in DirOf(s).segs;
    ZeroKeepsAll(DirOf(s).segs);
  }

  // -------------------------------------------- stopped truncations, saves and starts

  /** A directory that looks like that of `s` can be opened, and the log is found. */
  lemma {:induction false} LooksFound(kv: MiniKV, s: System, d: Dir)
    requires s.run.state.log.segs != [] && LooksLike(s.run.state, d) && kv.wal.Config()
    requires Storable(s.run.state.log, kv.wal.isEntry, kv.wal.batch)
    requires forall n | n in d.segs :: |d.segs[n]| + kv.wal.batch < U32
    ensures kv.Finds(s, d) && Openable(kv.wal.isEntry, d)
  {
    hide FileBytes, Files, L.Concat, L.Reopen, Storable, FileVerdict;
    StoredIsIntact(s.run.state.log, kv.wal.isEntry, kv.wal.batch);
    KeptIsReopened(s.run.state);
    ReopenStorable(s.run.state, kv.wal.isEntry, kv.wal.batch);
  }

  /** So can that of a store that is stopped between two operations. */
  lemma {:induction false} StoppedIdle(kv: MiniKV, s: System)
    requires s.Valid(kv.pb) && kv.wal.Config() && Storable(s.run.state.log, kv.wal.isEntry, kv.wal.batch)
    ensures kv.Finds(s, DirOf(s.run.state)) && Openable(kv.wal.isEntry, DirOf(s.run.state))
  {
    hide FileBytes, Files, L.Concat, Storable, LooksLike, Openable, MiniKV.Finds;
    FoundMarked(s.run.state);
    StoredFits(s.run.state.log, kv.wal.isEntry, kv.wal.batch);
    LooksFound(kv, s, DirOf(s.run.state));
  }

  /** The system as the next start sees it, if a truncation stops after `k`
      operations. */
  function TruncatedIn(s: System, k: nat): System
    requires L.Has(s.run.state.log, s.id)
  {
    s.(run := s.run.(state := TruncLeaves(s.run.state, s.id, k)))
  }

  lemma {:induction false} LeavesStored(kv: MiniKV, s: System, k: nat)
    requires s.Valid(kv.pb) && L.Has(s.run.state.log, s.id)
    requires Storable(s.run.state.log, kv.wal.isEntry, kv.wal.batch)
    ensures var log := TruncLeaves(s.run.state, s.id, k).log;
            log.segs != [] && Storable(log, kv.wal.isEntry, kv.wal.batch)
  {
    hide FileBytes, Loadable, L.Concat, L.SegOf, Unlinks, Marks;
    DropStored(s.run.state.log, L.Removable(s.run.state.log, s.id), kv.wal.isEntry, kv.wal.batch);
  }

  /** Wherever a truncation stops, the log can be opened again, and what is found is
      the log with part of the marker or all of it, or the truncated log. */
  lemma {:induction false} TruncationStopped(kv: MiniKV, s: System, k: nat)
    requires s.Valid(kv.pb) && kv.wal.Config() && Storable(s.run.state.log, kv.wal.isEntry, kv.wal.batch)
    requires L.Has(s.run.state.log, s.id) && k <= |TruncOps(s.run.state, s.id)|
    ensures var d := ExecDir(DirOf(s.run.state), TruncOps(s.run.state, s.id)[..k]);
            kv.Finds(TruncatedIn(s, k), d) && Openable(kv.wal.isEntry, d)
    ensures TruncatedIn(s, k).Valid(kv.pb) <==> TruncatedIn(s, k).First() <= s.c
  {
    hide FileBytes, Files, L.Concat, L.SegOf, L.Removable, Storable, FileVerdict, ExecDir, TruncOps, LooksLike;
    hide MiniKV.Finds, Openable, EncodeOp;
    TruncStopped(s.run.state, s.id, k);
    StoredFits(s.run.state.log, kv.wal.isEntry, kv.wal.batch);
    LeavesStored(kv, s, k);
    LooksFound(kv, TruncatedIn(s, k), ExecDir(DirOf(s.run.state), TruncOps(s.run.state, s.id)[..k]));
    LeavesRun(s.run, s.id, k);
  }

  lemma {:induction false} LeavesRun(run: L.Run, id: nat, k: nat)
    requires run.Valid() && L.Has(run.state.log, id)
    ensures run.(state := TruncLeaves(run.state, id, k)).Valid()
  {
    hide L.Concat, L.Removable, TruncLeaves, L.Drop;
    var log, i := run.state.log, L.Removable(run.state.log, id);
    LeavesCases(run.state, id, k);
    HasRecords(log, id);
    L.NewestSurvives(log, id);
    L.DropKeepsValid(log, i);
    L.DropRecords(log, i);
    L.DropHist(log, i, run.hist);
  }

  lemma LeavesCases(s: L.State, id: nat, k: nat)
    requires L.Has(s.log, id)
    ensures var t, i := TruncLeaves(s, id, k), L.Removable(s.log, id);
            || t == s.(marker := t.marker)
            || (t == L.State(L.Drop(s.log, i), s.log.lo + i, None) && L.Drop(s.log, i).lo == s.log.lo + i)
  {
    hide L.Removable, Marks, Unlinks;
  }

  lemma HasRecords(log: L.Log, id: nat)
    requires L.Has(log, id)
    ensures log.Records() != []
  {}

  /** A save that is stopped after any of its operations leaves the directory
      broken, exactly if it stops between a rename and the removal of the ok flag;
      or with the checkpoint before it, or the one it was to make. */
  lemma {:induction false} SaveStopped(kv: MiniKV, s: System, was: Pairs, id: nat, list: Pairs, d: P.Files, steps: nat)
    requires !P.Broken(d) && kv.CheckpointOnDisk(s, was, d) && kv.Listed(id, list, Play(map[], s.ops))
    ensures var e := P.Save(P.Snapshot(id, kv.cp.version, ToEntries(kv.pb, list)), steps); var d' := P.Next(d, e);
            && (P.Broken(d') <==> P.InWindow(P.Ran(d, e)))
            && (!P.Broken(d') && !P.Commits(d, e) ==> kv.CheckpointOnDisk(s, was, d'))
            && (!P.Broken(d') && P.Commits(d, e) ==>
                  id > 0 && kv.CheckpointOnDisk(s.(id := id, c := |s.ops|), list, d'))
  {
    hide FromList, Play, FileBytes, P.Encoded, P.Digits, P.Undigits, P.Next, P.InWindow, P.Commits, P.Ran, ToEntries;
    var e := P.Save(P.Snapshot(id, kv.cp.version, ToEntries(kv.pb, list)), steps);
    P.StepCommits(d, e);
    if P.Commits(d, e) {
      P.CommitsOnlyNew(d, e.snapshot, steps);
      assert s.ops[..|s.ops|] == s.ops;
    }
  }

  /** So does a recovery that is stopped. */
  lemma {:induction false} RecoveryStopped(kv: MiniKV, s: System, was: Pairs, d: P.Files, steps: nat)
    requires !P.Broken(d) && kv.CheckpointOnDisk(s, was, d)
    ensures var d' := P.Next(d, P.Init(steps));
            && (P.Broken(d') <==> P.InWindow(P.Ran(d, P.Init(steps))))
            && (!P.Broken(d') ==> kv.CheckpointOnDisk(s, was, d'))
  {
    hide FromList, Play, FileBytes, P.Encoded, P.Digits, P.Next, P.InWindow, P.Ran, ToEntries;
    P.StepCommits(d, P.Init(steps));
  }

  // ------------------------------------------------------------------------- runs

  /** Both directories, the system they hold, the list its checkpoint was made from,
      and whether a process is up. */
  datatype World = World(s: System, list: Pairs, dir: Dir, files: P.Files, up: bool)

  /** What processes do, each with the number of file operations it gets to; a save is
      made by a child, which may die alone. */
  datatype Act =
    | Writing(op: Op, steps: nat)
    | Saving(id: nat, list: Pairs, steps: nat)
    | Truncating(steps: nat)
    | Stopping
    | Starting(recovery: nat, steps: nat)

  function Upto(steps: nat, ops: seq<FileOp>): (k: nat)
    ensures k <= |ops|
  {
    if steps < |ops| then steps else |ops|
  }

  ghost predicate CanDo(kv: MiniKV, w: World, a: Act) {
    match a
    case Writing(op, _) => w.up && Takes(kv, w.s, op)
    case Saving(id, list, _) => w.up && id <= |w.s.ops| + 1 && kv.Listed(id, list, Play(map[], w.s.ops))
    case Truncating(_) => w.up
    case Stopping => true
    case Starting(_, _) => !w.up
  }

  function SaveEvent(kv: MiniKV, id: nat, list: Pairs, steps: nat): P.Event {
    P.Save(P.Snapshot(id, kv.cp.version, ToEntries(kv.pb, list)), steps)
  }

  ghost function Step(kv: MiniKV, w: World, a: Act): (w': World)
    requires w.s.run.state.log.segs != []
    ensures w'.s.run.state.log.segs != []
  {
    match a
    case Writing(op, n) => AfterWriting(kv, w, op, Upto(n, WriteOps(kv, w.s, op)))
    case Saving(id, list, n) =>
      var e := SaveEvent(kv, id, list, n); var files := P.Next(w.files, e);
      if P.Commits(w.files, e) then w.(s := Next(kv.pb, w.s, Saved(id), 0), list := list, files := files)
      else w.(files := files)
    case Truncating(n) =>
      if L.Has(w.s.run.state.log, w.s.id) then AfterTruncating(kv, w, Upto(n, TruncOps(w.s.run.state, w.s.id)))
      else w.(up := false)
    case Stopping => w.(up := false)
    case Starting(i, n) =>
      var w' := w.(files := P.Next(w.files, P.Init(i)));
      if i < |P.RecoverOps(w.files)| then w' else AfterOpening(kv, w', Upto(n, OpenOps(w.dir)))
  }

  ghost function AfterWriting(kv: MiniKV, w: World, op: Op, k: nat): (w': World)
    requires w.s.run.state.log.segs != [] && k <= |WriteOps(kv, w.s, op)|
    ensures w'.s.run.state.log.segs != []
  {
    var ops := WriteOps(kv, w.s, op);
    var left := StoppedIn(kv.pb, w.s, kv.wal.version, op, kv.wal.segMax, k);
    w.(s := left, dir := ExecDir(w.dir, ops[..k]), up := k == |ops|)
  }

  ghost function AfterTruncating(kv: MiniKV, w: World, k: nat): (w': World)
    requires L.Has(w.s.run.state.log, w.s.id) && k <= |TruncOps(w.s.run.state, w.s.id)|
    ensures w'.s.run.state.log.segs != []
  {
    var st := w.s.run.state; var ops := TruncOps(st, w.s.id);
    var w' := w.(dir := ExecDir(w.dir, ops[..k]));
    if k < |ops| then w'.(s := TruncatedIn(w.s, k), up := false)
    else w'.(s := Next(kv.pb, w.s, Truncated, 0), up := L.Truncate(st, w.s.id).1 == OK)
  }

  ghost function AfterOpening(kv: MiniKV, w: World, k: nat): (w': World)
    requires w.s.run.state.log.segs != [] && k <= |OpenOps(w.dir)|
    ensures w'.s.run.state.log.segs != []
  {
    var w' := w.(dir := ExecDir(w.dir, OpenOps(w.dir)[..k]));
    if k < |OpenOps(w.dir)| then w' else w'.(s := Next(kv.pb, w.s, Restarted, 0), up := true)
  }

  /** What is on disk is the system's: no file is damaged, the next start finds the
      log and the checkpoint, and the log reaches back to the snapshot. */
  ghost predicate Sound(kv: MiniKV, w: World) {
    && w.s.Valid(kv.pb)
    && !P.Broken(w.files) && kv.CheckpointOnDisk(w.s, w.list, w.files)
    && Openable(kv.wal.isEntry, w.dir) && kv.Finds(w.s, w.dir)
    && (w.up ==> w.dir == DirOf(w.s.run.state) && Storable(w.s.run.state.log, kv.wal.isEntry, kv.wal.batch))
  }

  /** No file is torn, no save or recovery stops between a rename and the removal of
      the ok flag, no start between removing the last segment and the marker, and the
      snapshot covers what truncations and markers remove. */
  ghost predicate Harmless(kv: MiniKV, w: World, a: Act)
    requires w.s.run.state.log.segs != []
  {
    match a
    case Writing(op, n) => !Tears(kv, w.s, op, Upto(n, WriteOps(kv, w.s, op)))
    case Saving(id, list, n) => !P.InWindow(P.Ran(w.files, SaveEvent(kv, id, list, n)))
    case Truncating(n) =>
      L.Has(w.s.run.state.log, w.s.id) ==>
        TruncatedIn(w.s, Upto(n, TruncOps(w.s.run.state, w.s.id))).First() <= w.s.c
    case Stopping => true
    case Starting(i, n) =>
      && !P.InWindow(P.Ran(w.files, P.Init(i)))
      && (i >= |P.RecoverOps(w.files)| ==> OpensWell(w, Upto(n, OpenOps(w.dir))))
  }

  ghost predicate OpensWell(w: World, k: nat)
    requires k <= |OpenOps(w.dir)|
  {
    && !LacksSegment(ExecDir(w.dir, OpenOps(w.dir)[..k])) && !TornOpening(w.dir, k)
    && (k == |OpenOps(w.dir)| ==> Allowed(w.s, Restarted))
  }

  lemma HasLog(pb: Pb, s: System)
    requires s.Valid(pb)
    ensures s.run.state.log.segs != []
  {}

  lemma {:induction false} WritingExact(kv: MiniKV, w: World, op: Op, k: nat)
    requires kv.Wired() && kv.wal.Config() && Sound(kv, w) && w.up && Takes(kv, w.s, op) && k <= |WriteOps(kv, w.s, op)|
    ensures Sound(kv, AfterWriting(kv, w, op, k)) <==> !Tears(kv, w.s, op, k)
  {
    hide EncodeOp, L.Concat, ExecDir, OpsOf, Openable, MiniKV.Finds, Storable, MiniKV.CheckpointOnDisk, P.Broken, Tears;
    hide StoppedIn, L.Run.Valid;
    var left := StoppedIn(kv.pb, w.s, kv.wal.version, op, kv.wal.segMax, k);
    WriteStopped(kv, w.s, op, k);
    StoppedIsValid(kv.pb, w.s, kv.wal.version, op, kv.wal.segMax, k);
    kv.KeepsCheckpoint(w.s, left, w.list, w.files);
    if k == |WriteOps(kv, w.s, op)| {
      WriteWhole(kv, w.s, op);
      assert WriteOps(kv, w.s, op)[..k] == WriteOps(kv, w.s, op);
    }
  }

  lemma {:induction false} SavingExact(kv: MiniKV, w: World, id: nat, list: Pairs, n: nat)
    requires Sound(kv, w) && CanDo(kv, w, Saving(id, list, n))
    ensures Sound(kv, Step(kv, w, Saving(id, list, n))) <==> Harmless(kv, w, Saving(id, list, n))
  {
    hide Openable, Storable, MiniKV.CheckpointOnDisk, P.Broken, MiniKV.Listed, P.Next, P.InWindow, P.Ran, P.Commits;
    hide Play, L.Run.Valid, EncodeOp, MiniKV.Finds, SaveEvent;
    SaveStopped(kv, w.s, w.list, id, list, w.files, n);
    SaveIs(kv, id, list, n);
    FindsSame(kv, w.s, w.s.(id := id, c := |w.s.ops|), w.dir);
  }

  lemma SaveIs(kv: MiniKV, id: nat, list: Pairs, n: nat)
    ensures SaveEvent(kv, id, list, n) == P.Save(P.Snapshot(id, kv.cp.version, ToEntries(kv.pb, list)), n)
  {}

  /** What is found depends on the log alone. */
  lemma FindsSame(kv: MiniKV, s: System, s': System, d: Dir)
    requires s'.run == s.run
    ensures kv.Finds(s, d) <==> kv.Finds(s', d)
  {
    hide Storable, Intact, L.Reopen, Found;
  }

  lemma {:induction false} TruncatingExact(kv: MiniKV, w: World, k: nat)
    requires kv.wal.Config() && Sound(kv, w) && w.up
    requires L.Has(w.s.run.state.log, w.s.id) && k <= |TruncOps(w.s.run.state, w.s.id)|
    ensures Sound(kv, AfterTruncating(kv, w, k)) <==> TruncatedIn(w.s, k).First() <= w.s.c
  {
    hide L.Concat, ExecDir, Openable, MiniKV.Finds, Storable, MiniKV.CheckpointOnDisk, P.Broken, L.Truncate, TruncOps;
    hide TruncLeaves, EncodeOp, L.Removable, DirOf;
    TruncationStopped(kv, w.s, k);
    TruncStopped(w.s.run.state, w.s.id, k);
    LeavesStored(kv, w.s, k);
    kv.KeepsCheckpoint(w.s, TruncatedIn(w.s, k), w.list, w.files);
    var end := Next(kv.pb, w.s, Truncated, 0);
    kv.KeepsCheckpoint(w.s, end, w.list, w.files);
    L.NextTruncateKeeps(w.s.run, w.s.id, 0);
    if k == |TruncOps(w.s.run.state, w.s.id)| && end.First() <= w.s.c {
      StoppedIdle(kv, end);
    }
  }

  /** A restart keeps the system exactly if the snapshot covers what it sweeps away and
      a record is left to number the next one by. */
  lemma {:induction false} RestartValid(pb: Pb, s: System)
    requires s.Valid(pb)
    ensures Next(pb, s, Restarted, 0).Valid(pb) <==> Allowed(s, Restarted)
  {
    hide L.Concat, L.Reopen, EncodeOp;
    L.ReopenKeeps(s.run.state);
    if Allowed(s, Restarted) {
      NextKeeps(pb, s, Restarted, 0);
    }
  }

  /** Left to finish, a start has the directory of the reopened log. */
  lemma {:induction false} OpenedIs(kv: MiniKV, s: System, d: Dir)
    requires kv.Finds(s, d) && Openable(kv.wal.isEntry, d)
    ensures var st := L.Reopen(s.run.state);
            ExecDir(d, OpenOps(d)) == DirOf(st) && Storable(st.log, kv.wal.isEntry, kv.wal.batch)
  {
    hide Files, ExecDir, OpenOps, Found, Intact, Storable;
    OpenAll(d);
  }

  lemma {:induction false} OpeningExact(kv: MiniKV, w: World, k: nat)
    requires kv.wal.Config() && Sound(kv, w) && !w.up && k <= |OpenOps(w.dir)|
    ensures Sound(kv, AfterOpening(kv, w, k)) <==> OpensWell(w, k)
  {
    hide ExecDir, OpenOps, LacksSegment, TornOpening, Openable, MiniKV.Finds, Storable, MiniKV.CheckpointOnDisk;
    hide L.Reopen, Allowed, DirOf, L.Run.Valid, EncodeOp, P.Broken;
    HasLog(kv.pb, w.s);
    OpenStopped(kv.wal.isEntry, w.dir, k);
    OpenAgain(kv.wal.isEntry, w.dir);
    kv.FindsStill(w.s, w.dir, k);
    if k == |OpenOps(w.dir)| {
      WholeOpening(w.dir);
      OpenedIs(kv, w.s, w.dir);
      RestartValid(kv.pb, w.s);
      var s' := Next(kv.pb, w.s, Restarted, 0);
      kv.KeepsCheckpoint(w.s, s', w.list, w.files);
      if Allowed(w.s, Restarted) {
        StoppedIdle(kv, s');
      }
    }
  }

  lemma {:induction false} StartingExact(kv: MiniKV, w: World, i: nat, n: nat)
    requires kv.wal.Config() && Sound(kv, w) && !w.up
    ensures Sound(kv, Step(kv, w, Starting(i, n))) <==> Harmless(kv, w, Starting(i, n))
  {
    hide OpensWell, Openable, MiniKV.Finds, MiniKV.CheckpointOnDisk, P.Broken, P.Next, P.InWindow, P.Ran, P.RecoverOps;
    hide System.Valid;
    RecoveryStopped(kv, w.s, w.list, w.files, i);
    var w' := w.(files := P.Next(w.files, P.Init(i)));
    if i >= |P.RecoverOps(w.files)| && Sound(kv, w') {
      OpeningExact(kv, w', Upto(n, OpenOps(w.dir)));
      SameOpening(w, w', Upto(n, OpenOps(w.dir)));
    }
  }

  lemma SameOpening(w: World, w': World, k: nat)
    requires w.dir == w'.dir && w.s == w'.s && k <= |OpenOps(w.dir)|
    ensures OpensWell(w, k) <==> OpensWell(w', k)
  {}

  /** Exactly: after an act that stops anywhere, or not, what is on disk is still the
      system's if and only if the act was harmless. */
  lemma {:induction false} StepExact(kv: MiniKV, w: World, a: Act)
    requires kv.Wired() && kv.wal.Config() && Sound(kv, w) && CanDo(kv, w, a)
    ensures Sound(kv, Step(kv, w, a)) <==> Harmless(kv, w, a)
  {
    hide Tears, AfterWriting, AfterTruncating, AfterOpening, OpensWell, TruncatedIn, System.Valid, P.Commits, P.Next;
    hide MiniKV.Listed, Takes, P.InWindow, L.Has, Storable, Openable, MiniKV.Finds, MiniKV.CheckpointOnDisk;
    HasLog(kv.pb, w.s);
    match a
    case Writing(op, n) => WritingExact(kv, w, op, Upto(n, WriteOps(kv, w.s, op)));
    case Saving(id, list, n) => SavingExact(kv, w, id, list, n);
    case Truncating(n) =>
      if L.Has(w.s.run.state.log, w.s.id) {
        TruncatingExact(kv, w, Upto(n, TruncOps(w.s.run.state, w.s.id)));
      }
    case Stopping =>
    case Starting(i, n) => StartingExact(kv, w, i, n);
  }

  ghost function Steps(kv: MiniKV, w: World, acts: seq<Act>): World
    requires w.s.run.state.log.segs != []
    decreases |acts|
  {
    if acts == [] then w else Steps(kv, Step(kv, w, acts[0]), acts[1..])
  }

  /** Every act is possible when it comes. */
  ghost predicate AllCan(kv: MiniKV, w: World, acts: seq<Act>)
    requires w.s.run.state.log.segs != []
    decreases |acts|
  {
    acts == [] || (CanDo(kv, w, acts[0]) && AllCan(kv, Step(kv, w, acts[0]), acts[1..]))
  }

  ghost predicate AllHarmless(kv: MiniKV, w: World, acts: seq<Act>)
    requires w.s.run.state.log.segs != []
    decreases |acts|
  {
    acts == [] || (Harmless(kv, w, acts[0]) && AllHarmless(kv, Step(kv, w, acts[0]), acts[1..]))
  }

  /** The directories hold the system after every act. */
  ghost predicate SoundAll(kv: MiniKV, w: World, acts: seq<Act>)
    requires w.s.run.state.log.segs != []
    decreases |acts|
  {
    Sound(kv, w) && (acts == [] || SoundAll(kv, Step(kv, w, acts[0]), acts[1..]))
  }

  /** The writes that got as far as the end of their record. */
  function Logged(kv: MiniKV, acts: seq<Act>): seq<Op>
    decreases |acts|
  {
    if acts == [] then []
    else (if IsLogged(kv, acts[0]) then [acts[0].op] else []) + Logged(kv, acts[1..])
  }

  predicate IsLogged(kv: MiniKV, a: Act) {
    a.Writing? && a.steps >= RecordSize(WAL_FORMAT, Record(kv.wal.version, 0, EncodeOp(kv.pb, a.op)))
  }

  lemma {:induction false} StepLogs(kv: MiniKV, w: World, a: Act)
    requires w.s.Valid(kv.pb) && CanDo(kv, w, a)
    ensures Step(kv, w, a).s.ops == w.s.ops + if IsLogged(kv, a) then [a.op] else []
  {
    hide L.Concat, L.Run.Valid, ExecDir, EncodeOp, OpenOps, TruncOps, Play, P.Commits, P.Next;
    HasLog(kv.pb, w.s);
    if a.Writing? {
      OpsSplit(w.s.run.state.log, RecordOf(kv.pb, w.s, kv.wal.version, a.op), kv.wal.segMax);
      StoppedIsValid(kv.pb, w.s, kv.wal.version, a.op, kv.wal.segMax, Upto(a.steps, WriteOps(kv, w.s, a.op)));
    }
  }

  /** Exactly: over every run of acts that stop anywhere, or not, both directories hold
      the system all the time if and only if every act is harmless; and then its
      history is that of the writes whose record was whole. */
  lemma {:induction false} RunExact(kv: MiniKV, w: World, acts: seq<Act>)
    requires kv.Wired() && kv.wal.Config() && Sound(kv, w) && w.s.run.state.log.segs != [] && AllCan(kv, w, acts)
    ensures SoundAll(kv, w, acts) <==> AllHarmless(kv, w, acts)
    ensures AllHarmless(kv, w, acts) ==>
              Sound(kv, Steps(kv, w, acts)) && Steps(kv, w, acts).s.ops == w.s.ops + Logged(kv, acts)
    decreases |acts|
  {
    hide Step, Sound, Harmless, CanDo, System.Valid, IsLogged, AllCan, AllHarmless, SoundAll, Steps, Logged;
    if acts == [] {
      Nothing(kv, w);
      assert w.s.ops + [] == w.s.ops;
    } else {
      var w' := Step(kv, w, acts[0]);
      Unfold(kv, w, acts);
      StepExact(kv, w, acts[0]);
      SoundIsValid(kv, w);
      StepLogs(kv, w, acts[0]);
      if Sound(kv, w') {
        RunExact(kv, w', acts[1..]);
      } else {
        SoundFirst(kv, w', acts[1..]);
      }
    }
  }

  lemma Unfold(kv: MiniKV, w: World, acts: seq<Act>)
    requires w.s.run.state.log.segs != [] && acts != []
    ensures var a, rest := acts[0], acts[1..]; var w' := Step(kv, w, a);
            && (AllCan(kv, w, acts) <==> CanDo(kv, w, a) && AllCan(kv, w', rest))
            && (AllHarmless(kv, w, acts) <==> Harmless(kv, w, a) && AllHarmless(kv, w', rest))
            && (SoundAll(kv, w, acts) <==> Sound(kv, w) && SoundAll(kv, w', rest))
            && Steps(kv, w, acts) == Steps(kv, w', rest)
            && Logged(kv, acts) == (if IsLogged(kv, a) then [a.op] else []) + Logged(kv, rest)
  {
    hide Step, Sound, Harmless, CanDo, IsLogged;
  }

  lemma Nothing(kv: MiniKV, w: World)
    requires w.s.run.state.log.segs != []
    ensures AllCan(kv, w, []) && AllHarmless(kv, w, []) && (SoundAll(kv, w, []) <==> Sound(kv, w))
    ensures Steps(kv, w, []) == w && Logged(kv, []) == []
  {
    hide Sound;
  }

  lemma SoundFirst(kv: MiniKV, w: World, acts: seq<Act>)
    requires w.s.run.state.log.segs != []
    ensures SoundAll(kv, w, acts) ==> Sound(kv, w)
  {
    hide Sound;
  }

  lemma SoundIsValid(kv: MiniKV, w: World)
    requires Sound(kv, w)
    ensures w.s.Valid(kv.pb) && w.s.c <= |w.s.ops|
  {}

  /** A new store: two empty directories. */
  const NEW := World(EMPTY, [], Dir(map[], None, false), map[], false)

  lemma {:induction false} NewIsSound(kv: MiniKV)
    requires kv.wal.Config()
    ensures Sound(kv, NEW)
  {
    hide FileBytes, L.Concat;
    EmptyIsValid(kv.pb);
    FreshStored(kv.wal.isEntry, kv.wal.batch);
    L.StartIsValid();
    L.ReopenExact(EMPTY.run.state);
    NothingYet([]);
  }

  /** So from a new store, over every such run: nothing whose record was whole is lost,
      nothing else appears, as long as no key deleted has a zero byte. */
  lemma {:induction false} NothingLostOnDisk(kv: MiniKV, acts: seq<Act>)
    requires kv.Wired() && kv.wal.Config() && AllCan(kv, NEW, acts)
    ensures SoundAll(kv, NEW, acts) <==> AllHarmless(kv, NEW, acts)
    ensures var s := Steps(kv, NEW, acts).s;
            AllHarmless(kv, NEW, acts) ==>
              && s.ops == Logged(kv, acts) && s.c <= |s.ops|
              && (s.ZeroFree() && SweptFirst(s) <= s.c ==> RestartsTo(kv.pb, s).0 == Play(map[], Logged(kv, acts)))
  {
    hide Steps, AllHarmless, AllCan, SoundAll, Logged, System.Valid, RestartsTo, Play;
    NewIsSound(kv);
    RunExact(kv, NEW, acts);
    if AllHarmless(kv, NEW, acts) {
      SoundIsValid(kv, Steps(kv, NEW, acts));
      RestartExact(kv.pb, Steps(kv, NEW, acts).s, kv.wal.segMax);
    }
  }

  /** The first start of all, left to finish, has the empty log. */
  lemma {:induction false} FirstStart(kv: MiniKV)
    requires kv.wal.Config()
    ensures Harmless(kv, NEW, Starting(0, 7))
    ensures Step(kv, NEW, Starting(0, 7)) == FIRST
  {
    hide ExecDir, OpenOps, Found, Storable, L.Concat, DirOf;
    NewIsSound(kv);
    EmptyReopens();
    EmptyRecovers();
    NewOpens();
    WholeOpening(NEW.dir);
    OpenStopped(kv.wal.isEntry, NEW.dir, 7);
    OpenedIs(kv, EMPTY, NEW.dir);
    RestartValid(kv.pb, EMPTY);
  }

  lemma EmptyReopens()
    ensures L.Reopen(EMPTY.run.state) == EMPTY.run.state
    ensures forall pb: Pb :: Next(pb, EMPTY, Restarted, 0) == EMPTY
  {
    assert L.FRESH.segs[0..] == L.FRESH.segs;
    L.ConcatOne([]);
  }

  lemma EmptyRecovers()
    ensures P.RecoverOps(map[]) == [] && P.Next(map[], P.Init(0)) == map[] && !P.InWindow(P.Ran(map[], P.Init(0)))
  {}

  lemma NewOpens()
    ensures |OpenOps(NEW.dir)| == 7 && !TornOpening(NEW.dir, 7)
  {}

  /** The last start, on a log without a marker. */
  lemma {:induction false} PlainStart(kv: MiniKV, w: World)
    requires w.s.Valid(kv.pb) && w.dir.meta.None? && w.dir.segs != map[] && w.files == map[]
    requires w.s.run.state.marker.None?
    ensures Harmless(kv, w, Starting(0, 2))
  {
    hide OpensWell, P.Next, P.RecoverOps, P.Ran, OpenOps, System.Valid;
    EmptyRecovers();
    PlainOpening(kv, w);
  }

  lemma {:induction false} PlainOpening(kv: MiniKV, w: World)
    requires w.s.Valid(kv.pb) && w.dir.meta.None? && w.dir.segs != map[] && w.s.run.state.marker.None?
    ensures |OpenOps(w.dir)| == 2 && OpensWell(w, 2)
  {
    hide ExecDir, L.Concat, L.Run.Valid, EncodeOp, NewSegment, Intact;
    L.DropNone(w.s.run.state.log);
    assert OpenOps(w.dir) == [DropMeta, DropOk];
    OpenStopped(kv.wal.isEntry, w.dir, 2);
  }

  lemma {:induction false} EmptyTakes(kv: MiniKV, op: Op)
    requires kv.wal.Config() && op.key != [] && |EncodeOp(kv.pb, op)| + 34 <= kv.wal.batch
    ensures Takes(kv, EMPTY, op)
  {
    hide EncodeOp;
    FreshStored(kv.wal.isEntry, kv.wal.batch);
  }

  const FIRST := World(EMPTY, [], DirOf(EMPTY.run.state), map[], true)

  lemma {:induction false} AfterFirstWrite(kv: MiniKV, op: Op, k: nat)
    requires kv.Wired() && kv.wal.Config() && Takes(kv, EMPTY, op) && k <= |WriteOps(kv, EMPTY, op)|
    ensures Harmless(kv, AfterWriting(kv, FIRST, op, k).(up := false), Starting(0, 2))
  {
    hide EncodeOp, L.Concat, ExecDir, OpsOf, Exec, FileBytes, RecordBytes, Storable, Loadable, Writable, Survivor;
    var r, segMax := RecordOf(kv.pb, EMPTY, kv.wal.version, op), kv.wal.segMax;
    EmptyIsValid(kv.pb);
    EntryFits(kv.pb, EMPTY, kv.wal.version, op, kv.wal.batch);
    StoppedIsValid(kv.pb, EMPTY, kv.wal.version, op, segMax, k);
    AppendOnSegments(L.FRESH, r, segMax, k);
    ExecSegments(FIRST.dir, WriteOps(kv, EMPTY, op)[..k]);
    StopExact(L.FRESH, r, kv.wal.isEntry, segMax, kv.wal.batch, k, None);
    PlainStart(kv, AfterWriting(kv, FIRST, op, k).(up := false));
  }

  lemma {:induction false} FirstAct(kv: MiniKV, w: World, a: Act, rest: seq<Act>)
    requires w.s.run.state.log.segs != []
    ensures AllCan(kv, w, [a] + rest) <==> CanDo(kv, w, a) && AllCan(kv, Step(kv, w, a), rest)
    ensures AllHarmless(kv, w, [a] + rest) <==> Harmless(kv, w, a) && AllHarmless(kv, Step(kv, w, a), rest)
  {
    hide CanDo, Harmless, Step;
    assert ([a] + rest)[1..] == rest;
  }

  lemma WriteThenStop(kv: MiniKV, w: World, op: Op, n: nat)
    requires w.s.run.state.log.segs != [] && w.up && Takes(kv, w.s, op)
    ensures var k := Upto(n, WriteOps(kv, w.s, op)); var w' := AfterWriting(kv, w, op, k);
            && CanDo(kv, w, Writing(op, n)) && Step(kv, w, Writing(op, n)) == w'
            && (Harmless(kv, w, Writing(op, n)) <==> !Tears(kv, w.s, op, k))
            && CanDo(kv, w', Stopping) && Harmless(kv, w', Stopping) && Step(kv, w', Stopping) == w'.(up := false)
            && CanDo(kv, w'.(up := false), Starting(0, 2))
  {
    hide Takes, AfterWriting, OpsOf, Tears;
  }

  /** A run of a new store: it starts, is stopped `n` operations into its first write,
      and starts again.  That is harmless exactly if no file is torn. */
  lemma {:induction false} FirstWriteExact(kv: MiniKV, op: Op, n: nat)
    requires kv.Wired() && kv.wal.Config() && op.key != [] && |EncodeOp(kv.pb, op)| + 34 <= kv.wal.batch
    ensures var acts := [Starting(0, 7), Writing(op, n), Stopping, Starting(0, 2)];
            && AllCan(kv, NEW, acts)
            && (AllHarmless(kv, NEW, acts) <==> !Tears(kv, EMPTY, op, Upto(n, WriteOps(kv, EMPTY, op))))
  {
    hide AllCan, AllHarmless, EncodeOp, Takes, OpsOf, Tears, MiniKV.Wired, Step, Harmless, AfterWriting, DirOf;
    var w2 := AfterWriting(kv, FIRST, op, Upto(n, WriteOps(kv, EMPTY, op)));
    var acts := [Starting(0, 7), Writing(op, n), Stopping, Starting(0, 2)];
    FirstStart(kv);
    EmptyTakes(kv, op);
    WriteThenStop(kv, FIRST, op, n);
    AfterFirstWrite(kv, op, Upto(n, WriteOps(kv, EMPTY, op)));
    assert acts == [acts[0]] + acts[1..] && acts[1..] == [acts[1]] + acts[2..] && acts[2..] == [acts[2]] + acts[3..];
    assert acts[3..] == [acts[3]] + [];
    FirstAct(kv, NEW, acts[0], acts[1..]);
    FirstAct(kv, FIRST, acts[1], acts[2..]);
    FirstAct(kv, w2, acts[2], acts[3..]);
    FirstAct(kv, w2.(up := false), acts[3], []);
    Nothing(kv, Step(kv, w2.(up := false), acts[3]));
  }

  /** The process after any such run starts up; and if the snapshot covers what a marker
      sweeps away, it has the map of exactly the writes whose record was whole. */
  method StartAfter(kv: MiniKV, ghost w: World, ghost acts: seq<Act>) returns (ok: bool)
    requires kv.Wired() && kv.stopped && kv.kvs == map[] && kv.wal.New() && !kv.cp.inited && kv.cp.disk.Valid()
    requires Sound(kv, w) && w.s.run.state.log.segs != [] && AllCan(kv, w, acts) && AllHarmless(kv, w, acts)
    requires var end := Steps(kv, w, acts); kv.wal.dir.Value() == end.dir && kv.cp.disk.files == end.files
    modifies kv, kv.cp, kv.cp.disk, kv.wal, kv.wal.dir
    ensures ok
    ensures var s := Steps(kv, w, acts).s;
            s.ZeroFree() && SweptFirst(s) <= s.c ==> kv.kvs == Play(map[], w.s.ops + Logged(kv, acts))
  {
    hide Steps, AllHarmless, Logged, Openable, MiniKV.Finds, MiniKV.CheckpointOnDisk, P.Broken, RestartsTo, L.Run.Valid;
    hide Play, Storable, MiniKV.Running, LacksSegment, OpenOps, MiniKV.CheckpointIn;
    RunExact(kv, w, acts);
    ghost var end := Steps(kv, w, acts);
    RestartExact(kv.pb, end.s, kv.wal.segMax);
    ok := kv.Start(end.s, end.list);
  }

  /** A write that is stopped after any of its operations, and the start after it: that
      works exactly if no file is torn, or a marker has it swept away; and if the
      snapshot covers what is swept, the map is that of the history without the
      write, or with it. */
  method StartAfterWrite(kv: MiniKV, ghost s: System, ghost list: Pairs, ghost op: Op, ghost k: nat) returns (ok: bool)
    requires kv.Wired() && kv.stopped && kv.kvs == map[] && kv.wal.New() && !kv.cp.inited && kv.cp.disk.Valid()
    requires s.Valid(kv.pb) && Takes(kv, s, op) && k <= |WriteOps(kv, s, op)|
    requires kv.wal.dir.Value() == ExecDir(DirOf(s.run.state), WriteOps(kv, s, op)[..k])
    requires !P.Broken(kv.cp.disk.files) && kv.CheckpointOnDisk(s, list, kv.cp.disk.files)
    modifies kv, kv.cp, kv.cp.disk, kv.wal, kv.wal.dir
    ensures ok == !Tears(kv, s, op, k)
    ensures var left := StoppedIn(kv.pb, s, kv.wal.version, op, kv.wal.segMax, k);
            ok && left.ZeroFree() && SweptFirst(left) <= s.c ==>
              kv.kvs == Play(map[], if k < RecordSize(WAL_FORMAT, RecordOf(kv.pb, s, kv.wal.version, op)) then s.ops
                                    else s.ops + [op])
  {
    hide Openable, MiniKV.Finds, MiniKV.CheckpointOnDisk, P.Broken, RestartsTo, L.Run.Valid, StoppedIn, Tears, Takes;
    hide Play, Storable, MiniKV.Running, LacksSegment, OpenOps, MiniKV.CheckpointIn, OpsOf, ExecDir, EncodeOp;
    HasLog(kv.pb, s);
    ghost var left := StoppedIn(kv.pb, s, kv.wal.version, op, kv.wal.segMax, k);
    WriteStopped(kv, s, op, k);
    HasKey(kv, s, op);
    StoppedIsValid(kv.pb, s, kv.wal.version, op, kv.wal.segMax, k);
    kv.KeepsCheckpoint(s, left, list, kv.cp.disk.files);
    RestartExact(kv.pb, left, kv.wal.segMax);
    ok := kv.Start(left, list);
  }

  lemma HasKey(kv: MiniKV, s: System, op: Op)
    requires Takes(kv, s, op)
    ensures op.key != []
  {}
}
