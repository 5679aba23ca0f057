/** The key-value server object over its log and its checkpoint. */
module MiniKv {
  import opened Codec
  import opened Common
  import opened Records
  import opened Kv
  import opened System
  import opened Segments
  import opened Stops
  import opened Opening
  import L = Log
  import P = Protocol
  import W = Wal
  import C = Checkpoint

  type Pairs = seq<(Key, seq<byte>)>

  /** Loading checkpoint entries one after the other. */
  function FromList(list: Pairs): Store {
    if list == [] then map[] else FromList(list[..|list| - 1])[list[|list| - 1].0 := list[|list| - 1].1]
  }

  /** No later pair has the key of the `i`-th. */
  predicate IsLast(list: Pairs, i: nat)
    requires i < |list|
  {
    forall j | i < j < |list| :: list[j].0 != list[i].0
  }

  /** The map has exactly the keys listed, and each has the value of its last pair. */
  ghost predicate Lists(list: Pairs, m: Store) {
    && m.Keys == (set i | 0 <= i < |list| :: list[i].0)
    && forall i | 0 <= i < |list| && IsLast(list, i) :: list[i].0 in m && m[list[i].0] == list[i].1
  }

  lemma {:induction false} FromListKeys(list: Pairs)
    ensures FromList(list).Keys == set i | 0 <= i < |list| :: list[i].0
  {
    if list != [] {
      var n := |list| - 1;
      FromListKeys(list[..n]);
      assert FromList(list).Keys == FromList(list[..n]).Keys + {list[n].0};
    }
  }

  lemma {:induction false} FromListLast(list: Pairs, i: nat)
    requires i < |list| && IsLast(list, i)
    ensures list[i].0 in FromList(list) && FromList(list)[list[i].0] == list[i].1
  {
    var n := |list| - 1;
    if i < n {
      var init := list[..n];
      assert init[i] == list[i];
      FromListLast(init, i);
    }
  }

  lemma {:induction false} FromListExact(list: Pairs)
    ensures Lists(list, FromList(list))
  {
    hide FromList;
    FromListKeys(list);
    forall i | 0 <= i < |list| && IsLast(list, i)
      ensures list[i].0 in FromList(list) && FromList(list)[list[i].0] == list[i].1
    {
      FromListLast(list, i);
    }
  }

  /** So no two maps fit one list. */
  lemma {:induction false} ListsOne(list: Pairs, m: Store)
    requires Lists(list, m)
    ensures m == FromList(list)
  {
    hide FromList;
    FromListExact(list);
    forall k | k in m
      ensures m[k] == FromList(list)[k]
    {
      var i :| 0 <= i < |list| && list[i].0 == k;
      var last := LastWith(list, i);
      assert IsLast(list, last);
    }
  }

  lemma {:induction false} LastWith(list: Pairs, i: nat) returns (last: nat)
    requires i < |list|
    ensures i <= last < |list| && list[last].0 == list[i].0 && IsLast(list, last)
    decreases |list| - i
  {
    if IsLast(list, i) {
      return i;
    }
    var j :| i < j < |list| && list[j].0 == list[i].0;
    last := LastWith(list, j);
  }

  /** Every map can be walked: pair by pair, each key once. */
  lemma {:induction false} Walked(m: Store) returns (list: Pairs)
    ensures FromList(list) == m && |list| == |m|
    ensures forall i | 0 <= i < |list| :: list[i].0 in m && m[list[i].0] == list[i].1 && IsLast(list, i)
    decreases |m|
  {
    if m == map[] {
      return [];
    }
    var k :| k in m;
    var rest := Walked(m - {k});
    list := rest + [(k, m[k])];
    assert list[..|list| - 1] == rest;
    assert m == (m - {k})[k := m[k]] && m.Keys == (m - {k}).Keys + {k};
    forall i | 0 <= i < |rest|
      ensures IsLast(list, i)
    {
      assert IsLast(rest, i) && list[i] == rest[i];
    }
  }

  function ToEntries(pb: Pb, list: Pairs): (entries: seq<Option<seq<byte>>>)
    ensures |entries| == |list|
  {
    seq(|list|, i requires 0 <= i < |list| => Some(pb.enc(list[i].0, list[i].1)))
  }

  predicate IsWalEntry(pb: Pb, bytes: seq<byte>) { DecodeOp(pb, bytes).Some? }

  predicate IsCheckpointEntry(pb: Pb, bytes: seq<byte>) { bytes != [] && pb.dec(bytes).Some? }

  /** The checkpoint records decode to the list they were made from. */
  lemma {:induction false} EncodedList(pb: Pb, version: byte, list: Pairs)
    requires pb.Faithful()
    ensures var recs := P.Encoded(version, ToEntries(pb, list));
            && |recs| == |list|
            && forall i | 0 <= i < |list| :: recs[i] == Record(version, 0, pb.enc(list[i].0, list[i].1))
  {
    P.CompleteExact(version, ToEntries(pb, list));
  }

  lemma {:induction false} ContentFits(f: Format, recs: seq<Record>, at: nat, i: nat)
    requires i < |recs|
    ensures |recs[i].content| <= |BodyBytes(f, recs, at)|
    decreases i
  {
    hide RecordBytes;
    if i > 0 {
      ContentFits(f, recs[1..], at + RecordSize(f, recs[0]), i - 1);
    }
  }

  lemma {:induction false} ListLoadable(pb: Pb, version: byte, list: Pairs, isEntry: seq<byte> -> bool)
    requires pb.Faithful() && (forall b :: isEntry(b) == IsCheckpointEntry(pb, b))
    requires forall i | 0 <= i < |list| :: list[i].0 != []
    requires |FileBytes(CHECKPOINT_FORMAT, P.Encoded(version, ToEntries(pb, list)))| < U32
    ensures Loadable(CHECKPOINT_FORMAT, isEntry, P.Encoded(version, ToEntries(pb, list)))
  {
    hide BodyBytes;
    EncodedList(pb, version, list);
    var recs := P.Encoded(version, ToEntries(pb, list));
    Widths();
    forall r | r in recs ensures Writable(CHECKPOINT_FORMAT, r) && isEntry(r.content) {
      var i :| 0 <= i < |recs| && recs[i] == r;
      ContentFits(CHECKPOINT_FORMAT, recs, 4, i);
      assert pb.dec(pb.enc(list[i].0, list[i].1)).Some?;
    }
  }

  lemma NothingYet(ops: seq<Op>)
    ensures FromList([]) == map[] && Play(map[], ops[..0]) == map[]
  {}

  class MiniKV {
    const pb: Pb
    const wal: W.LogCleanWal
    const cp: C.EntryOrderCheckpoint
    var stopped: bool
    var kvs: Store
    var applyId: nat

    constructor (pb: Pb, wal: W.LogCleanWal, cp: C.EntryOrderCheckpoint)
      ensures this.pb == pb && this.wal == wal && this.cp == cp && stopped && kvs == map[] && applyId == 0
    {
      this.pb, this.wal, this.cp := pb, wal, cp;
      stopped, kvs, applyId := true, map[], 0;
    }

    /** Its log, checkpoint and codecs fit together. */
    ghost predicate Wired() {
      && pb.Faithful()
      && (forall b :: wal.isEntry(b) == IsWalEntry(pb, b))
      && (forall b :: cp.isEntry(b) == IsCheckpointEntry(pb, b))
      && cp.batch > 0
    }

    /** The store of system `s` is up. */
    ghost predicate Running(s: System)
      reads this, wal, wal.dir
    {
      && Wired() && s.Valid(pb) && !stopped
      && wal.Valid() && wal.State() == s.run.state
      && (s.ZeroFree() ==> kvs == Play(map[], s.ops)) && applyId == LastApplied(s)
    }

    /** The log directory is that of `s`. */
    ghost predicate LogOnDisk(s: System)
      reads wal.dir
    {
      wal.dir.Value() == DirOf(s.run.state) && Storable(s.run.state.log, wal.isEntry, wal.batch)
    }

    /** What a start finds in the log directory, if no file is damaged: the log of `s`
        as it is reopened.  Every file is small enough to load. */
    ghost predicate Finds(s: System, d: Dir) {
      && (Intact(wal.isEntry, Found(d)) ==> IsLogOf(s, Found(d), wal.isEntry, wal.batch))
      && forall n | n in d.segs :: |d.segs[n]| + wal.batch < U32
    }

    /** So does the start after one that stopped. */
    lemma {:induction false} FindsStill(s: System, d: Dir, k: nat)
      requires Finds(s, d) && 4 + wal.batch < U32 && k <= |OpenOps(d)|
      ensures Finds(s, ExecDir(d, OpenOps(d)[..k]))
    {
      hide Files, ExecDir, OpenOps, Found, Intact, L.Reopen, Storable;
      OpenFinds(wal.isEntry, d, k);
      FreshStored(wal.isEntry, wal.batch);
    }

    /** The checkpoint of `s` made from `list`. */
    ghost function CheckpointOf(s: System, list: Pairs): P.Pair {
      if s.id == 0 then P.Pair(None, None)
      else P.NewPair(P.Snapshot(s.id, cp.version, ToEntries(pb, list)))
    }

    /** The checkpoint committed is that of `s`, and fits the loader. */
    ghost predicate CheckpointOnDisk(s: System, list: Pairs, files: P.Files) {
      && s.c <= |s.ops| && P.Committed(files) == CheckpointOf(s, list)
      && FromList(list) == Play(map[], s.ops[..s.c]) && (forall i | 0 <= i < |list| :: list[i].0 != [])
      && s.id < U64 && (s.id > 0 ==> |P.Committed(files).cp.value| + cp.batch < U32)
    }

    method OnCheckpointLoadEntry(recs: seq<Record>, ghost list: Pairs)
      requires pb.Faithful() && |recs| == |list|
      requires forall i | 0 <= i < |list| :: recs[i].content == pb.enc(list[i].0, list[i].1)
      modifies this`kvs
      ensures old(kvs) == map[] ==> kvs == FromList(list) && Lists(list, kvs)
    {
      for i := 0 to |recs|
        invariant old(kvs) == map[] ==> kvs == FromList(list[..i])
      {
        var e := pb.dec(recs[i].content);
        assert e == Some((list[i].0, list[i].1));
        kvs := kvs[e.value.0 := e.value.1];
        assert list[..i + 1][..i] == list[..i];
      }
      assert list[..|list|] == list;
      FromListExact(list);
    }

    method OnWalLoadEntries(recs: seq<Record>)
      requires forall r | r in recs :: DecodeOp(pb, r.content).Some?
      modifies this`kvs, this`applyId
      ensures (kvs, applyId) == Replay(old(kvs), old(applyId), LoggedAll(pb, recs))
    {
      hide DecodeOp, Apply;
      ghost var log := LoggedAll(pb, recs);
      for i := 0 to |recs|
        invariant (kvs, applyId) == Replay(old(kvs), old(applyId), log[..i])
      {
        assert log[..i + 1][..i] == log[..i];
        if applyId > recs[i].id {
          continue;
        }
        applyId := recs[i].id;
        kvs := Apply(kvs, DecodeOp(pb, recs[i].content).value);
      }
      assert log[..|log|] == log;
    }

    /** Loads the checkpoint in place. */
    method LoadVisible(ghost s: System, ghost list: Pairs) returns (ok: bool)
      requires Wired() && kvs == map[] && cp.inited && (s.id == 0 ==> s.c == 0)
      requires CheckpointOnDisk(s, list, cp.disk.files) && P.Visible(cp.disk.files) == CheckpointOf(s, list)
      modifies this`kvs, this`applyId
      ensures ok && kvs == Play(map[], s.ops[..s.c]) && applyId == s.id
    {
      hide FileBytes, P.Digits, P.Undigits, ParseFile, FileVerdict, FromList, Play, P.Committed, P.Encoded;
      ghost var snap := P.Snapshot(s.id, cp.version, ToEntries(pb, list));
      if s.id > 0 {
        ListLoadable(pb, cp.version, list, cp.isEntry);
      }
      var code, recs;
      code, applyId, recs := cp.Load(snap);
      if code != OK {
        return false;
      }
      EncodedList(pb, cp.version, list);
      NothingYet(s.ops);
      OnCheckpointLoadEntry(recs, if s.id == 0 then [] else list);
      ok := true;
    }

    /** The first half of starting up: the snapshot, and the id recorded with it. */
    method LoadCheckpoint(ghost s: System, ghost list: Pairs) returns (ok: bool)
      requires Wired() && kvs == map[] && !cp.inited && cp.disk.Valid() && (s.id == 0 ==> s.c == 0)
      requires !P.Broken(cp.disk.files) ==> CheckpointOnDisk(s, list, cp.disk.files)
      modifies this`kvs, this`applyId, cp, cp.disk
      ensures cp.disk.Valid() && cp.inited && ok == !P.Broken(old(cp.disk.files)) == !P.Broken(cp.disk.files)
      ensures ok ==> kvs == Play(map[], s.ops[..s.c]) && applyId == s.id
      ensures ok ==> CheckpointIn(s, list)
    {
      hide P.Exec, P.Succeeds, P.RecoverOps, P.Broken, C.Issued, Play, FromList, P.Visible, CheckpointOf;
      StaysBroken(cp.disk.files);
      var code := cp.Init();
      if code != OK {
        return false;
      }
      NotBroken(cp.disk.files);
      assert P.Committed(cp.disk.files) == P.Visible(cp.disk.files);
      ok := LoadVisible(s, list);
    }

    /** Opens the log and reads all its records; that works exactly if there is no
        marker without a segment and no file that is found is damaged. */
    method ReadLog(ghost s: System) returns (code: Code, recs: seq<Record>)
      requires wal.New() && Finds(s, wal.dir.Value())
      modifies wal, wal.dir
      ensures code == OK <==> Openable(wal.isEntry, old(wal.dir.Value()))
      ensures code == OK ==>
                var log := L.Reopen(s.run.state).log; recs == log.Records() && Storable(log, wal.isEntry, wal.batch)
      ensures code == OK && L.Reopen(s.run.state).log.Valid() && HasRoom(L.Reopen(s.run.state).log, wal.batch) ==>
                wal.Valid() && wal.State() == L.Reopen(s.run.state)
      ensures var d := old(wal.dir.Value());
              wal.dir.Value() == ExecDir(d, OpenOps(d)) && wal.dir.trace == old(wal.dir.trace) + OpenOps(d)
    {
      hide Files, Storable, FileBytes, IndexUpTo, L.Concat, L.Log.Valid, FileVerdict, ExecDir, OpenOps;
      recs := [];
      ghost var found := L.Reopen(s.run.state).log;
      NewLog(wal.isEntry, wal.batch);
      EmptyIntact(wal.isEntry);
      code := wal.Init();
      if code == OK {
        code, recs := wal.Load(found);
      }
    }

    /** The second half: the log, replayed over the snapshot. */
    method LoadLog(ghost s: System) returns (ok: bool)
      requires Wired() && s.c <= |s.ops| && wal.New() && Finds(s, wal.dir.Value())
      requires kvs == Play(map[], s.ops[..s.c]) && applyId == s.id
      modifies this`kvs, this`applyId, wal, wal.dir
      ensures ok == Openable(wal.isEntry, old(wal.dir.Value()))
      ensures ok ==> (kvs, applyId) == RestartsTo(pb, s)
      ensures ok && L.Reopen(s.run.state).log.Valid() && HasRoom(L.Reopen(s.run.state).log, wal.batch) ==>
                wal.Valid() && wal.State() == L.Reopen(s.run.state)
      ensures var d := old(wal.dir.Value());
              wal.dir.Value() == ExecDir(d, OpenOps(d)) && wal.dir.trace == old(wal.dir.trace) + OpenOps(d)
    {
      hide L.Concat, Play, DecodeOp, Replay, LoggedAll, L.Reopen, Finds, Openable, ExecDir, OpenOps, Storable;
      var code, recs := ReadLog(s);
      if code != OK {
        return false;
      }
      StoredDecodes(pb, L.Reopen(s.run.state).log, wal.isEntry, wal.batch);
      OnWalLoadEntries(recs);
      ok := true;
    }

    /** Starts up on what another process left, wherever it stopped.  It fails
        exactly if the checkpoint directory is broken, a log file that is found is
        damaged, or there is a marker and no segment; and of these only the last
        does not make every later start fail.  Otherwise the map is that of the
        snapshot and the log found, whatever they are; and if the snapshot covers
        what a marker swept away, that is the map of all writes, and the store
        runs. */
    method Start(ghost s: System, ghost list: Pairs) returns (ok: bool)
      requires Wired() && stopped && kvs == map[] && s.c <= |s.ops| && (s.id == 0 ==> s.c == 0)
      requires !cp.inited && cp.disk.Valid() && (!P.Broken(cp.disk.files) ==> CheckpointOnDisk(s, list, cp.disk.files))
      requires wal.New() && Finds(s, wal.dir.Value())
      modifies this, cp, cp.disk, wal, wal.dir
      ensures ok == (!P.Broken(old(cp.disk.files)) && Openable(wal.isEntry, old(wal.dir.Value())))
      ensures stopped == !ok
      ensures ok ==> (kvs, applyId) == RestartsTo(pb, s)
      ensures ok && s.Valid(pb) && Allowed(s, Restarted) && HasRoom(L.Reopen(s.run.state).log, wal.batch) ==>
                Running(Next(pb, s, Restarted, wal.segMax))
      ensures if P.Broken(old(cp.disk.files)) then P.Broken(cp.disk.files)
              else cp.inited && CheckpointIn(s, list) && !P.Broken(cp.disk.files)
      ensures wal.dir.trace ==
              old(wal.dir.trace) + if P.Broken(old(cp.disk.files)) then [] else OpenOps(old(wal.dir.Value()))
      ensures Finds(s, wal.dir.Value())
      ensures !ok ==> (!P.Broken(cp.disk.files) && Openable(wal.isEntry, wal.dir.Value()) <==>
                       !P.Broken(old(cp.disk.files)) && LacksSegment(old(wal.dir.Value())))
    {
      hide Storable, Play, P.Broken, CheckpointOnDisk, CheckpointIn, L.Reopen, Next, Openable, RestartsTo, LastApplied;
      hide ExecDir, OpenOps, LacksSegment, Finds, Allowed, L.Concat, Running, System.Valid, HasRoom;
      hide W.LogCleanWal.Valid;
      if s.Valid(pb) && Allowed(s, Restarted) {
        Restarts(pb, s, wal.segMax);
      }
      OpenAgain(wal.isEntry, wal.dir.Value());
      FindsStill(s, wal.dir.Value(), |OpenOps(wal.dir.Value())|);
      WholeOpening(wal.dir.Value());
      ok := LoadCheckpoint(s, list);
      if !ok {
        return;
      }
      ok := LoadLog(s);
      stopped := !ok;
      if ok && s.Valid(pb) && Allowed(s, Restarted) && HasRoom(L.Reopen(s.run.state).log, wal.batch) {
        Runs(s);
      }
    }

    /** A store that has loaded all of `s` is up. */
    lemma {:induction false} Runs(s: System)
      requires Wired() && s.Valid(pb) && Allowed(s, Restarted) && !stopped
      requires wal.Valid() && wal.State() == L.Reopen(s.run.state) && (kvs, applyId) == RestartsTo(pb, s)
      ensures Running(Next(pb, s, Restarted, wal.segMax))
    {
      hide Play, L.Reopen, Next, RestartsTo, LastApplied, Allowed, L.Concat, System.Valid, W.LogCleanWal.Valid;
      Restarts(pb, s, wal.segMax);
    }

    /** Logs a write and, once it is in the log, applies it. */
    method Log(op: Op, ghost s: System) returns (ok: bool)
      requires Running(s) && op.key != [] && |EncodeOp(pb, op)| < U32 - 17 && |s.ops| + 2 < U64
      modifies this`kvs, this`applyId, wal, wal.dir
      ensures ok == (|EncodeOp(pb, op)| + 34 <= wal.batch)
      ensures !ok ==> Running(s) && kvs == old(kvs)
      ensures ok ==> Running(Next(pb, s, Wrote(wal.version, op), wal.segMax)) && kvs == Apply(old(kvs), op)
      ensures ok ==>
                var log := s.run.state.log;
                wal.dir.trace == old(wal.dir.trace) + OpsOf(log, RecordOf(pb, s, wal.version, op), wal.segMax)
    {
      hide L.Concat, Play, EncodeOp, DecodeOp, L.Append, IndexUpTo, Files, Storable, LastApplied;
      DecodeEncodeOp(pb, op);
      AppliesNext(pb, s, wal.version, op, wal.segMax);
      NextKeeps(pb, s, Wrote(wal.version, op), wal.segMax);
      var code, id := wal.AppendEntry(Some(EncodeOp(pb, op)));
      if code != OK {
        return false;
      }
      if applyId < id {
        applyId := id;
      }
      kvs := Apply(kvs, op);
      PlaySnoc(map[], s.ops, op);
      ok := true;
    }

    /** A put: refused if stopped or without a key, an internal error if the log
        does not take it; otherwise the next write of the history. */
    method Put(key: Key, value: seq<byte>, ghost s: System) returns (rc: Response)
      requires !stopped ==> Running(s)
      requires |EncodeOp(pb, Op.Put(key, value))| < U32 - 17 && |s.ops| + 2 < U64
      modifies this`kvs, this`applyId, wal, wal.dir
      ensures rc == if old(stopped) then InternalErr else if key == [] then ArgsErr
                    else if |EncodeOp(pb, Op.Put(key, value))| + 34 > wal.batch then InternalErr else Success
      ensures rc != Success ==> kvs == old(kvs) && (!old(stopped) ==> Running(s))
      ensures rc == Success ==>
                && Running(Next(pb, s, Wrote(wal.version, Op.Put(key, value)), wal.segMax))
                && kvs == old(kvs)[key := value]
    {
      if stopped {
        return InternalErr;
      }
      if key == [] {
        return ArgsErr;
      }
      hide EncodeOp;
      var ok := Log(Op.Put(key, value), s);
      rc := if ok then Success else InternalErr;
    }

    /** A delete, likewise. */
    method Delete(key: Key, ghost s: System) returns (rc: Response)
      requires !stopped ==> Running(s)
      requires |key| < U32 - 18 && |s.ops| + 2 < U64
      modifies this`kvs, this`applyId, wal, wal.dir
      ensures rc == if old(stopped) then InternalErr else if key == [] then ArgsErr
                    else if |key| + 35 > wal.batch then InternalErr else Success
      ensures rc != Success ==> kvs == old(kvs) && (!old(stopped) ==> Running(s))
      ensures rc == Success ==>
                Running(Next(pb, s, Wrote(wal.version, Op.Delete(key)), wal.segMax)) && kvs == old(kvs) - {key}
    {
      if stopped {
        return InternalErr;
      }
      if key == [] {
        return ArgsErr;
      }
      var ok := Log(Op.Delete(key), s);
      rc := if ok then Success else InternalErr;
    }

    /** Writes of other threads, one after the other, that the log takes. */
    method LogAll(ops: seq<Op>, ghost s: System)
      requires Running(s) && AllFit(ops) && |s.ops| + |ops| + 1 < U64
      modifies this`kvs, this`applyId, wal, wal.dir
      ensures Running(Written(pb, s, wal.version, ops, wal.segMax)) && kvs == Play(old(kvs), ops)
    {
      hide EncodeOp, Next, Running, Play;
      RunningIsValid(s);
      NoMore(pb, s, wal.version, wal.segMax, kvs);
      assert ops[..0] == [];
      for i := 0 to |ops|
        invariant Running(Written(pb, s, wal.version, ops[..i], wal.segMax)) && kvs == Play(old(kvs), ops[..i])
      {
        OneMore(pb, s, wal.version, ops, i, wal.segMax, old(kvs));
        FitsFields(ops[i], Written(pb, s, wal.version, ops[..i], wal.segMax));
        var _ := Log(ops[i], Written(pb, s, wal.version, ops[..i], wal.segMax));
      }
      assert ops[..|ops|] == ops;
    }

    ghost predicate AllFit(ops: seq<Op>) {
      forall op | op in ops :: op.key != [] && |EncodeOp(pb, op)| + 34 <= wal.batch
    }

    lemma RunningIsValid(s: System)
      requires Running(s)
      ensures s.Valid(pb) && s.run.state.log.segs != []
    {}

    lemma FitsFields(op: Op, s: System)
      requires Running(s) && |EncodeOp(pb, op)| + 34 <= wal.batch
      ensures |EncodeOp(pb, op)| < U32 - 17
    {
      hide EncodeOp;
    }

    /** `list` is the map as the traveller walks it, and fits the loader. */
    ghost predicate Listed(id: nat, list: Pairs, m: Store) {
      && FromList(list) == m && (forall i | 0 <= i < |list| :: list[i].0 != [])
      && |P.Snapshot(id, cp.version, ToEntries(pb, list)).CpBytes()| + cp.batch < U32 && id < U64
    }

    /** Saves the map under an id that was read before.  If the recorded id is no
        smaller, the checkpoint stays as it is. */
    method SaveCheckpoint(id: nat, list: Pairs, ghost s: System, ghost was: Pairs) returns (code: Code, saved: nat)
      requires CheckpointIn(s, was) && cp.inited && Listed(id, list, Play(map[], s.ops))
      modifies cp.disk
      ensures CheckpointIn(AfterSave(s, id), if id > s.id then list else was)
      ensures id > s.id ==> code == OK
      ensures code == OK ==> saved == AfterSave(s, id).id
    {
      hide Play, FromList, P.Exec, P.ChildOps, FileBytes, P.Digits, P.Encoded;
      hide P.Visible, P.Broken, P.Committed, P.IsCompleted, P.Succeeds, P.LoadMeta;
      var snap := P.Snapshot(id, cp.version, ToEntries(pb, list));
      MetaOf(s, was, cp.disk.files);
      code, saved := cp.Save(snap, false);
      if id > s.id {
        SavedPair(cp.disk.files, snap);
        assert s.ops[..|s.ops|] == s.ops;
      } else {
        NothingSaved(old(cp.disk.files), snap);
      }
    }

    /** The same while other threads write: between reading the id and the snapshot,
        and behind the snapshot. */
    method SaveAmidWrites(early: seq<Op>, list: Pairs, late: seq<Op>, ghost s: System, ghost was: Pairs)
          returns (code: Code, saved: nat)
      requires Running(s) && s.ZeroFree() && CheckpointIn(s, was) && cp.inited
      requires AllFit(early + late) && (forall op | op in early + late :: Kv.ZeroFree(op))
      requires |s.ops + early + late| + 1 < U64 && Listed(applyId, list, Play(map[], s.ops + early))
      modifies this`kvs, this`applyId, wal, wal.dir, cp.disk
      ensures var cut := Interleaved(pb, s, wal.version, early, late, wal.segMax);
              && Running(cut) && cut.ZeroFree() && CheckpointIn(cut, if old(applyId) > s.id then list else was)
              && (old(applyId) > s.id ==> code == OK) && (code == OK ==> saved == cut.id)
    {
      hide Play, FromList, Listed, L.Concat, Next, CheckpointOnDisk, Written, EncodeOp, Files, Storable, IndexUpTo;
      hide L.Run.Valid, L.State.Valid, W.LogCleanWal.Valid;
      var id := applyId;
      RunningIsValid(s);
      InterleavedKeeps(pb, s, wal.version, early, late, wal.segMax);
      ghost var s1 := Written(pb, s, wal.version, early, wal.segMax);
      WrittenKeeps(pb, s, wal.version, early, wal.segMax);
      KeepsCheckpoint(s, s1, was, cp.disk.files);
      LogAll(early, s);
      ghost var s2 := AfterSave(s1, id);
      SaveKeeps(pb, s1, id);
      WrittenKeeps(pb, s2, wal.version, late, wal.segMax);
      code, saved := SaveCheckpoint(id, list, s1, was);
      LogAll(late, s2);
      ghost var cut := Written(pb, s2, wal.version, late, wal.segMax);
      KeepsCheckpoint(s2, cut, if id > s.id then list else was, cp.disk.files);
    }

    /** The checkpoint of `s`, made from `list`, is in place. */
    ghost predicate CheckpointIn(s: System, list: Pairs)
      reads cp.disk
    {
      cp.disk.Valid() && P.Ok !in cp.disk.files && CheckpointOnDisk(s, list, cp.disk.files)
    }

    /** It stays the checkpoint of a system with further writes. */
    lemma KeepsCheckpoint(s: System, s': System, list: Pairs, files: P.Files)
      requires CheckpointOnDisk(s, list, files) && s.ops <= s'.ops && s'.id == s.id && s'.c == s.c
      ensures CheckpointOnDisk(s', list, files)
    {
      hide Play, FromList, P.Committed, CheckpointOf;
      CheckpointSame(s, s', list);
      assert s'.ops[..s.c] == s.ops[..s.c];
    }

    lemma CheckpointSame(s: System, s': System, list: Pairs)
      requires s.id == s'.id
      ensures CheckpointOf(s, list) == CheckpointOf(s', list)
    {}

    lemma {:induction false} MetaOf(s: System, list: Pairs, d: P.Files)
      requires P.Ok !in d && CheckpointOnDisk(s, list, d)
      ensures !P.Broken(d) && P.LoadMeta(d) == Some(s.id)
    {
      hide FromList, Play, FileBytes, P.Encoded, P.Digits, P.Undigits;
      if s.id > 0 {
        P.MetaOfNew(d, P.Snapshot(s.id, cp.version, ToEntries(pb, list)));
      }
    }

    /** Once the log is large enough, saves a checkpoint and truncates the log at
        the id the save reports.  Other threads may write between reading the id and
        the snapshot, and between the snapshot and the truncation; `list` is the map
        as the traveller walks it.  A truncation that fails ends the process: exactly
        if nothing had been written when the id was read, or nothing can be removed
        and the lowest segment number is that of a segment long gone.  If the
        snapshot covers the truncation, the store goes on; otherwise exactly the
        writes between the snapshot and the rest of the log are gone from the disk. */
    method CheckWal(due: bool, early: seq<Op>, list: Pairs, late: seq<Op>, ghost s: System, ghost was: Pairs)
          returns (saved: Code, code: Code, alive: bool)
      requires !stopped && due ==>
                 && Running(s) && s.ZeroFree() && CheckpointIn(s, was) && cp.inited
                 && AllFit(early + late) && (forall op | op in early + late :: Kv.ZeroFree(op))
                 && |s.ops + early + late| + 1 < U64 && Listed(applyId, list, Play(map[], s.ops + early))
      modifies this`kvs, this`applyId, wal, wal.dir, cp.disk
      ensures stopped || !due ==> alive && unchanged(this) && unchanged(wal) && unchanged(wal.dir) && unchanged(cp.disk)
      ensures !stopped && due ==>
                s.run.state.log.segs != [] &&
                var cut := Interleaved(pb, s, wal.version, early, late, wal.segMax);
                && cut.Valid(pb) && cut.ops == s.ops + early + late && kvs == Play(map[], cut.ops)
                && CheckpointIn(cut, if old(applyId) > s.id then list else was)
                && (old(applyId) > s.id ==> saved == OK)
                && (alive <==> saved != OK || !(s.ops == [] || NothingToCut(cut)))
                && if saved != OK then Running(cut) else Shortened(cut, code, alive)
    {
      hide Play, Listed, L.Truncate, L.Concat, Next, CheckpointOnDisk, Files, Storable, IndexUpTo, RestartsTo;
      hide Interleaved, Shortened, NothingToCut, System.Valid, CheckpointIn;
      saved, code, alive := OK, OK, true;
      if stopped || !due {
        return;
      }
      InterleavedKeeps(pb, s, wal.version, early, late, wal.segMax);
      CutFailsExact(pb, s, wal.version, early, late, wal.segMax);
      ghost var cut := Interleaved(pb, s, wal.version, early, late, wal.segMax);
      var id;
      saved, id := SaveAmidWrites(early, list, late, s, was);
      if saved == OK {
        code := CutLog(id, cut);
        alive := code == OK;
      }
    }

    /** Truncates the log at the recorded id. */
    method CutLog(id: nat, ghost s: System) returns (code: Code)
      requires Running(s) && s.ZeroFree() && id == s.id
      modifies wal, wal.dir
      ensures s.run.state.log.segs != [] && Shortened(s, code, code == OK)
      ensures code == L.Truncate(s.run.state, s.id).1
    {
      hide Play, L.Truncate, L.Concat, Next, Files, Storable, IndexUpTo, RestartsTo, L.Run.Valid, L.Removable;
      hide CoveredBySnapshot;
      RunningIsValid(s);
      TruncationLeaves(pb, s, wal.segMax);
      code := wal.Truncate(id);
    }

    /** The log has been truncated at the recorded id.  If the snapshot covers that,
        the store goes on; otherwise exactly the writes between the snapshot and the
        rest of the log are gone from the disk.  None are if nothing was written
        since the snapshot. */
    ghost predicate Shortened(s: System, code: Code, alive: bool)
      requires s.run.state.log.segs != []
      reads this, wal, wal.dir
    {
      var end := Next(pb, s, Truncated, wal.segMax);
      && (end.run.state, code) == L.Truncate(s.run.state, s.id) && LogOnDisk(end)
      && (CoveredBySnapshot(s) ==> end.Valid(pb) && (alive ==> Running(end)))
      && (!CoveredBySnapshot(s) ==>
            s.c < end.First() <= |s.ops| &&
            RestartsTo(pb, end).0 == Play(map[], s.ops[..s.c] + s.ops[end.First()..]))
      && (s.c == |s.ops| ==> CoveredBySnapshot(s) && RestartsTo(pb, end).0 == kvs)
    }
  }

  /** The system after a save under the id applied last. */
  function AfterSave(s: System, id: nat): System { if id > s.id then s.(id := id, c := |s.ops|) else s }

  /** The system after further writes. */
  function Written(pb: Pb, s: System, version: byte, ops: seq<Op>, segMax: nat): (s': System)
    requires s.run.state.log.segs != []
    ensures s'.run.state.log.segs != []
  {
    if ops == [] then s
    else
      var n := |ops| - 1;
      Next(pb, Written(pb, s, version, ops[..n], segMax), Wrote(version, ops[n]), segMax)
  }

  lemma NoMore(pb: Pb, s: System, version: byte, segMax: nat, kvs: Store)
    requires s.run.state.log.segs != []
    ensures Written(pb, s, version, [], segMax) == s && Play(kvs, []) == kvs
  {}

  lemma {:induction false} OneMore(pb: Pb, s: System, version: byte, ops: seq<Op>, i: nat, segMax: nat, kvs: Store)
    requires s.Valid(pb) && i < |ops| && forall op | op in ops :: op.key != []
    ensures var s' := Written(pb, s, version, ops[..i], segMax);
            && s'.ops == s.ops + ops[..i] && ops[i].key != []
            && Written(pb, s, version, ops[..i + 1], segMax) == Next(pb, s', Wrote(version, ops[i]), segMax)
    ensures Play(kvs, ops[..i + 1]) == Apply(Play(kvs, ops[..i]), ops[i])
  {
    hide Next, System.Valid;
    assert ops[..i + 1][..i] == ops[..i];
    WrittenKeeps(pb, s, version, ops[..i], segMax);
  }

  /** They are logged behind the others, and keep everything else. */
  lemma {:induction false} WrittenKeeps(pb: Pb, s: System, version: byte, ops: seq<Op>, segMax: nat)
    requires s.Valid(pb) && forall op | op in ops :: op.key != []
    ensures var s' := Written(pb, s, version, ops, segMax);
            && s'.Valid(pb) && s'.ops == s.ops + ops && s'.id == s.id && s'.c == s.c
            && s'.run.state.log.first == s.run.state.log.first
  {
    if ops == [] {
      assert s.ops + [] == s.ops;
    } else {
      hide L.Append, L.Concat, EncodeOp, System.Valid;
      var n := |ops| - 1;
      WrittenKeeps(pb, s, version, ops[..n], segMax);
      var s1 := Written(pb, s, version, ops[..n], segMax);
      assert ops[n] in ops && s1.ops + [ops[n]] == s.ops + ops;
      WriteKeeps(pb, s1, version, ops[n], segMax);
      L.AppendKeepsNumbers(s1.run.state.log, RecordOf(pb, s1, version, ops[n]), segMax);
    }
  }

  lemma {:induction false} NothingSaved(d: P.Files, snap: P.Snapshot)
    requires P.Ok !in d && P.LoadMeta(d).Some? && snap.id <= P.LoadMeta(d).value
    ensures var d' := P.Exec(d, P.ChildOps(d, snap));
            && P.Ok !in d' && P.Visible(d') == P.Visible(d) && P.LoadMeta(d') == P.LoadMeta(d)
            && P.Committed(d') == P.Committed(d)
  {
    hide P.Undigits;
    var ops := P.ChildOps(d, snap);
    assert ops == [P.Create(P.Lock), P.Unlink(P.Lock)];
    assert ops[1..] == [P.Unlink(P.Lock)] && ops[1..][1..] == [];
    var d1 := P.Apply(d, P.Create(P.Lock));
    assert P.Exec(d, ops) == P.Exec(d1, ops[1..]) == P.Exec(P.Apply(d1, P.Unlink(P.Lock)), []);
  }

  lemma SavedPair(d: P.Files, snap: P.Snapshot)
    requires P.ParentResult(d).0 == OK && P.Visible(d) == P.NewPair(snap)
    ensures P.IsCompleted(d) && P.Committed(d) == P.NewPair(snap)
  {}

  /** A save under the id read at `s`, after further writes, and writes behind it. */
  function Interleaved(pb: Pb, s: System, version: byte, early: seq<Op>, late: seq<Op>, segMax: nat): System
    requires s.run.state.log.segs != []
  {
    Written(pb, AfterSave(Written(pb, s, version, early, segMax), LastApplied(s)), version, late, segMax)
  }

  lemma {:induction false} SaveKeeps(pb: Pb, s: System, id: nat)
    requires s.Valid(pb) && id <= |s.ops| + 1 && (s.ops == [] ==> id == s.id)
    ensures AfterSave(s, id).Valid(pb) && LastApplied(AfterSave(s, id)) == LastApplied(s)
  {
    hide L.Run.Valid, EncodeOp;
  }

  /** The newest record is never removed, so the log holds the id exactly if there
      was one when it was read. */
  lemma {:induction false} InterleavedKeeps(pb: Pb, s: System, version: byte, early: seq<Op>, late: seq<Op>,
        segMax: nat)
    requires s.Valid(pb) && forall op | op in early + late :: op.key != []
    ensures var cut := Interleaved(pb, s, version, early, late, segMax);
            && cut.Valid(pb) && cut.ops == s.ops + early + late && cut.id == LastApplied(s)
            && cut.c == AfterSave(Written(pb, s, version, early, segMax), LastApplied(s)).c
            && (L.Has(cut.run.state.log, cut.id) <==> s.ops != [])
  {
    hide L.Concat, EncodeOp, Written;
    var id, s1 := LastApplied(s), Written(pb, s, version, early, segMax);
    WrittenKeeps(pb, s, version, early, segMax);
    SaveKeeps(pb, s1, id);
    WrittenKeeps(pb, AfterSave(s1, id), version, late, segMax);
  }

  /** Nothing can be removed, and the lowest segment number is that of a segment long
      gone. */
  predicate NothingToCut(s: System) {
    var state := s.run.state;
    L.Has(state.log, s.id) && L.Removable(state.log, s.id) == 0 && state.minSeg < state.log.lo
  }

  /** The truncation after a save fails, which ends the process, exactly if nothing had
      been written when the id was read, or there is nothing to cut. */
  lemma {:induction false} CutFailsExact(pb: Pb, s: System, version: byte, early: seq<Op>, late: seq<Op>, segMax: nat)
    requires s.Valid(pb) && forall op | op in early + late :: op.key != []
    ensures var cut := Interleaved(pb, s, version, early, late, segMax);
            L.Truncate(cut.run.state, cut.id).1 != OK <==> s.ops == [] || NothingToCut(cut)
  {
    hide L.Concat, L.SegOf, L.Removable, Interleaved, L.Truncate;
    InterleavedKeeps(pb, s, version, early, late, segMax);
    var cut := Interleaved(pb, s, version, early, late, segMax);
    L.TruncateKeeps(cut.run.state, cut.id);
  }

  lemma {:induction false} UnmarkedRestart(pb: Pb, s: System)
    requires s.run.state.marker.None? && s.run.state.log.segs != [] && s.c <= |s.ops|
    ensures RestartsTo(pb, s) == Recovered(pb, s)
  {
    hide L.Concat, Replay, LoggedAll;
    assert s.run.state.log.segs[0..] == s.run.state.log.segs;
  }

  /** What a truncation at the recorded id leaves on disk. */
  lemma {:induction false} TruncationLeaves(pb: Pb, s: System, segMax: nat)
    requires s.Valid(pb) && pb.Faithful() && s.ZeroFree()
    ensures var end := Next(pb, s, Truncated, segMax);
            && end.run.state == L.Truncate(s.run.state, s.id).0 && end.ops == s.ops && end.id == s.id && end.c == s.c
            && (CoveredBySnapshot(s) ==> end.Valid(pb))
            && (!CoveredBySnapshot(s) ==>
                  && s.c < end.First() <= |s.ops|
                  && RestartsTo(pb, end).0 == Play(map[], s.ops[..s.c] + s.ops[end.First()..]))
            && (s.c == |s.ops| ==>
                  CoveredBySnapshot(s) && RestartsTo(pb, s).0 == RestartsTo(pb, end).0 == Play(map[], s.ops))
  {
    hide L.Truncate, L.Concat, L.SegOf, L.Removable, Play, RestartsTo, Recovered, L.Reopen, Rebuild;
    var end := Next(pb, s, Truncated, segMax);
    if s.c == |s.ops| {
      QuietIsCovered(pb, s);
    }
    if CoveredBySnapshot(s) {
      NextKeeps(pb, s, Truncated, segMax);
      RestartExact(pb, s, segMax);
      RestartExact(pb, end, segMax);
    } else {
      UncoveredDrops(pb, s, segMax);
      UncoveredUnmarked(s);
      UnmarkedRestart(pb, end);
    }
  }

  lemma {:induction false} UncoveredUnmarked(s: System)
    requires s.run.state.Valid() && s.First() <= s.c && !CoveredBySnapshot(s)
    ensures L.Truncate(s.run.state, s.id).0.marker.None? && L.Truncate(s.run.state, s.id).0.log.segs != []
  {
    hide L.Concat, L.SegOf;
    L.DropNone(s.run.state.log);
  }

  /** The record a write is logged as. */
  function RecordOf(pb: Pb, s: System, version: byte, op: Op): Record {
    Record(version, s.run.state.log.NextId(), EncodeOp(pb, op))
  }

  /** `files` hold the log of `s` as it is reopened, or nothing of a new one. */
  ghost predicate IsLogOf(s: System, files: SegFiles, isEntry: seq<byte> -> bool, batch: nat) {
    var log := L.Reopen(s.run.state).log;
    && log.segs != [] && Storable(log, isEntry, batch)
    && if files == map[] then log == L.FRESH else files == Files(log.lo, log.segs)
  }

  lemma {:induction false} StoredDecodes(pb: Pb, log: L.Log, isEntry: seq<byte> -> bool, batch: nat)
    requires Storable(log, isEntry, batch) && forall b :: isEntry(b) == IsWalEntry(pb, b)
    ensures forall r | r in log.Records() :: DecodeOp(pb, r.content).Some?
    decreases |log.segs|
  {
    hide FileBytes, DecodeOp;
    if log.segs != [] {
      StorableDrop(log.lo, log.segs, 1, isEntry, batch);
      StoredDecodes(pb, L.Log(log.lo + 1, 2, log.segs[1..]), isEntry, batch);
      assert log.Records() == log.segs[0] + L.Concat(log.segs[1..]);
    }
  }

  lemma {:induction false} StaysBroken(d: P.Files)
    ensures P.Broken(d) ==> P.Broken(P.Exec(d, P.RecoverOps(d)))
  {
    hide P.Exec;
    if P.Broken(d) {
      P.BrokenForever(d, P.Init(|P.RecoverOps(d)|));
    }
  }

  lemma NotBroken(d: P.Files)
    requires P.Ok !in d
    ensures !P.Broken(d)
  {}

  lemma {:induction false} Restarts(pb: Pb, s: System, segMax: nat)
    requires s.Valid(pb) && pb.Faithful() && Allowed(s, Restarted)
    ensures var s' := Next(pb, s, Restarted, segMax);
            && s'.Valid(pb) && s'.ops == s.ops && s'.run.state == L.Reopen(s.run.state) && s'.run.state.log.Valid()
            && RestartsTo(pb, s).1 == LastApplied(s')
            && (s.ZeroFree() ==> RestartsTo(pb, s).0 == Play(map[], s.ops))
  {
    hide L.Concat, L.Reopen, L.SegOf, Play, Replay, LogFrom, LoggedAll;
    RestartRebuilds(pb, s, segMax);
    RestartExact(pb, s, segMax);
    AppliedAgain(pb, s, segMax);
  }

  lemma NewLog(isEntry: seq<byte> -> bool, batch: nat)
    requires 4 + batch < U32
    ensures var files := map[1 := FileBytes(WAL_FORMAT, [])];
            && files == Files(L.FRESH.lo, L.FRESH.segs) && Intact(isEntry, files) && |FileBytes(WAL_FORMAT, [])| == 4
  {
    hide FileBytes, Files, FileVerdict;
    FreshStored(isEntry, batch);
    StoredIsIntact(L.FRESH, isEntry, batch);
  }

  lemma {:induction false} AppliedAgain(pb: Pb, s: System, segMax: nat)
    requires s.Valid(pb) && pb.Faithful() && Allowed(s, Restarted)
    ensures var s' := Next(pb, s, Restarted, segMax);
            RestartsTo(pb, s).1 == LastApplied(s') == LastApplied(s)
  {
    hide L.Concat, L.Reopen, L.SegOf, Play, Replay, LogFrom, LoggedAll;
    var s' := Next(pb, s, Restarted, segMax);
    NextKeeps(pb, s, Restarted, segMax);
    LoggedIsLogFrom(pb, s');
    LastApplies(pb, s');
  }

  datatype Response = Success | ArgsErr | InternalErr

  lemma {:induction false} EntryFits(pb: Pb, s: System, version: byte, op: Op, batch: nat)
    requires pb.Faithful() && s.Valid(pb) && op.key != [] && |s.ops| + 2 < U64
    requires |EncodeOp(pb, op)| + 34 <= batch <= U32
    ensures var r := RecordOf(pb, s, version, op);
            Writable(WAL_FORMAT, r) && IsWalEntry(pb, r.content) && RecordSize(WAL_FORMAT, r) < batch
  {
    hide EncodeOp, DecodeOp, L.Concat;
    Widths();
    DecodeEncodeOp(pb, op);
  }

  lemma {:induction false} ReopenStorable(s: L.State, isEntry: seq<byte> -> bool, batch: nat)
    requires s.log.segs != [] && Storable(s.log, isEntry, batch) && 4 + batch < U32
    ensures Storable(L.Reopen(s).log, isEntry, batch)
  {
    hide FileBytes, Loadable, L.Concat;
    FreshStored(isEntry, batch);
    var k := L.SweptNow(s);
    StorableDrop(s.log.lo, s.log.segs, k, isEntry, batch);
  }

  /** The newest id applied: that of the last write, whether it was replayed or
      is in the snapshot. */
  function LastApplied(s: System): nat { if s.ops == [] then s.id else |s.ops| + 1 }

  lemma AppliesNext(pb: Pb, s: System, version: byte, op: Op, segMax: nat)
    requires s.Valid(pb)
    ensures LastApplied(s) < s.run.state.log.NextId() == LastApplied(Next(pb, s, Wrote(version, op), segMax))
  {
    hide L.Concat, L.Append, EncodeOp;
  }

  lemma {:induction false} LastApplies(pb: Pb, s: System)
    requires s.Valid(pb)
    ensures Replay(Play(map[], s.ops[..s.c]), s.id, LogFrom(s.ops, s.First())).1 == LastApplied(s)
  {
    hide L.Concat, Play, Replay;
    ReplaySkips(Play(map[], s.ops[..s.c]), s.id, LogFrom(s.ops, s.First()), s.First() + 2);
  }
}
