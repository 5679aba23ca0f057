/** The checkpoint object: imperative code that issues the file operations the
    protocol lists, and loads what they leave. */
module Checkpoint {
  import opened Codec
  import opened Common
  import opened Records
  import opened Protocol

  /** The directory and, for the proofs, every operation that changed it. */
  class Disk {
    var files: Files
    ghost const base: Files
    ghost var trace: seq<Op>

    ghost predicate Valid()
      reads this
    {
      Succeeds(base, trace) && files == Exec(base, trace)
    }

    constructor (files: Files)
      ensures Valid() && this.files == files && trace == []
    {
      this.files, base, trace := files, files, [];
    }

    method Do(op: Op) returns (ok: bool)
      requires Valid()
      modifies this
      ensures Valid() && ok == !Fails(old(files), op)
      ensures ok ==> files == Apply(old(files), op) && trace == old(trace) + [op]
      ensures !ok ==> files == old(files) && trace == old(trace)
    {
      hide Exec, Succeeds;
      ok := !Fails(files, op);
      if ok {
        ExecConcat(base, trace, [op]);
        Succeeding(files, op);
        files, trace := Apply(files, op), trace + [op];
      }
    }

    /** Writes all the bytes, one operation each. */
    method WriteFully(n: Name, bytes: seq<byte>)
      requires Valid() && n in files
      modifies this
      ensures Valid() && trace == old(trace) + Writes(n, bytes) && n in files
    {
      hide Exec, Succeeds;
      for i := 0 to |bytes|
        invariant Valid() && n in files && trace == old(trace) + Writes(n, bytes[..i])
      {
        var _ := Do(Write(n, bytes[i]));
        assert bytes[..i + 1] == bytes[..i] + [bytes[i]];
        WritesConcat(n, bytes[..i], [bytes[i]]);
        assert Writes(n, [bytes[i]]) == [Write(n, bytes[i])];
      }
      assert bytes[..|bytes|] == bytes;
    }
  }

  /** `ops` was issued: all of it, or up to an operation that fails. */
  ghost predicate Issued(t: seq<Op>, ops: seq<Op>, t': seq<Op>, code: Code) {
    if code == OK then t' == t + ops else t <= t' <= t + ops
  }

  lemma {:induction false} AllIssued(base: Files, t: seq<Op>, ops: seq<Op>)
    requires Succeeds(base, t + ops)
    ensures Succeeds(base, t) && Succeeds(Exec(base, t), ops) && Exec(base, t + ops) == Exec(Exec(base, t), ops)
  {
    ExecConcat(base, t, ops);
  }

  lemma {:induction false} PartIssued(base: Files, t: seq<Op>, ops: seq<Op>, i: nat)
    requires i < |ops| && Succeeds(base, t + ops[..i]) && Fails(Exec(base, t + ops[..i]), ops[i])
    ensures !Succeeds(Exec(base, t), ops) && Exec(base, t + ops[..i]) == Exec(Exec(base, t), ops)
  {
    ExecConcat(base, t, ops[..i]);
    StopsAt(Exec(base, t), ops, i, |ops|);
    assert ops[..|ops|] == ops;
  }

  class EntryOrderCheckpoint {
    const disk: Disk
    const isEntry: seq<byte> -> bool
    const version: byte
    const batch: nat
    var inited: bool

    constructor (disk: Disk, isEntry: seq<byte> -> bool, version: byte, batch: nat)
      ensures this.disk == disk && this.isEntry == isEntry && this.version == version && this.batch == batch && !inited
    {
      this.disk, this.isEntry, this.version, this.batch := disk, isEntry, version, batch;
      inited := false;
    }

    method ReplaceOldCheckpoint() returns (code: Code)
      requires disk.Valid()
      modifies disk
      ensures disk.Valid() && Issued(old(disk.trace), REPLACE, disk.trace, code)
      ensures disk.files == Exec(old(disk.files), REPLACE)
      ensures code == if Succeeds(old(disk.files), REPLACE) then OK else FileSystemError
    {
      hide Exec, Succeeds;
      ghost var t := disk.trace;
      var ok := disk.Do(Unlink(Meta));
      ok := disk.Do(Unlink(Cp));
      assert disk.trace == t + REPLACE[..2];
      ok := disk.Do(Rename(NewMeta, Meta));
      if !ok {
        PartIssued(disk.base, t, REPLACE, 2);
        return FileSystemError;
      }
      assert disk.trace == t + REPLACE[..3];
      ok := disk.Do(Rename(NewCp, Cp));
      if !ok {
        PartIssued(disk.base, t, REPLACE, 3);
        return FileSystemError;
      }
      assert disk.trace == t + REPLACE;
      AllIssued(disk.base, t, REPLACE);
      return OK;
    }

    method CleanNewCpTmp()
      requires disk.Valid()
      modifies disk
      ensures disk.Valid() && disk.trace == old(disk.trace) + CLEAN
      ensures disk.files == Exec(old(disk.files), CLEAN) && Succeeds(old(disk.files), CLEAN)
    {
      hide Exec, Succeeds;
      ghost var t := disk.trace;
      var ok := disk.Do(Unlink(NewMeta));
      ok := disk.Do(Unlink(NewCp));
      ok := disk.Do(Unlink(Start));
      ok := disk.Do(Unlink(Ok));
      assert disk.trace == t + CLEAN;
      AllIssued(disk.base, t, CLEAN);
    }

    /** Finishes or throws away what a crashed save left. */
    method CheckAndRecover() returns (code: Code)
      requires disk.Valid()
      modifies disk
      ensures disk.Valid() && Issued(old(disk.trace), RecoverOps(old(disk.files)), disk.trace, code)
      ensures disk.files == Exec(old(disk.files), RecoverOps(old(disk.files)))
      ensures code == if Succeeds(old(disk.files), RecoverOps(old(disk.files))) then OK else FileSystemError
    {
      ghost var d := disk.files;
      if IsCompleted(disk.files) {
        return OK;
      }
      hide Exec, Succeeds;
      if Ok in disk.files {
        ghost var done := [Unlink(Ok)];
        ExecConcat(d, REPLACE, done);
        code := ReplaceOldCheckpoint();
        if code == OK {
          Succeeding(disk.files, Unlink(Ok));
          var ok := disk.Do(Unlink(Ok));
        }
      } else {
        CleanNewCpTmp();
        code := OK;
      }
    }

    /** Initialisation succeeds exactly if the directory is not broken, and then
        shows the committed pair. */
    method Init() returns (code: Code)
      requires disk.Valid()
      modifies this, disk
      ensures disk.Valid() && inited
      ensures Issued(old(disk.trace), RecoverOps(old(disk.files)), disk.trace, code)
      ensures disk.files == Exec(old(disk.files), RecoverOps(old(disk.files)))
      ensures code == OK <==> !Broken(old(disk.files))
      ensures code == OK ==> Ok !in disk.files && Visible(disk.files) == Committed(old(disk.files))
    {
      hide Exec, Succeeds;
      InitExact(disk.files);
      inited := true;
      code := CheckAndRecover();
    }

    /** Writes the entries behind the header, each with the offset it starts at,
        and gives up at the first that does not encode. */
    method SaveNewCheckpoint(entries: seq<Option<seq<byte>>>)
      requires disk.Valid() && NewCp in disk.files
      requires |FileBytes(CHECKPOINT_FORMAT, Encoded(version, entries))| < U32
      modifies disk
      ensures disk.Valid()
      ensures disk.trace == old(disk.trace) + Writes(NewCp, BodyBytes(CHECKPOINT_FORMAT, Encoded(version, entries), 4))
    {
      hide Exec, Succeeds, BodyBytes, RecordBytes, Encoded, Enc, Writes, EncodedUpTo;
      NoBody(CHECKPOINT_FORMAT, 4);
      ghost var f := CHECKPOINT_FORMAT;
      ghost var recs := [];
      var offset := 4;
      EncodedStart(version, entries);
      for i := 0 to |entries|
        invariant disk.Valid() && NewCp in disk.files && EncodedUpTo(version, entries, i, recs)
        invariant offset == 4 + |BodyBytes(f, recs, 4)|
        invariant disk.trace == old(disk.trace) + Writes(NewCp, BodyBytes(f, recs, 4))
      {
        if entries[i].None? {
          EncodedStop(version, entries, i, recs);
          return;
        }
        var r := Record(version, 0, entries[i].value);
        EncodedMore(version, entries, i, recs);
        BodyFits(recs, r, Encoded(version, entries));
        BodySnoc(f, recs, r, 4);
        var wb := BuildRecord(CHECKPOINT_FORMAT, r, offset);
        disk.WriteFully(NewCp, wb[..]);
        WritesConcat(NewCp, BodyBytes(f, recs, 4), wb[..]);
        offset := offset + wb.Length;
        recs := recs + [r];
      }
      EncodedStop(version, entries, |entries|, recs);
    }

    /** Writes both new files and sets the ok flag. */
    method WriteNewFiles(s: Snapshot)
      requires disk.Valid() && s.version == version && |s.CpBytes()| < U32
      modifies disk
      ensures disk.Valid() && disk.trace == old(disk.trace) + WriteNew(s)
      ensures Ok in disk.files && !Broken(disk.files)
    {
      hide Exec, Succeeds, BodyBytes, Digits, WriteNew, Writes, Enc, Encoded;
      ghost var t := disk.trace;
      WriteNewParts(t, s);
      var ok := disk.Do(Create(Start));
      ok := disk.Do(Truncate(NewMeta));
      disk.WriteFully(NewMeta, Digits(s.id));
      ok := disk.Do(Truncate(NewCp));
      var header := new byte[4];
      WriteUInt32(header, 0, CHECKPOINT_FORMAT.magic);
      assert header[..] == Enc(CHECKPOINT_FORMAT.magic, 4);
      disk.WriteFully(NewCp, header[..]);
      SaveNewCheckpoint(s.entries);
      ok := disk.Do(Truncate(Ok));
      AllIssued(disk.base, t, WriteNew(s));
      WriteNewAll(Exec(disk.base, t), s);
    }

    /** Drops the lock and start flags and puts the new files in place. */
    method PublishNew()
      requires disk.Valid() && Ok in disk.files && !Broken(disk.files)
      modifies disk
      ensures disk.Valid() && disk.trace == old(disk.trace) + Publish()
    {
      hide Exec, Succeeds;
      ghost var t := disk.trace;
      var ok := disk.Do(Unlink(Lock));
      ok := disk.Do(Unlink(Start));
      ReplaceSteps(disk.files);
      var code := ReplaceOldCheckpoint();
      ok := disk.Do(Unlink(Ok));
      assert disk.trace == t + Publish();
    }

    /** The child's work. */
    method DoSaveInChild(s: Snapshot)
      requires disk.Valid() && s.version == version && |s.CpBytes()| < U32
      modifies disk
      ensures disk.Valid() && disk.files == Exec(old(disk.files), ChildOps(old(disk.files), s))
      ensures old(disk.trace) <= disk.trace <= old(disk.trace) + ChildOps(old(disk.files), s)
    {
      hide Exec, Succeeds, WriteNew, Publish, Repair, ChildOps, LoadMeta;
      ghost var d, t, a := disk.files, disk.trace, [Create(Lock)];
      ChildParts(d, s);
      LockMeta(d);
      var ok := disk.Do(Create(Lock));
      AllIssued(disk.base, t, a);
      ghost var d1 := disk.files;
      var metaId := LoadMeta(disk.files);
      if metaId.None? {
        return;
      }
      if s.id <= metaId.value {
        ok := disk.Do(Unlink(Lock));
        assert disk.trace == t + ChildOps(d, s);
        AllIssued(disk.base, t, ChildOps(d, s));
        return;
      }
      ghost var r, rest := Repair(d), WriteNew(s) + Publish();
      ExecConcat(d, a, r + rest);
      ExecConcat(d1, r, rest);
      var code := CheckAndRecover();
      if code != OK {
        return;
      }
      WriteNewFiles(s);
      PublishNew();
      assert disk.trace == t + ChildOps(d, s);
      AllIssued(disk.base, t, ChildOps(d, s));
    }

    /** What the parent reports once the child is gone. */
    method DoSaveInParent() returns (code: Code, id: nat)
      ensures (code, id) == ParentResult(disk.files)
    {
      if IsCompleted(disk.files) {
        var rs := LoadMeta(disk.files);
        if rs.None? {
          return FileCorrupt, 0;
        }
        return OK, rs.value;
      }
      return UnknownChildProcessError, 0;
    }

    /** A save whose child is left to finish; `locked` tells whether another
        process holds the lock.  On a new id it succeeds with that id, and the new
        pair is in place. */
    method Save(s: Snapshot, locked: bool) returns (code: Code, id: nat)
      requires disk.Valid() && s.version == version && |s.CpBytes()| < U32 && s.id < U64
      modifies disk
      ensures disk.Valid()
      ensures !inited ==> code == Uninited && disk.files == old(disk.files)
      ensures inited && locked ==> code == Locking && disk.files == old(disk.files)
      ensures inited && !locked ==>
                && disk.files == Exec(old(disk.files), ChildOps(old(disk.files), s))
                && (code, id) == ParentResult(disk.files)
      ensures inited && !locked && !Broken(old(disk.files)) && IsNew(old(disk.files), s) ==>
                code == OK && id == s.id && Visible(disk.files) == NewPair(s)
    {
      hide Exec, Succeeds, ChildOps;
      if !inited {
        return Uninited, 0;
      }
      if locked {
        return Locking, 0;
      }
      ghost var d := disk.files;
      DoSaveInChild(s);
      code, id := DoSaveInParent();
      if !Broken(d) && IsNew(d, s) {
        ParentExact(d, s, |ChildOps(d, s)|);
      }
    }

    /** Loads the checkpoint in place.  After a save that finished or was recovered,
        that is its id and exactly its entries. */
    method Load(ghost s: Snapshot) returns (code: Code, id: nat, delivered: seq<Record>)
      requires Cp in disk.files ==> |disk.files[Cp]| + batch < U32
      ensures !inited ==> code == Uninited
      ensures inited ==>
                match LoadMeta(disk.files)
                case None => code == FileCorrupt && delivered == []
                case Some(meta) =>
                  if meta == 0 then code == OK && id == 0 && delivered == []
                  else if Cp !in disk.files then code == MissingFile && delivered == []
                  else batch > 0 ==>
                         && code == FileVerdict(CHECKPOINT_FORMAT, isEntry, disk.files[Cp]) && id == meta
                         && delivered <= ParseFile(CHECKPOINT_FORMAT, isEntry, disk.files[Cp]).recs
      ensures inited && batch > 0 && Visible(disk.files) == NewPair(s) && 0 < s.id < U64
              && Loadable(CHECKPOINT_FORMAT, isEntry, s.Recs()) ==>
                code == OK && id == s.id && delivered == s.Recs()
    {
      hide ParseFile, FileVerdict, FileBytes, Digits, Undigits, Loadable, Encoded;
      id, delivered := 0, [];
      if !inited {
        return Uninited, id, delivered;
      }
      if Visible(disk.files) == NewPair(s) && 0 < s.id < U64 {
        MetaOfNew(disk.files, s);
        if batch > 0 && Loadable(CHECKPOINT_FORMAT, isEntry, s.Recs()) {
          WriteThenParse(CHECKPOINT_FORMAT, isEntry, s.Recs());
        }
      }
      var meta := LoadMeta(disk.files);
      if meta.None? {
        return FileCorrupt, id, delivered;
      }
      if meta.value == 0 {
        return OK, id, delivered;
      }
      if Cp !in disk.files {
        return MissingFile, id, delivered;
      }
      var seen;
      code, delivered, seen := LoadBatched(CHECKPOINT_FORMAT, isEntry, disk.files[Cp], batch);
      id := meta.value;
    }
  }

  lemma WriteNewParts(t: seq<Op>, s: Snapshot)
    ensures t + WriteNew(s) ==
            t + [Create(Start)] + [Truncate(NewMeta)] + Writes(NewMeta, Digits(s.id)) + [Truncate(NewCp)] +
            Writes(NewCp, Enc(CHECKPOINT_FORMAT.magic, 4)) + Writes(NewCp, BodyBytes(CHECKPOINT_FORMAT, s.Recs(), 4)) +
            [Truncate(Ok)]
  {
    WritesConcat(NewCp, Enc(CHECKPOINT_FORMAT.magic, 4), BodyBytes(CHECKPOINT_FORMAT, s.Recs(), 4));
    hide Enc, BodyBytes, Writes, Digits;
  }

  lemma ChildParts(d: Files, s: Snapshot)
    ensures LoadMeta(d).None? ==> ChildOps(d, s) == [Create(Lock)]
    ensures LoadMeta(d).Some? && s.id <= LoadMeta(d).value ==> ChildOps(d, s) == [Create(Lock)] + [Unlink(Lock)]
    ensures IsNew(d, s) ==> ChildOps(d, s) == [Create(Lock)] + (Repair(d) + (WriteNew(s) + Publish()))
  {
    hide Repair, WriteNew, Publish, LoadMeta;
  }

  lemma LockMeta(d: Files)
    ensures var d1 := Apply(d, Create(Lock));
            LoadMeta(d1) == LoadMeta(d) && RecoverOps(d1) == Repair(d)
  {
    hide Undigits;
  }

  lemma NoBody(f: Format, at: nat)
    ensures BodyBytes(f, [], at) == [] && Writes(NewCp, []) == []
  {}

  /** The first `i` entries all encode, as `recs`. */
  ghost predicate EncodedUpTo(version: byte, entries: seq<Option<seq<byte>>>, i: nat, recs: seq<Record>)
    requires i <= |entries|
  {
    Encoded(version, entries) == recs + Encoded(version, entries[i..])
  }

  lemma EncodedStart(version: byte, entries: seq<Option<seq<byte>>>)
    ensures EncodedUpTo(version, entries, 0, [])
  {
    assert entries[0..] == entries;
    assert [] + Encoded(version, entries) == Encoded(version, entries);
  }

  lemma EncodedMore(version: byte, entries: seq<Option<seq<byte>>>, i: nat, recs: seq<Record>)
    requires i < |entries| && entries[i].Some? && EncodedUpTo(version, entries, i, recs)
    ensures EncodedUpTo(version, entries, i + 1, recs + [Record(version, 0, entries[i].value)])
    ensures recs + [Record(version, 0, entries[i].value)] <= Encoded(version, entries)
  {
    assert entries[i..][1..] == entries[i + 1..];
    var r := Record(version, 0, entries[i].value);
    assert recs + ([r] + Encoded(version, entries[i + 1..])) == recs + [r] + Encoded(version, entries[i + 1..]);
  }

  lemma EncodedStop(version: byte, entries: seq<Option<seq<byte>>>, i: nat, recs: seq<Record>)
    requires i <= |entries| && EncodedUpTo(version, entries, i, recs) && (i < |entries| ==> entries[i].None?)
    ensures Encoded(version, entries) == recs
  {
    assert Encoded(version, entries[i..]) == [];
    assert recs + [] == recs;
  }

  lemma {:induction false} BodyGrows(f: Format, a: seq<Record>, b: seq<Record>, at: nat)
    requires a <= b
    ensures |BodyBytes(f, a, at)| <= |BodyBytes(f, b, at)|
    decreases |a|
  {
    hide RecordBytes;
    if a != [] {
      BodyGrows(f, a[1..], b[1..], at + RecordSize(f, a[0]));
    }
  }

  lemma {:induction false} BodyFits(recs: seq<Record>, r: Record, all: seq<Record>)
    requires recs + [r] <= all && r.id == 0 && |FileBytes(CHECKPOINT_FORMAT, all)| < U32
    ensures Writable(CHECKPOINT_FORMAT, r) && 4 + |BodyBytes(CHECKPOINT_FORMAT, recs, 4)| < U32
  {
    hide RecordBytes, BodyBytes;
    BodyGrows(CHECKPOINT_FORMAT, recs + [r], all, 4);
    BodySnoc(CHECKPOINT_FORMAT, recs, r, 4);
    Widths();
  }
}
