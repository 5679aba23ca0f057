/** The log directory as a whole, the operations of opening it and of a truncation,
    and what a process that stops after any of them leaves. */
module Opening {
  import opened Codec
  import opened Common
  import opened Records
  import opened Segments
  import opened Stops
  import L = Log

  /** Segment files, the id in the marker file, 0 while it is empty, and the flag. */
  datatype Dir = Dir(segs: SegFiles, meta: Option<nat>, ok: bool)

  /** The marker initialisation acts on. */
  function Marker(d: Dir): Option<nat> { if d.ok || d.meta == Some(0) then None else d.meta }

  /** The files that are left once it has. */
  function Found(d: Dir): SegFiles { Kept(d.segs, Marker(d)) }

  /** Opening and loading works: with a marker there is a segment, and no file that
      is found is damaged. */
  ghost predicate Openable(isEntry: seq<byte> -> bool, d: Dir) {
    (d.segs == map[] ==> Marker(d).None?) && Intact(isEntry, Found(d))
  }

  function DoDir(d: Dir, op: FileOp): Dir {
    match op
    case SetMeta(id) => d.(meta := Some(id))
    case DropMeta => d.(meta := None)
    case SetOk => d.(ok := true)
    case DropOk => d.(ok := false)
    case _ => d.(segs := Do(d.segs, op))
  }

  function ExecDir(d: Dir, ops: seq<FileOp>): Dir {
    if ops == [] then d else DoDir(ExecDir(d, ops[..|ops| - 1]), ops[|ops| - 1])
  }

  lemma {:induction false} ExecDirConcat(d: Dir, a: seq<FileOp>, b: seq<FileOp>)
    ensures ExecDir(d, a + b) == ExecDir(ExecDir(d, a), b)
    decreases |b|
  {
    if b == [] {
      assert a + b == a;
    } else {
      var n := |b| - 1;
      assert (a + b)[..|a + b| - 1] == a + b[..n];
      ExecDirConcat(d, a, b[..n]);
    }
  }

  predicate OnSegments(ops: seq<FileOp>) { forall op | op in ops :: op.Create? || op.Write? || op.Unlink? }

  lemma {:induction false} ExecSegments(d: Dir, ops: seq<FileOp>)
    requires OnSegments(ops)
    ensures ExecDir(d, ops) == d.(segs := Exec(d.segs, ops))
  {
    if ops != [] {
      var n := |ops| - 1;
      assert ops[n] in ops && forall op | op in ops[..n] :: op in ops;
      ExecSegments(d, ops[..n]);
    }
  }

  // ---------------------------------------------------------------------- opening

  function Unlinks(from: nat, upto: int): (ops: seq<FileOp>)
    ensures |ops| == (if upto < from then 0 else upto + 1 - from) && OnSegments(ops)
  {
    if upto < from then [] else seq(upto + 1 - from, i requires 0 <= i => Unlink(from + i))
  }

  /** The files but those numbered from `lo` to below `hi`. */
  function Without(files: SegFiles, lo: nat, hi: nat): SegFiles {
    map n | n in files && !(lo <= n < hi) :: files[n]
  }

  lemma {:induction false} ExecUnlinks(files: SegFiles, from: nat, upto: int, k: nat)
    requires k <= |Unlinks(from, upto)|
    ensures Exec(files, Unlinks(from, upto)[..k]) == Without(files, from, from + k)
    decreases k
  {
    var ops := Unlinks(from, upto);
    if k > 0 {
      ExecUnlinks(files, from, upto, k - 1);
      assert ops[..k][..k - 1] == ops[..k - 1] && ops[..k][k - 1] == Unlink(from + k - 1);
    }
  }

  ghost function Lowest(files: SegFiles): (m: nat)
    requires files != map[]
    ensures IsLeast(m, files.Keys)
  {
    LeastExists(files.Keys);
    var m :| IsLeast(m, files.Keys);
    m
  }

  /** The segments up to the marker go, then the marker and the flag, and if no
      segment is left there is a new one.  With a marker and no segment, the
      marker goes before the first segment is looked at. */
  ghost function OpenOps(d: Dir): seq<FileOp> {
    Sweeps(d) + [DropMeta, DropOk] + if LacksSegment(d) || Found(d) != map[] then [] else NewSegment(1)
  }

  predicate LacksSegment(d: Dir) { d.segs == map[] && Marker(d).Some? }

  ghost function Sweeps(d: Dir): (ops: seq<FileOp>)
    ensures OnSegments(ops)
  {
    if Marker(d).None? || d.segs == map[] then [] else Unlinks(Lowest(d.segs), Marker(d).value)
  }

  lemma UnlinksNone(from: nat, upto: int)
    ensures upto < from ==> Unlinks(from, upto) == []
  {}

  lemma UnlinksNext(from: nat, i: nat)
    requires from <= i
    ensures Unlinks(from, i) == Unlinks(from, i - 1) + [Unlink(i)] && Unlinks(from, from - 1) == []
  {}

  lemma SweepsFrom(d: Dir, lowest: nat)
    requires Marker(d).Some? && IsLeast(lowest, d.segs.Keys)
    ensures Sweeps(d) == Unlinks(lowest, Marker(d).value)
  {
    hide Unlinks;
  }

  lemma NothingToSweep(d: Dir)
    ensures Marker(d).None? || d.segs == map[] ==> Sweeps(d) == []
  {}

  lemma {:induction false} SweepPart(d: Dir, k: nat)
    requires k <= |Sweeps(d)|
    ensures var d' := ExecDir(d, Sweeps(d)[..k]);
            && d'.meta == d.meta && d'.ok == d.ok && Found(d') == Found(d)
            && (k == |Sweeps(d)| ==> d'.segs == Found(d))
            && (k > 0 ==> d'.segs == Without(d.segs, 0, Lowest(d.segs) + k))
  {
    var ops := Sweeps(d);
    assert OnSegments(ops[..k]);
    ExecSegments(d, ops[..k]);
    if ops != [] {
      ExecUnlinks(d.segs, Lowest(d.segs), Marker(d).value, k);
    } else if Marker(d).Some? && d.segs != map[] {
      assert forall n | n in d.segs :: n > Marker(d).value;
    }
    if k == 0 {
      assert ops[..0] == [];
    }
  }

  lemma {:induction false} DropsPart(d: Dir, j: nat)
    requires j <= 2
    ensures ExecDir(d, [DropMeta, DropOk][..j]) ==
            if j == 0 then d else if j == 1 then d.(meta := None) else d.(meta := None, ok := false)
  {
    var ops := [DropMeta, DropOk];
    assert ops[..0] == [] && ops[..1] == [DropMeta] && [DropMeta][..0] == [];
    assert ops[..2] == ops;
    assert ExecDir(d, []) == d;
    assert ExecDir(d, [DropMeta]) == d.(meta := None);
  }

  lemma {:induction false} OpenSplit(d: Dir, k: nat)
    requires |Sweeps(d)| < k <= |OpenOps(d)|
    ensures var n := |Sweeps(d)|; var j := if k < n + 2 then k - n else 2;
            && OpenOps(d)[..k] ==
               Sweeps(d) + [DropMeta, DropOk][..j] + (if k > n + 2 then NewSegment(1)[..k - n - 2] else [])
            && (k > n + 2 ==> k <= n + 7 && !LacksSegment(d) && Found(d) == map[])
  {
    hide Sweeps, NewSegment, Found, LacksSegment;
    var n, last := |Sweeps(d)|, [DropMeta, DropOk];
    if k > n + 2 {
      assert last[..2] == last;
      assert OpenOps(d) == Sweeps(d) + last + NewSegment(1);
    } else {
      assert OpenOps(d)[..k] == (Sweeps(d) + last)[..k];
    }
  }

  lemma {:induction false} AfterSweep(d: Dir, k: nat)
    requires !LacksSegment(d) && |Sweeps(d)| < k <= |OpenOps(d)|
    ensures var n, d' := |Sweeps(d)|, ExecDir(d, OpenOps(d)[..k]);
            && Marker(d').None? && (k >= n + 2 ==> d'.meta == None && !d'.ok)
            && d'.segs == Found(d')
            && (k <= n + 2 ==> d'.segs == Found(d))
            && (k > n + 2 ==> k <= n + 7 && Found(d) == map[] && d'.segs == Exec(map[], NewSegment(1)[..k - n - 2]))
  {
    hide NewSegment, Exec, ExecDir, OpenOps, Sweeps, LacksSegment;
    var n, sweeps, last := |Sweeps(d)|, Sweeps(d), [DropMeta, DropOk];
    var j := if k < n + 2 then k - n else 2;
    OpenSplit(d, k);
    assert sweeps[..n] == sweeps;
    SweepPart(d, n);
    var d1 := ExecDir(d, sweeps);
    DropsPart(d1, j);
    ExecDirConcat(d, sweeps, last[..j]);
    if k <= n + 2 {
      assert sweeps + last[..j] + [] == sweeps + last[..j];
    } else {
      var more := NewSegment(1)[..k - n - 2];
      ExecDirConcat(d, sweeps + last[..j], more);
      NewIsOnSegments(k - n - 2);
      ExecSegments(d1.(meta := None, ok := false), more);
    }
  }

  lemma NoneLeft(files: SegFiles, hi: nat)
    ensures Without(files, 0, hi) == map[] <==> forall m | m in files :: m < hi
  {
    if m :| m in files && m >= hi {
      assert m in Without(files, 0, hi);
    }
  }

  lemma NewIsOnSegments(j: nat)
    requires j <= 5
    ensures OnSegments(NewSegment(1)[..j])
  {}

  lemma NothingRun(d: Dir)
    ensures ExecDir(d, OpenOps(d)[..0]) == d
  {
    assert OpenOps(d)[..0] == [];
  }

  /** The one case in which the first segment is read out of bounds: the marker is
      gone by then. */
  lemma {:induction false} LackingPart(d: Dir, k: nat)
    requires LacksSegment(d) && k <= |OpenOps(d)|
    ensures |Sweeps(d)| == 0 && k <= 2 && Found(d) == map[]
    ensures var d' := ExecDir(d, OpenOps(d)[..k]);
            d'.segs == Found(d') == map[] && (LacksSegment(d') <==> k == 0) && (k == 2 ==> d'.meta == None && !d'.ok)
  {
    assert OpenOps(d) == [DropMeta, DropOk];
    DropsPart(d, k);
    assert Kept(map[], Marker(d)) == map[];
  }

  lemma {:induction false} SweepingPart(d: Dir, k: nat)
    requires !LacksSegment(d) && k <= |Sweeps(d)|
    ensures k <= |OpenOps(d)|
    ensures var d' := ExecDir(d, OpenOps(d)[..k]);
            && Found(d') == Found(d) && d'.meta == d.meta && d'.ok == d.ok
            && (forall m | m in d'.segs :: m in d.segs && d'.segs[m] == d.segs[m])
            && (LacksSegment(d') <==> Marker(d).Some? && forall m | m in d.segs :: m < Lowest(d.segs) + k)
  {
    hide ExecDir, NewSegment;
    assert OpenOps(d)[..k] == Sweeps(d)[..k];
    SweepPart(d, k);
    if k == 0 {
      NothingRun(d);
    } else {
      NoneLeft(d.segs, Lowest(d.segs) + k);
    }
  }

  /** The new segment is begun and not finished. */
  ghost predicate TornOpening(d: Dir, k: nat) { |Sweeps(d)| + 2 < k < |Sweeps(d)| + 7 }

  /** Exactly: what is left of a start that stops after `k` operations can be opened
      if no file found was damaged before; unless all segments are gone and the
      marker is not, or the new segment is torn. */
  lemma {:induction false} OpenStopped(isEntry: seq<byte> -> bool, d: Dir, k: nat)
    requires k <= |OpenOps(d)|
    ensures var d' := ExecDir(d, OpenOps(d)[..k]);
            && (Openable(isEntry, d') <==> Intact(isEntry, Found(d)) && !LacksSegment(d') && !TornOpening(d, k))
            && (LacksSegment(d') <==> Marker(d).Some? && k <= |Sweeps(d)| &&
                                      forall m | m in d.segs :: m < Lowest(d.segs) + k)
  {
    hide FileVerdict, Files, Exec, NewSegment, ExecDir, Sweeps;
    if LacksSegment(d) {
      LackingPart(d, k);
    } else if k <= |Sweeps(d)| {
      SweepingPart(d, k);
    } else {
      AfterSweep(d, k);
      if k > |Sweeps(d)| + 2 {
        FirstStop(isEntry, k - |Sweeps(d)| - 2);
      }
    }
  }

  /** One segment and the marker of a truncation that had nothing to remove: the next
      start, stopped after its first unlink, leaves the marker alone. */
  lemma {:induction false} SweepLacks(file: seq<byte>, id: nat)
    requires id > 0
    ensures var d := Dir(map[1 := file], Some(id), false);
            |OpenOps(d)| > 1 && LacksSegment(ExecDir(d, OpenOps(d)[..1]))
  {
    hide ExecDir, NewSegment, Unlinks;
    var d := Dir(map[1 := file], Some(id), false);
    assert d.segs.Keys == {1} && IsLeast(1, d.segs.Keys);
    SweepsFrom(d, 1);
    OpenStopped(_ => true, d, 1);
  }

  /** And what is found then is what was found before, or a new log where there was
      nothing. */
  lemma {:induction false} OpenFinds(isEntry: seq<byte> -> bool, d: Dir, k: nat)
    requires k <= |OpenOps(d)|
    ensures var d' := ExecDir(d, OpenOps(d)[..k]);
            && (Intact(isEntry, Found(d')) ==>
                  && Intact(isEntry, Found(d))
                  && (Found(d') == Found(d) || (Found(d) == map[] && Found(d') == Files(L.FRESH.lo, L.FRESH.segs))))
            && (forall m | m in d'.segs :: |d'.segs[m]| <= 4 || (m in d.segs && d'.segs[m] == d.segs[m]))
  {
    hide Intact, Files, Exec, NewSegment, ExecDir, Sweeps;
    EmptyIntact(isEntry);
    if LacksSegment(d) {
      LackingPart(d, k);
    } else if k <= |Sweeps(d)| {
      SweepingPart(d, k);
    } else {
      AfterSweep(d, k);
      if k > |Sweeps(d)| + 2 {
        FirstStop(isEntry, k - |Sweeps(d)| - 2);
        FirstSize(k - |Sweeps(d)| - 2);
      }
    }
  }

  lemma EmptyIntact(isEntry: seq<byte> -> bool)
    ensures Intact(isEntry, map[])
  {}

  lemma FirstSize(j: nat)
    requires j <= 5
    ensures forall m | m in Exec(map[], NewSegment(1)[..j]) :: |Exec(map[], NewSegment(1)[..j])[m]| <= 4
  {
    hide Exec, NewSegment;
    if j > 0 {
      ExecNewSegment(map[], 1, j);
    } else {
      assert NewSegment(1)[..0] == [];
      NothingDone();
    }
  }

  lemma NothingDone()
    ensures Exec(map[], []) == map[]
  {}

  /** Left to finish, opening leaves the files found, or the first segment. */
  lemma {:induction false} OpenAll(d: Dir)
    ensures var d' := ExecDir(d, OpenOps(d));
            && d'.meta == None && !d'.ok && (LacksSegment(d) ==> d'.segs == map[])
            && (!LacksSegment(d) ==>
                  d'.segs == if Found(d) == map[] then Files(L.FRESH.lo, L.FRESH.segs) else Found(d))
  {
    hide FileVerdict, Files, Exec, NewSegment, ExecDir, Sweeps, Found;
    var k := |OpenOps(d)|;
    assert OpenOps(d)[..k] == OpenOps(d);
    if LacksSegment(d) {
      LackingPart(d, k);
    } else {
      AfterSweep(d, k);
      FirstStop(_ => true, 5);
      WholeSegment();
    }
  }

  /** The start after one that was left to finish works exactly if no file found was
      damaged. */
  lemma {:induction false} OpenAgain(isEntry: seq<byte> -> bool, d: Dir)
    ensures Openable(isEntry, d) <==> Intact(isEntry, Found(d)) && !LacksSegment(d)
    ensures Openable(isEntry, ExecDir(d, OpenOps(d))) <==> Intact(isEntry, Found(d))
    ensures LacksSegment(d) ==> Intact(isEntry, Found(d))
  {
    hide ExecDir, Sweeps, FileVerdict;
    var k := |OpenOps(d)|;
    OpenStopped(isEntry, d, k);
    WholeOpening(d);
    if LacksSegment(d) {
      LackingPart(d, k);
    }
  }

  lemma WholeOpening(d: Dir)
    ensures OpenOps(d)[..|OpenOps(d)|] == OpenOps(d)
  {}

  lemma WholeSegment()
    ensures NewSegment(1)[..5] == NewSegment(1)
  {}

  // ------------------------------------------------------------------- truncating

  /** The directory of a log that is open. */
  function DirOf(s: L.State): Dir { Dir(Files(s.log.lo, s.log.segs), s.marker, false) }

  /** To the next start, the directory looks like that of `s`. */
  predicate LooksLike(s: L.State, d: Dir) {
    d.segs != map[] && Found(d) == Kept(DirOf(s).segs, s.marker)
  }

  /** The marker file is emptied and then gets the decimal digits of the id. */
  function Marks(id: nat): (ops: seq<FileOp>)
    ensures |ops| > 1 && (forall op | op in ops :: op.SetMeta?) && ops[|ops| - 1] == SetMeta(id)
  {
    (if id < 10 then [SetMeta(0)] else Marks(id / 10)) + [SetMeta(id)]
  }

  /** On the way the file holds the first digits of the id, one more each time. */
  lemma {:induction false} MarksAre(id: nat, j: nat)
    requires 0 < j < |Marks(id)|
    ensures Marks(id)[0] == SetMeta(0) && Marks(id)[j].id / 10 == Marks(id)[j - 1].id
    ensures id > 0 ==> Marks(id)[j].id > 0
  {
    if id >= 10 && j < |Marks(id)| - 1 {
      MarksAre(id / 10, j);
    } else if id >= 10 {
      MarksAre(id / 10, 1);
    }
  }

  /** The number of the last segment that a truncation unlinks. */
  function LastUnlinked(s: L.State, id: nat): int
    requires L.Has(s.log, id)
  {
    s.log.lo + var k := L.Removable(s.log, id); if k > 0 then k - 1 else -2
  }

  /** The marker, the segments, and then, if there was one to remove, the ok flag
      and both away again.  With nothing to remove the segment below the lowest is
      what ends it. */
  function TruncOps(s: L.State, id: nat): seq<FileOp> {
    if !L.Has(s.log, id) then []
    else
      Marks(id) + Unlinks(s.minSeg, LastUnlinked(s, id))
      + if L.Removable(s.log, id) > 0 then [SetOk, DropMeta, DropOk] else []
  }

  /** What the next start makes of a truncation stopped after `j` operations: there
      is part of the marker, all of it, or the log without the segments. */
  function TruncLeaves(s: L.State, id: nat, j: nat): L.State
    requires L.Has(s.log, id)
  {
    var m, k := Marks(id), L.Removable(s.log, id);
    if j == 0 then s
    else if j <= |m| then s.(marker := Some(m[j - 1].id))
    else if j <= |m| + |Unlinks(s.minSeg, LastUnlinked(s, id))| then s.(marker := Some(id))
    else L.State(L.Drop(s.log, k), s.log.lo + k, None)
  }

  lemma TruncSplit(s: L.State, id: nat)
    requires L.Has(s.log, id)
    ensures var rest := Unlinks(s.minSeg, LastUnlinked(s, id)) +
                        if L.Removable(s.log, id) > 0 then [SetOk, DropMeta, DropOk] else [];
            TruncOps(s, id) == Marks(id) + rest && TruncOps(s, id)[|Marks(id)|..] == rest
    ensures forall m :: TruncOps(s.(marker := m), id) == TruncOps(s, id)
  {
    hide L.Removable, Marks, Unlinks;
  }

  lemma {:induction false} ExecMarks(d: Dir, ops: seq<FileOp>)
    requires ops != [] && forall op | op in ops :: op.SetMeta?
    ensures ExecDir(d, ops) == d.(meta := Some(ops[|ops| - 1].id))
  {
    var n := |ops| - 1;
    assert ops[n] in ops && forall op | op in ops[..n] :: op in ops;
    if n > 0 {
      ExecMarks(d, ops[..n]);
    }
  }

  /** An id is above the number of every segment that goes with it. */
  lemma {:induction false} IdsAbove(log: L.Log, id: nat)
    requires log.Valid() && L.Has(log, id)
    ensures log.lo + L.Removable(log, id) <= id
  {
    hide L.Concat;
    L.DropManyIds(log, L.SegOf(log.segs, id - log.first));
  }

  lemma {:induction false} UnlinkedFound(s: L.State, id: nat, j: nat)
    requires s.Valid() && L.Has(s.log, id) && j <= |Unlinks(s.minSeg, LastUnlinked(s, id))|
    ensures var files := DirOf(s).segs; var left := Without(files, s.minSeg, s.minSeg + j);
            left != map[] && Kept(left, Some(id)) == Kept(files, Some(id))
  {
    hide FileBytes, L.Concat, L.SegOf, Range;
    IdsAbove(s.log, id);
    assert s.log.lo + L.Removable(s.log, id) in Without(DirOf(s).segs, s.minSeg, s.minSeg + j);
  }

  lemma {:induction false} AllUnlinked(s: L.State, id: nat)
    requires s.Valid() && L.Has(s.log, id)
    ensures var j, log' := |Unlinks(s.minSeg, LastUnlinked(s, id))|, L.Drop(s.log, L.Removable(s.log, id));
            Without(DirOf(s).segs, s.minSeg, s.minSeg + j) == Files(log'.lo, log'.segs)
  {
    hide FileBytes, L.Concat, L.SegOf, Range, L.Removable, Files;
    var j, k := |Unlinks(s.minSeg, LastUnlinked(s, id))|, L.Removable(s.log, id);
    WithoutRange(s.log.lo, s.log.segs, s.minSeg, j, k);
    FilesDrop(s.log.lo, s.log.segs, k);
  }

  lemma WithoutRange(lo: nat, segs: seq<seq<Record>>, from: nat, j: nat, k: nat)
    requires from <= lo && k <= |segs| && (if k > 0 then from + j == lo + k else from + j <= lo)
    ensures Without(Files(lo, segs), from, from + j) == Files(lo, segs) - Range(lo, k)
  {
    hide FileBytes, Range;
  }

  lemma {:induction false} MarksPart(s: L.State, id: nat, j: nat)
    requires s.Valid() && L.Has(s.log, id) && j <= |Marks(id)|
    ensures var d' := ExecDir(DirOf(s), Marks(id)[..j]);
            LooksLike(TruncLeaves(s, id, j), d') && d'.segs == DirOf(s).segs
  {
    hide FileBytes, L.Concat, L.SegOf, L.Removable, Marks, Unlinks, ExecDir;
    var d, m := DirOf(s), Marks(id);
    if j == 0 {
      assert m[..0] == [];
      NoOps(d);
    } else {
      assert forall op | op in m[..j] :: op in m;
      ExecMarks(d, m[..j]);
    }
    assert s.log.lo in d.segs;
    ZeroKeepsAll(d.segs);
  }

  lemma NoOps(d: Dir)
    ensures ExecDir(d, []) == d
  {}

  /** There is no segment number 0. */
  lemma ZeroKeepsAll(files: SegFiles)
    requires 0 !in files
    ensures Kept(files, Some(0)) == files
  {}

  lemma {:induction false} UnlinksPart(s: L.State, id: nat, j: nat)
    requires s.Valid() && L.Has(s.log, id) && j <= |Unlinks(s.minSeg, LastUnlinked(s, id))|
    ensures var d := DirOf(s); var d' := ExecDir(d, Marks(id) + Unlinks(s.minSeg, LastUnlinked(s, id))[..j]);
            && d' == Dir(Without(d.segs, s.minSeg, s.minSeg + j), Some(id), false)
            && (forall n | n in d'.segs :: n in d.segs && d'.segs[n] == d.segs[n])
            && LooksLike(s.(marker := Some(id)), d')
  {
    hide FileBytes, L.Concat, L.SegOf, L.Removable, Marks, Unlinks, ExecDir, Without, LastUnlinked, Kept;
    var d, m, u := DirOf(s), Marks(id), Unlinks(s.minSeg, LastUnlinked(s, id));
    ExecMarks(d, m);
    ExecDirConcat(d, m, u[..j]);
    assert forall op | op in u[..j] :: op in u;
    ExecSegments(d.(meta := Some(id)), u[..j]);
    ExecUnlinks(d.segs, s.minSeg, LastUnlinked(s, id), j);
    UnlinkedFound(s, id, j);
    WithoutPart(d.segs, s.minSeg, s.minSeg + j);
    IdsAbove(s.log, id);
  }

  lemma WithoutPart(files: SegFiles, lo: nat, hi: nat)
    ensures var left := Without(files, lo, hi); forall n | n in left :: n in files && left[n] == files[n]
  {}

  lemma {:induction false} FlagsPart(d: Dir, j: nat)
    requires 0 < j <= 3 && !d.ok
    ensures var d' := ExecDir(d, [SetOk, DropMeta, DropOk][..j]);
            d'.segs == d.segs && Marker(d').None? && (j == 3 ==> d'.meta == None && !d'.ok)
  {
    hide ExecDir;
    var t, last := [SetOk, DropMeta, DropOk], [DropMeta, DropOk];
    assert t[..j] == [SetOk] + last[..j - 1];
    ExecDirConcat(d, [SetOk], last[..j - 1]);
    FlagSet(d);
    DropsPart(d.(ok := true), j - 1);
  }

  lemma FlagSet(d: Dir)
    ensures ExecDir(d, [SetOk]) == d.(ok := true)
  {
    assert [SetOk][..0] == [];
  }

  /** A truncation that is stopped after any of its operations: the next start finds
      the log it began with and part of the marker or all of it, or the log
      without the segments. */
  lemma {:induction false} TruncStopped(s: L.State, id: nat, j: nat)
    requires s.Valid() && L.Has(s.log, id) && j <= |TruncOps(s, id)|
    ensures var d' := ExecDir(DirOf(s), TruncOps(s, id)[..j]);
            && LooksLike(TruncLeaves(s, id, j), d')
            && (forall n | n in d'.segs :: n in DirOf(s).segs && d'.segs[n] == DirOf(s).segs[n])
            && (j == |TruncOps(s, id)| ==>
                  d' == DirOf(L.Truncate(s, id).0) && TruncLeaves(s, id, j).log == L.Truncate(s, id).0.log)
  {
    hide FileBytes, L.Concat, L.SegOf, L.Removable, Marks, Unlinks, ExecDir, Without, LastUnlinked, Kept, Files;
    var d, m, u, k := DirOf(s), Marks(id), Unlinks(s.minSeg, LastUnlinked(s, id)), L.Removable(s.log, id);
    var t := if k > 0 then [SetOk, DropMeta, DropOk] else [];
    var n := |m| + |u|;
    L.DropNone(s.log);
    AllUnlinked(s, id);
    if j < |m| {
      assert (m + u + t)[..j] == m[..j];
      MarksPart(s, id, j);
    } else if j <= n {
      assert (m + u + t)[..j] == m + u[..j - |m|];
      UnlinksPart(s, id, j - |m|);
    } else {
      assert (m + u + t)[..j] == m + u[..|u|] + t[..j - n];
      UnlinksPart(s, id, |u|);
      ExecDirConcat(d, m + u[..|u|], t[..j - n]);
      FlagsPart(ExecDir(d, m + u[..|u|]), j - n);
    }
  }
}
