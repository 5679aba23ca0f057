/** Runs of the store, from the empty one, that lose a write that had been
    acknowledged. */
module Losses {
  import opened Codec
  import opened Common
  import opened Records
  import opened Kv
  import opened System
  import L = Log

  lemma AfterOne(pb: Pb, s: System, e: Event, rest: seq<Event>, segMax: nat)
    requires s.run.state.log.segs != []
    ensures After(pb, s, [e] + rest, segMax) == After(pb, Next(pb, s, e, segMax), rest, segMax)
  {
    assert ([e] + rest)[1..] == rest;
  }

  /** One event more of a run, and its two ends. */
  lemma AfterFrom(pb: Pb, s: System, events: seq<Event>, i: nat, segMax: nat)
    requires i < |events| && s.run.state.log.segs != []
    ensures After(pb, s, events[i..], segMax) == After(pb, Next(pb, s, events[i], segMax), events[i + 1..], segMax)
  {
    assert events[i..][1..] == events[i + 1..];
  }

  lemma AfterEnds(pb: Pb, s: System, events: seq<Event>, segMax: nat)
    requires s.run.state.log.segs != []
    ensures events[0..] == events && After(pb, s, events[|events|..], segMax) == s
  {}

  /** A system whose log is one segment that was never truncated. */
  function Single(recs: seq<Record>, ops: seq<Op>, id: nat, c: nat, marker: Option<nat>): System {
    Again(recs, recs, ops, id, c, marker)
  }

  /** The same, where records with the same ids have been lost before. */
  function Again(recs: seq<Record>, hist: seq<Record>, ops: seq<Op>, id: nat, c: nat, marker: Option<nat>): System {
    System(L.Run(L.State(L.Log(1, 2, [recs]), 1, marker), hist), ops, id, c)
  }

  /** The record of the `i`-th write. */
  function Entry(pb: Pb, version: byte, op: Op, i: nat): Record { Record(version, i + 2, EncodeOp(pb, op)) }

  predicate FitsIn(recs: seq<Record>, segMax: nat) { |FileBytes(WAL_FORMAT, recs)| < segMax }

  lemma {:induction false} WriteFits(pb: Pb, recs: seq<Record>, ops: seq<Op>, id: nat, c: nat, marker: Option<nat>,
                                     version: byte, op: Op, segMax: nat)
    requires FitsIn(recs + [Entry(pb, version, op, |recs|)], segMax)
    ensures var r := Entry(pb, version, op, |recs|);
            forall hist ::
              Next(pb, Again(recs, hist, ops, id, c, marker), Wrote(version, op), segMax) ==
              Again(recs + [r], hist + [r], ops + [op], id, c, marker)
  {
    hide FileBytes, EncodeOp;
    L.ConcatOne(recs);
  }

  /** A truncation of a log of one segment removes nothing and leaves its marker. */
  lemma {:induction false} TruncateSingle(pb: Pb, recs: seq<Record>, ops: seq<Op>, id: nat, c: nat, segMax: nat)
    requires 2 <= id < 2 + |recs|
    ensures Next(pb, Single(recs, ops, id, c, None), Truncated, segMax) == Single(recs, ops, id, c, Some(id))
  {
    L.ConcatOne(recs);
  }

  /** A restart then sweeps everything away. */
  lemma {:induction false} RestartSwept(pb: Pb, recs: seq<Record>, ops: seq<Op>, id: nat, c: nat, marker: nat,
        segMax: nat)
    requires marker >= 1
    ensures Next(pb, Single(recs, ops, id, c, Some(marker)), Restarted, segMax) ==
            System(L.Run(L.State(L.FRESH, 1, None), recs), ops, id, c)
  {}

  /** One write, a checkpoint, a truncation that finds nothing to remove, another
      write: after the next restart the second write is gone. */
  lemma {:induction false} MarkerLosesWrite(pb: Pb, version: byte, x: Op, y: Op, segMax: nat)
    requires FitsIn([Entry(pb, version, x, 0), Entry(pb, version, y, 1)], segMax)
    requires FitsIn([Entry(pb, version, x, 0)], segMax)
    requires Apply(Apply(map[], x), y) != Apply(map[], x)
    ensures var events := [Wrote(version, x), Saved(2), Truncated, Wrote(version, y), Restarted];
            var end := After(pb, EMPTY, events, segMax);
            && end.ops == [x, y] && end.c <= 2
            && Recovered(pb, end).0 == Apply(map[], x) != Play(map[], end.ops)
  {
    hide FileBytes, EncodeOp, Next, After;
    var r2, r3 := Entry(pb, version, x, 0), Entry(pb, version, y, 1);
    assert [] + [r2] == [r2] && [r2] + [r3] == [r2, r3] && [] + [x] == [x] && [x] + [y] == [x, y];
    WriteFits(pb, [], [], 0, 0, None, version, x, segMax);
    SaveSingle(pb, [r2], [x], 2, segMax);
    TruncateSingle(pb, [r2], [x], 2, 1, segMax);
    WriteFits(pb, [r2], [x], 2, 1, Some(2), version, y, segMax);
    RestartSwept(pb, [r2, r3], [x, y], 2, 1, 2, segMax);
    var events := [Wrote(version, x), Saved(2), Truncated, Wrote(version, y), Restarted];
    AfterFrom(pb, EMPTY, events, 0, segMax);
    AfterFrom(pb, Single([r2], [x], 0, 0, None), events, 1, segMax);
    AfterFrom(pb, Single([r2], [x], 2, 1, None), events, 2, segMax);
    AfterFrom(pb, Single([r2], [x], 2, 1, Some(2)), events, 3, segMax);
    AfterFrom(pb, Single([r2, r3], [x, y], 2, 1, Some(2)), events, 4, segMax);
    AfterEnds(pb, Again([], [r2, r3], [x, y], 2, 1, None), events, segMax);
    PlayTwo(x, y);
    FreshRecovers(pb, [r2, r3], [x, y], 2, 1);
  }

  lemma SaveSingle(pb: Pb, recs: seq<Record>, ops: seq<Op>, id: nat, segMax: nat)
    ensures Next(pb, Single(recs, ops, 0, 0, None), Saved(id), segMax) == Single(recs, ops, id, |ops|, None)
  {}

  lemma PlayTwo(x: Op, y: Op)
    ensures Play(map[], [x]) == Apply(map[], x) && Play(map[], [x, y]) == Apply(Apply(map[], x), y)
  {
    assert [x][..0] == [] && [x, y][..1] == [x];
  }

  lemma FreshRecovers(pb: Pb, hist: seq<Record>, ops: seq<Op>, id: nat, c: nat)
    requires c <= |ops|
    ensures Recovered(pb, System(L.Run(L.State(L.FRESH, 1, None), hist), ops, id, c)) == (Play(map[], ops[..c]), id)
  {
    L.ConcatOne([]);
  }

  lemma RestartClean(pb: Pb, r: Record, hist: seq<Record>, ops: seq<Op>, id: nat, c: nat, segMax: nat)
    requires r.id == 2
    ensures Next(pb, Again([r], hist, ops, id, c, None), Restarted, segMax) == Again([r], hist, ops, id, c, None)
  {
    L.ConcatOne([r]);
    assert [[r]][0..] == [[r]];
  }

  /** Two writes, a checkpoint, a truncation that finds nothing to remove, a restart,
      which sweeps the log away, and a write, which gets the id 2 again. */
  function SweptRun(version: byte, x: Op, y: Op, z: Op): seq<Event> {
    [Wrote(version, x), Wrote(version, y), Saved(3), Truncated, Restarted, Wrote(version, z)]
  }

  lemma {:induction false} SweptThenWritten(pb: Pb, version: byte, x: Op, y: Op, z: Op, segMax: nat)
    requires FitsIn([Entry(pb, version, x, 0)], segMax) && FitsIn([Entry(pb, version, z, 0)], segMax)
    requires FitsIn([Entry(pb, version, x, 0), Entry(pb, version, y, 1)], segMax)
    ensures var r2, r3, r := Entry(pb, version, x, 0), Entry(pb, version, y, 1), Entry(pb, version, z, 0);
            After(pb, EMPTY, SweptRun(version, x, y, z), segMax) ==
            Again([r], [r2, r3, r], [x, y, z], 3, 2, None)
  {
    hide FileBytes, EncodeOp, Next, Play, After;
    var r2, r3, r := Entry(pb, version, x, 0), Entry(pb, version, y, 1), Entry(pb, version, z, 0);
    assert [] + [r2] == [r2] && [r2] + [r3] == [r2, r3] && [] + [x] == [x] && [x] + [y] == [x, y];
    assert [] + [r] == [r] && [r2, r3] + [r] == [r2, r3, r] && [x, y] + [z] == [x, y, z];
    WriteFits(pb, [], [], 0, 0, None, version, x, segMax);
    WriteFits(pb, [r2], [x], 0, 0, None, version, y, segMax);
    SaveSingle(pb, [r2, r3], [x, y], 3, segMax);
    TruncateSingle(pb, [r2, r3], [x, y], 3, 2, segMax);
    RestartSwept(pb, [r2, r3], [x, y], 3, 2, 3, segMax);
    WriteFits(pb, [], [x, y], 3, 2, None, version, z, segMax);
    var events := SweptRun(version, x, y, z);
    AfterFrom(pb, EMPTY, events, 0, segMax);
    AfterFrom(pb, Single([r2], [x], 0, 0, None), events, 1, segMax);
    AfterFrom(pb, Single([r2, r3], [x, y], 0, 0, None), events, 2, segMax);
    AfterFrom(pb, Single([r2, r3], [x, y], 3, 2, None), events, 3, segMax);
    AfterFrom(pb, Single([r2, r3], [x, y], 3, 2, Some(3)), events, 4, segMax);
    AfterFrom(pb, Again([], [r2, r3], [x, y], 3, 2, None), events, 5, segMax);
    AfterEnds(pb, Again([r], [r2, r3, r], [x, y, z], 3, 2, None), events, segMax);
  }

  /** Even when the marker took only what the checkpoint had: ids begin again below
      the one recorded, and replay skips the write that gets one of them. */
  lemma {:induction false} MarkerSkipsWrite(pb: Pb, version: byte, x: Op, y: Op, z: Op, segMax: nat)
    requires FitsIn([Entry(pb, version, x, 0)], segMax) && FitsIn([Entry(pb, version, z, 0)], segMax)
    requires FitsIn([Entry(pb, version, x, 0), Entry(pb, version, y, 1)], segMax)
    requires Apply(Play(map[], [x, y]), z) != Play(map[], [x, y])
    ensures var end := After(pb, EMPTY, SweptRun(version, x, y, z) + [Restarted], segMax);
            && end.ops == [x, y, z] && end.c <= 3
            && Recovered(pb, end).0 == Play(map[], [x, y]) != Play(map[], end.ops)
  {
    hide FileBytes, EncodeOp, Next, Play, After, SweptRun;
    var r2, r3, r := Entry(pb, version, x, 0), Entry(pb, version, y, 1), Entry(pb, version, z, 0);
    SweptThenWritten(pb, version, x, y, z, segMax);
    AfterMore(pb, EMPTY, SweptRun(version, x, y, z), Restarted, segMax);
    RestartClean(pb, r, [r2, r3, r], [x, y, z], 3, 2, segMax);
    OneSkipped(pb, r, [r2, r3, r], [x, y, z], 3, 2);
    assert [x, y, z][..2] == [x, y] && [x, y] + [z] == [x, y, z];
    PlaySnoc(map[], [x, y], z);
  }

  /** And the next checkpoint ends the process: no save is needed under an id that is
      recorded already, and the log does not hold it. */
  lemma {:induction false} MarkerEndsProcess(pb: Pb, version: byte, x: Op, y: Op, z: Op, segMax: nat)
    requires FitsIn([Entry(pb, version, x, 0)], segMax) && FitsIn([Entry(pb, version, z, 0)], segMax)
    requires FitsIn([Entry(pb, version, x, 0), Entry(pb, version, y, 1)], segMax)
    ensures var end := After(pb, EMPTY, SweptRun(version, x, y, z), segMax);
            && end.c <= |end.ops| && Recovered(pb, end).1 == end.id
            && L.Truncate(end.run.state, end.id) == (end.run.state, InvalidEntryId)
  {
    hide FileBytes, EncodeOp, After, SweptRun, Play;
    var r2, r3, r := Entry(pb, version, x, 0), Entry(pb, version, y, 1), Entry(pb, version, z, 0);
    SweptThenWritten(pb, version, x, y, z, segMax);
    OneSkipped(pb, r, [r2, r3, r], [x, y, z], 3, 2);
    L.ConcatOne([r]);
  }

  /** So does the first checkpoint, if it is due before the first write. */
  lemma EmptyCutFails()
    ensures L.Truncate(EMPTY.run.state, EMPTY.id) == (EMPTY.run.state, InvalidEntryId)
  {}

  lemma OneSkipped(pb: Pb, r: Record, hist: seq<Record>, ops: seq<Op>, id: nat, c: nat)
    requires c <= |ops| && id > r.id
    ensures Recovered(pb, Again([r], hist, ops, id, c, None)) == (Play(map[], ops[..c]), id)
  {
    hide DecodeOp, Play;
    L.ConcatOne([r]);
    var log, m := LoggedAll(pb, [r]), Play(map[], ops[..c]);
    assert log[..|log| - 1] == [] && log[|log| - 1].id == r.id;
    assert Replay(m, id, log[..|log| - 1]) == (m, id);
  }

  // ------------------------------------------------- a write between save and cut

  /** Two segments, the second one perhaps full already. */
  function Double(a: seq<Record>, b: seq<Record>, full: bool, ops: seq<Op>, id: nat, c: nat): System {
    System(L.Run(L.State(L.Log(1, 2, [a, b] + if full then [[]] else []), 1, None), a + b), ops, id, c)
  }

  lemma {:induction false} ConcatDouble(a: seq<Record>, b: seq<Record>, full: bool)
    ensures L.Concat([a, b] + if full then [[]] else []) == a + b
    ensures L.Concat([b] + if full then [[]] else []) == b
  {
    L.ConcatOne(a);
    L.ConcatOne(b);
    L.ConcatOne([]);
    L.ConcatNothing<Record>();
    var none: seq<seq<Record>> := if full then [[]] else [];
    L.ConcatAppend([b], none);
    L.ConcatAppend([a], [b] + none);
    assert [a] + ([b] + none) == [a, b] + none;
    assert a + b + [] == a + b;
  }

  lemma {:induction false} WriteFills(pb: Pb, recs: seq<Record>, ops: seq<Op>, id: nat, c: nat,
                                      version: byte, op: Op, segMax: nat)
    requires !FitsIn(recs + [Entry(pb, version, op, |recs|)], segMax)
    ensures var r := Entry(pb, version, op, |recs|);
            Next(pb, Single(recs, ops, id, c, None), Wrote(version, op), segMax) ==
            Double(recs + [r], [], false, ops + [op], id, c)
  {
    hide FileBytes, EncodeOp;
    L.ConcatOne(recs);
    var r := Entry(pb, version, op, |recs|);
    assert recs + [r] + [] == recs + [r];
    assert [recs + [r]] + [[]] == [recs + [r], []];
  }

  lemma {:induction false} WriteNext(pb: Pb, a: seq<Record>, ops: seq<Op>, id: nat, c: nat,
                                     version: byte, op: Op, segMax: nat)
    ensures var r := Entry(pb, version, op, |a|);
            Next(pb, Double(a, [], false, ops, id, c), Wrote(version, op), segMax) ==
            Double(a, [r], !FitsIn([r], segMax), ops + [op], id, c)
  {
    hide FileBytes, EncodeOp, L.Concat;
    ConcatDouble(a, [], false);
    var r := Entry(pb, version, op, |a|);
    assert [a, []] + [] == [a, []] && [a, []][..1] == [a] && [] + [r] == [r] && a + [] == a;
    assert [a] + [[r]] == [a, [r]];
  }

  lemma {:induction false} TruncateDouble(pb: Pb, a: seq<Record>, r: Record, full: bool, ops: seq<Op>, id: nat,
        c: nat, segMax: nat)
    requires 2 <= id < 2 + |a|
    ensures Next(pb, Double(a, [r], full, ops, id, c), Truncated, segMax).run.state ==
            L.State(L.Log(2, 2 + |a|, [[r]] + if full then [[]] else []), 2, None)
  {
    hide L.Concat, L.SegOf;
    ConcatDouble(a, [r], full);
    var segs := [a, [r]] + if full then [[]] else [];
    assert segs[..0] == [] && segs[..1] == [a];
    L.ConcatNothing<Record>();
    L.ConcatOne(a);
    L.SegOfUnique(segs, id - 2, 0);
    assert segs[1..] == [[r]] + if full then [[]] else [];
  }

  lemma {:induction false} OneReplayed(pb: Pb, s: System, r: Record, full: bool, z: Op)
    requires pb.Faithful() && z.key != [] && z.Put? && s.c <= |s.ops| && s.id <= r.id && r.content == EncodeOp(pb, z)
    requires s.run.state.log.segs == [[r]] + if full then [[]] else []
    ensures Recovered(pb, s).0 == Apply(Play(map[], s.ops[..s.c]), z)
  {
    hide DecodeOp, EncodeOp, Play, L.Concat;
    ConcatDouble([], [r], full);
    DecodeEncodeOp(pb, z);
    var log, m := LoggedAll(pb, [r]), Play(map[], s.ops[..s.c]);
    assert log[..|log| - 1] == [] && log[|log| - 1] == LogOp(r.id, z);
    assert Replay(m, s.id, log[..|log| - 1]) == (m, s.id);
  }

  lemma {:induction false} TruncationRun(pb: Pb, version: byte, x: Op, y: Op, z: Op, segMax: nat)
    requires FitsIn([Entry(pb, version, x, 0)], segMax)
    requires !FitsIn([Entry(pb, version, x, 0), Entry(pb, version, y, 1)], segMax)
    ensures var events := [Wrote(version, x), Saved(2), Wrote(version, y), Wrote(version, z), Truncated];
            var end, r := After(pb, EMPTY, events, segMax), Entry(pb, version, z, 2);
            && end.ops == [x, y, z] && end.id == 2 && end.c == 1
            && end.run.state == L.State(L.Log(2, 4, [[r]] + if FitsIn([r], segMax) then [] else [[]]), 2, None)
  {
    hide FileBytes, EncodeOp, Next, FitsIn, After;
    var r2, r3, r4 := Entry(pb, version, x, 0), Entry(pb, version, y, 1), Entry(pb, version, z, 2);
    var full := !FitsIn([r4], segMax);
    assert [] + [r2] == [r2] && [r2] + [r3] == [r2, r3];
    assert [] + [x] == [x] && [x] + [y] == [x, y] && [x, y] + [z] == [x, y, z];
    WriteFits(pb, [], [], 0, 0, None, version, x, segMax);
    SaveSingle(pb, [r2], [x], 2, segMax);
    WriteFills(pb, [r2], [x], 2, 1, version, y, segMax);
    WriteNext(pb, [r2, r3], [x, y], 2, 1, version, z, segMax);
    TruncateDouble(pb, [r2, r3], r4, full, [x, y, z], 2, 1, segMax);
    var last := Double([r2, r3], [r4], full, [x, y, z], 2, 1);
    var events := [Wrote(version, x), Saved(2), Wrote(version, y), Wrote(version, z), Truncated];
    AfterFrom(pb, EMPTY, events, 0, segMax);
    AfterFrom(pb, Single([r2], [x], 0, 0, None), events, 1, segMax);
    AfterFrom(pb, Single([r2], [x], 2, 1, None), events, 2, segMax);
    AfterFrom(pb, Double([r2, r3], [], false, [x, y], 2, 1), events, 3, segMax);
    AfterFrom(pb, last, events, 4, segMax);
    AfterEnds(pb, Next(pb, last, Truncated, segMax), events, segMax);
    TruncatedKeeps(pb, last, segMax);
  }

  /** A write that comes between the snapshot and the truncation, into the segment
      that is then removed, is gone: `x` is saved, `y` fills its segment, `z` goes to
      the next, and the truncation at the id of `x` takes `y` with it. */
  lemma {:induction false} TruncationLosesWrite(pb: Pb, version: byte, x: Op, y: Op, z: Op, segMax: nat)
    requires pb.Faithful() && x.Put? && y.Put? && z.Put? && z.key != []
    requires y.key != z.key && (x.key == y.key ==> x.value != y.value)
    requires FitsIn([Entry(pb, version, x, 0)], segMax)
    requires !FitsIn([Entry(pb, version, x, 0), Entry(pb, version, y, 1)], segMax)
    ensures var events := [Wrote(version, x), Saved(2), Wrote(version, y), Wrote(version, z), Truncated];
            var end := After(pb, EMPTY, events, segMax);
            && end.ops == [x, y, z] && end.c <= 3 && end.run.state.marker.None?
            && y.key in Play(map[], end.ops) && Lookup(Recovered(pb, end).0, y.key) != Some(y.value)
            && Play(map[], end.ops)[y.key] == y.value
  {
    hide FileBytes, EncodeOp, After, Play, DecodeOp, Recovered, FitsIn;
    var events := [Wrote(version, x), Saved(2), Wrote(version, y), Wrote(version, z), Truncated];
    TruncationRun(pb, version, x, y, z, segMax);
    var end, r := After(pb, EMPTY, events, segMax), Entry(pb, version, z, 2);
    OneReplayed(pb, end, r, !FitsIn([r], segMax), z);
    PlayTwo(x, y);
    PlaySnoc(map[], [x, y], z);
    assert [x, y] + [z] == [x, y, z] && [x, y, z][..1] == [x];
  }

  lemma TruncatedKeeps(pb: Pb, s: System, segMax: nat)
    requires s.run.state.log.segs != []
    ensures var end := Next(pb, s, Truncated, segMax);
            end.ops == s.ops && end.id == s.id && end.c == s.c
  {}

  // ---------------------------------------------------------- a second truncation

  /** Segment 1 is gone, and the log is down to its last segment with a record. */
  function Rest(r: Record, full: bool, minSeg: nat, marker: Option<nat>): L.State {
    L.State(L.Log(2, r.id, [[r]] + if full then [[]] else []), minSeg, marker)
  }

  lemma {:induction false} NothingToRemove(r: Record, full: bool, minSeg: nat, marker: Option<nat>)
    requires r.id >= 2
    ensures L.Truncate(Rest(r, full, minSeg, marker), r.id) ==
            if minSeg < 2 then (Rest(r, full, minSeg, Some(r.id)), FileSystemError)
            else (Rest(r, full, 1, Some(r.id)), OK)
  {
    hide L.Concat, L.SegOf;
    ConcatDouble([], [r], full);
    var segs := [[r]] + if full then [[]] else [];
    assert segs[..0] == [] && segs[..1] == [[r]];
    L.ConcatNothing<Record>();
    L.ConcatOne([r]);
    L.SegOfUnique(segs, 0, 0);
  }

  lemma {:induction false} AfterMore(pb: Pb, s: System, events: seq<Event>, e: Event, segMax: nat)
    requires s.run.state.log.segs != []
    ensures After(pb, s, events, segMax).run.state.log.segs != []
    ensures After(pb, s, events + [e], segMax) == Next(pb, After(pb, s, events, segMax), e, segMax)
    decreases |events|
  {
    hide Next;
    if events == [] {
      assert events + [e] == [e] + [];
      AfterOne(pb, s, e, [], segMax);
    } else {
      AfterMore(pb, Next(pb, s, events[0], segMax), events[1..], e, segMax);
      assert events + [e] == [events[0]] + (events[1..] + [e]);
      AfterOne(pb, s, events[0], events[1..] + [e], segMax);
    }
  }

  /** Once segment 1 is gone, a checkpoint with nothing to remove and the next one,
      without a write in between, are enough for a truncation to fail, which
      ends the process. */
  lemma {:induction false} SecondTruncationFails(pb: Pb, version: byte, x: Op, y: Op, z: Op, segMax: nat)
    requires FitsIn([Entry(pb, version, x, 0)], segMax)
    requires !FitsIn([Entry(pb, version, x, 0), Entry(pb, version, y, 1)], segMax)
    ensures var events := [Wrote(version, x), Saved(2), Wrote(version, y), Wrote(version, z), Truncated];
            var end := After(pb, EMPTY, events + [Saved(4)] + [Truncated], segMax);
            end.id == 4 && end.c == |end.ops| == 3 && L.Truncate(end.run.state, end.id).1 == FileSystemError
  {
    hide FileBytes, EncodeOp, After, FitsIn, L.Truncate;
    var events := [Wrote(version, x), Saved(2), Wrote(version, y), Wrote(version, z), Truncated];
    var r := Entry(pb, version, z, 2);
    var full := !FitsIn([r], segMax);
    TruncationRun(pb, version, x, y, z, segMax);
    AfterMore(pb, EMPTY, events, Saved(4), segMax);
    AfterMore(pb, EMPTY, events + [Saved(4)], Truncated, segMax);
    NothingToRemove(r, full, 2, None);
    NothingToRemove(r, full, 1, Some(4));
  }

  // ------------------------------------------------------- a key with a zero byte

  lemma {:induction false} TwoWrites(pb: Pb, version: byte, x: Op, y: Op, segMax: nat)
    requires x.key != [] && y.key != [] && FitsIn([Entry(pb, version, x, 0)], segMax)
    requires FitsIn([Entry(pb, version, x, 0), Entry(pb, version, y, 1)], segMax)
    ensures var end := Single([Entry(pb, version, x, 0), Entry(pb, version, y, 1)], [x, y], 0, 0, None);
            After(pb, EMPTY, [Wrote(version, x), Wrote(version, y)], segMax) == end && end.Valid(pb)
  {
    hide FileBytes, EncodeOp, Next, L.Concat, L.Run.Valid, After;
    var r2, r3 := Entry(pb, version, x, 0), Entry(pb, version, y, 1);
    assert [] + [r2] == [r2] && [r2] + [r3] == [r2, r3] && [] + [x] == [x] && [x] + [y] == [x, y];
    WriteFits(pb, [], [], 0, 0, None, version, x, segMax);
    WriteFits(pb, [r2], [x], 0, 0, None, version, y, segMax);
    var events := [Wrote(version, x), Wrote(version, y)];
    AfterFrom(pb, EMPTY, events, 0, segMax);
    AfterFrom(pb, Single([r2], [x], 0, 0, None), events, 1, segMax);
    AfterEnds(pb, Single([r2, r3], [x, y], 0, 0, None), events, segMax);
    EmptyIsValid(pb);
    NextKeeps(pb, EMPTY, Wrote(version, x), segMax);
    NextKeeps(pb, Single([r2], [x], 0, 0, None), Wrote(version, y), segMax);
  }

  /** A put and a delete of a key with a zero byte: the next restart brings the key
      back. */
  lemma {:induction false} ZeroKeyReturns(pb: Pb, version: byte, key: Key, value: seq<byte>, segMax: nat)
    requires pb.Faithful() && 0 in key
    requires FitsIn([Entry(pb, version, Put(key, value), 0)], segMax)
    requires FitsIn([Entry(pb, version, Put(key, value), 0), Entry(pb, version, Delete(key), 1)], segMax)
    ensures var end := After(pb, EMPTY, [Wrote(version, Put(key, value)), Wrote(version, Delete(key))], segMax);
            && end.Valid(pb) && Play(map[], end.ops) == map[] && L.SweptNow(end.run.state) == 0
            && RestartsTo(pb, end).0 == map[key := value]
  {
    hide FileBytes, EncodeOp, After, Play, CString, L.Concat, FitsIn, L.Run.Valid, RestartsTo;
    var x, y := Put(key, value), Delete(key);
    TwoWrites(pb, version, x, y, segMax);
    var end := After(pb, EMPTY, [Wrote(version, x), Wrote(version, y)], segMax);
    RestartExact(pb, end, segMax);
    L.DropNone(end.run.state.log);
    PlayTwo(x, y);
    TwoReplayed(x, y);
    CStringExact(key);
  }

  lemma TwoReplayed(x: Op, y: Op)
    ensures Rebuild([x, y], 0, 0, 0) == Apply(Apply(map[], Seen(x)), Seen(y))
  {
    var log := LogFrom([x, y], 0);
    ReplaySkips(map[], 0, log, 2);
    assert Ops(log)[0..] == [Seen(x), Seen(y)] && [x, y][..0] == [];
    PlayTwo(Seen(x), Seen(y));
  }
}
