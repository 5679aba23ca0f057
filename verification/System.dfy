/** The store as a whole: a history of writes, the log that holds its end, and
    the checkpoint that stands for its beginning. */
module System {
  import opened Codec
  import opened Common
  import opened Records
  import opened Kv
  import L = Log

  /** `ops` are all the writes ever acknowledged; the committed checkpoint has the
      id `id` and the map after `c` of them. */
  datatype System = System(run: L.Run, ops: seq<Op>, id: nat, c: nat) {
    function First(): int { run.state.log.first - 2 }
    ghost predicate ZeroFree() { forall op | op in ops :: Kv.ZeroFree(op) }

    ghost predicate Valid(pb: Pb) {
      && run.Valid() && |ops| == |run.hist|
      && (forall i | 0 <= i < |ops| :: run.hist[i].content == EncodeOp(pb, ops[i]))
      && (forall op | op in ops :: op.key != [])
      && c <= |ops| && id <= c + 1 && (id == 0 ==> c == 0)
      // the log reaches back to the snapshot
      && First() <= c
    }
  }

  const EMPTY := System(L.START, [], 0, 0)

  /** A save reads its id first and takes its snapshot later, so the id may be
      older; other writes may come before the truncation that follows.  A write is
      `Cut` if the process stops when its record is whole and its segment, full by
      now, has no successor: as if the segment limit were `limit`. */
  datatype Event =
    | Wrote(version: byte, op: Op)
    | Cut(version: byte, op: Op, limit: nat)
    | Saved(id: nat)
    | Truncated
    | Restarted

  function Next(pb: Pb, s: System, e: Event, segMax: nat): (s': System)
    requires s.run.state.log.segs != []
    ensures s'.run.state.log.segs != []
  {
    match e
    case Wrote(version, op) =>
      s.(run := L.Next(s.run, L.Appended(version, EncodeOp(pb, op)), segMax), ops := s.ops + [op])
    case Cut(version, op, limit) =>
      s.(run := L.Next(s.run, L.Appended(version, EncodeOp(pb, op)), limit), ops := s.ops + [op])
    case Saved(id) => s.(id := id, c := |s.ops|)
    case Truncated => s.(run := L.Next(s.run, L.TruncatedAt(s.id), segMax))
    case Restarted => s.(run := L.Next(s.run, L.Reopened, segMax))
  }

  /** The newest id a truncation at `id` removes is in the snapshot. */
  predicate CoveredBySnapshot(s: System) {
    L.Has(s.run.state.log, s.id) ==>
      L.Drop(s.run.state.log, L.Removable(s.run.state.log, s.id)).first <= s.c + 2
  }

  /** The first write that is still in the log once it is opened again. */
  function SweptFirst(s: System): int { L.Drop(s.run.state.log, L.SweptNow(s.run.state)).first - 2 }

  ghost predicate Allowed(s: System, e: Event) {
    match e
    case Wrote(_, op) => op.key != []
    case Cut(_, op, _) => op.key != []
    case Saved(id) => 0 < id <= |s.ops| + 1
    case Truncated => CoveredBySnapshot(s)
    case Restarted => L.Restartable(s.run.state) && SweptFirst(s) <= s.c
  }

  lemma {:induction false} WriteKeeps(pb: Pb, s: System, version: byte, op: Op, segMax: nat)
    requires s.Valid(pb) && op.key != []
    ensures Next(pb, s, Wrote(version, op), segMax).Valid(pb)
  {
    hide L.Append, L.Concat, L.Truncate, L.Reopen, L.SegOf, EncodeOp;
    L.NextKeeps(s.run, L.Appended(version, EncodeOp(pb, op)), segMax);
    L.AppendKeepsNumbers(s.run.state.log, Record(version, s.run.state.log.NextId(), EncodeOp(pb, op)), segMax);
  }

  lemma {:induction false} NextKeeps(pb: Pb, s: System, e: Event, segMax: nat)
    requires s.Valid(pb) && Allowed(s, e)
    ensures Next(pb, s, e, segMax).Valid(pb)
  {
    match e
    case Saved(id) => SavedKeeps(pb, s, id, segMax);
    case Wrote(version, op) => WriteKeeps(pb, s, version, op, segMax);
    case Cut(version, op, limit) => WriteKeeps(pb, s, version, op, limit);
    case Truncated => TruncateKeeps(pb, s, segMax);
    case Restarted => RestartKeeps(pb, s, segMax);
  }

  lemma SavedKeeps(pb: Pb, s: System, id: nat, segMax: nat)
    requires s.Valid(pb) && Allowed(s, Saved(id))
    ensures Next(pb, s, Saved(id), segMax).Valid(pb)
  {
    hide L.Run.Valid, EncodeOp;
  }

  lemma {:induction false} TruncateKeeps(pb: Pb, s: System, segMax: nat)
    requires s.Valid(pb) && Allowed(s, Truncated)
    ensures Next(pb, s, Truncated, segMax).Valid(pb)
  {
    hide L.Run.Valid, L.Concat, L.Truncate, L.Removable, L.Drop, EncodeOp;
    L.NextKeeps(s.run, L.TruncatedAt(s.id), segMax);
    RunParts(s.run);
    TruncatedFirst(s.run.state, s.id);
  }

  lemma RunParts(run: L.Run)
    requires run.Valid()
    ensures run.state.Valid() && run.state.log.first >= 2 && run.state.log.segs != []
  {}

  lemma {:induction false} RestartKeeps(pb: Pb, s: System, segMax: nat)
    requires s.Valid(pb) && Allowed(s, Restarted)
    ensures Next(pb, s, Restarted, segMax).Valid(pb)
  {
    hide L.Run.Valid, L.Concat, L.Reopen, L.Drop, EncodeOp;
    L.NextKeeps(s.run, L.Reopened, segMax);
    RunParts(s.run);
    L.ReopenKeeps(s.run.state);
  }

  lemma TruncatedFirst(s: L.State, id: nat)
    requires s.Valid()
    ensures var s' := L.Truncate(s, id).0;
            if L.Has(s.log, id) then s'.log == L.Drop(s.log, L.Removable(s.log, id)) else s'.log == s.log
  {
    if L.Has(s.log, id) {
      L.TruncateKeeps(s, id);
    }
  }

  function After(pb: Pb, s: System, events: seq<Event>, segMax: nat): System
    requires s.run.state.log.segs != []
    decreases |events|
  {
    if events == [] then s else After(pb, Next(pb, s, events[0], segMax), events[1..], segMax)
  }

  ghost predicate AllAllowed(pb: Pb, s: System, events: seq<Event>, segMax: nat)
    requires s.run.state.log.segs != []
    decreases |events|
  {
    events == [] || (Allowed(s, events[0]) && AllAllowed(pb, Next(pb, s, events[0], segMax), events[1..], segMax))
  }

  /** Over every run of writes, cut or not, saves, and truncations and restarts that
      the snapshot covers, starting up rebuilds exactly the map of all writes, provided
      no deleted key has a zero byte. */
  lemma {:induction false} NothingLost(pb: Pb, s: System, events: seq<Event>, segMax: nat)
    requires s.Valid(pb) && AllAllowed(pb, s, events, segMax)
    ensures var end := After(pb, s, events, segMax);
            && end.Valid(pb)
            && (end.ZeroFree() ==> Rebuild(end.ops, end.id, end.c, end.First()) == Play(map[], end.ops))
    decreases |events|
  {
    if events == [] {
      if s.ZeroFree() {
        RebuildWhole(s.ops, s.id, s.c, s.First());
      }
    } else {
      NextKeeps(pb, s, events[0], segMax);
      NothingLost(pb, Next(pb, s, events[0], segMax), events[1..], segMax);
    }
  }

  lemma {:induction false} RestartRebuilds(pb: Pb, s: System, segMax: nat)
    requires s.Valid(pb) && Allowed(s, Restarted)
    ensures var s' := Next(pb, s, Restarted, segMax);
            && s'.Valid(pb) && s'.ops == s.ops && s'.id == s.id && s'.run.state == L.Reopen(s.run.state)
            && s'.First() == SweptFirst(s)
            && (s.ZeroFree() ==> Rebuild(s.ops, s.id, s.c, SweptFirst(s)) == Play(map[], s.ops))
  {
    hide L.Concat, L.SegOf, L.Reopen;
    NextKeeps(pb, s, Restarted, segMax);
    L.ReopenKeeps(s.run.state);
    if s.ZeroFree() {
      RebuildWhole(s.ops, s.id, s.c, SweptFirst(s));
    }
  }

  lemma EmptyIsValid(pb: Pb)
    ensures EMPTY.Valid(pb)
  {
    L.StartIsValid();
  }

  /** So nothing is ever lost on runs from the empty store. */
  lemma {:induction false} NothingLostFromEmpty(pb: Pb, events: seq<Event>, segMax: nat)
    requires AllAllowed(pb, EMPTY, events, segMax)
    ensures var end := After(pb, EMPTY, events, segMax);
            && end.Valid(pb)
            && (end.ZeroFree() ==> Rebuild(end.ops, end.id, end.c, end.First()) == Play(map[], end.ops))
  {
    EmptyIsValid(pb);
    NothingLost(pb, EMPTY, events, segMax);
  }

  /** A truncation that is not covered loses a write of some history. */
  lemma {:induction false} UncoveredLoses(pb: Pb, s: System, segMax: nat)
    requires s.Valid(pb) && !CoveredBySnapshot(s)
    ensures var f := Next(pb, s, Truncated, segMax).First();
            && s.c < f <= |s.ops|
            && exists ops: seq<Op> | |ops| == |s.ops| && (forall op | op in ops :: Kv.ZeroFree(op)) ::
                 Rebuild(ops, s.id, s.c, f) != Play(map[], ops)
  {
    hide L.Concat, L.Truncate, L.SegOf, Rebuild, Play;
    TruncatedFirst(s.run.state, s.id);
    L.NextKeeps(s.run, L.TruncatedAt(s.id), segMax);
    var f := Next(pb, s, Truncated, segMax).First();
    LostWrite(|s.ops|, s.id, s.c, f);
    assert |OneWrite(|s.ops|, s.c)| == |s.ops|;
  }

  /** With no write between snapshot and truncation, every truncation is covered. */
  lemma {:induction false} QuietIsCovered(pb: Pb, s: System)
    requires s.Valid(pb) && s.c == |s.ops|
    ensures CoveredBySnapshot(s)
  {
    if L.Has(s.run.state.log, s.id) {
      L.TruncateKeeps(s.run.state, s.id);
    }
  }

  // --------------------------------------------------------- what the log loads as

  function Logged(pb: Pb, r: Record): (l: LogOp)
  {
    var op := DecodeOp(pb, r.content);
    LogOp(r.id, if op.Some? then op.value else Delete([]))
  }

  function LoggedAll(pb: Pb, recs: seq<Record>): (log: seq<LogOp>)
    ensures |log| == |recs|
  {
    seq(|recs|, i requires 0 <= i < |recs| => Logged(pb, recs[i]))
  }

  lemma {:induction false} LoggedFrom(pb: Pb, s: System, f: nat)
    requires s.Valid(pb) && pb.Faithful() && f <= |s.ops|
    ensures LoggedAll(pb, s.run.hist[f..]) == LogFrom(s.ops, f)
    ensures forall r | r in s.run.hist[f..] :: DecodeOp(pb, r.content).Some?
  {
    hide L.Concat, EncodeOp, DecodeOp, Seen;
    var recs := s.run.hist[f..];
    forall i | 0 <= i < |recs|
      ensures Logged(pb, recs[i]) == LogOp(f + 2 + i, Seen(s.ops[f + i])) && DecodeOp(pb, recs[i].content).Some?
    {
      assert recs[i] == s.run.hist[f + i] && s.ops[f + i] in s.ops;
      DecodeEncodeOp(pb, s.ops[f + i]);
    }
  }

  lemma {:induction false} LoggedIsLogFrom(pb: Pb, s: System)
    requires s.Valid(pb) && pb.Faithful()
    ensures LoggedAll(pb, s.run.state.log.Records()) == LogFrom(s.ops, s.First())
    ensures forall r | r in s.run.state.log.Records() :: DecodeOp(pb, r.content).Some?
  {
    hide L.Concat, EncodeOp, DecodeOp, Seen, LoggedAll, LogFrom;
    LoggedFrom(pb, s, s.First());
  }

  /** The map and the id that starting up on the files of `s` comes to. */
  function Recovered(pb: Pb, s: System): (Store, nat)
    requires s.c <= |s.ops|
  {
    Replay(Play(map[], s.ops[..s.c]), s.id, LoggedAll(pb, s.run.state.log.Records()))
  }

  /** The same for the files of `s` after a restart has acted on the marker. */
  function RestartsTo(pb: Pb, s: System): (Store, nat)
    requires s.c <= |s.ops|
  {
    Recovered(pb, s.(run := s.run.(state := L.Reopen(s.run.state))))
  }

  /** With any marker: what a restart finds is the history from the first write
      that is not swept away, so the map is whole if the snapshot reaches it. */
  lemma {:induction false} RestartExact(pb: Pb, s: System, segMax: nat)
    requires s.Valid(pb) && pb.Faithful()
    ensures RestartsTo(pb, s) == Recovered(pb, Next(pb, s, Restarted, segMax))
    ensures 0 <= SweptFirst(s) <= |s.ops|
    ensures RestartsTo(pb, s).0 == Rebuild(s.ops, s.id, s.c, SweptFirst(s))
    ensures forall r | r in L.Reopen(s.run.state).log.Records() :: DecodeOp(pb, r.content).Some?
    ensures s.ZeroFree() && SweptFirst(s) <= s.c ==> RestartsTo(pb, s).0 == Play(map[], s.ops)
  {
    hide L.Concat, L.SegOf, L.Reopen, LoggedAll, LogFrom, Play, Replay, DecodeOp;
    var st, k := s.run.state, L.SweptNow(s.run.state);
    L.ReopenKeeps(st);
    L.DropRecords(st.log, k);
    L.DropHist(st.log, k, s.run.hist);
    LoggedFrom(pb, s, SweptFirst(s));
    if s.ZeroFree() && SweptFirst(s) <= s.c {
      RebuildWhole(s.ops, s.id, s.c, SweptFirst(s));
    }
  }

  /** After a truncation that is not covered, exactly the writes between the
      snapshot and what is left of the log are missing. */
  lemma {:induction false} UncoveredDrops(pb: Pb, s: System, segMax: nat)
    requires s.Valid(pb) && pb.Faithful() && s.ZeroFree() && !CoveredBySnapshot(s)
    ensures var s' := Next(pb, s, Truncated, segMax); var f := s'.First();
            && s.c < f <= |s.ops|
            && Recovered(pb, s').0 == Play(map[], s.ops[..s.c] + s.ops[f..])
  {
    hide L.Concat, L.Truncate, L.SegOf, Play, Replay, LoggedAll, LogFrom, DecodeOp, CString;
    TruncatedFirst(s.run.state, s.id);
    L.NextKeeps(s.run, L.TruncatedAt(s.id), segMax);
    var f := Next(pb, s, Truncated, segMax).First();
    LoggedFrom(pb, s, f);
    var log, snap := LogFrom(s.ops, f), Play(map[], s.ops[..s.c]);
    ReplaySkips(snap, s.id, log, f + 2);
    assert Ops(log)[0..] == s.ops[f..] by {
      forall i | f <= i < |s.ops|
        ensures Seen(s.ops[i]) == s.ops[i]
      {
        assert s.ops[i] in s.ops;
        CStringExact(s.ops[i].key);
      }
    }
    PlayConcat(map[], s.ops[..s.c], s.ops[f..]);
  }
}
