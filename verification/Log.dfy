/** The write-ahead log as a value: consecutively numbered segments of
    consecutively numbered records, the last segment being written to, and the
    bookkeeping that outlives a restart. */
module Log {
  import opened Codec
  import opened Common
  import opened Records

  /** Segment `lo + i` holds `segs[i]`; the first record kept has id `first`. */
  datatype Log = Log(lo: nat, first: nat, segs: seq<seq<Record>>) {
    function Records(): seq<Record> { Concat(segs) }
    function NextId(): nat { first + |Records()| }
    function LastId(): int { NextId() - 1 }
    function Hi(): int { lo + |segs| - 1 }

    ghost predicate Valid() {
      && lo >= 1 && first >= 2 && segs != []
      && (forall i | 0 <= i < |segs| - 1 :: segs[i] != [])
      && (forall i | 0 <= i < |Records()| :: Records()[i].id == first + i)
      // every closed segment took at least one id
      && first > lo
      && (Records() == [] ==> lo == 1 && first == 2)
    }
  }

  function Concat<T>(segs: seq<seq<T>>): seq<T> {
    if segs == [] then [] else segs[0] + Concat(segs[1..])
  }

  /** Which segment the k-th record is in. */
  function SegOf(segs: seq<seq<Record>>, k: nat): (i: nat)
    requires k < |Concat(segs)|
    ensures i < |segs|
    ensures |Concat(segs[..i])| <= k < |Concat(segs[..i + 1])|
  {
    if k < |segs[0]| then
      assert segs[..1] == [segs[0]];
      0
    else
      var i := SegOf(segs[1..], k - |segs[0]|);
      assert segs[..i + 1][1..] == segs[1..][..i] && segs[..i + 2][1..] == segs[1..][..i + 1];
      i + 1
  }

  lemma ConcatNothing<T>()
    ensures Concat<T>([]) == []
  {}

  lemma {:induction false} ConcatSplit<T>(segs: seq<seq<T>>, k: nat)
    requires k <= |segs|
    ensures Concat(segs) == Concat(segs[..k]) + Concat(segs[k..])
  {
    if k > 0 {
      ConcatSplit(segs[1..], k - 1);
      assert segs[..k][1..] == segs[1..][..k - 1];
    } else {
      assert segs[k..] == segs;
    }
  }

  lemma {:induction false} ConcatAppend<T>(a: seq<seq<T>>, b: seq<seq<T>>)
    ensures Concat(a + b) == Concat(a) + Concat(b)
  {
    ConcatSplit(a + b, |a|);
    assert (a + b)[..|a|] == a && (a + b)[|a|..] == b;
  }

  /** Position `k` determines its segment. */
  lemma {:induction false} SegOfUnique(segs: seq<seq<Record>>, k: nat, i: nat)
    requires k < |Concat(segs)| && i < |segs|
    requires |Concat(segs[..i])| <= k < |Concat(segs[..i + 1])|
    ensures SegOf(segs, k) == i
  {
    var j := SegOf(segs, k);
    if j < i {
      PrefixGrows(segs, j + 1, i);
    } else if i < j {
      PrefixGrows(segs, i + 1, j);
    }
  }

  lemma {:induction false} PrefixGrows<T>(segs: seq<seq<T>>, i: nat, j: nat)
    requires i <= j <= |segs|
    ensures |Concat(segs[..i])| <= |Concat(segs[..j])|
  {
    ConcatSplit(segs[..j], i);
    assert segs[..j][..i] == segs[..i];
  }

  // ------------------------------------------------------------------- steps

  /** What a process leaves behind: the log, the lowest segment number it
      would start removing from, and the marker file a truncation writes first
      and removes last. */
  datatype State = State(log: Log, minSeg: nat, marker: Option<nat>) {
    ghost predicate Valid() {
      && log.Valid()
      && (minSeg == log.lo || minSeg == 1)
      && (marker.Some? ==> log.Records() != [])
    }
  }

  const FRESH := Log(1, 2, [[]])

  /** Write to the last segment; once that is full, start another. */
  function Append(log: Log, r: Record, segMax: nat): Log
    requires log.segs != []
  {
    var n := |log.segs| - 1;
    var last := log.segs[n] + [r];
    var segs := log.segs[..n] + [last];
    log.(segs := if |FileBytes(WAL_FORMAT, last)| >= segMax then segs + [[]] else segs)
  }

  predicate Has(log: Log, id: nat) { log.first <= id <= log.LastId() }

  /** How many segments a truncation at `id` removes: those up to the one that
      holds `id`, sparing the last one with records in it. */
  function Removable(log: Log, id: nat): (k: nat)
    requires Has(log, id)
    ensures k < |log.segs|
  {
    var i := SegOf(log.segs, id - log.first);
    if i + 1 == |log.segs| || log.segs[i + 1] == [] then i else i + 1
  }

  function Drop(log: Log, k: nat): Log
    requires k <= |log.segs|
  {
    Log(log.lo + k, log.first + |Concat(log.segs[..k])|, log.segs[k..])
  }

  /** A truncation that finds nothing to remove resets the lowest segment
      number to 1 and leaves its marker; if segment 1 is gone already, it
      instead fails to open the file below the lowest. */
  function Truncate(s: State, id: nat): (State, Code) {
    if !Has(s.log, id) then (s, InvalidEntryId)
    else
      var k := Removable(s.log, id);
      if k > 0 then (State(Drop(s.log, k), s.log.lo + k, None), OK)
      else if s.minSeg < s.log.lo then (s.(marker := Some(id)), FileSystemError)
      else (s.(minSeg := 1, marker := Some(id)), OK)
  }

  /** The log read back from the segments numbered from `lo` on. */
  function Reread(lo: nat, segs: seq<seq<Record>>): Log {
    if segs == [] then FRESH
    else Log(lo, if Concat(segs) == [] then 2 else Concat(segs)[0].id, segs)
  }

  /** A marker left behind is taken for the highest segment number a truncation
      was to remove, though it is an entry id: of the `count` segments from `lo`
      on, this many go. */
  function Swept(lo: nat, count: nat, marker: Option<nat>): (k: nat)
    ensures k <= count
  {
    if marker.None? || marker.value < lo then 0
    else if lo + count <= marker.value + 1 then count
    else marker.value + 1 - lo
  }

  /** Opening the directory again. */
  function Reopen(s: State): State {
    var k := Swept(s.log.lo, |s.log.segs|, s.marker);
    var log := Reread(s.log.lo + k, s.log.segs[k..]);
    State(log, log.lo, None)
  }

  // ------------------------------------------------------ what every step keeps

  lemma {:induction false} AppendRecords(log: Log, r: Record, segMax: nat)
    requires log.segs != []
    ensures Append(log, r, segMax).Records() == log.Records() + [r]
  {
    var n := |log.segs| - 1;
    var last := log.segs[n];
    ConcatSplit(log.segs, n);
    assert log.segs[n..] == [last];
    ConcatAppend(log.segs[..n], [last + [r]]);
    ConcatAppend(log.segs[..n] + [last + [r]], [[]]);
    assert Concat([last]) == last && Concat([last + [r]]) == last + [r];
    var none: seq<Record> := [];
    assert Concat([none]) == none;
  }

  lemma {:induction false} AppendKeepsValid(log: Log, r: Record, segMax: nat)
    requires log.Valid() && r.id == log.LastId() + 1
    ensures var log' := Append(log, r, segMax); log'.Valid() && log'.LastId() == r.id
  {
    AppendRecords(log, r, segMax);
  }

  lemma {:induction false} DropRecords(log: Log, k: nat)
    requires k <= |log.segs|
    ensures log.Records() == Concat(log.segs[..k]) + Drop(log, k).Records()
    ensures Drop(log, k).LastId() == log.LastId()
  {
    ConcatSplit(log.segs, k);
  }

  lemma {:induction false} DropManyIds(log: Log, k: nat)
    requires log.Valid() && k < |log.segs|
    ensures |Concat(log.segs[..k])| >= k
  {
    if k > 0 {
      DropManyIds(log, k - 1);
      ConcatSplit(log.segs[..k], k - 1);
      assert log.segs[..k][..k - 1] == log.segs[..k - 1] && log.segs[..k][k - 1..] == [log.segs[k - 1]];
    }
  }

  lemma {:induction false} DropKeepsValid(log: Log, k: nat)
    requires log.Valid() && k < |log.segs| && Drop(log, k).Records() != []
    ensures Drop(log, k).Valid()
  {
    DropRecords(log, k);
    DropManyIds(log, k);
    var kept := Drop(log, k);
    forall i | 0 <= i < |kept.Records()|
      ensures kept.Records()[i].id == kept.first + i
    {
      assert kept.Records()[i] == log.Records()[|Concat(log.segs[..k])| + i];
    }
  }

  /** The spared segment holds the newest record. */
  lemma {:induction false} NewestSurvives(log: Log, id: nat)
    requires log.Valid() && Has(log, id)
    ensures Drop(log, Removable(log, id)).Records() != []
  {
    var k := Removable(log, id);
    var i := SegOf(log.segs, id - log.first);
    if k == i {
      ConcatSplit(log.segs[..i + 1], i);
      assert log.segs[..i + 1][..i] == log.segs[..i] && log.segs[..i + 1][i..] == [log.segs[i]];
    }
    assert log.segs[k] != [] && Concat(log.segs[k..]) == log.segs[k] + Concat(log.segs[k..][1..]);
  }

  lemma DropNone(log: Log)
    ensures Drop(log, 0) == log
  {
    assert log.segs[..0] == [] && log.segs[0..] == log.segs;
  }

  /** A truncation removes whole segments from the front, none above the one
      holding the id, and never the newest record; the newest id stays known.  It
      fails exactly if the log does not hold the id, or there is nothing to remove
      and the lowest segment number is that of a segment long gone. */
  lemma {:induction false} TruncateKeeps(s: State, id: nat)
    requires s.Valid()
    ensures var (s', code) := Truncate(s, id);
            && s'.Valid() && s'.log.LastId() == s.log.LastId()
            && (code == InvalidEntryId <==> !Has(s.log, id))
            && (code == FileSystemError <==> Has(s.log, id) && Removable(s.log, id) == 0 && s.minSeg < s.log.lo)
            && (code != InvalidEntryId && code != FileSystemError ==> code == OK)
            && (!Has(s.log, id) ==> s' == s)
    ensures Has(s.log, id) ==>
              var s', k := Truncate(s, id).0, Removable(s.log, id);
              && s'.log == Drop(s.log, k) && s'.log.Records() != []
              && k <= SegOf(s.log.segs, id - s.log.first) + 1
  {
    if Has(s.log, id) {
      var k := Removable(s.log, id);
      DropRecords(s.log, k);
      NewestSurvives(s.log, id);
      DropKeepsValid(s.log, k);
      DropNone(s.log);
    }
  }

  /** The interface promises to remove the ids up to `id`.  That is what happens
      exactly if `id` closes its segment and a record follows it. */
  lemma {:induction false} TruncateExact(log: Log, id: nat)
    requires log.Valid() && Has(log, id)
    ensures Drop(log, Removable(log, id)).first == id + 1 <==>
            var i := SegOf(log.segs, id - log.first);
            id < log.LastId() && |Concat(log.segs[..i + 1])| == id + 1 - log.first
  {
    var segs, i := log.segs, SegOf(log.segs, id - log.first);
    hide SegOf, Concat;
    ConcatSplit(segs, i + 1);
    if i + 1 == |segs| {
      assert segs[..i + 1] == segs;
    } else if segs[i + 1] == [] {
      assert segs[i + 1..] == [[]];
      ConcatOne([]);
    }
  }

  lemma ConcatOne(seg: seq<Record>)
    ensures Concat([seg]) == seg
  {
    assert [seg][1..] == [];
  }

  /** How many segments opening the directory again removes. */
  function SweptNow(s: State): nat { Swept(s.log.lo, |s.log.segs|, s.marker) }

  /** Reopening gives back the log it finds, unless a marker makes it remove a
      segment: then at least the oldest record is gone. */
  lemma {:induction false} ReopenExact(s: State)
    requires s.Valid()
    ensures Reopen(s).log.Records() == s.log.Records() <==> SweptNow(s) == 0
    ensures SweptNow(s) == 0 ==> Reopen(s).log == s.log && Reopen(s).Valid()
  {
    var log, k := s.log, SweptNow(s);
    assert log.segs[0..] == log.segs;
    if k > 0 {
      ConcatSplit(log.segs, k);
      assert Concat(log.segs[..k]) == log.segs[0] + Concat(log.segs[..k][1..]);
      assert log.segs[0] != [] by {
        assert |log.segs| == 1 ==> log.segs[1..] == [];
      }
    }
  }

  /** The marker of a truncation always does: it holds an entry id, and is taken for
      a segment number. */
  lemma {:induction false} MarkerSweeps(s: State)
    requires s.Valid() && s.marker.Some? && Has(s.log, s.marker.value)
    ensures SweptNow(s) > 0
  {}

  /** A record is left to number the next one by. */
  predicate Restartable(s: State) { SweptNow(s) == 0 || Drop(s.log, SweptNow(s)).Records() != [] }

  /** Reopening drops the swept segments and nothing else.  The next id is the one
      that was due exactly if a record is left, or nothing was swept. */
  lemma {:induction false} ReopenKeeps(s: State)
    requires s.Valid()
    ensures var log, kept := Reopen(s).log, Drop(s.log, SweptNow(s));
            && log.Records() == kept.Records()
            && (log.NextId() == s.log.NextId() <==> Restartable(s))
            && (Restartable(s) ==> Reopen(s) == State(kept, kept.lo, None) && Reopen(s).Valid())
  {
    hide Concat;
    var k := SweptNow(s);
    DropRecords(s.log, k);
    ConcatNothing<Record>();
    ConcatOne([]);
    if k == 0 {
      DropNone(s.log);
      ReopenExact(s);
    } else if Restartable(s) {
      assert k < |s.log.segs| by {
        assert s.log.segs[|s.log.segs|..] == [];
      }
      DropKeepsValid(s.log, k);
    }
  }

  // -------------------------------------------------------------------- runs

  datatype Event = Appended(version: byte, content: seq<byte>) | TruncatedAt(id: nat) | Reopened

  /** `hist` remembers every record ever appended. */
  datatype Run = Run(state: State, hist: seq<Record>) {
    ghost predicate Valid() {
      && state.Valid()
      && |hist| == state.log.LastId() - 1
      && (forall i | 0 <= i < |hist| :: hist[i].id == i + 2)
      && state.log.Records() == hist[state.log.first - 2..]
    }
  }

  const START := Run(State(FRESH, 1, None), [])

  function Next(run: Run, e: Event, segMax: nat): (next: Run)
    requires run.state.log.segs != []
    ensures next.state.log.segs != [] && run.hist <= next.hist
  {
    match e
    case Appended(version, content) =>
      var r := Record(version, run.state.log.NextId(), content);
      Run(run.state.(log := Append(run.state.log, r, segMax)), run.hist + [r])
    case TruncatedAt(id) => run.(state := Truncate(run.state, id).0)
    case Reopened => run.(state := Reopen(run.state))
  }

  function After(run: Run, events: seq<Event>, segMax: nat): (end: Run)
    requires run.state.log.segs != []
    ensures end.state.log.segs != [] && run.hist <= end.hist
    decreases |events|
  {
    if events == [] then run else After(Next(run, events[0], segMax), events[1..], segMax)
  }

  /** Every restart finds a record, or sweeps nothing away. */
  predicate CleanRestarts(run: Run, events: seq<Event>, segMax: nat)
    requires run.state.log.segs != []
    decreases |events|
  {
    events == [] || ((events[0].Reopened? ==> Restartable(run.state)) &&
                     CleanRestarts(Next(run, events[0], segMax), events[1..], segMax))
  }

  lemma {:induction false} NextAppendKeeps(run: Run, version: byte, content: seq<byte>, segMax: nat)
    requires run.Valid()
    ensures Next(run, Appended(version, content), segMax).Valid()
  {
    hide Append, Concat;
    var log, hist := run.state.log, run.hist;
    var r := Record(version, log.NextId(), content);
    AppendRecords(log, r, segMax);
    AppendKeepsValid(log, r, segMax);
    assert (hist + [r])[log.first - 2..] == hist[log.first - 2..] + [r];
    assert Append(log, r, segMax).lo == log.lo && Append(log, r, segMax).first == log.first by {
      AppendKeepsNumbers(log, r, segMax);
    }
  }

  lemma AppendKeepsNumbers(log: Log, r: Record, segMax: nat)
    requires log.segs != []
    ensures Append(log, r, segMax).lo == log.lo && Append(log, r, segMax).first == log.first
  {}

  lemma {:induction false} NextTruncateKeeps(run: Run, id: nat, segMax: nat)
    requires run.Valid()
    ensures Next(run, TruncatedAt(id), segMax).Valid()
  {
    if Has(run.state.log, id) {
      hide Truncate, Removable, Concat, SegOf, State.Valid, Log.Valid, Drop;
      FirstIsTwo(run.state);
      TruncateKeeps(run.state, id);
      DropHist(run.state.log, Removable(run.state.log, id), run.hist);
    }
  }

  lemma FirstIsTwo(s: State)
    requires s.Valid()
    ensures s.log.first >= 2 && s.log.segs != []
  {}

  lemma {:induction false} DropHist(log: Log, k: nat, hist: seq<Record>)
    requires k <= |log.segs| && log.first >= 2 && log.first - 2 <= |hist| && log.Records() == hist[log.first - 2..]
    ensures var log' := Drop(log, k); log'.first - 2 <= |hist| && log'.Records() == hist[log'.first - 2..]
  {
    hide Concat;
    DropRecords(log, k);
    var n := |Concat(log.segs[..k])|;
    assert log.Records()[n..] == hist[log.first - 2 + n..];
  }

  lemma {:induction false} NextReopenKeeps(run: Run, segMax: nat)
    requires run.Valid() && Restartable(run.state)
    ensures Next(run, Reopened, segMax).Valid()
  {
    hide Reopen, Concat, SegOf;
    var k := SweptNow(run.state);
    ReopenKeeps(run.state);
    DropRecords(run.state.log, k);
    DropHist(run.state.log, k, run.hist);
  }

  lemma {:induction false} NextKeeps(run: Run, e: Event, segMax: nat)
    requires run.Valid() && (e.Reopened? ==> Restartable(run.state))
    ensures Next(run, e, segMax).Valid()
  {
    match e
    case Appended(version, content) => NextAppendKeeps(run, version, content, segMax);
    case TruncatedAt(id) => NextTruncateKeeps(run, id, segMax);
    case Reopened => NextReopenKeeps(run, segMax);
  }

  /** Over every run of appends, truncations and clean restarts, under any
      segment limit, the log holds exactly the newest part of what was ever
      appended, in order, and the i-th append got id i + 2: no id comes twice. */
  lemma {:induction false} RunKeeps(run: Run, events: seq<Event>, segMax: nat)
    requires run.Valid() && CleanRestarts(run, events, segMax)
    ensures After(run, events, segMax).Valid()
    decreases |events|
  {
    if events != [] {
      NextKeeps(run, events[0], segMax);
      RunKeeps(Next(run, events[0], segMax), events[1..], segMax);
    }
  }

  // ---------------------------------------------------------------- rotation

  /** The file of a closed segment reached the limit with its last record and not
      before; that of the open one has not reached it. */
  ghost predicate Rotated(log: Log, segMax: nat) {
    forall i | 0 <= i < |log.segs| ::
      if i == |log.segs| - 1 then |FileBytes(WAL_FORMAT, log.segs[i])| < segMax else Full(log.segs[i], segMax)
  }

  ghost predicate Full(seg: seq<Record>, segMax: nat) {
    seg != [] && |FileBytes(WAL_FORMAT, seg[..|seg| - 1])| < segMax <= |FileBytes(WAL_FORMAT, seg)|
  }

  lemma {:induction false} AppendRotates(log: Log, r: Record, segMax: nat)
    requires Rotated(log, segMax) && log.segs != [] && segMax > 4
    ensures Rotated(Append(log, r, segMax), segMax)
  {
    hide FileBytes;
    var n := |log.segs| - 1;
    var last := log.segs[n];
    EmptyFile();
    assert (last + [r])[..|last|] == last;
  }

  lemma EmptyFile()
    ensures |FileBytes(WAL_FORMAT, [])| == 4
  {}

  lemma {:induction false} NextRotates(run: Run, e: Event, segMax: nat)
    requires Rotated(run.state.log, segMax) && run.state.log.segs != [] && segMax > 4
    ensures Rotated(Next(run, e, segMax).state.log, segMax)
  {
    hide FileBytes, Concat, Removable;
    match e
    case Appended(version, content) =>
      AppendRotates(run.state.log, Record(version, run.state.log.NextId(), content), segMax);
    case TruncatedAt(_) =>
    case Reopened => EmptyFile();
  }

  /** Over every run under one limit, whatever restarts find: segments are closed exactly
      when they are full. */
  lemma {:induction false} RunRotates(run: Run, events: seq<Event>, segMax: nat)
    requires Rotated(run.state.log, segMax) && run.state.log.segs != [] && segMax > 4
    ensures Rotated(After(run, events, segMax).state.log, segMax)
    decreases |events|
  {
    hide Rotated, Next;
    if events != [] {
      NextRotates(run, events[0], segMax);
      RunRotates(Next(run, events[0], segMax), events[1..], segMax);
    }
  }

  lemma {:induction false} StartIsValid()
    ensures START.Valid()
  {
    assert Concat(START.state.log.segs) == [];
  }

  /** With an unclean restart ids do come twice: one append, a truncation that
      has nothing to remove, a restart, another append. */
  lemma {:induction false} StaleMarkerRepeatsIds(version: byte, a: seq<byte>, b: seq<byte>, segMax: nat)
    requires segMax > |FileBytes(WAL_FORMAT, [Record(version, 2, a)])|
    ensures After(START, [Appended(version, a), TruncatedAt(2), Reopened, Appended(version, b)], segMax).hist ==
            [Record(version, 2, a), Record(version, 2, b)]
  {
    var r := Record(version, 2, a);
    var none: seq<Record> := [];
    assert Concat([none]) == none && Concat([[r]]) == [r];
    assert none + [r] == [r] && FRESH.segs[..0] + [none + [r]] == [[r]];
    var one := Run(State(Log(1, 2, [[r]]), 1, None), [r]);
    assert Next(START, Appended(version, a), segMax) == one;
    assert Next(one, TruncatedAt(2), segMax) == one.(state := one.state.(marker := Some(2)));
    var again := Run(State(FRESH, 1, None), [r]);
    assert Next(one.(state := one.state.(marker := Some(2))), Reopened, segMax) == again;
    assert Next(again, Appended(version, b), segMax).hist == [r] + [Record(version, 2, b)];
    hide Next;
    AfterOne(START, Appended(version, a), [TruncatedAt(2), Reopened, Appended(version, b)], segMax);
    AfterOne(one, TruncatedAt(2), [Reopened, Appended(version, b)], segMax);
    AfterOne(one.(state := one.state.(marker := Some(2))), Reopened, [Appended(version, b)], segMax);
    AfterOne(again, Appended(version, b), [], segMax);
  }

  lemma AfterOne(run: Run, e: Event, rest: seq<Event>, segMax: nat)
    requires run.state.log.segs != []
    ensures After(run, [e] + rest, segMax) == After(Next(run, e, segMax), rest, segMax)
  {
    assert ([e] + rest)[1..] == rest;
  }
}
