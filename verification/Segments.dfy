/** The log on disk: which files a log value is stored in, and what its
    id-to-segment index is. */
module Segments {
  import opened Codec
  import opened Common
  import opened Records
  import L = Log

  // ------------------------------------------------- what the disk looks like

  /** The `count` numbers from `lo` on. */
  function Range(lo: nat, count: nat): (s: set<nat>)
    ensures forall n: nat :: n in s <==> lo <= n < lo + count
  {
    if count == 0 then {} else Range(lo, count - 1) + {lo + count - 1}
  }

  function Files(lo: nat, segs: seq<seq<Record>>): (files: map<nat, seq<byte>>)
    ensures files.Keys == Range(lo, |segs|)
  {
    map n: nat | n in Range(lo, |segs|) :: FileBytes(WAL_FORMAT, segs[n - lo])
  }

  /** The segment of every id in the first `k` segments. */
  function IndexUpTo(log: L.Log, k: nat): (index: map<nat, nat>)
    requires k <= |log.segs|
    ensures index.Keys == Range(log.first, |L.Concat(log.segs[..k])|)
  {
    L.PrefixGrows(log.segs, k, |log.segs|);
    assert log.segs[..|log.segs|] == log.segs;
    map id: nat | id in Range(log.first, |L.Concat(log.segs[..k])|) :: log.lo + L.SegOf(log.segs, id - log.first)
  }

  function IndexOf(log: L.Log): map<nat, nat> { IndexUpTo(log, |log.segs|) }

  /** Every segment file can be loaded: its size and a batch fit 32 bits. */
  ghost predicate Storable(log: L.Log, isEntry: seq<byte> -> bool, batch: nat) {
    forall i | 0 <= i < |log.segs| ::
      Loadable(WAL_FORMAT, isEntry, log.segs[i]) && |FileBytes(WAL_FORMAT, log.segs[i])| + batch < U32
  }

  /** So can the last one after another record. */
  ghost predicate HasRoom(log: L.Log, batch: nat) {
    log.segs != [] && |FileBytes(WAL_FORMAT, log.segs[|log.segs| - 1])| + 2 * batch <= U32
  }

  /** No file is damaged. */
  ghost predicate Intact(isEntry: seq<byte> -> bool, files: map<nat, seq<byte>>) {
    forall n | n in files :: FileVerdict(WAL_FORMAT, isEntry, files[n]) == OK
  }

  // ---------------------------------------------------------- index and disk

  lemma {:induction false} SegmentIds(log: L.Log, i: nat, j: nat)
    requires log.Valid() && i < |log.segs| && j < |log.segs[i]|
    ensures var k := |L.Concat(log.segs[..i])| + j;
            && k < |L.Concat(log.segs[..i + 1])| && k < |log.Records()|
            && log.Records()[k] == log.segs[i][j] && log.segs[i][j].id == log.first + k
            && L.SegOf(log.segs, k) == i
  {
    hide L.SegOf;
    var segs := log.segs;
    L.ConcatSplit(segs, i);
    assert segs[i..][0] == segs[i] && L.Concat(segs[i..]) == segs[i] + L.Concat(segs[i..][1..]);
    L.ConcatSplit(segs[..i + 1], i);
    assert segs[..i + 1][..i] == segs[..i] && segs[..i + 1][i..] == [segs[i]];
    assert L.Concat([segs[i]]) == segs[i] + L.Concat([segs[i]][1..]);
    L.SegOfUnique(segs, |L.Concat(segs[..i])| + j, i);
  }

  lemma {:induction false} SegmentOfId(log: L.Log, id: nat) returns (i: nat, j: nat)
    requires log.Valid() && L.Has(log, id)
    ensures i == L.SegOf(log.segs, id - log.first) && j < |log.segs[i]| && log.segs[i][j].id == id
  {
    i := L.SegOf(log.segs, id - log.first);
    j := id - log.first - |L.Concat(log.segs[..i])|;
    var segs := log.segs;
    L.ConcatSplit(segs[..i + 1], i);
    assert segs[..i + 1][..i] == segs[..i] && segs[..i + 1][i..] == [segs[i]];
    assert L.Concat([segs[i]]) == segs[i] + L.Concat([segs[i]][1..]);
    SegmentIds(log, i, j);
  }

  ghost predicate InFile(isEntry: seq<byte> -> bool, file: seq<byte>, id: nat) {
    exists r <- ParseFile(WAL_FORMAT, isEntry, file).recs :: r.id == id
  }

  lemma {:induction false} ParsesBack(log: L.Log, isEntry: seq<byte> -> bool, batch: nat, n: nat)
    requires Storable(log, isEntry, batch) && n in Range(log.lo, |log.segs|)
    ensures ParseFile(WAL_FORMAT, isEntry, Files(log.lo, log.segs)[n]) ==
            Parsed(log.segs[n - log.lo], OK, |FileBytes(WAL_FORMAT, log.segs[n - log.lo])|)
    ensures |Files(log.lo, log.segs)[n]| + batch < U32
  {
    hide FileBytes, ParseFile, Range;
    WriteThenParse(WAL_FORMAT, isEntry, log.segs[n - log.lo]);
  }

  /** The index names segment `n` for an id exactly if parsing file `n` yields a
      record with that id. */
  lemma {:induction false} IndexIsDisk(log: L.Log, isEntry: seq<byte> -> bool, batch: nat, id: nat, n: nat)
    requires log.Valid() && Storable(log, isEntry, batch)
    ensures id in IndexOf(log) && IndexOf(log)[id] == n <==>
            n in Files(log.lo, log.segs) && InFile(isEntry, Files(log.lo, log.segs)[n], id)
  {
    hide FileBytes, ParseFile, L.SegOf, L.Concat, Range, Storable;
    assert log.segs[..|log.segs|] == log.segs;
    if n in Range(log.lo, |log.segs|) {
      ParsesBack(log, isEntry, batch, n);
      InSegment(log, n - log.lo, id);
    } else if L.Has(log, id) {
      var i, j := SegmentOfId(log, id);
    }
  }

  lemma {:induction false} InSegment(log: L.Log, i: nat, id: nat)
    requires log.Valid() && i < |log.segs|
    ensures (exists r <- log.segs[i] :: r.id == id) <==> L.Has(log, id) && L.SegOf(log.segs, id - log.first) == i
  {
    hide L.SegOf, L.Concat;
    if r: Record :| r in log.segs[i] && r.id == id {
      var j :| 0 <= j < |log.segs[i]| && log.segs[i][j] == r;
      SegmentIds(log, i, j);
    }
    if L.Has(log, id) {
      var i', j := SegmentOfId(log, id);
      assert log.segs[i'][j] in log.segs[i'];
    }
  }

  // ------------------------------------------------------------ index updates

  function Indexed(index: map<nat, nat>, n: nat, recs: seq<Record>): map<nat, nat> {
    if recs == [] then index else Indexed(index, n, recs[..|recs| - 1])[recs[|recs| - 1].id := n]
  }

  lemma {:induction false} IndexedAt(index: map<nat, nat>, n: nat, recs: seq<Record>, first: nat)
    requires forall j | 0 <= j < |recs| :: recs[j].id == first + j
    ensures Indexed(index, n, recs).Keys == index.Keys + Range(first, |recs|)
    ensures forall id | id in Indexed(index, n, recs) ::
              Indexed(index, n, recs)[id] == if id in Range(first, |recs|) then n else index[id]
  {
    if recs != [] {
      IndexedAt(index, n, recs[..|recs| - 1], first);
    }
  }

  lemma {:induction false} ConcatNext(segs: seq<seq<Record>>, k: nat)
    requires k < |segs|
    ensures L.Concat(segs[..k + 1]) == L.Concat(segs[..k]) + segs[k]
  {
    L.ConcatSplit(segs[..k + 1], k);
    assert segs[..k + 1][..k] == segs[..k] && segs[..k + 1][k..] == [segs[k]];
    assert L.Concat([segs[k]]) == segs[k] + L.Concat([segs[k]][1..]);
  }

  /** Loading the next segment extends the index by that segment. */
  lemma {:induction false} IndexGrows(log: L.Log, k: nat)
    requires log.Valid() && k < |log.segs|
    ensures Indexed(IndexUpTo(log, k), log.lo + k, log.segs[k]) == IndexUpTo(log, k + 1)
  {
    hide L.SegOf, L.Concat, Indexed, Range;
    var start := log.first + |L.Concat(log.segs[..k])|;
    ConcatNext(log.segs, k);
    forall j | 0 <= j < |log.segs[k]| ensures log.segs[k][j].id == start + j {
      SegmentIds(log, k, j);
    }
    IndexedAt(IndexUpTo(log, k), log.lo + k, log.segs[k], start);
    var a, b := Indexed(IndexUpTo(log, k), log.lo + k, log.segs[k]), IndexUpTo(log, k + 1);
    assert a.Keys == b.Keys;
    forall id | id in b ensures a[id] == b[id] {
      if start <= id {
        SegmentIds(log, k, id - start);
      }
    }
  }

  /** An append adds one pair, for the segment written to. */
  lemma {:induction false} IndexAppend(log: L.Log, r: Record, segMax: nat)
    requires log.Valid() && r.id == log.NextId()
    ensures IndexOf(L.Append(log, r, segMax)) == IndexOf(log)[r.id := log.Hi()]
  {
    hide L.SegOf, L.Append, L.Concat, Range;
    var log' := L.Append(log, r, segMax);
    var a, b := IndexOf(log'), IndexOf(log)[r.id := log.Hi()];
    L.AppendRecords(log, r, segMax);
    L.AppendKeepsNumbers(log, r, segMax);
    assert log.segs[..|log.segs|] == log.segs && log'.segs[..|log'.segs|] == log'.segs;
    assert a.Keys == b.Keys;
    forall id | id in b ensures a[id] == b[id] {
      SegOfAfterAppend(log, r, segMax, id - log.first);
    }
  }

  lemma {:induction false} SegOfAfterAppend(log: L.Log, r: Record, segMax: nat, k: nat)
    requires log.Valid() && k <= |log.Records()|
    ensures k < |L.Append(log, r, segMax).Records()|
    ensures L.SegOf(L.Append(log, r, segMax).segs, k) ==
            if k == |log.Records()| then |log.segs| - 1 else L.SegOf(log.segs, k)
  {
    hide L.SegOf;
    var n, segs, segs' := |log.segs| - 1, log.segs, L.Append(log, r, segMax).segs;
    L.AppendRecords(log, r, segMax);
    assert segs'[..n] == segs[..n] && segs'[n] == segs[n] + [r];
    L.ConcatSplit(segs, n);
    assert segs[n..] == [segs[n]];
    L.ConcatSplit(segs'[..n + 1], n);
    assert segs'[..n + 1][..n] == segs[..n] && segs'[..n + 1][n..] == [segs'[n]];
    assert L.Concat([segs[n]]) == segs[n] + L.Concat([segs[n]][1..]);
    assert L.Concat([segs'[n]]) == segs'[n] + L.Concat([segs'[n]][1..]);
    if k >= |L.Concat(segs[..n])| {
      L.SegOfUnique(segs', k, n);
      if k < |log.Records()| {
        assert segs[..n + 1] == segs;
        L.SegOfUnique(segs, k, n);
      }
    } else {
      var i := L.SegOf(segs, k);
      if i >= n {
        L.PrefixGrows(segs, n, i);
      }
      assert segs'[..i] == segs[..i] && segs'[..i + 1] == segs[..i + 1];
      L.SegOfUnique(segs', k, i);
    }
  }

  /** Removing segments removes their ids and no others. */
  lemma {:induction false} IndexDrop(log: L.Log, k: nat)
    requires log.Valid() && k <= |log.segs|
    ensures IndexOf(L.Drop(log, k)) == IndexOf(log) - Range(log.first, |L.Concat(log.segs[..k])|)
  {
    hide L.SegOf, L.Concat, Range;
    var log' := L.Drop(log, k);
    var a, b := IndexOf(log'), IndexOf(log) - Range(log.first, |L.Concat(log.segs[..k])|);
    L.DropRecords(log, k);
    assert log.segs[..|log.segs|] == log.segs && log'.segs[..|log'.segs|] == log'.segs;
    assert a.Keys == b.Keys;
    forall id | id in b ensures a[id] == b[id] {
      SegOfAfterDrop(log.segs, k, id - log.first);
    }
  }

  lemma {:induction false} SegOfAfterDrop(segs: seq<seq<Record>>, k: nat, p: nat)
    requires k <= |segs| && |L.Concat(segs[..k])| <= p < |L.Concat(segs)|
    ensures p - |L.Concat(segs[..k])| < |L.Concat(segs[k..])|
    ensures L.SegOf(segs, p) == k + L.SegOf(segs[k..], p - |L.Concat(segs[..k])|)
  {
    hide L.SegOf;
    L.ConcatSplit(segs, k);
    var i := L.SegOf(segs[k..], p - |L.Concat(segs[..k])|);
    L.ConcatSplit(segs[..k + i], k);
    L.ConcatSplit(segs[..k + i + 1], k);
    assert segs[..k + i][..k] == segs[..k] == segs[..k + i + 1][..k];
    assert segs[..k + i][k..] == segs[k..][..i] && segs[..k + i + 1][k..] == segs[k..][..i + 1];
    L.SegOfUnique(segs, p, k + i);
  }

  // ------------------------------------------------------------- segment lists

  function Ids(lo: nat, count: nat): (ids: seq<nat>)
    ensures |ids| == count && forall i | 0 <= i < count :: ids[i] == lo + i
  {
    seq(count, i requires 0 <= i => lo + i)
  }

  ghost predicate Ascending(ids: seq<nat>) {
    forall i, j | 0 <= i < j < |ids| :: ids[i] < ids[j]
  }

  predicate IsLeast(m: nat, s: set<nat>) {
    m in s && forall x | x in s :: m <= x
  }

  lemma {:induction false} LeastExists(s: set<nat>)
    requires s != {}
    ensures exists m :: IsLeast(m, s)
  {
    var y :| y in s;
    if s == {y} {
      assert IsLeast(y, s);
    } else {
      LeastExists(s - {y});
      var m :| IsLeast(m, s - {y});
      var least := if m < y then m else y;
      forall x | x in s ensures least <= x {
        assert x == y || x in s - {y};
      }
      assert IsLeast(least, s);
    }
  }

  function Elements(ids: seq<nat>): set<nat> { set x | x in ids }

  /** The numbers of the segment files found in the directory, in order. */
  method SortedKeys(s: set<nat>) returns (ids: seq<nat>)
    ensures Ascending(ids) && Elements(ids) == s
  {
    var rest := s;
    ids := [];
    while rest != {}
      invariant Ascending(ids) && Elements(ids) + rest == s
      invariant forall i, y | 0 <= i < |ids| && y in rest :: ids[i] < y
    {
      LeastExists(rest);
      var m :| m in rest && IsLeast(m, rest);
      ids, rest := ids + [m], rest - {m};
    }
  }

  lemma NoElements(ids: seq<nat>)
    ensures Elements(ids) == {} <==> ids == []
  {
    if ids != [] {
      assert ids[0] in Elements(ids);
    }
  }

  lemma {:induction false} SortedRange(ids: seq<nat>, lo: nat, count: nat)
    requires Ascending(ids) && Elements(ids) == Range(lo, count)
    ensures ids == Ids(lo, count)
  {
    if count == 0 {
      NoElements(ids);
    } else {
      var n, top := |ids| - 1, lo + count - 1;
      assert top in Elements(ids);
      assert ids[n] in Elements(ids) && ids[n] == top;
      var init := ids[..n];
      forall x ensures x in Elements(init) <==> x in Range(lo, count - 1) {
        assert x in Elements(ids) <==> x in init || x == top;
      }
      assert Elements(init) == Range(lo, count - 1);
      SortedRange(init, lo, count - 1);
    }
  }

  lemma FilesDrop(lo: nat, segs: seq<seq<Record>>, k: nat)
    requires k <= |segs|
    ensures Files(lo, segs) - Range(lo, k) == Files(lo + k, segs[k..])
  {
    hide FileBytes;
  }

  lemma FreshStored(isEntry: seq<byte> -> bool, batch: nat)
    requires 4 + batch < U32
    ensures Files(1, L.FRESH.segs) == map[1 := FileBytes(WAL_FORMAT, [])]
    ensures Storable(L.FRESH, isEntry, batch) && |FileBytes(WAL_FORMAT, [])| == 4
  {
    assert 1 in Range(1, 1);
    assert Files(1, L.FRESH.segs).Keys == {1};
  }

  lemma StorableDrop(lo: nat, segs: seq<seq<Record>>, k: nat, isEntry: seq<byte> -> bool, batch: nat)
    requires k <= |segs| && Storable(L.Log(lo, 2, segs), isEntry, batch)
    ensures Storable(L.Log(lo + k, 2, segs[k..]), isEntry, batch)
  {
    hide FileBytes, Loadable;
  }

  // ------------------------------------------------------------ loading it all

  function ParseAll(isEntry: seq<byte> -> bool, files: map<nat, seq<byte>>, ids: seq<nat>): (segs: seq<seq<Record>>)
    requires forall n | n in ids :: n in files
    ensures |segs| == |ids|
  {
    seq(|ids|, i requires 0 <= i < |ids| => ParseFile(WAL_FORMAT, isEntry, files[ids[i]]).recs)
  }

  function IndexAll(ids: seq<nat>, segs: seq<seq<Record>>): map<nat, nat>
    requires |ids| == |segs|
  {
    if segs == [] then map[]
    else var n := |segs| - 1; Indexed(IndexAll(ids[..n], segs[..n]), ids[n], segs[n])
  }

  lemma {:induction false} IndexAllNext(ids: seq<nat>, segs: seq<seq<Record>>, i: nat)
    requires |ids| == |segs| && i < |ids|
    ensures IndexAll(ids[..0], segs[..0]) == map[]
    ensures IndexAll(ids[..i + 1], segs[..i + 1]) == Indexed(IndexAll(ids[..i], segs[..i]), ids[i], segs[i])
  {
    hide Indexed;
    assert ids[..i + 1][..i] == ids[..i] && segs[..i + 1][..i] == segs[..i];
  }

  function LastIdOr(recs: seq<Record>, default: nat): nat {
    if recs == [] then default else recs[|recs| - 1].id
  }

  /** The bound from which the index is cleared, lowered below every id seen; an
      id of zero wraps around and lowers nothing. */
  function Lowered(recs: seq<Record>, bound: nat): (b: nat)
    ensures b <= bound
  {
    if recs == [] then bound
    else
      var b, id := Lowered(recs[..|recs| - 1], bound), recs[|recs| - 1].id;
      if id > 0 && b > id - 1 then id - 1 else b
  }

  /** It is the bound given, or one below an id seen; and no higher than either. */
  lemma {:induction false} LoweredExact(recs: seq<Record>, bound: nat)
    ensures var b := Lowered(recs, bound);
            && (b == bound || exists r | r in recs :: r.id > 0 && b == r.id - 1)
            && forall r | r in recs && r.id > 0 :: b <= r.id - 1
  {
    if recs != [] {
      var n := |recs| - 1;
      LoweredExact(recs[..n], bound);
      assert recs == recs[..n] + [recs[n]];
      assert recs[n] in recs && forall r | r in recs[..n] :: r in recs;
    }
  }

  /** The first segment to fail decides, and nothing after it is delivered. */
  ghost predicate FailsAt(k: nat, isEntry: seq<byte> -> bool, files: map<nat, seq<byte>>, ids: seq<nat>,
                          code: Code, delivered: seq<Record>)
    requires k < |ids| && forall n | n in ids :: n in files
  {
    && (forall j | 0 <= j < k :: FileVerdict(WAL_FORMAT, isEntry, files[ids[j]]) == OK)
    && code == FileVerdict(WAL_FORMAT, isEntry, files[ids[k]]) != OK
    && var segs := ParseAll(isEntry, files, ids);
       L.Concat(segs[..k]) <= delivered <= L.Concat(segs[..k + 1])
  }

  lemma {:induction false} IndexAllIsIndex(log: L.Log, k: nat)
    requires log.Valid() && k <= |log.segs|
    ensures IndexAll(Ids(log.lo, k), log.segs[..k]) == IndexUpTo(log, k)
  {
    hide L.SegOf, Indexed, IndexUpTo, L.Concat, Range, L.Log.Valid;
    if k == 0 {
      assert log.segs[..0] == [];
      L.ConcatNothing<Record>();
      assert IndexUpTo(log, 0).Keys == {};
    } else {
      assert Ids(log.lo, k)[..k - 1] == Ids(log.lo, k - 1) && log.segs[..k][..k - 1] == log.segs[..k - 1];
      IndexAllIsIndex(log, k - 1);
      IndexGrows(log, k - 1);
    }
  }

  /** A stored log parses back to itself. */
  lemma {:induction false} ParseAllStored(log: L.Log, isEntry: seq<byte> -> bool, batch: nat)
    requires Storable(log, isEntry, batch)
    ensures var ids, files := Ids(log.lo, |log.segs|), Files(log.lo, log.segs);
            && (forall n | n in ids ::
                  n in files && |files[n]| + batch < U32 && FileVerdict(WAL_FORMAT, isEntry, files[n]) == OK)
            && ParseAll(isEntry, files, ids) == log.segs
  {
    hide ParseFile, Range, FileVerdict, FileBytes, Files, Storable;
    var ids, files := Ids(log.lo, |log.segs|), Files(log.lo, log.segs);
    forall n | n in ids
      ensures n in files && |files[n]| + batch < U32 && FileVerdict(WAL_FORMAT, isEntry, files[n]) == OK
    {
      ParsesBack(log, isEntry, batch, n);
    }
    forall i | 0 <= i < |ids| ensures ParseAll(isEntry, files, ids)[i] == log.segs[i] {
      ParsesBack(log, isEntry, batch, ids[i]);
    }
  }

  // ------------------------------------------------------------------ appending

  lemma FilesPush(lo: nat, segs: seq<seq<Record>>, last: seq<Record>)
    ensures Files(lo, segs + [last]) == Files(lo, segs)[lo + |segs| := FileBytes(WAL_FORMAT, last)]
  {
    hide FileBytes, Range;
    var a, b := Files(lo, segs + [last]), Files(lo, segs)[lo + |segs| := FileBytes(WAL_FORMAT, last)];
    assert a.Keys == b.Keys;
  }

  lemma FilesReplace(lo: nat, segs: seq<seq<Record>>, last: seq<Record>)
    requires segs != []
    ensures var n := |segs| - 1;
            Files(lo, segs[..n] + [last]) == Files(lo, segs)[lo + n := FileBytes(WAL_FORMAT, last)]
  {
    hide FileBytes, Range;
    var n := |segs| - 1;
    FilesPush(lo, segs[..n], last);
    FilesPush(lo, segs[..n], segs[n]);
    assert segs[..n] + [segs[n]] == segs;
  }

  /** What writing a record does to the files, the current segment number and
      the size kept of it: the bytes go to the current file, and once that is
      full a header alone goes to the next. */
  ghost predicate Wrote(files: map<nat, seq<byte>>, cur: nat, r: Record, segMax: nat,
                        files': map<nat, seq<byte>>, cur': nat, size': nat)
    requires cur in files
  {
    var file := files[cur] + RecordBytes(WAL_FORMAT, r, |files[cur]|);
    if |file| < segMax then files' == files[cur := file] && cur' == cur && size' == |file|
    else files' == files[cur := file][cur + 1 := FileBytes(WAL_FORMAT, [])] && cur' == cur + 1 && size' == 4
  }

  lemma {:induction false} AppendStored(log: L.Log, r: Record, isEntry: seq<byte> -> bool, segMax: nat, batch: nat,
                                        files': map<nat, seq<byte>>, cur': nat, size': nat)
    requires HasRoom(log, batch) && Storable(log, isEntry, batch)
    requires Writable(WAL_FORMAT, r) && isEntry(r.content) && RecordSize(WAL_FORMAT, r) < batch
    requires log.Hi() in Files(log.lo, log.segs)
    requires Wrote(Files(log.lo, log.segs), log.Hi(), r, segMax, files', cur', size')
    ensures var log' := L.Append(log, r, segMax);
            && Storable(log', isEntry, batch) && files' == Files(log'.lo, log'.segs)
            && cur' == log'.Hi() && size' == |FileBytes(WAL_FORMAT, log'.segs[|log'.segs| - 1])|
  {
    hide FileBytes, RecordBytes, Range, Files, Storable;
    LastFile(log);
    var n := |log.segs| - 1;
    FileSnoc(WAL_FORMAT, log.segs[n], r);
    FreshStored(isEntry, batch);
    AppendStorable(log, r, isEntry, segMax, batch);
    FilesReplace(log.lo, log.segs, log.segs[n] + [r]);
    FilesPush(log.lo, log.segs[..n] + [log.segs[n] + [r]], []);
  }

  lemma {:induction false} AppendStorable(log: L.Log, r: Record, isEntry: seq<byte> -> bool, segMax: nat, batch: nat)
    requires HasRoom(log, batch) && Storable(log, isEntry, batch)
    requires Writable(WAL_FORMAT, r) && isEntry(r.content) && RecordSize(WAL_FORMAT, r) < batch
    ensures Storable(L.Append(log, r, segMax), isEntry, batch)
  {
    hide FileBytes, RecordBytes;
    var n := |log.segs| - 1;
    FileSnoc(WAL_FORMAT, log.segs[n], r);
    FreshStored(isEntry, batch);
    assert Loadable(WAL_FORMAT, isEntry, log.segs[n] + [r]);
  }

  lemma {:induction false} AppendLeavesRoom(log: L.Log, r: Record, segMax: nat, batch: nat)
    requires log.segs != [] && 4 <= segMax && segMax + 2 * batch <= U32
    ensures HasRoom(L.Append(log, r, segMax), batch)
  {
    hide BodyBytes;
    HeaderOnly([]);
  }

  lemma LastFile(log: L.Log)
    requires log.segs != []
    ensures log.Hi() in Files(log.lo, log.segs)
    ensures Files(log.lo, log.segs)[log.Hi()] == FileBytes(WAL_FORMAT, log.segs[|log.segs| - 1])
  {
    hide FileBytes;
  }

  /** Everything an append keeps in step. */
  lemma {:induction false} AppendKeepsState(s: L.State, r: Record, segMax: nat)
    requires s.Valid() && r.id == s.log.NextId()
    ensures var log' := L.Append(s.log, r, segMax);
            && s.(log := log').Valid() && log'.LastId() == r.id
            && log'.lo == s.log.lo && log'.first == s.log.first && log'.segs != []
            && IndexOf(log') == IndexOf(s.log)[r.id := s.log.Hi()]
  {
    hide L.Append, L.Concat, IndexUpTo;
    L.AppendRecords(s.log, r, segMax);
    L.AppendKeepsValid(s.log, r, segMax);
    L.AppendKeepsNumbers(s.log, r, segMax);
    IndexAppend(s.log, r, segMax);
  }

  // ------------------------------------------------------------------- removing

  lemma {:induction false} HeaderOnly(recs: seq<Record>)
    ensures |FileBytes(WAL_FORMAT, recs)| == 4 <==> recs == []
  {
    if recs != [] {
      assert |BodyBytes(WAL_FORMAT, recs, 4)| >= |RecordBytes(WAL_FORMAT, recs[0], 4)|;
    }
  }

  /** The newest id in the first `k` segments. */
  lemma {:induction false} NewestRemoved(log: L.Log, k: nat)
    requires log.Valid() && 0 < k < |log.segs|
    ensures log.segs[k - 1] != []
    ensures log.segs[k - 1][|log.segs[k - 1]| - 1].id == log.first + |L.Concat(log.segs[..k])| - 1
  {
    hide L.Concat, L.SegOf;
    var n := |log.segs[k - 1]| - 1;
    SegmentIds(log, k - 1, n);
    ConcatNext(log.segs, k - 1);
  }

  /** The segment number computed from the index, after its two possible
      decrements, is that of the last segment to remove. */
  lemma {:induction false} LastToRemove(log: L.Log, id: nat)
    requires log.Valid() && L.Has(log, id)
    ensures id in IndexOf(log)
    ensures var seg, files := IndexOf(log)[id], Files(log.lo, log.segs);
            && 1 <= seg <= log.Hi()
            && var first := if seg == log.Hi() then seg - 1 else seg;
               && first + 1 in files
               && (first != seg ==> |files[first + 1]| != 4)
               && (if |files[first + 1]| == 4 then first - 1 else first) == log.lo + L.Removable(log, id) - 1
  {
    hide L.SegOf, L.Concat, FileBytes, Range;
    assert log.segs[..|log.segs|] == log.segs;
    var i, j := SegmentOfId(log, id);
    assert IndexOf(log)[id] == log.lo + i;
    var next := if i + 1 == |log.segs| then i else i + 1;
    HeaderOnly(log.segs[next]);
  }

  lemma {:induction false} DropStored(log: L.Log, k: nat, isEntry: seq<byte> -> bool, batch: nat)
    requires k < |log.segs| && Storable(log, isEntry, batch)
    ensures Storable(L.Drop(log, k), isEntry, batch) && L.Drop(log, k).Hi() == log.Hi()
    ensures L.Drop(log, k).segs[|log.segs| - k - 1] == log.segs[|log.segs| - 1]
    ensures HasRoom(log, batch) ==> HasRoom(L.Drop(log, k), batch)
  {
    hide FileBytes, Loadable;
  }

  lemma {:induction false} ErasedIndex(log: L.Log, k: nat, lowest: nat, highest: nat)
    requires log.Valid() && k <= |log.segs|
    requires lowest <= log.first && highest == log.first + |L.Concat(log.segs[..k])| - 1
    ensures IndexOf(log) - (set id | id in IndexOf(log) && lowest <= id <= highest) == IndexOf(L.Drop(log, k))
  {
    hide L.SegOf, L.Concat, L.Drop, Range;
    IndexDrop(log, k);
    var index, gone := IndexOf(log), Range(log.first, |L.Concat(log.segs[..k])|);
    assert index - (set id | id in index && lowest <= id <= highest) == index - gone;
  }
}
