/** The checkpoint directory as a value, the file operations of saving and
    recovery in the order they are issued, and what a crash between any two of
    them leaves. */
module Protocol {
  import opened Codec
  import opened Common
  import opened Records

  /** `Cp`/`Meta` are what a restart reads; `NewCp`/`NewMeta` are being written;
      the rest are empty flag files. */
  datatype Name = Meta | Cp | NewMeta | NewCp | Start | Ok | Lock

  type Files = map<Name, seq<byte>>

  /** `Create` leaves an existing file alone, `Truncate` empties it; `Unlink` of a
      missing file is no failure, `Rename` of one is. */
  datatype Op =
    | Create(name: Name)
    | Truncate(name: Name)
    | Write(name: Name, b: byte)
    | Unlink(name: Name)
    | Rename(name: Name, to: Name)

  predicate Fails(d: Files, op: Op) {
    (op.Rename? || op.Write?) && op.name !in d
  }

  function Apply(d: Files, op: Op): Files
    requires !Fails(d, op)
  {
    match op
    case Create(n) => if n in d then d else d[n := []]
    case Truncate(n) => d[n := []]
    case Write(n, b) => d[n := d[n] + [b]]
    case Unlink(n) => d - {n}
    case Rename(n, m) => d[m := d[n]] - {n}
  }

  /** Runs operations up to the first that fails. */
  function Exec(d: Files, ops: seq<Op>): Files
    decreases |ops|
  {
    if ops == [] || Fails(d, ops[0]) then d else Exec(Apply(d, ops[0]), ops[1..])
  }

  /** No operation fails. */
  predicate Succeeds(d: Files, ops: seq<Op>)
    decreases |ops|
  {
    ops == [] || (!Fails(d, ops[0]) && Succeeds(Apply(d, ops[0]), ops[1..]))
  }

  function Writes(n: Name, bytes: seq<byte>): (ops: seq<Op>)
    ensures |ops| == |bytes|
  {
    seq(|bytes|, i requires 0 <= i < |bytes| => Write(n, bytes[i]))
  }

  // ------------------------------------------------------------ the meta file

  function Digits(n: nat): (s: seq<byte>)
    ensures s != []
  {
    if n < 10 then [48 + n] else Digits(n / 10) + [48 + n % 10]
  }

  function Undigits(s: seq<byte>): Option<nat> {
    if s == [] then Some(0)
    else
      var high, b := Undigits(s[..|s| - 1]), s[|s| - 1];
      if high.Some? && 48 <= b < 58 then Some(high.value * 10 + (b - 48)) else None
  }

  lemma {:induction false} UndigitsDigits(n: nat)
    ensures Undigits(Digits(n)) == Some(n)
  {
    var s := Digits(n);
    if n < 10 {
      assert s[..0] == [];
    } else {
      UndigitsDigits(n / 10);
      assert s[..|s| - 1] == Digits(n / 10);
    }
  }

  predicate AllDigits(s: seq<byte>) { forall b | b in s :: 48 <= b <= 57 }

  lemma DigitsSnoc(s: seq<byte>)
    requires s != []
    ensures AllDigits(s) <==> AllDigits(s[..|s| - 1]) && 48 <= s[|s| - 1] <= 57
  {
    var n := |s| - 1;
    assert s == s[..n] + [s[n]];
    if AllDigits(s) {
      assert forall b | b in s[..n] :: b in s;
      assert s[n] in s;
    }
  }

  /** Exactly the strings of decimal digits are numbers; leading zeros count for
      nothing. */
  lemma {:induction false} UndigitsExact(s: seq<byte>)
    ensures Undigits(s).Some? <==> AllDigits(s)
    ensures Undigits([48] + s) == Undigits(s)
  {
    if s == [] {
      assert [48][..0] == [];
    } else {
      var n := |s| - 1;
      UndigitsExact(s[..n]);
      DigitsSnoc(s);
      assert ([48] + s)[..|s|] == [48] + s[..n] && ([48] + s)[|s|] == s[n];
    }
  }

  /** The id in the meta file; a missing file stands for id 0. */
  function LoadMeta(d: Files): Option<nat> {
    if Meta !in d then Some(0)
    else if d[Meta] == [] then None
    else
      var id := Undigits(d[Meta]);
      if id.Some? && id.value < U64 then id else None
  }

  /** Exactly: no id can be read if the file is there and is empty, has a byte that is
      no digit, or holds a number that does not fit 64 bits; and what was written
      is read. */
  lemma {:induction false} LoadMetaExact(d: Files, id: nat)
    ensures LoadMeta(d).None? <==>
              && Meta in d
              && (d[Meta] == [] || !AllDigits(d[Meta]) || (Undigits(d[Meta]).Some? && Undigits(d[Meta]).value >= U64))
    ensures Meta !in d ==> LoadMeta(d) == Some(0)
    ensures Meta in d && d[Meta] == Digits(id) && id < U64 ==> LoadMeta(d) == Some(id)
  {
    hide Undigits, Digits;
    if Meta in d {
      UndigitsExact(d[Meta]);
      UndigitsDigits(id);
    }
  }

  // --------------------------------------------------------------- the programs

  predicate IsCompleted(d: Files) { Lock !in d && Start !in d && Ok !in d }

  const REPLACE := [Unlink(Meta), Unlink(Cp), Rename(NewMeta, Meta), Rename(NewCp, Cp)]
  const CLEAN := [Unlink(NewMeta), Unlink(NewCp), Unlink(Start), Unlink(Ok)]

  function Repair(d: Files): seq<Op> {
    if Ok in d then REPLACE + [Unlink(Ok)] else CLEAN
  }

  function RecoverOps(d: Files): seq<Op> {
    if IsCompleted(d) then [] else Repair(d)
  }

  /** What the child asks of its traveller: the id recorded, and the entries,
      `None` being one that does not encode. */
  datatype Snapshot = Snapshot(id: nat, version: byte, entries: seq<Option<seq<byte>>>) {
    /** Saving gives up, unnoticed, at the first entry that does not encode. */
    function Recs(): seq<Record> { Encoded(version, entries) }
    function MetaBytes(): seq<byte> { Digits(id) }
    function CpBytes(): seq<byte> { FileBytes(CHECKPOINT_FORMAT, Recs()) }
  }

  function Encoded(version: byte, entries: seq<Option<seq<byte>>>): seq<Record> {
    if entries == [] || entries[0].None? then []
    else [Record(version, 0, entries[0].value)] + Encoded(version, entries[1..])
  }

  function WriteNew(s: Snapshot): seq<Op> {
    [Create(Start), Truncate(NewMeta)] + Writes(NewMeta, s.MetaBytes()) +
    [Truncate(NewCp)] + Writes(NewCp, s.CpBytes()) + [Truncate(Ok)]
  }

  function Publish(): seq<Op> {
    [Unlink(Lock), Unlink(Start)] + REPLACE + [Unlink(Ok)]
  }

  function ChildOps(d: Files, s: Snapshot): seq<Op> {
    [Create(Lock)] +
    (if LoadMeta(d).None? then []
     else if s.id <= LoadMeta(d).value then [Unlink(Lock)]
     else Repair(d) + WriteNew(s) + Publish())
  }

  // ------------------------------------------------------------------ committed

  /** The pair a restart will show: once the ok flag is set, the new files. */
  datatype Pair = Pair(meta: Option<seq<byte>>, cp: Option<seq<byte>>)

  function Get(d: Files, n: Name): Option<seq<byte>> { if n in d then Some(d[n]) else None }

  function Visible(d: Files): Pair { Pair(Get(d, Meta), Get(d, Cp)) }

  /** The ok flag is set but its files are not both there. */
  predicate Broken(d: Files) { Ok in d && (NewMeta !in d || NewCp !in d) }

  function Committed(d: Files): Pair {
    if Ok in d then Pair(Get(d, NewMeta), Get(d, NewCp)) else Visible(d)
  }

  function NewPair(s: Snapshot): Pair { Pair(Some(s.MetaBytes()), Some(s.CpBytes())) }

  // ------------------------------------------------------------------ execution

  lemma {:induction false} ExecConcat(d: Files, a: seq<Op>, b: seq<Op>)
    ensures Exec(d, a + b) == if Succeeds(d, a) then Exec(Exec(d, a), b) else Exec(d, a)
    ensures Succeeds(d, a + b) <==> Succeeds(d, a) && Succeeds(Exec(d, a), b)
    decreases |a|
  {
    if a == [] {
      assert a + b == b;
    } else {
      assert (a + b)[1..] == a[1..] + b;
      if !Fails(d, a[0]) {
        ExecConcat(Apply(d, a[0]), a[1..], b);
      }
    }
  }

  lemma WritesConcat(n: Name, a: seq<byte>, b: seq<byte>)
    ensures Writes(n, a + b) == Writes(n, a) + Writes(n, b)
  {}

  lemma {:induction false} ExecWrites(d: Files, n: Name, bytes: seq<byte>, k: nat)
    requires n in d && k <= |bytes|
    ensures Succeeds(d, Writes(n, bytes)[..k]) && Exec(d, Writes(n, bytes)[..k]) == d[n := d[n] + bytes[..k]]
    decreases |bytes|
  {
    var ops := Writes(n, bytes);
    if k == 0 {
      assert d[n] + bytes[..0] == d[n];
    } else {
      assert ops[..k][1..] == Writes(n, bytes[1..])[..k - 1];
      var d' := Apply(d, ops[0]);
      ExecWrites(d', n, bytes[1..], k - 1);
      assert d'[n] + bytes[1..][..k - 1] == d[n] + bytes[..k];
    }
  }

  lemma {:induction false} ExecPrefix(d: Files, a: seq<Op>, b: seq<Op>, k: nat)
    requires k <= |a| + |b|
    ensures Exec(d, (a + b)[..k]) ==
            if k <= |a| then Exec(d, a[..k])
            else if Succeeds(d, a) then Exec(Exec(d, a), b[..k - |a|]) else Exec(d, a)
  {
    if k <= |a| {
      assert (a + b)[..k] == a[..k];
    } else {
      assert (a + b)[..k] == a + b[..k - |a|];
      ExecConcat(d, a, b[..k - |a|]);
    }
  }

  /** A rename has happened, and the ok flag has not been removed since. */
  predicate InWindow(ops: seq<Op>) {
    ops != [] &&
    var last := ops[|ops| - 1];
    last.Rename? || (last != Unlink(Ok) && InWindow(ops[..|ops| - 1]))
  }

  lemma {:induction false} InWindowConcat(a: seq<Op>, b: seq<Op>)
    ensures InWindow(a + b) <==> InWindow(b) || (Unlink(Ok) !in b && InWindow(a))
    decreases |b|
  {
    if b == [] {
      assert a + b == a;
    } else {
      var n := |b| - 1;
      assert (a + b)[..|a + b| - 1] == a + b[..n];
      InWindowConcat(a, b[..n]);
      assert b == b[..n] + [b[n]];
    }
  }

  // ------------------------------------------------- crashing inside each block

  lemma {:induction false} ExecNext(d: Files, ops: seq<Op>, k: nat)
    requires k < |ops| && Succeeds(d, ops[..k]) && !Fails(Exec(d, ops[..k]), ops[k])
    ensures Exec(d, ops[..k + 1]) == Apply(Exec(d, ops[..k]), ops[k]) && Succeeds(d, ops[..k + 1])
  {
    assert ops[..k + 1] == ops[..k] + [ops[k]];
    ExecConcat(d, ops[..k], [ops[k]]);
    var e := Exec(d, ops[..k]);
    assert [ops[k]][1..] == [];
    assert Exec(Apply(e, ops[k]), []) == Apply(e, ops[k]);
  }

  /** Replacing is harmless before its first rename; from then on the pair is
      nowhere whole until both renames are done. */
  lemma {:induction false} ReplaceSteps(d: Files)
    requires NewMeta in d && NewCp in d
    ensures Exec(d, REPLACE[..0]) == d
    ensures Exec(d, REPLACE[..1]) == d - {Meta}
    ensures Exec(d, REPLACE[..2]) == d - {Meta, Cp}
    ensures Exec(d, REPLACE[..3]) == (d - {Cp, NewMeta})[Meta := d[NewMeta]]
    ensures Exec(d, REPLACE[..4]) == (d - {NewMeta, NewCp})[Meta := d[NewMeta]][Cp := d[NewCp]]
    ensures Succeeds(d, REPLACE)
  {
    assert REPLACE[..0] == [];
    ExecNext(d, REPLACE, 0);
    ExecNext(d, REPLACE, 1);
    assert Exec(d, REPLACE[..2]) == d - {Meta, Cp};
    ExecNext(d, REPLACE, 2);
    assert Exec(d, REPLACE[..3]) == (d - {Cp, NewMeta})[Meta := d[NewMeta]];
    ExecNext(d, REPLACE, 3);
    assert REPLACE[..4] == REPLACE;
  }

  lemma {:induction false} CleanSteps(d: Files, k: nat)
    requires k <= 4
    ensures var d' := Exec(d, CLEAN[..k]);
            && Visible(d') == Visible(d) && (Lock in d' <==> Lock in d)
            && (Ok !in d ==> Ok !in d') && (k >= 3 ==> Start !in d') && (k == 4 ==> Ok !in d')
    ensures Succeeds(d, CLEAN[..k])
  {
    if k > 0 {
      CleanSteps(d, k - 1);
      ExecNext(d, CLEAN, k - 1);
    }
  }

  /** A block keeps the committed pair as far as it got, or is caught between a
      rename and the removal of the ok flag. */
  ghost predicate Keeps(d: Files, ops: seq<Op>, pair: Pair) {
    var d' := Exec(d, ops);
    && Succeeds(d, ops)
    && (Broken(d') <==> InWindow(ops))
    && (!Broken(d') ==> Committed(d') == pair)
  }

  lemma {:induction false} NoRename(ops: seq<Op>)
    requires forall op | op in ops :: !op.Rename?
    ensures !InWindow(ops)
    decreases |ops|
  {
    if ops != [] {
      NoRename(ops[..|ops| - 1]);
    }
  }

  lemma ShortWindows(k: nat)
    ensures k <= 2 ==> !InWindow(REPLACE[..k])
    ensures InWindow(REPLACE[..3]) && InWindow(REPLACE)
    ensures k <= 4 ==> !InWindow(CLEAN[..k])
  {
    if k <= 2 {
      NoRename(REPLACE[..k]);
    }
    if k <= 4 {
      NoRename(CLEAN[..k]);
    }
  }

  lemma {:induction false} ReplaceKeepsPart(d: Files, k: nat)
    requires Ok in d && !Broken(d) && k <= 4
    ensures Keeps(d, REPLACE[..k], Committed(d))
  {
    ReplaceSteps(d);
    ShortWindows(k);
    hide Exec, Succeeds, InWindow;
    ExecConcat(d, REPLACE[..k], REPLACE[k..]);
    assert REPLACE[..k] + REPLACE[k..] == REPLACE && REPLACE[..4] == REPLACE;
  }

  lemma {:induction false} ReplaceKeeps(d: Files, k: nat)
    requires Ok in d && !Broken(d) && k <= 5
    ensures Keeps(d, (REPLACE + [Unlink(Ok)])[..k], Committed(d))
    ensures k == 5 ==> var d' := Exec(d, REPLACE + [Unlink(Ok)]);
                       d' == (d - {NewMeta, NewCp, Ok})[Meta := d[NewMeta]][Cp := d[NewCp]]
  {
    var ops := REPLACE + [Unlink(Ok)];
    if k <= 4 {
      assert ops[..k] == REPLACE[..k];
      ReplaceKeepsPart(d, k);
    } else {
      assert !InWindow(ops);
      hide Exec, Succeeds, InWindow;
      ReplaceSteps(d);
      assert ops[..4] == REPLACE == REPLACE[..4] && ops[..5] == ops;
      ExecNext(d, ops, 4);
    }
  }

  lemma {:induction false} RepairKeeps(d: Files, k: nat)
    requires !Broken(d) && k <= |Repair(d)|
    ensures Keeps(d, Repair(d)[..k], Committed(d))
    ensures k == |Repair(d)| ==> var d' := Exec(d, Repair(d)); Ok !in d' && Visible(d') == Committed(d)
  {
    if Ok in d {
      ReplaceKeeps(d, k);
      assert Repair(d)[..5] == Repair(d);
    } else {
      CleanSteps(d, k);
      ShortWindows(k);
      assert CLEAN[..4] == CLEAN;
    }
  }

  lemma {:induction false} UnflagKeeps(d: Files, k: nat)
    requires Ok in d && !Broken(d) && k <= 2
    ensures Keeps(d, [Unlink(Lock), Unlink(Start)][..k], Committed(d))
    ensures !InWindow([Unlink(Lock), Unlink(Start)][..k])
    ensures Exec(d, [Unlink(Lock), Unlink(Start)]) == d - {Lock, Start}
    ensures Succeeds(d, [Unlink(Lock), Unlink(Start)])
  {
    var ops := [Unlink(Lock), Unlink(Start)];
    assert ops[..0] == [] && ops[..1] == [Unlink(Lock)] && ops[..2] == ops;
    ExecNext(d, ops, 0);
    ExecNext(d, ops, 1);
    NoRename(ops[..k]);
    assert d - {Lock} - {Start} == d - {Lock, Start};
    assert Exec(d, ops[..k]) == if k == 0 then d else if k == 1 then d - {Lock} else d - {Lock, Start};
  }

  lemma {:induction false} PublishKeeps(d: Files, k: nat)
    requires Ok in d && !Broken(d) && k <= 7
    ensures Keeps(d, Publish()[..k], Committed(d))
    ensures k == 7 ==> var d' := Exec(d, Publish()); IsCompleted(d') && Visible(d') == Committed(d)
  {
    hide Exec, Succeeds, InWindow;
    var head, tail := [Unlink(Lock), Unlink(Start)], REPLACE + [Unlink(Ok)];
    assert Publish() == head + tail;
    if k <= 2 {
      UnflagKeeps(d, k);
      assert Publish()[..k] == head[..k];
    } else {
      UnflagKeeps(d, 2);
      assert head[..2] == head;
      ReplaceKeeps(d - {Lock, Start}, k - 2);
      assert Publish()[..k] == head + tail[..k - 2];
      KeepsThen(d, head, tail[..k - 2], Committed(d));
      if k == 7 {
        assert tail[..5] == tail && Publish()[..7] == Publish();
        ExecConcat(d, head, tail);
      }
    }
  }

  /** Operations on other files leave a file alone. */
  lemma {:induction false} ExecFrame(d: Files, ops: seq<Op>, n: Name)
    requires forall op | op in ops :: op.name != n && (op.Rename? ==> op.to != n)
    ensures Get(Exec(d, ops), n) == Get(d, n)
    decreases |ops|
  {
    if ops != [] && !Fails(d, ops[0]) {
      ExecFrame(Apply(d, ops[0]), ops[1..], n);
    }
  }

  lemma {:induction false} ExecFill(d: Files, n: Name, bytes: seq<byte>)
    ensures var ops := [Truncate(n)] + Writes(n, bytes); Succeeds(d, ops) && Exec(d, ops) == d[n := bytes]
  {
    var one, ops := [Truncate(n)], Writes(n, bytes);
    var d1 := d[n := []];
    assert one[1..] == [] && Exec(d, one) == Exec(d1, []) == d1 && Succeeds(d, one);
    ExecConcat(d, one, ops);
    ExecWrites(d1, n, bytes, |bytes|);
    assert ops[..|bytes|] == ops && bytes[..|bytes|] == bytes && d1[n] + bytes == bytes;
    assert d1[n := bytes] == d[n := bytes];
  }

  lemma Succeeding(d: Files, op: Op)
    requires !Fails(d, op)
    ensures Succeeds(d, [op]) && Exec(d, [op]) == Apply(d, op)
  {
    assert [op][1..] == [];
    assert Exec(Apply(d, op), []) == Apply(d, op);
  }

  lemma {:induction false} WriteNewAll(d: Files, s: Snapshot)
    ensures Succeeds(d, WriteNew(s))
    ensures Exec(d, WriteNew(s)) ==
            (if Start in d then d else d[Start := []])[NewMeta := s.MetaBytes()][NewCp := s.CpBytes()][Ok := []]
  {
    var a, c := [Create(Start)], [Truncate(Ok)];
    var m, p := [Truncate(NewMeta)] + Writes(NewMeta, s.MetaBytes()), [Truncate(NewCp)] + Writes(NewCp, s.CpBytes());
    assert WriteNew(s) == a + m + p + c;
    var d1 := if Start in d then d else d[Start := []];
    assert a[1..] == [] && Exec(d, a) == Exec(d1, []) == d1 && Succeeds(d, a);
    hide Exec, Succeeds, Writes, WriteNew;
    ExecConcat(d, a, m);
    ExecFill(d1, NewMeta, s.MetaBytes());
    ExecConcat(d, a + m, p);
    ExecFill(Exec(d, a + m), NewCp, s.CpBytes());
    ExecConcat(d, a + m + p, c);
    Succeeding(Exec(d, a + m + p), Truncate(Ok));
  }

  lemma WriteNewNames(s: Snapshot)
    ensures var ops, n := WriteNew(s), |WriteNew(s)| - 1;
            && n >= 0 && ops[n] == Truncate(Ok)
            && (forall op | op in ops :: !op.Rename? && op != Unlink(Ok) && op.name !in {Meta, Cp, Lock})
            && (forall op | op in ops[..n] :: op.name != Ok)
  {}

  /** Nothing but the last operation, which sets the ok flag, commits. */
  lemma {:induction false} WriteNewKeeps(d: Files, s: Snapshot, k: nat)
    requires Ok !in d && k <= |WriteNew(s)|
    ensures Keeps(d, WriteNew(s)[..k], if k == |WriteNew(s)| then NewPair(s) else Committed(d))
    ensures Lock in d ==> Lock in Exec(d, WriteNew(s)[..k])
    ensures !InWindow(WriteNew(s)[..k])
  {
    hide WriteNew;
    var ops := WriteNew(s);
    var pre := ops[..k];
    WriteNewAll(d, s);
    WriteNewNames(s);
    assert ops == pre + ops[k..];
    ExecConcat(d, pre, ops[k..]);
    assert forall op | op in pre :: op in ops;
    NoRename(pre);
    ExecFrame(d, pre, Lock);
    if k < |ops| {
      assert forall op | op in pre :: op in ops[..|ops| - 1];
      ExecFrame(d, pre, Ok);
      ExecFrame(d, pre, Meta);
      ExecFrame(d, pre, Cp);
    } else {
      assert pre == ops;
    }
  }

  lemma {:induction false} KeepsThen(d: Files, a: seq<Op>, b: seq<Op>, pair: Pair)
    requires Succeeds(d, a) && !InWindow(a) && Keeps(Exec(d, a), b, pair)
    ensures Keeps(d, a + b, pair)
  {
    ExecConcat(d, a, b);
    InWindowConcat(a, b);
  }

  // --------------------------------------------------------------------- events

  /** A save whose child, or an initialisation that, stops after `steps`
      operations; a large number lets it finish. */
  datatype Event = Save(snapshot: Snapshot, steps: nat) | Init(steps: nat)

  function Planned(d: Files, e: Event): seq<Op> {
    match e
    case Save(s, _) => ChildOps(d, s)
    case Init(_) => RecoverOps(d)
  }

  function Ran(d: Files, e: Event): seq<Op> {
    var ops := Planned(d, e);
    if e.steps < |ops| then ops[..e.steps] else ops
  }

  function Next(d: Files, e: Event): Files { Exec(d, Ran(d, e)) }

  /** The save got as far as setting the ok flag. */
  predicate Commits(d: Files, e: Event) { e.Save? && Truncate(Ok) in Ran(d, e) }

  function NextPair(d: Files, e: Event, pair: Pair): Pair {
    if Commits(d, e) then NewPair(e.snapshot) else pair
  }

  lemma {:induction false} LockKeeps(d: Files, k: nat)
    requires !Broken(d) && k <= 2
    ensures Keeps(d, [Create(Lock), Unlink(Lock)][..k], Committed(d))
    ensures Keeps(d, [Create(Lock)], Committed(d))
    ensures Exec(d, [Create(Lock)]) == (if Lock in d then d else d[Lock := []])
    ensures Exec(d, [Create(Lock), Unlink(Lock)]) == d - {Lock}
  {
    var ops := [Create(Lock), Unlink(Lock)];
    var d1 := if Lock in d then d else d[Lock := []];
    assert ops[..0] == [] && ops[..1] == [Create(Lock)] && ops[..2] == ops;
    ExecNext(d, ops, 0);
    ExecNext(d, ops, 1);
    NoRename(ops[..k]);
    NoRename([Create(Lock)]);
    assert Exec(d, ops[..k]) == if k == 0 then d else if k == 1 then d1 else d - {Lock};
  }

  lemma NoCommitBefore(d: Files, s: Snapshot)
    ensures Truncate(Ok) !in [Create(Lock)] && Truncate(Ok) !in Repair(d)
    ensures Truncate(Ok) !in WriteNew(s)[..|WriteNew(s)| - 1] && Truncate(Ok) in WriteNew(s)
    ensures Truncate(Ok) !in Publish()
  {
    WriteNewNames(s);
  }

  lemma RepairNames(d: Files)
    ensures forall op | op in Repair(d) :: op.name != Lock && (op.Rename? ==> op.to != Lock)
  {}

  lemma {:induction false} PhaseRepair(d: Files, j: nat)
    requires !Broken(d) && j <= |Repair(d)|
    ensures var ops := [Create(Lock)] + Repair(d)[..j];
            && Keeps(d, ops, Committed(d)) && Lock in Exec(d, ops)
            && (j == |Repair(d)| ==> Ok !in Exec(d, ops) && !InWindow(ops))
  {
    hide Repair, Exec, Succeeds, InWindow, Committed, Visible;
    var a, r := [Create(Lock)], Repair(d);
    LockFirst(d);
    RepairNames(d);
    var d1 := Exec(d, a);
    RepairKeeps(d1, j);
    KeepsThen(d, a, r[..j], Committed(d));
    ExecConcat(d, a, r[..j]);
    assert forall op | op in r[..j] :: op in r;
    ExecFrame(d1, r[..j], Lock);
    assert r[..|r|] == r;
  }

  lemma LockFirst(d: Files)
    requires !Broken(d)
    ensures var d1 := Exec(d, [Create(Lock)]);
            && Succeeds(d, [Create(Lock)]) && !InWindow([Create(Lock)])
            && !Broken(d1) && Repair(d1) == Repair(d) && Committed(d1) == Committed(d) && Lock in d1
  {
    Succeeding(d, Create(Lock));
    NoRename([Create(Lock)]);
  }

  lemma {:induction false} PhaseWrite(d: Files, s: Snapshot, j: nat)
    requires !Broken(d) && j <= |WriteNew(s)|
    ensures var ops := [Create(Lock)] + Repair(d) + WriteNew(s)[..j];
            && Keeps(d, ops, if j == |WriteNew(s)| then NewPair(s) else Committed(d))
            && Lock in Exec(d, ops) && !InWindow(ops)
    ensures j == |WriteNew(s)| ==> Ok in Exec(d, [Create(Lock)] + Repair(d) + WriteNew(s))
  {
    hide WriteNew, Repair, Exec, Succeeds, InWindow;
    var ar, w := [Create(Lock)] + Repair(d), WriteNew(s);
    PhaseRepair(d, |Repair(d)|);
    assert Repair(d)[..|Repair(d)|] == Repair(d);
    var d2 := Exec(d, ar);
    WriteNewKeeps(d2, s, j);
    KeepsThen(d, ar, w[..j], if j == |w| then NewPair(s) else Committed(d));
    InWindowConcat(ar, w[..j]);
    ExecConcat(d, ar, w[..j]);
    if j == |w| {
      assert w[..j] == w;
      WriteNewAll(d2, s);
    }
  }

  lemma {:induction false} PhasePublish(d: Files, s: Snapshot, j: nat)
    requires !Broken(d) && j <= 7
    ensures var ops := [Create(Lock)] + Repair(d) + WriteNew(s) + Publish()[..j]; var d' := Exec(d, ops);
            && Keeps(d, ops, NewPair(s)) && (IsCompleted(d') <==> j == 7)
            && (j == 7 ==> Visible(d') == NewPair(s))
  {
    hide WriteNew, Repair, Exec, Succeeds, InWindow;
    var arw, p := [Create(Lock)] + Repair(d) + WriteNew(s), Publish();
    PhaseWrite(d, s, |WriteNew(s)|);
    assert WriteNew(s)[..|WriteNew(s)|] == WriteNew(s);
    var d3 := Exec(d, arw);
    PublishKeeps(d3, j);
    KeepsThen(d, arw, p[..j], NewPair(s));
    ExecConcat(d, arw, p[..j]);
    if j < 7 {
      assert p[..6] == [Unlink(Lock), Unlink(Start)] + REPLACE;
      assert forall op | op in p[..j] :: op in p[..6];
      ExecFrame(d3, p[..j], Ok);
    } else {
      assert p[..7] == p;
    }
  }

  /** A whole save, wherever its child dies. */
  lemma {:induction false} FullSaveKeeps(d: Files, s: Snapshot, k: nat)
    requires !Broken(d) && LoadMeta(d).Some? && s.id > LoadMeta(d).value && k <= |ChildOps(d, s)|
    ensures var ran := ChildOps(d, s)[..k]; var d' := Exec(d, ran);
            && Keeps(d, ran, if Truncate(Ok) in ran then NewPair(s) else Committed(d))
            && (IsCompleted(d') <==> (k == 0 && IsCompleted(d)) || k == |ChildOps(d, s)|)
            && (k == |ChildOps(d, s)| ==> Visible(d') == NewPair(s))
  {
    var a, r, w, p := [Create(Lock)], Repair(d), WriteNew(s), Publish();
    NoCommitBefore(d, s);
    assert |p| == 7;
    hide WriteNew, Repair, Publish, Keeps;
    var ops := ChildOps(d, s);
    assert ops == a + r + w + p;
    if k == 0 {
      LockKeeps(d, 0);
      assert ops[..0] == [] == [Create(Lock), Unlink(Lock)][..0];
    } else if k <= 1 + |r| {
      PhaseRepair(d, k - 1);
      assert ops[..k] == a + r[..k - 1];
    } else if k <= 1 + |r| + |w| {
      var j := k - 1 - |r|;
      PhaseWrite(d, s, j);
      assert ops[..k] == a + r + w[..j];
      assert Truncate(Ok) in w[..j] <==> j == |w| by {
        if j < |w| {
          assert forall op | op in w[..j] :: op in w[..|w| - 1];
        } else {
          assert w[..j] == w;
        }
      }
    } else {
      var j := k - 1 - |r| - |w|;
      PhasePublish(d, s, j);
      assert ops[..k] == a + r + w + p[..j];
    }
  }

  /** One event, crash or not: the committed pair is the one before, or the new
      one if the ok flag was reached; and the directory breaks exactly if the
      crash falls between a rename and the removal of the ok flag. */
  lemma {:induction false} StepCommits(d: Files, e: Event)
    requires !Broken(d)
    ensures Broken(Next(d, e)) <==> InWindow(Ran(d, e))
    ensures !Broken(Next(d, e)) ==> Committed(Next(d, e)) == NextPair(d, e, Committed(d))
  {
    var ops := Planned(d, e);
    var k := if e.steps < |ops| then e.steps else |ops|;
    assert ops[..|ops|] == ops;
    match e
    case Init(_) =>
      if IsCompleted(d) {
        assert Ran(d, e) == [];
      } else {
        RepairKeeps(d, k);
      }
    case Save(s, _) =>
      if LoadMeta(d).Some? && s.id > LoadMeta(d).value {
        FullSaveKeeps(d, s, k);
      } else {
        LockKeeps(d, k);
        assert Ran(d, e) == [Create(Lock), Unlink(Lock)][..k];
      }
  }

  // ------------------------------------------------------------ broken directories

  lemma {:induction false} RepairBroken(d: Files, k: nat)
    requires Broken(d) && k <= 5
    ensures Broken(Exec(d, (REPLACE + [Unlink(Ok)])[..k]))
    ensures !Succeeds(d, REPLACE + [Unlink(Ok)])
  {
    var ops := REPLACE + [Unlink(Ok)];
    assert ops[..0] == [];
    ExecNext(d, ops, 0);
    ExecNext(d, ops, 1);
    var d2 := d - {Meta} - {Cp};
    if NewMeta in d {
      ExecNext(d, ops, 2);
      StopsAt(d, ops, 3, k);
    } else {
      StopsAt(d, ops, 2, k);
    }
  }

  lemma {:induction false} StopsAt(d: Files, ops: seq<Op>, i: nat, k: nat)
    requires i < |ops| && k <= |ops| && Succeeds(d, ops[..i]) && Fails(Exec(d, ops[..i]), ops[i])
    ensures k > i ==> Exec(d, ops[..k]) == Exec(d, ops[..i])
    ensures !Succeeds(d, ops)
  {
    if k > i {
      assert ops[..k] == ops[..i] + ops[i..k];
      ExecConcat(d, ops[..i], ops[i..k]);
    }
    assert ops == ops[..i] + ops[i..];
    ExecConcat(d, ops[..i], ops[i..]);
  }

  lemma {:induction false} FullSaveBroken(d: Files, s: Snapshot, k: nat)
    requires Broken(d) && IsNew(d, s) && 0 < k <= |ChildOps(d, s)|
    ensures Broken(Exec(d, ChildOps(d, s)[..k]))
  {
    var a, r, rest := [Create(Lock)], Repair(d), WriteNew(s) + Publish();
    var d1 := if Lock in d then d else d[Lock := []];
    assert a[1..] == [] && Exec(d, a) == Exec(d1, []) == d1 && Succeeds(d, a) && a[..1] == a;
    assert ChildOps(d, s) == a + (r + rest);
    hide Exec, Succeeds, WriteNew, Publish, ChildOps;
    ExecPrefix(d, a, r + rest, k);
    ExecPrefix(d1, r, rest, k - 1);
    RepairBroken(d1, if k - 1 < 5 then k - 1 else 5);
    assert r[..5] == r;
  }

  /** Nothing mends a broken directory. */
  lemma {:induction false} BrokenForever(d: Files, e: Event)
    requires Broken(d)
    ensures Broken(Next(d, e))
  {
    var ops := Planned(d, e);
    var k := if e.steps < |ops| then e.steps else |ops|;
    assert ops[..|ops|] == ops && Ran(d, e) == ops[..k];
    hide Exec, WriteNew, Publish;
    if e.Init? {
      RepairBroken(d, k);
    } else if k > 0 && IsNew(d, e.snapshot) {
      FullSaveBroken(d, e.snapshot, k);
    } else {
      assert forall op | op in ops[..k] :: op.name == Lock && !op.Rename?;
      ExecFrame(d, ops[..k], Ok);
      ExecFrame(d, ops[..k], NewMeta);
      ExecFrame(d, ops[..k], NewCp);
    }
  }

  /** Left to finish, initialisation succeeds exactly if the directory is not
      broken, and then shows the committed pair. */
  lemma {:induction false} InitExact(d: Files)
    ensures Succeeds(d, RecoverOps(d)) <==> !Broken(d)
    ensures !Broken(d) ==> var d' := Exec(d, RecoverOps(d)); Ok !in d' && Visible(d') == Committed(d)
  {
    if Broken(d) {
      RepairBroken(d, 5);
    } else if !IsCompleted(d) {
      RepairKeeps(d, |Repair(d)|);
      assert Repair(d)[..|Repair(d)|] == Repair(d);
    }
  }

  // ----------------------------------------------------------------------- runs

  function After(d: Files, events: seq<Event>): Files
    decreases |events|
  {
    if events == [] then d else After(Next(d, events[0]), events[1..])
  }

  /** The pair of the last save that got as far as its ok flag. */
  function Expected(d: Files, events: seq<Event>, pair: Pair): Pair
    decreases |events|
  {
    if events == [] then pair
    else Expected(Next(d, events[0]), events[1..], NextPair(d, events[0], pair))
  }

  /** Some crash falls between a rename and the removal of the ok flag. */
  predicate HitsWindow(d: Files, events: seq<Event>)
    decreases |events|
  {
    events != [] && (InWindow(Ran(d, events[0])) || HitsWindow(Next(d, events[0]), events[1..]))
  }

  lemma {:induction false} RunCommits(d: Files, events: seq<Event>)
    requires !Broken(d)
    ensures Broken(After(d, events)) <==> HitsWindow(d, events)
    ensures !HitsWindow(d, events) ==> Committed(After(d, events)) == Expected(d, events, Committed(d))
    decreases |events|
  {
    if events != [] {
      hide Next, Broken, InWindow;
      StepCommits(d, events[0]);
      if Broken(Next(d, events[0])) {
        StaysBroken(Next(d, events[0]), events[1..]);
      } else {
        RunCommits(Next(d, events[0]), events[1..]);
      }
    }
  }

  lemma {:induction false} StaysBroken(d: Files, events: seq<Event>)
    requires Broken(d)
    ensures Broken(After(d, events))
    decreases |events|
  {
    if events != [] {
      BrokenForever(d, events[0]);
      StaysBroken(Next(d, events[0]), events[1..]);
    }
  }

  /** Over every run of saves and initialisations that crash anywhere, or not: the
      next initialisation left to finish succeeds exactly if no crash fell between
      a rename and the removal of the ok flag, and then it shows, whole, the pair
      of the last save that set its ok flag, or the first pair if none did. */
  lemma {:induction false} RecoveryExact(d: Files, events: seq<Event>)
    requires !Broken(d)
    ensures var end := After(d, events);
            && (Succeeds(end, RecoverOps(end)) <==> !HitsWindow(d, events))
            && (!HitsWindow(d, events) ==>
                  Visible(Exec(end, RecoverOps(end))) == Expected(d, events, Committed(d)))
  {
    hide Broken, Committed, Visible, Exec, Succeeds, RecoverOps;
    RunCommits(d, events);
    InitExact(After(d, events));
  }

  // -------------------------------------------------------- what the parent says

  function ParentResult(d: Files): (Code, nat) {
    if !IsCompleted(d) then (UnknownChildProcessError, 0)
    else match LoadMeta(d)
      case None => (FileCorrupt, 0)
      case Some(id) => (OK, id)
  }

  predicate IsNew(d: Files, s: Snapshot) { LoadMeta(d).Some? && s.id > LoadMeta(d).value }

  /** The parent reports success exactly if the directory was not broken and the
      child finished, or died before its first step in a directory without flags.
      In the first case the new pair is in place, otherwise the old one still is;
      the id is that of the pair shown. */
  lemma {:induction false} ParentExact(d: Files, s: Snapshot, steps: nat)
    requires IsNew(d, s) && s.id < U64
    ensures var d' := Next(d, Save(s, steps)); var finished := !Broken(d) && steps >= |ChildOps(d, s)|;
            && (ParentResult(d').0 == OK <==> finished || (steps == 0 && IsCompleted(d)))
            && (Broken(d) ==> ParentResult(d') == (UnknownChildProcessError, 0))
            && (finished ==> ParentResult(d') == (OK, s.id) && Visible(d') == NewPair(s))
            && (ParentResult(d').0 == OK && !finished ==> d' == d)
  {
    var ops := ChildOps(d, s);
    var k := if steps < |ops| then steps else |ops|;
    assert ops[..|ops|] == ops && Ran(d, Save(s, steps)) == ops[..k];
    assert |ops| > 0 && (k == 0 ==> ops[..k] == [] && Exec(d, ops[..k]) == d);
    assert Next(d, Save(s, steps)) == Exec(d, ops[..k]);
    hide ChildOps, Exec, Succeeds, InWindow, LoadMeta, Visible, NewPair, Next, Keeps;
    if Broken(d) {
      BrokenForever(d, Save(s, steps));
    } else {
      FullSaveKeeps(d, s, k);
      if k == |ops| {
        MetaOfNew(Next(d, Save(s, steps)), s);
      }
    }
  }

  lemma MetaOfNew(d: Files, s: Snapshot)
    requires Visible(d) == NewPair(s) && s.id < U64
    ensures LoadMeta(d) == Some(s.id)
  {
    hide Undigits, Digits;
    UndigitsDigits(s.id);
  }

  /** Every other save: with a damaged meta file the child stops at once and its lock
      stays; under an id that is recorded already it only takes and drops the
      lock, so the old id is reported unless a flag was left from before. */
  lemma {:induction false} ParentOtherwise(d: Files, s: Snapshot, steps: nat)
    requires !IsNew(d, s)
    ensures var d' := Next(d, Save(s, steps));
            && Visible(d') == Visible(d) && LoadMeta(d') == LoadMeta(d)
            && ParentResult(d') ==
               if steps == 0 then ParentResult(d)
               else if LoadMeta(d).None? || steps == 1 || Start in d || Ok in d then (UnknownChildProcessError, 0)
               else (OK, LoadMeta(d).value)
  {
    hide Undigits;
    var ops := ChildOps(d, s);
    assert ops == [Create(Lock)] + if LoadMeta(d).None? then [] else [Unlink(Lock)];
    var k := if steps < |ops| then steps else |ops|;
    assert ops[..|ops|] == ops && Ran(d, Save(s, steps)) == ops[..k];
    if k > 0 {
      assert ops[..0] == [] && Exec(d, ops[..0]) == d;
      ExecNext(d, ops, 0);
      if k > 1 {
        ExecNext(d, ops, 1);
      }
    }
  }

  lemma {:induction false} CommitsOnlyNew(d: Files, s: Snapshot, steps: nat)
    requires Commits(d, Save(s, steps))
    ensures IsNew(d, s)
  {
    assert forall op | op in Ran(d, Save(s, steps)) :: op in ChildOps(d, s);
    assert !IsNew(d, s) ==> Truncate(Ok) !in ChildOps(d, s);
  }

  /** The first save of all, stopped one step before its end, is enough to break
      the directory for good. */
  lemma {:induction false} StoppedSaveBreaks(s: Snapshot)
    requires s.id > 0
    ensures Broken(Next(map[], Save(s, |ChildOps(map[], s)| - 1)))
  {
    hide WriteNew, Repair;
    var ops := ChildOps(map[], s);
    var head := [Create(Lock)] + Repair(map[]) + WriteNew(s) + [Unlink(Lock), Unlink(Start)] + REPLACE[..3];
    assert ops == head + [Rename(NewCp, Cp), Unlink(Ok)];
    assert Ran(map[], Save(s, |ops| - 1)) == head + [Rename(NewCp, Cp)];
    hide Next, Broken, Ran;
    StepCommits(map[], Save(s, |ops| - 1));
  }

  /** So a child that never ran is reported as a success with id 0. */
  lemma {:induction false} DeadChildReportsOk(s: Snapshot)
    requires 0 < s.id < U64
    ensures ParentResult(Next(map[], Save(s, 0))) == (OK, 0)
  {
    assert Ran(map[], Save(s, 0)) == [];
  }

  // ----------------------------------------------------------- incomplete saves

  /** The result of writing the entries is not looked at: the new checkpoint holds
      all of them exactly if all of them encode. */
  lemma {:induction false} CompleteExact(version: byte, entries: seq<Option<seq<byte>>>)
    ensures |Encoded(version, entries)| == |entries| <==> forall e | e in entries :: e.Some?
    ensures |Encoded(version, entries)| <= |entries|
    ensures forall i | 0 <= i < |Encoded(version, entries)| ::
              entries[i].Some? && Encoded(version, entries)[i] == Record(version, 0, entries[i].value)
  {
    if entries != [] && entries[0].Some? {
      CompleteExact(version, entries[1..]);
      assert entries == [entries[0]] + entries[1..];
    }
  }
}
