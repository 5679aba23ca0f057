/** The key-value map as the result of a history of writes, and what replaying
    part of that history over a snapshot gives. */
module Kv {
  import opened Codec
  import opened Common

  type Key = seq<byte>
  type Store = map<Key, seq<byte>>

  datatype Op = Put(key: Key, value: seq<byte>) | Delete(key: Key)

  function Apply(m: Store, op: Op): Store {
    match op
    case Put(k, v) => m[k := v]
    case Delete(k) => m - {k}
  }

  function Play(m: Store, ops: seq<Op>): Store {
    if ops == [] then m else Apply(Play(m, ops[..|ops| - 1]), ops[|ops| - 1])
  }

  lemma {:induction false} PlayConcat(m: Store, a: seq<Op>, b: seq<Op>)
    ensures Play(m, a + b) == Play(Play(m, a), b)
    decreases |b|
  {
    if b == [] {
      assert a + b == a;
    } else {
      var n := |b| - 1;
      assert (a + b)[..|a| + n] == a + b[..n];
      PlayConcat(m, a, b[..n]);
    }
  }

  // ------------------------------------------------------------ replay is idempotent

  predicate Touches(ops: seq<Op>, k: Key) { exists i | 0 <= i < |ops| :: ops[i].key == k }

  /** What happens to one key depends on the starting map only if no write
      touches it. */
  lemma {:induction false} PlayAt(m: Store, m': Store, ops: seq<Op>, k: Key)
    requires Touches(ops, k) || Lookup(m, k) == Lookup(m', k)
    ensures Lookup(Play(m, ops), k) == Lookup(Play(m', ops), k)
    decreases |ops|
  {
    if ops != [] {
      var n := |ops| - 1;
      if ops[n].key != k {
        assert Touches(ops, k) ==> Touches(ops[..n], k) by {
          if i :| 0 <= i < |ops| && ops[i].key == k {
            assert ops[..n][i].key == k;
          }
        }
        PlayAt(m, m', ops[..n], k);
      }
    }
  }

  lemma {:induction false} Untouched(m: Store, ops: seq<Op>, k: Key)
    requires !Touches(ops, k)
    ensures Lookup(Play(m, ops), k) == Lookup(m, k)
    decreases |ops|
  {
    if ops != [] {
      var n := |ops| - 1;
      assert ops[n].key != k;
      assert !Touches(ops[..n], k) by {
        assert forall i | 0 <= i < n :: ops[..n][i] == ops[i];
      }
      Untouched(m, ops[..n], k);
    }
  }

  function Lookup(m: Store, k: Key): Option<seq<byte>> { if k in m then Some(m[k]) else None }

  lemma Extensional(m: Store, m': Store)
    requires forall k :: Lookup(m, k) == Lookup(m', k)
    ensures m == m'
  {
    forall k ensures k in m <==> k in m' {
      assert Lookup(m, k) == Lookup(m', k);
    }
    forall k | k in m ensures m[k] == m'[k] {
      assert Lookup(m, k) == Lookup(m', k);
    }
  }

  /** Replaying the writes from `j` on over the map at `c` gives the final map,
      however much of them the snapshot had already. */
  lemma {:induction false} ReplayIdempotent(ops: seq<Op>, j: nat, c: nat)
    requires j <= c <= |ops|
    ensures Play(Play(map[], ops[..c]), ops[j..]) == Play(map[], ops)
  {
    var base, snap := Play(map[], ops[..j]), Play(map[], ops[..c]);
    assert ops == ops[..j] + ops[j..] && ops[..c] == ops[..j] + ops[j..c];
    PlayConcat(map[], ops[..j], ops[j..]);
    PlayConcat(map[], ops[..j], ops[j..c]);
    forall k ensures Lookup(Play(snap, ops[j..]), k) == Lookup(Play(base, ops[j..]), k) {
      if !Touches(ops[j..], k) {
        assert !Touches(ops[j..c], k) by {
          assert forall i | 0 <= i < c - j :: ops[j..c][i] == ops[j..][i];
        }
        Untouched(base, ops[j..c], k);
      }
      PlayAt(snap, base, ops[j..], k);
    }
    Extensional(Play(snap, ops[j..]), Play(base, ops[j..]));
  }

  // ------------------------------------------------------------- as logged

  /** Key-value messages as bytes and back; the wire format itself is not part of
      the model. */
  datatype Pb = Pb(enc: (Key, seq<byte>) -> seq<byte>, dec: seq<byte> -> Option<(Key, seq<byte>)>) {
    ghost predicate Faithful() {
      forall k: Key, v: seq<byte> :: dec(enc(k, v)) == Some((k, v)) && (k != [] ==> enc(k, v) != [])
    }
  }

  /** A log entry: a type byte, then the message or the key. */
  function EncodeOp(pb: Pb, op: Op): seq<byte> {
    match op
    case Put(k, v) => [2] + pb.enc(k, v)
    case Delete(k) => [3] + k
  }

  /** The key up to its first zero byte. */
  function CString(k: Key): Key {
    if k == [] || k[0] == 0 then [] else [k[0]] + CString(k[1..])
  }

  /** A logged write as replay takes it: the key of a delete is read as a C
      string. */
  function DecodeOp(pb: Pb, bytes: seq<byte>): Option<Op> {
    if |bytes| < 2 then None
    else if bytes[0] == 2 then
      var kv := pb.dec(bytes[1..]);
      if kv.Some? then Some(Put(kv.value.0, kv.value.1)) else None
    else if bytes[0] == 3 then Some(Delete(CString(bytes[1..])))
    else None
  }

  function Seen(op: Op): Op { if op.Delete? then Delete(CString(op.key)) else op }

  predicate ZeroFree(op: Op) { op.Delete? ==> 0 !in op.key }

  lemma {:induction false} DecodeEncodeOp(pb: Pb, op: Op)
    requires pb.Faithful() && op.key != []
    ensures DecodeOp(pb, EncodeOp(pb, op)) == Some(Seen(op))
  {
    match op
    case Put(k, v) =>
      assert EncodeOp(pb, op)[1..] == pb.enc(k, v);
      assert pb.enc(k, v) != [];
    case Delete(k) =>
      assert EncodeOp(pb, op)[1..] == k;
  }

  lemma {:induction false} CStringExact(k: Key)
    ensures CString(k) == k <==> 0 !in k
  {
    if k != [] && k[0] != 0 {
      CStringExact(k[1..]);
      assert k == [k[0]] + k[1..];
    }
  }

  /** The key up to its first zero byte, and nothing else. */
  lemma {:induction false} CStringIs(k: Key, n: nat)
    requires n <= |k| && 0 !in k[..n] && (n < |k| ==> k[n] == 0)
    ensures CString(k) == k[..n]
  {
    if n > 0 {
      assert k[0] == k[..n][0];
      assert k[..n] == [k[0]] + k[1..][..n - 1];
      CStringIs(k[1..], n - 1);
    }
  }

  /** What replay makes of a logged delete: the key up to its first zero byte goes, and
      nothing else changes. */
  lemma {:induction false} ReplayedDelete(pb: Pb, m: Store, key: Key, n: nat)
    requires pb.Faithful() && key != [] && n <= |key| && 0 !in key[..n] && (n < |key| ==> key[n] == 0)
    ensures var op := DecodeOp(pb, EncodeOp(pb, Delete(key)));
            op.Some? && Apply(m, op.value) == m - {key[..n]}
  {
    DecodeEncodeOp(pb, Delete(key));
    CStringIs(key, n);
  }

  /** Log entries, byte by byte, and which byte strings are entries. */
  lemma {:induction false} EntryBytes(pb: Pb, bytes: seq<byte>, key: Key, value: seq<byte>)
    requires pb.Faithful() && key != []
    ensures EncodeOp(pb, Put(key, value)) == [2] + pb.enc(key, value) && EncodeOp(pb, Delete(key)) == [3] + key
    ensures DecodeOp(pb, EncodeOp(pb, Put(key, value))) == Some(Put(key, value))
    ensures DecodeOp(pb, bytes).Some? <==>
              |bytes| >= 2 && (bytes[0] == 3 || (bytes[0] == 2 && pb.dec(bytes[1..]).Some?))
  {
    DecodeEncodeOp(pb, Put(key, value));
  }

  /** Replaying a logged write does what the write did, on every map, exactly if
      it is a put or its key has no zero byte. */
  lemma {:induction false} SeenExact(op: Op)
    ensures (forall m: Store :: Apply(m, Seen(op)) == Apply(m, op)) <==> ZeroFree(op)
  {
    CStringExact(op.key);
    if op.Delete? && 0 in op.key {
      var m: Store := map[op.key := []];
      assert op.key in Apply(m, Seen(op)) && op.key !in Apply(m, op);
    }
  }

  // ------------------------------------------------------------------- recovery

  datatype LogOp = LogOp(id: nat, op: Op)

  /** Replay skips entries below the id applied last. */
  function Replay(m: Store, applyId: nat, log: seq<LogOp>): (Store, nat) {
    if log == [] then (m, applyId)
    else
      var last := log[|log| - 1];
      var (m', a) := Replay(m, applyId, log[..|log| - 1]);
      if a > last.id then (m', a) else (Apply(m', last.op), last.id)
  }

  function Ops(log: seq<LogOp>): (ops: seq<Op>)
    ensures |ops| == |log|
  {
    seq(|log|, i requires 0 <= i < |log| => log[i].op)
  }

  lemma {:induction false} ReplaySkips(m: Store, applyId: nat, log: seq<LogOp>, first: nat)
    requires forall i | 0 <= i < |log| :: log[i].id == first + i
    ensures var j := if applyId <= first then 0 else if applyId - first < |log| then applyId - first else |log|;
            Replay(m, applyId, log) == (Play(m, Ops(log)[j..]), if j == |log| then applyId else first + |log| - 1)
  {
    hide Play, Ops, Apply;
    if log == [] {
      PlayNone(m);
    } else {
      var n := |log| - 1;
      ReplaySkips(m, applyId, log[..n], first);
      var j := if applyId <= first then 0 else if applyId - first < |log| then applyId - first else |log|;
      if j <= n {
        OpsSnoc(log, j);
        PlaySnoc(m, Ops(log[..n])[j..], log[n].op);
      } else {
        assert Ops(log)[j..] == [] == Ops(log[..n])[n..];
      }
    }
  }

  lemma PlayNone(m: Store)
    ensures Play(m, []) == m
  {}

  lemma PlaySnoc(m: Store, ops: seq<Op>, op: Op)
    ensures Play(m, ops + [op]) == Apply(Play(m, ops), op)
  {
    assert (ops + [op])[..|ops|] == ops;
  }

  lemma OpsSnoc(log: seq<LogOp>, j: nat)
    requires log != [] && j <= |log| - 1
    ensures var n := |log| - 1; Ops(log)[j..] == Ops(log[..n])[j..] + [log[n].op]
  {}

  /** The log of a history from its `f`-th write on, as replay takes it; ids start
      at 2. */
  function LogFrom(ops: seq<Op>, f: nat): (log: seq<LogOp>)
    requires f <= |ops|
    ensures |log| == |ops| - f && forall i | 0 <= i < |log| :: log[i] == LogOp(f + 2 + i, Seen(ops[f + i]))
  {
    seq(|ops| - f, i requires 0 <= i < |ops| - f => LogOp(f + 2 + i, Seen(ops[f + i])))
  }

  /** What starting up makes of a checkpoint with id `id` and the map after `c`
      writes, and a log from the `f`-th write on. */
  function Rebuild(ops: seq<Op>, id: nat, c: nat, f: nat): Store
    requires c <= |ops| && f <= |ops|
  {
    Replay(Play(map[], ops[..c]), id, LogFrom(ops, f)).0
  }

  lemma {:induction false} RebuildWhole(ops: seq<Op>, id: nat, c: nat, f: nat)
    requires f <= c <= |ops| && id <= c + 2 && forall op | op in ops :: ZeroFree(op)
    ensures Rebuild(ops, id, c, f) == Play(map[], ops)
  {
    hide Play, Replay, CString;
    var log := LogFrom(ops, f);
    ReplaySkips(Play(map[], ops[..c]), id, log, f + 2);
    var j := if id <= f + 2 then 0 else if id - f - 2 < |log| then id - f - 2 else |log|;
    assert Ops(log)[j..] == ops[f + j..] by {
      forall i | f + j <= i < |ops| ensures Seen(ops[i]) == ops[i] {
        assert ops[i] in ops;
        CStringExact(ops[i].key);
      }
    }
    ReplayIdempotent(ops, f + j, c);
  }

  /** Starting up rebuilds the map of every history of that length exactly if the
      log reaches back to the snapshot, even where the snapshot is newer than the
      id recorded with it. */
  lemma {:induction false} RebuildExact(len: nat, id: nat, c: nat, f: nat)
    requires c <= len && f <= len && id <= c + 2
    ensures (forall ops: seq<Op> | |ops| == len && (forall op | op in ops :: ZeroFree(op)) ::
               Rebuild(ops, id, c, f) == Play(map[], ops)) <==> f <= c
  {
    if f <= c {
      forall ops: seq<Op> | |ops| == len && forall op | op in ops :: ZeroFree(op)
        ensures Rebuild(ops, id, c, f) == Play(map[], ops)
      {
        RebuildWhole(ops, id, c, f);
      }
    } else {
      LostWrite(len, id, c, f);
    }
  }

  /** A key written once, at position `c`. */
  function OneWrite(len: nat, c: nat): (ops: seq<Op>)
    ensures |ops| == len && forall i | 0 <= i < len :: ops[i] == Put(if i == c then [1] else [2], [])
  {
    seq(len, i => Put(if i == c then [1] else [2], []))
  }

  lemma {:induction false} LostWrite(len: nat, id: nat, c: nat, f: nat)
    requires c < f <= len
    ensures var ops := OneWrite(len, c);
            (forall op | op in ops :: ZeroFree(op)) && Rebuild(ops, id, c, f) != Play(map[], ops)
  {
    hide Play;
    var ops, k: Key := OneWrite(len, c), [1];
    var snap, log := Play(map[], ops[..c]), LogFrom(ops, f);
    OneWriteKept(len, c);
    ReplaySkips(snap, id, log, f + 2);
    var j := if id <= f + 2 then 0 else if id - f - 2 < |log| then id - f - 2 else |log|;
    var tail := Ops(log)[j..];
    assert !Touches(tail, k) by {
      forall i | 0 <= i < |tail| ensures tail[i].key != k {
        assert tail[i] == log[j + i].op == Seen(ops[f + j + i]);
      }
    }
    Untouched(snap, tail, k);
  }

  lemma {:induction false} OneWriteKept(len: nat, c: nat)
    requires c < len
    ensures var ops := OneWrite(len, c);
            [1] in Play(map[], ops) && Lookup(Play(map[], ops[..c]), [1]) == None
  {
    var ops, k: Key := OneWrite(len, c), [1];
    Untouched(map[], ops[..c], k);
    assert ops == ops[..c + 1] + ops[c + 1..] && ops[..c + 1][..c] == ops[..c];
    PlayConcat(map[], ops[..c + 1], ops[c + 1..]);
    Untouched(Play(map[], ops[..c + 1]), ops[c + 1..], k);
    assert Play(map[], ops[..c + 1]) == Apply(Play(map[], ops[..c]), ops[c]);
  }
}
