/** The self-checking record format shared by log segments and checkpoint
    files, its one-pass parse, and the batched loader with carry-over.

    A file is a four-byte magic number followed by records, each
    `length(4) version(1) id(idLen) content(length) start(4)`, where `start`
    is the file offset at which the record begins. */
module Records {
  import opened Codec
  import opened Common

  /** Log segments carry an eight-byte entry id, checkpoint files none. */
  datatype Format = Format(magic: nat, idLen: nat) {
    ghost predicate Valid() { magic < U32 && idLen <= 8 }
    const HeaderLen: nat := 5 + idLen
    const ExtraLen: nat := 9 + idLen
  }

  const WAL_FORMAT := Format(0x736d6c67, 8)
  const CHECKPOINT_FORMAT := Format(0x736d6370, 0)

  datatype Record = Record(version: byte, id: nat, content: seq<byte>)

  datatype Parsed = Parsed(recs: seq<Record>, code: Code, stop: nat)

  // ---------------------------------------------------------------- writing

  ghost predicate Writable(f: Format, r: Record) {
    |r.content| < U32 && r.id < Pow256(f.idLen)
  }

  ghost predicate Loadable(f: Format, isEntry: seq<byte> -> bool, recs: seq<Record>) {
    forall r <- recs :: Writable(f, r) && isEntry(r.content)
  }

  function RecordSize(f: Format, r: Record): nat { f.ExtraLen + |r.content| }

  function RecordBytes(f: Format, r: Record, at: nat): (s: seq<byte>)
    ensures |s| == RecordSize(f, r)
  {
    Enc(|r.content|, 4) + [r.version] + Enc(r.id, f.idLen) + r.content + Enc(at, 4)
  }

  function BodyBytes(f: Format, recs: seq<Record>, at: nat): (s: seq<byte>) {
    if recs == [] then []
    else RecordBytes(f, recs[0], at) + BodyBytes(f, recs[1..], at + RecordSize(f, recs[0]))
  }

  function FileBytes(f: Format, recs: seq<Record>): (s: seq<byte>)
    ensures |s| >= 4
  {
    Enc(f.magic, 4) + BodyBytes(f, recs, 4)
  }

  lemma {:induction false} BodySnoc(f: Format, recs: seq<Record>, r: Record, at: nat)
    ensures BodyBytes(f, recs + [r], at) ==
            BodyBytes(f, recs, at) + RecordBytes(f, r, at + |BodyBytes(f, recs, at)|)
    decreases |recs|
  {
    hide RecordBytes, Enc;
    if recs == [] {
      assert recs + [r] == [r] && [r][1..] == [];
      assert BodyBytes(f, [r], at) == RecordBytes(f, r, at) + [];
    } else {
      assert (recs + [r])[1..] == recs[1..] + [r];
      BodySnoc(f, recs[1..], r, at + RecordSize(f, recs[0]));
    }
  }

  /** Appending a record to a file is appending its bytes, stamped with the
      length the file had. */
  lemma {:induction false} FileSnoc(f: Format, recs: seq<Record>, r: Record)
    ensures FileBytes(f, recs + [r]) == FileBytes(f, recs) + RecordBytes(f, r, |FileBytes(f, recs)|)
  {
    hide RecordBytes, BodyBytes, Enc;
    BodySnoc(f, recs, r, 4);
  }

  /** Fills a buffer field by field, as both writers do. */
  method BuildRecord(f: Format, r: Record, at: nat) returns (buf: array<byte>)
    requires f.Valid() && f.idLen in {0, 8} && Writable(f, r) && at < U32
    ensures fresh(buf) && buf[..] == RecordBytes(f, r, at)
  {
    hide Enc, Pow256;
    var n := |r.content|;
    buf := new byte[RecordSize(f, r)];
    WriteUInt32(buf, 0, n);
    assert buf[..4] == Enc(n, 4);
    buf[4] := r.version;
    assert buf[..5] == Enc(n, 4) + [r.version];
    if f.idLen == 8 {
      Widths();
      WriteUInt64(buf, 5, r.id);
    }
    assert buf[..f.HeaderLen] == Enc(n, 4) + [r.version] + Enc(r.id, f.idLen);
    ghost var head := buf[..f.HeaderLen];
    Copy(buf, f.HeaderLen, r.content);
    assert buf[..f.HeaderLen + n] == head + r.content;
    WriteUInt32(buf, f.HeaderLen + n, at);
    assert buf[..f.HeaderLen + n] == head + r.content;
  }

  lemma OneRecord(f: Format, r: Record)
    ensures FileBytes(f, [r]) == Enc(f.magic, 4) + RecordBytes(f, r, 4)
  {
    assert [r][1..] == [];
    assert BodyBytes(f, [r], 4) == RecordBytes(f, r, 4) + [];
  }

  /** The two formats on disk, byte by byte: big-endian magic number, length, version,
      id in log segments only, content, and the offset the record begins at. */
  lemma {:induction false} OnDisk(version: byte, a: byte, b: byte)
    ensures FileBytes(WAL_FORMAT, []) == [0x73, 0x6d, 0x6c, 0x67]
    ensures FileBytes(CHECKPOINT_FORMAT, []) == [0x73, 0x6d, 0x63, 0x70]
    ensures FileBytes(WAL_FORMAT, [Record(version, 0x102, [a, b])]) ==
            [0x73, 0x6d, 0x6c, 0x67, 0, 0, 0, 2, version, 0, 0, 0, 0, 0, 0, 1, 2, a, b, 0, 0, 0, 4]
    ensures FileBytes(CHECKPOINT_FORMAT, [Record(version, 0x102, [a, b])]) ==
            [0x73, 0x6d, 0x63, 0x70, 0, 0, 0, 2, version, a, b, 0, 0, 0, 4]
  {
    hide Enc;
    var r := Record(version, 0x102, [a, b]);
    OneRecord(WAL_FORMAT, r);
    OneRecord(CHECKPOINT_FORMAT, r);
    BigEndian(0x73, 0x6d, 0x6c, 0x67);
    BigEndian(0x73, 0x6d, 0x63, 0x70);
    BigEndian(0, 0, 0, 2);
    BigEndian(0, 0, 0, 4);
    Enc8Low(0x102);
    BigEndian(0, 0, 1, 2);
    EncNone(0x102);
  }

  // ---------------------------------------------------------------- reading

  /** The length field at the front of `s`. */
  function Length(s: seq<byte>): (n: nat)
    requires 4 <= |s|
    ensures n < U32
  {
    Widths();
    Dec(s[..4])
  }

  predicate Holds(f: Format, s: seq<byte>) {
    f.ExtraLen <= |s| && f.ExtraLen + Length(s) <= |s|
  }

  function FirstRecord(f: Format, s: seq<byte>): (r: Record)
    requires Holds(f, s)
    ensures |r.content| == Length(s)
  {
    Record(s[4], Dec(s[5..f.HeaderLen]), s[f.HeaderLen..f.HeaderLen + Length(s)])
  }

  function StartField(f: Format, s: seq<byte>): nat
    requires Holds(f, s)
  {
    Dec(s[f.HeaderLen + Length(s)..f.ExtraLen + Length(s)])
  }

  /** One pass over what follows offset `at` of a file, in unbounded arithmetic:
      stop at the first record that does not fit, does not name its own offset,
      or whose content is not an entry. */
  function Parse(f: Format, isEntry: seq<byte> -> bool, s: seq<byte>, at: nat): (p: Parsed)
    ensures at <= p.stop <= at + |s|
    ensures p.code == OK <==> p.stop == at + |s|
    ensures p.code != OutOfBounds
    decreases |s|
  {
    if s == [] then Parsed([], OK, at)
    else if !Holds(f, s) || StartField(f, s) != at then Parsed([], FileCorrupt, at)
    else
      var r := FirstRecord(f, s);
      if !isEntry(r.content) then Parsed([], DecodeEntryError, at)
      else Follow(r, Parse(f, isEntry, s[RecordSize(f, r)..], at + RecordSize(f, r)))
  }

  lemma {:induction false} ParseTakes(f: Format, isEntry: seq<byte> -> bool, s: seq<byte>, at: nat)
    requires Holds(f, s) && StartField(f, s) == at && isEntry(FirstRecord(f, s).content)
    ensures var r := FirstRecord(f, s); var n := RecordSize(f, r);
            Parse(f, isEntry, s, at) == Follow(r, Parse(f, isEntry, s[n..], at + n))
  {}

  lemma {:induction false} ParseRejects(f: Format, isEntry: seq<byte> -> bool, s: seq<byte>, at: nat)
    requires s != [] && (Holds(f, s) ==> StartField(f, s) != at)
    ensures Parse(f, isEntry, s, at) == Parsed([], FileCorrupt, at)
  {}

  lemma {:induction false} ParseAccepts(f: Format, isEntry: seq<byte> -> bool, s: seq<byte>, at: nat)
    requires s != [] && Parse(f, isEntry, s, at).code == OK
    ensures Holds(f, s) && StartField(f, s) == at && isEntry(FirstRecord(f, s).content)
  {}

  lemma {:induction false} ParseDeclines(f: Format, isEntry: seq<byte> -> bool, s: seq<byte>, at: nat)
    requires Holds(f, s) && StartField(f, s) == at && !isEntry(FirstRecord(f, s).content)
    ensures Parse(f, isEntry, s, at) == Parsed([], DecodeEntryError, at)
  {}

  function Follow(r: Record, p: Parsed): Parsed { Parsed([r] + p.recs, p.code, p.stop) }

  function ParseFile(f: Format, isEntry: seq<byte> -> bool, file: seq<byte>): (p: Parsed)
    ensures p.stop <= |file|
  {
    if |file| < 4 || Dec(file[..4]) != f.magic then Parsed([], FileCorrupt, 0)
    else Parse(f, isEntry, file[4..], 4)
  }

  // ------------------------------------------------- writer and parser agree

  lemma {:induction false} FiveParts(a: seq<byte>, b: seq<byte>, c: seq<byte>, d: seq<byte>, e: seq<byte>, t: seq<byte>)
    ensures var s := a + b + c + d + e + t; var i := |a|; var j := i + |b|; var k := j + |c|; var l := k
              + |d|; var m := l + |e|;
            s[..i] == a && s[i..j] == b && s[j..k] == c && s[k..l] == d && s[l..m] == e && s[m..] == t
  {}

  /** A record just written is read back. */
  lemma {:induction false} ReadWritten(f: Format, r: Record, at: nat, tail: seq<byte>)
    requires Writable(f, r) && at < U32
    ensures var s := RecordBytes(f, r, at) + tail;
            && Holds(f, s) && FirstRecord(f, s) == r && StartField(f, s) == at
            && s[RecordSize(f, r)..] == tail
  {
    var n := |r.content|;
    FiveParts(Enc(n, 4), [r.version], Enc(r.id, f.idLen), r.content, Enc(at, 4), tail);
    RoundTrip32(n);
    RoundTrip32(at);
    DecEnc(r.id, f.idLen);
    var s := RecordBytes(f, r, at) + tail;
    assert s[4..5] == [r.version];
  }

  lemma {:induction false} ParseFirst(f: Format, isEntry: seq<byte> -> bool, r: Record, at: nat, tail: seq<byte>)
    requires Writable(f, r) && isEntry(r.content) && at < U32
    ensures Parse(f, isEntry, RecordBytes(f, r, at) + tail, at) ==
            Follow(r, Parse(f, isEntry, tail, at + RecordSize(f, r)))
  {
    hide Enc, Dec, Parse, RecordBytes, Holds, FirstRecord, StartField;
    ReadWritten(f, r, at, tail);
    ParseTakes(f, isEntry, RecordBytes(f, r, at) + tail, at);
  }

  /** Parsing a written body gives its records back and goes on behind it. */
  lemma {:induction false} ParseWritten(f: Format, isEntry: seq<byte> -> bool, recs: seq<Record>, at: nat,
        tail: seq<byte>)
    requires Loadable(f, isEntry, recs)
    requires at + |BodyBytes(f, recs, at)| < U32
    ensures var body := BodyBytes(f, recs, at);
            var q := Parse(f, isEntry, tail, at + |body|);
            Parse(f, isEntry, body + tail, at) == Parsed(recs + q.recs, q.code, q.stop)
    decreases |recs|
  {
    hide Enc, Dec, Pow256, RecordBytes, Parse;
    var body := BodyBytes(f, recs, at);
    var q := Parse(f, isEntry, tail, at + |body|);
    if recs == [] {
      assert body == [] && body + tail == tail;
      assert recs + q.recs == q.recs;
    } else {
      var first, next := RecordBytes(f, recs[0], at), at + RecordSize(f, recs[0]);
      var rest := BodyBytes(f, recs[1..], next);
      assert body + tail == first + (rest + tail);
      ParseFirst(f, isEntry, recs[0], at, rest + tail);
      ParseWritten(f, isEntry, recs[1..], next, tail);
      assert [recs[0]] + (recs[1..] + q.recs) == recs + q.recs;
    }
  }

  lemma {:induction false} SplitMagic(f: Format, body: seq<byte>)
    requires f.Valid()
    ensures var file := Enc(f.magic, 4) + body; Dec(file[..4]) == f.magic && file[4..] == body
  {
    RoundTrip32(f.magic);
    assert (Enc(f.magic, 4) + body)[..4] == Enc(f.magic, 4);
  }

  /** Loading a written file gives back exactly what was written. */
  lemma {:induction false} WriteThenParse(f: Format, isEntry: seq<byte> -> bool, recs: seq<Record>)
    requires f.Valid() && |FileBytes(f, recs)| < U32
    requires Loadable(f, isEntry, recs)
    ensures ParseFile(f, isEntry, FileBytes(f, recs)) == Parsed(recs, OK, |FileBytes(f, recs)|)
  {
    hide Enc, Dec, Pow256;
    SplitMagic(f, BodyBytes(f, recs, 4));
    ParseWritten(f, isEntry, recs, 4, []);
    assert BodyBytes(f, recs, 4) + [] == BodyBytes(f, recs, 4);
    assert recs + [] == recs;
  }

  lemma {:induction false} SplitRecord(f: Format, s: seq<byte>)
    requires Holds(f, s)
    ensures var r := FirstRecord(f, s);
            Writable(f, r) && s == RecordBytes(f, r, StartField(f, s)) + s[RecordSize(f, r)..]
  {
    hide Enc, Dec;
    var h, n := f.HeaderLen, Length(s);
    EncDec(s[..4]);
    EncDec(s[5..h]);
    EncDec(s[h + n..h + n + 4]);
    assert s == s[..4] + [s[4]] + s[5..h] + s[h..h + n] + s[h + n..h + n + 4] + s[h + n + 4..];
  }

  lemma AtEmpty(f: Format, isEntry: seq<byte> -> bool, at: nat)
    ensures Parse(f, isEntry, [], at) == Parsed([], OK, at)
  {}

  /** The parse accepts nothing but written bytes: an accepted suffix is the
      encoding of the records it yields, byte for byte. */
  lemma {:induction false} ParseThenWrite(f: Format, isEntry: seq<byte> -> bool, s: seq<byte>, at: nat)
    requires Parse(f, isEntry, s, at).code == OK
    ensures var recs := Parse(f, isEntry, s, at).recs;
            s == BodyBytes(f, recs, at) && Loadable(f, isEntry, recs)
    decreases |s|
  {
    hide Enc, Dec, Pow256, RecordBytes, Parse;
    if s == [] {
      AtEmpty(f, isEntry, at);
    } else {
      ParseAccepts(f, isEntry, s, at);
      ParseTakes(f, isEntry, s, at);
      var r := FirstRecord(f, s);
      var n := RecordSize(f, r);
      SplitRecord(f, s);
      ParseThenWrite(f, isEntry, s[n..], at + n);
      var recs := Parse(f, isEntry, s, at).recs;
      assert recs[0] == r && recs[1..] == Parse(f, isEntry, s[n..], at + n).recs;
    }
  }

  lemma {:induction false} AcceptedIsWritten(f: Format, isEntry: seq<byte> -> bool, file: seq<byte>)
    requires ParseFile(f, isEntry, file).code == OK
    ensures var recs := ParseFile(f, isEntry, file).recs; FileBytes(f, recs) == file && Loadable(f, isEntry, recs)
  {
    hide Enc, Dec, Parse, BodyBytes, Loadable;
    ParseThenWrite(f, isEntry, file[4..], 4);
    EncDec(file[..4]);
    assert file == file[..4] + file[4..];
  }

  /** The loaders' language is exactly the writers' image. */
  lemma {:induction false} AcceptedFilesAreWritten(f: Format, isEntry: seq<byte> -> bool, file: seq<byte>)
    requires f.Valid() && |file| < U32
    ensures ParseFile(f, isEntry, file).code == OK <==>
            exists recs: seq<Record> :: FileBytes(f, recs) == file && Loadable(f, isEntry, recs)
  {
    hide FileBytes, ParseFile;
    if ParseFile(f, isEntry, file).code == OK {
      AcceptedIsWritten(f, isEntry, file);
    }
    forall recs: seq<Record> | FileBytes(f, recs) == file && Loadable(f, isEntry, recs)
      ensures ParseFile(f, isEntry, file).code == OK
    {
      WriteThenParse(f, isEntry, recs);
    }
  }

  // ---------------------------------------------------------- torn last write

  lemma {:induction false} TornRecord(f: Format, isEntry: seq<byte> -> bool, r: Record, at: nat, cut: nat)
    requires Writable(f, r) && 0 < cut < RecordSize(f, r)
    ensures Parse(f, isEntry, RecordBytes(f, r, at)[..cut], at) == Parsed([], FileCorrupt, at)
  {
    var bytes := RecordBytes(f, r, at);
    if cut >= f.ExtraLen {
      assert bytes[..cut][..4] == Enc(|r.content|, 4);
      RoundTrip32(|r.content|);
    }
  }

  /** A write cut short anywhere inside the last record is noticed, and every
      record before it is still read. */
  lemma {:induction false} TornTail(f: Format, isEntry: seq<byte> -> bool, recs: seq<Record>, r: Record, cut: nat)
    requires f.Valid() && Writable(f, r) && |FileBytes(f, recs)| < U32
    requires Loadable(f, isEntry, recs)
    requires 0 < cut < RecordSize(f, r)
    ensures var whole := FileBytes(f, recs);
            ParseFile(f, isEntry, whole + RecordBytes(f, r, |whole|)[..cut]) == Parsed(recs, FileCorrupt, |whole|)
  {
    hide Enc, Dec, Parse, BodyBytes;
    var whole, body := FileBytes(f, recs), BodyBytes(f, recs, 4);
    var torn := RecordBytes(f, r, |whole|)[..cut];
    assert whole + torn == Enc(f.magic, 4) + (body + torn);
    SplitMagic(f, body + torn);
    ParseWritten(f, isEntry, recs, 4, torn);
    TornRecord(f, isEntry, r, |whole|, cut);
    assert recs + [] == recs;
  }

  // ------------------------------------------------------- the batched loader

  /** The loader adds the field sizes to the length in 32 bits.  Where the sum
      wraps, the record looks short enough, and unless the four bytes it then
      takes for the start offset differ from the real one the loader leaves its
      buffer. */
  predicate RunsWild(f: Format, s: seq<byte>, at: nat) {
    && f.HeaderLen <= |s|
    && var n := Length(s);
       && U32 <= n + f.ExtraLen <= U32 + |s|
       && (U32 <= n + f.HeaderLen ==>
             var k := n + f.HeaderLen - U32; Dec(s[k..k + 4]) == at)
  }

  /** What the loader answers, given the one-pass parse of the same bytes. */
  function Verdict(f: Format, s: seq<byte>, at: nat, p: Parsed): (c: Code)
    requires at <= p.stop <= at + |s|
    ensures c == OK <==> p.code == OK
  {
    if p.code == FileCorrupt && p.stop - at < |s| && RunsWild(f, s[p.stop - at..], p.stop) then OutOfBounds else p.code
  }

  function FileVerdict(f: Format, isEntry: seq<byte> -> bool, file: seq<byte>): (c: Code)
    ensures c == OK <==> ParseFile(f, isEntry, file).code == OK
  {
    if |file| < 4 || Dec(file[..4]) != f.magic then FileCorrupt
    else Verdict(f, file[4..], 4, Parse(f, isEntry, file[4..], 4))
  }

  /** A length field of 2^32 - 17 is enough: with the other fields the sum is 0. */
  lemma {:induction false} WildLength(isEntry: seq<byte> -> bool, rest: seq<byte>)
    requires |rest| >= 9 && |rest| + 8 < U32
    ensures FileVerdict(WAL_FORMAT, isEntry, Enc(WAL_FORMAT.magic, 4) + (Enc(U32 - 17, 4) + rest)) == OutOfBounds
  {
    hide Enc, Dec;
    var body := Enc(U32 - 17, 4) + rest;
    SplitMagic(WAL_FORMAT, body);
    RoundTrip32(U32 - 17);
    assert body[..4] == Enc(U32 - 17, 4) && Length(body) == U32 - 17;
    ParseRejects(WAL_FORMAT, isEntry, body, 4);
    assert body[0..] == body;
  }

  /** Too few bytes for a record, by the loader's own 32-bit sum. */
  predicate Waiting(f: Format, b: seq<byte>) {
    |b| < f.HeaderLen || |b| < (f.ExtraLen + Length(b)) % U32
  }

  datatype Step = Wait | Fail(code: Code) | Take(rec: Record)

  /** One turn of the loader's inner loop, on the unread part `b` of its buffer,
      with the 32-bit sums written out. */
  function ScanStep(f: Format, isEntry: seq<byte> -> bool, b: seq<byte>, at: nat, last: bool): (t: Step) {
    var wait := if last then Fail(FileCorrupt) else Wait;
    if Waiting(f, b) then wait
    else
      var start := (f.HeaderLen + Length(b)) % U32;
      if start + 4 > |b| then Fail(OutOfBounds)
      else if Dec(b[start..start + 4]) != at then Fail(FileCorrupt)
      else if !Holds(f, b) then Fail(OutOfBounds)
      else if !isEntry(FirstRecord(f, b).content) then Fail(DecodeEntryError)
      else Take(FirstRecord(f, b))
  }

  /** The step sees only a prefix `b` of what is left of the file; a record it
      takes is the one the one-pass parse takes. */
  lemma {:induction false} ScanTakes(f: Format, isEntry: seq<byte> -> bool, b: seq<byte>, tail: seq<byte>, at: nat,
        last: bool)
    requires f.Valid() && |b| + |tail| < U32
    requires ScanStep(f, isEntry, b, at, last).Take?
    ensures var r := ScanStep(f, isEntry, b, at, last).rec; var n := RecordSize(f, r);
            n <= |b| && Parse(f, isEntry, b + tail, at) == Follow(r, Parse(f, isEntry, b[n..] + tail, at + n))
  {
    hide Dec, Parse;
    PrefixRecord(f, b, tail);
    ParseTakes(f, isEntry, b + tail, at);
  }

  /** A step that fails gives the verdict on the whole rest of the file. */
  lemma {:induction false} ScanFails(f: Format, isEntry: seq<byte> -> bool, b: seq<byte>, tail: seq<byte>, at: nat,
        last: bool)
    requires f.Valid() && b != [] && |b| + |tail| < U32 && (last ==> tail == [])
    requires ScanStep(f, isEntry, b, at, last).Fail?
    ensures var s := b + tail; var p, c := Parse(f, isEntry, s, at), ScanStep(f, isEntry, b, at, last).code;
            p.recs == [] && c != OK && c == Verdict(f, s, at, p)
  {
    hide Dec, Enc, Parse, ScanStep, RunsWild, Holds, FirstRecord, StartField;
    var s := b + tail;
    if Holds(f, b) {
      ScanFailsWhole(f, isEntry, b, at, last);
      PrefixRecord(f, b, tail);
      if StartField(f, b) != at {
        ParseRejects(f, isEntry, s, at);
        NoWrap(f, s, at);
      } else {
        ParseDeclines(f, isEntry, s, at);
      }
    } else {
      ScanFailsShort(f, isEntry, b, tail, at, last);
      ParseRejects(f, isEntry, s, at);
    }
    assert s[0..] == s;
  }

  lemma NoWrap(f: Format, s: seq<byte>, at: nat)
    requires Holds(f, s) && |s| < U32
    ensures !RunsWild(f, s, at)
  {}

  lemma {:induction false} ScanFailsWhole(f: Format, isEntry: seq<byte> -> bool, b: seq<byte>, at: nat, last: bool)
    requires |b| < U32 && ScanStep(f, isEntry, b, at, last).Fail? && Holds(f, b)
    ensures var code := ScanStep(f, isEntry, b, at, last).code;
            if StartField(f, b) != at then code == FileCorrupt
            else code == DecodeEntryError && !isEntry(FirstRecord(f, b).content)
  {
    hide Dec, Enc;
  }

  lemma {:induction false} ScanFailsShort(f: Format, isEntry: seq<byte> -> bool, b: seq<byte>, tail: seq<byte>,
        at: nat, last: bool)
    requires f.Valid() && b != [] && |b| + |tail| < U32 && (last ==> tail == [])
    requires ScanStep(f, isEntry, b, at, last).Fail? && !Holds(f, b)
    ensures var s := b + tail;
            !Holds(f, s) && ScanStep(f, isEntry, b, at, last).code == if RunsWild(f, s, at) then OutOfBounds
                else FileCorrupt
  {
    hide Dec, Enc;
    var s := b + tail;
    if last {
      assert s == b;
    }
    if |b| >= f.HeaderLen {
      assert s[..4] == b[..4];
      var n := Length(b);
      Wraps(f.ExtraLen + n);
      Wraps(f.HeaderLen + n);
      var start := (f.HeaderLen + n) % U32;
      if start + 4 <= |b| {
        assert s[start..start + 4] == b[start..start + 4];
      }
    }
  }

  lemma Wraps(x: nat)
    requires x < 2 * U32
    ensures x % U32 == if x < U32 then x else x - U32
  {}

  lemma {:induction false} PrefixRecord(f: Format, b: seq<byte>, tail: seq<byte>)
    requires Holds(f, b)
    ensures var s := b + tail;
            && Holds(f, s) && FirstRecord(f, s) == FirstRecord(f, b) && StartField(f, s) == StartField(f, b)
            && s[f.ExtraLen + Length(b)..] == b[f.ExtraLen + Length(b)..] + tail
  {
    var s, n := b + tail, Length(b);
    assert s[..4] == b[..4];
    assert s[5..f.HeaderLen] == b[5..f.HeaderLen];
    assert s[f.HeaderLen..f.HeaderLen + n] == b[f.HeaderLen..f.HeaderLen + n];
    assert s[f.HeaderLen + n..f.ExtraLen + n] == b[f.HeaderLen + n..f.ExtraLen + n];
  }

  datatype Scan = More(offset: nat) | Stop(code: Code)

  ghost predicate Prefixed(recs: seq<Record>, p: Parsed, q: Parsed) {
    p == Parsed(recs + q.recs, q.code, q.stop)
  }

  lemma PrefixedFollow(recs: seq<Record>, r: Record, p: Parsed, q: Parsed)
    requires Prefixed(recs, p, Follow(r, q))
    ensures Prefixed(recs + [r], p, q)
  {
    assert recs + ([r] + q.recs) == recs + [r] + q.recs;
  }

  lemma PrefixedMore(a: seq<Record>, b: seq<Record>, p: Parsed, q: Parsed, r: Parsed)
    requires Prefixed(a, p, q) && Prefixed(b, q, r)
    ensures Prefixed(a + b, p, r)
  {
    assert a + (b + r.recs) == a + b + r.recs;
  }

  /** The inner loop: take whole records off the front of the buffer.  `tail` is
      the part of the file not read yet. */
  method ScanBatch(f: Format, isEntry: seq<byte> -> bool, buffer: seq<byte>, at: nat, last: bool, ghost tail: seq<byte>)
    returns (scan: Scan, recs: seq<Record>)
    requires f.Valid() && |buffer| + |tail| < U32 && (last ==> tail == [])
    ensures var p := Parse(f, isEntry, buffer + tail, at);
            match scan
            case More(n) =>
              && n <= |buffer| && (n == |buffer| || (!last && Waiting(f, buffer[n..])))
              && Prefixed(recs, p, Parse(f, isEntry, buffer[n..] + tail, at + n))
            case Stop(code) =>
              && code != OK && recs == p.recs && code == Verdict(f, buffer + tail, at, p)
  {
    hide Dec, Enc, Parse, ScanStep, Verdict;
    ghost var p := Parse(f, isEntry, buffer + tail, at);
    var offset := 0;
    recs := [];
    assert buffer[0..] == buffer;
    while offset < |buffer|
      invariant offset <= |buffer|
      invariant Prefixed(recs, p, Parse(f, isEntry, buffer[offset..] + tail, at + offset))
    {
      ghost var rest := buffer[offset..] + tail;
      var t := ScanStep(f, isEntry, buffer[offset..], at + offset, last);
      match t {
        case Wait =>
          WaitsOnlyForMore(f, isEntry, buffer[offset..], at + offset, last);
          return More(offset), recs;
        case Fail(code) =>
          ScanFails(f, isEntry, buffer[offset..], tail, at + offset, last);
          assert (buffer + tail)[offset..] == rest;
          VerdictOfRest(f, isEntry, buffer + tail, offset, at, recs);
          assert recs + [] == recs;
          return Stop(code), recs;
        case Take(r) =>
          ScanTakes(f, isEntry, buffer[offset..], tail, at + offset, last);
          var n := RecordSize(f, r);
          assert buffer[offset..][n..] == buffer[offset + n..];
          PrefixedFollow(recs, r, p, Parse(f, isEntry, buffer[offset + n..] + tail, at + offset + n));
          recs, offset := recs + [r], offset + n;
      }
    }
    return More(offset), recs;
  }

  lemma WaitsOnlyForMore(f: Format, isEntry: seq<byte> -> bool, b: seq<byte>, at: nat, last: bool)
    requires ScanStep(f, isEntry, b, at, last).Wait?
    ensures !last && Waiting(f, b)
  {}

  lemma {:induction false} VerdictOfRest(f: Format, isEntry: seq<byte> -> bool, s: seq<byte>, k: nat, at: nat,
        recs: seq<Record>)
    requires k <= |s|
    requires Prefixed(recs, Parse(f, isEntry, s, at), Parse(f, isEntry, s[k..], at + k))
    ensures Verdict(f, s, at, Parse(f, isEntry, s, at)) == Verdict(f, s[k..], at + k, Parse(f, isEntry, s[k..], at + k))
  {
    hide Dec, RunsWild;
    var p := Parse(f, isEntry, s, at);
    assert s[p.stop - at..] == s[k..][p.stop - at - k..];
  }

  lemma {:induction false} AtEnd(f: Format, isEntry: seq<byte> -> bool, b: seq<byte>, at: nat)
    requires |b| < U32 && (b == [] || Waiting(f, b))
    ensures var p := Parse(f, isEntry, b, at);
            p.recs == [] && Verdict(f, b, at, p) == if b == [] then OK else FileCorrupt
  {
    hide Dec, Parse, Holds, RunsWild, Waiting, StartField;
    if b == [] {
      AtEmpty(f, isEntry, at);
    } else {
      WaitingIsShort(f, b, at);
      ParseRejects(f, isEntry, b, at);
      assert b[0..] == b;
    }
  }

  lemma WaitingIsShort(f: Format, b: seq<byte>, at: nat)
    requires |b| < U32 && Waiting(f, b)
    ensures !Holds(f, b) && !RunsWild(f, b, at)
  {
    hide Dec;
  }

  /** The parse of `body` is `seen` and then that of what follows `done`. */
  ghost predicate Reached(f: Format, isEntry: seq<byte> -> bool, body: seq<byte>, done: nat, seen: seq<Record>) {
    && done <= |body|
    && Prefixed(seen, Parse(f, isEntry, body, 4), Parse(f, isEntry, body[done..], 4 + done))
  }

  lemma {:induction false} Advance(f: Format, isEntry: seq<byte> -> bool, body: seq<byte>, done: nat, pos: nat, k: nat,
                                   seen: seq<Record>, recs: seq<Record>)
    requires done + k <= pos <= |body| && Reached(f, isEntry, body, done, seen)
    requires Prefixed(recs, Parse(f, isEntry, body[done..pos] + body[pos..], 4 + done),
                            Parse(f, isEntry, body[done..pos][k..] + body[pos..], 4 + done + k))
    ensures Reached(f, isEntry, body, done + k, seen + recs) && body[done..pos][k..] == body[done + k..pos]
  {
    hide Parse;
    assert body[done..] == body[done..pos] + body[pos..];
    assert body[done + k..] == body[done..pos][k..] + body[pos..];
    PrefixedMore(seen, recs, Parse(f, isEntry, body, 4), Parse(f, isEntry, body[done..], 4 + done),
                 Parse(f, isEntry, body[done + k..], 4 + done + k));
  }

  lemma {:induction false} Conclude(f: Format, isEntry: seq<byte> -> bool, body: seq<byte>, done: nat,
        seen: seq<Record>)
    requires Reached(f, isEntry, body, done, seen)
    ensures var p, q := Parse(f, isEntry, body, 4), Parse(f, isEntry, body[done..], 4 + done);
            p.recs == seen + q.recs && Verdict(f, body, 4, p) == Verdict(f, body[done..], 4 + done, q)
  {
    hide Parse, Verdict;
    VerdictOfRest(f, isEntry, body, done, 4, seen);
  }

  /** One batch, with what was left of the one before it in front. */
  method LoadBatch(f: Format, isEntry: seq<byte> -> bool, buffer: seq<byte>, at: nat, last: bool,
                   ghost body: seq<byte>, ghost pos: nat, ghost seen: seq<Record>)
    returns (scan: Scan, recs: seq<Record>)
    requires f.Valid() && |body| < U32 && 4 <= at <= 4 + pos && pos <= |body| && buffer == body[at - 4..pos]
    requires (last ==> pos == |body|) && Reached(f, isEntry, body, at - 4, seen)
    ensures scan.More? ==>
              var n := scan.offset;
              && n <= |buffer| && buffer[n..] == body[at - 4 + n..pos]
              && (n == |buffer| || (!last && Waiting(f, buffer[n..])))
              && Reached(f, isEntry, body, at - 4 + n, seen + recs)
    ensures scan.Stop? ==>
              var p := Parse(f, isEntry, body, 4);
              scan.code != OK && scan.code == Verdict(f, body, 4, p) && p.recs == seen + recs
  {
    hide Parse, Verdict, Waiting, Reached, Prefixed, Format.Valid;
    ghost var done := at - 4;
    assert body[done..] == buffer + body[pos..];
    scan, recs := ScanBatch(f, isEntry, buffer, at, last, body[pos..]);
    if scan.Stop? {
      Conclude(f, isEntry, body, done, seen);
    } else {
      Advance(f, isEntry, body, done, pos, scan.offset, seen, recs);
    }
  }

  /** The loop over batches, on what follows the magic number. */
  method LoadBody(f: Format, isEntry: seq<byte> -> bool, body: seq<byte>, batch: nat)
    returns (code: Code, delivered: seq<Record>, seen: seq<Record>)
    requires f.Valid() && 0 < batch && |body| + batch + 4 < U32
    ensures var p := Parse(f, isEntry, body, 4);
            && code == Verdict(f, body, 4, p)
            && seen == p.recs && delivered <= p.recs
            && (code == OK ==> delivered == p.recs)
  {
    hide Enc, Dec, Parse, Verdict, Waiting, Reached, Prefixed, Format.Valid;
    delivered, seen := [], [];
    var done, pos, carry := 0, 0, [];
    var more := true;
    Reaching(f, isEntry, body);
    while more
      invariant 0 <= done <= pos <= |body| && carry == body[done..pos]
      invariant if more then carry == [] || Waiting(f, carry) else done == |body|
      invariant seen == delivered && Reached(f, isEntry, body, done, seen)
      decreases |body| - pos, more
    {
      var nRead := if |body| - pos < batch then |body| - pos else batch;
      if nRead == 0 {
        assert body[done..] == carry;
        AllRead(f, isEntry, body, done, seen);
        code := if carry != [] then FileCorrupt else OK;
        return;
      }
      more := nRead == batch;
      var buffer := carry + body[pos..pos + nRead];
      pos := pos + nRead;
      Adjoin(body, done, pos - nRead, pos);
      var scan, recs := LoadBatch(f, isEntry, buffer, 4 + done, !more, body, pos, seen);
      if scan.Stop? {
        seen := seen + recs;
        code := scan.code;
        return;
      }
      done, carry := done + scan.offset, buffer[scan.offset..];
      seen, delivered := seen + recs, delivered + recs;
    }
    assert body[done..] == [];
    AllRead(f, isEntry, body, done, seen);
    code := OK;
  }

  lemma Adjoin(s: seq<byte>, i: nat, j: nat, k: nat)
    requires i <= j <= k <= |s|
    ensures s[i..j] + s[j..k] == s[i..k]
  {}

  lemma {:induction false} AllRead(f: Format, isEntry: seq<byte> -> bool, body: seq<byte>, done: nat, seen: seq<Record>)
    requires f.Valid() && |body| < U32 && done <= |body| && Reached(f, isEntry, body, done, seen)
    requires body[done..] == [] || Waiting(f, body[done..])
    ensures var p := Parse(f, isEntry, body, 4);
            p.recs == seen && Verdict(f, body, 4, p) == if body[done..] == [] then OK else FileCorrupt
  {
    hide Parse, Verdict, Waiting, Reached, Format.Valid;
    AtEnd(f, isEntry, body[done..], 4 + done);
    Conclude(f, isEntry, body, done, seen);
    assert seen + [] == seen;
  }

  lemma Reaching(f: Format, isEntry: seq<byte> -> bool, body: seq<byte>)
    ensures Reached(f, isEntry, body, 0, [])
  {
    hide Parse;
    assert body[0..] == body;
  }

  /** Reads the file `batch` bytes at a time; what is left of a batch is copied
      in front of the next.  `delivered` went to the callback, which runs once a
      batch is scanned; `seen` also counts the records of a batch that fails
      later on.  A batch size of zero reads nothing and calls that success. */
  method LoadBatched(f: Format, isEntry: seq<byte> -> bool, file: seq<byte>, batch: nat)
    returns (code: Code, delivered: seq<Record>, seen: seq<Record>)
    requires f.Valid() && |file| + batch < U32
    ensures batch > 0 ==>
              var p := ParseFile(f, isEntry, file);
              && code == FileVerdict(f, isEntry, file)
              && seen == p.recs
              && delivered <= p.recs
              && (code == OK ==> delivered == p.recs)
    ensures batch == 0 ==>
              && delivered == seen == []
              && code == if |file| < 4 || Dec(file[..4]) != f.magic then FileCorrupt else OK
  {
    hide Enc, Parse, Verdict, Dec;
    if |file| < 4 || Dec(file[..4]) != f.magic {
      return FileCorrupt, [], [];
    }
    if batch == 0 {
      return OK, [], [];
    }
    code, delivered, seen := LoadBody(f, isEntry, file[4..], batch);
  }

  // ------------------------------------------------------ backward lookup

  /** Bytes read into a zeroed buffer from a position that may lie beyond the end. */
  function ReadAt(file: seq<byte>, pos: nat, n: nat): (b: seq<byte>)
    ensures |b| == n
    ensures pos + n <= |file| ==> b == file[pos..pos + n]
  {
    seq(n, i requires 0 <= i => if pos + i < |file| then file[pos + i] else 0)
  }

  /** Finds the newest id of a log segment from its end: the last four bytes say
      where the last record starts. */
  method LoadSegmentMaxEntryId(file: seq<byte>, ghost isEntry: seq<byte> -> bool) returns (code: Code, id: nat)
    requires |file| < U32
    ensures var p := ParseFile(WAL_FORMAT, isEntry, file);
            p.code == OK ==>
              if p.recs == [] then code == FileCorrupt else code == OK && id == p.recs[|p.recs| - 1].id
  {
    hide Enc, Dec, RecordBytes, BodyBytes, Parse;
    id := 0;
    if |file| < 4 {
      return FileSystemError, id;
    }
    var startPos := Dec(ReadAt(file, |file| - 4, 4));
    var header := ReadAt(file, startPos, 13);
    var contentSize := Dec(header[..4]);
    id := Dec(header[5..13]);
    var here := if startPos + 13 <= |file| then startPos + 13
                else if startPos <= |file| then |file| else startPos;
    var check := Dec(ReadAt(file, here + contentSize, 4));
    code := if startPos == check then OK else FileCorrupt;
    if ParseFile(WAL_FORMAT, isEntry, file).code == OK {
      LookupAgrees(file, isEntry);
    }
  }

  /** The look-up through the last four bytes, in a segment without records and in
      any other. */
  ghost predicate Looked(file: seq<byte>, recs: seq<Record>)
    requires |file| >= 4
  {
    var start := Dec(ReadAt(file, |file| - 4, 4));
    var header := ReadAt(file, start, 13);
    if recs == [] then
      start == WAL_FORMAT.magic && Dec(ReadAt(file, start + Dec(header[..4]), 4)) == 0 && |file| < start
    else
      && start + 17 <= |file|
      && Dec(header[5..13]) == recs[|recs| - 1].id
      && Dec(ReadAt(file, start + 13 + Dec(header[..4]), 4)) == start
  }

  lemma {:induction false} LookupAgrees(file: seq<byte>, isEntry: seq<byte> -> bool)
    requires |file| < U32 && ParseFile(WAL_FORMAT, isEntry, file).code == OK
    ensures |file| >= 4 && Looked(file, ParseFile(WAL_FORMAT, isEntry, file).recs)
  {
    hide ParseFile, FileBytes, Looked, Loadable;
    var recs := ParseFile(WAL_FORMAT, isEntry, file).recs;
    AcceptedIsWritten(WAL_FORMAT, isEntry, file);
    WrittenLooked(isEntry, recs);
  }

  lemma {:induction false} WrittenLooked(isEntry: seq<byte> -> bool, recs: seq<Record>)
    requires Loadable(WAL_FORMAT, isEntry, recs) && |FileBytes(WAL_FORMAT, recs)| < U32
    ensures Looked(FileBytes(WAL_FORMAT, recs), recs)
  {
    hide RecordBytes, Enc, Dec, FileBytes, ReadAt, Writable;
    if recs == [] {
      HeaderOnlyFile();
      HeaderOnlyLookup(FileBytes(WAL_FORMAT, []));
    } else {
      var init, last := recs[..|recs| - 1], recs[|recs| - 1];
      assert init + [last] == recs && last in recs;
      FileSnoc(WAL_FORMAT, init, last);
      LastRecord(FileBytes(WAL_FORMAT, init), last);
    }
  }

  lemma HeaderOnlyFile()
    ensures |FileBytes(WAL_FORMAT, [])| == 4 && Dec(FileBytes(WAL_FORMAT, [])) == WAL_FORMAT.magic
  {
    RoundTrip32(WAL_FORMAT.magic);
    assert FileBytes(WAL_FORMAT, []) == Enc(WAL_FORMAT.magic, 4);
  }

  lemma {:induction false} HeaderOnlyLookup(file: seq<byte>)
    requires |file| == 4 && Dec(file) == WAL_FORMAT.magic
    ensures var start := Dec(ReadAt(file, 0, 4));
            start == WAL_FORMAT.magic && Dec(ReadAt(file, start + Dec(ReadAt(file, start, 13)[..4]), 4)) == 0
  {
    hide Dec;
    var start := WAL_FORMAT.magic;
    assert ReadAt(file, 0, 4) == file;
    assert ReadAt(file, start, 13)[..4] == [0, 0, 0, 0] == ReadAt(file, start + 0, 4);
    Dec4([0, 0, 0, 0]);
  }

  lemma {:induction false} LastRecord(pre: seq<byte>, r: Record)
    requires Writable(WAL_FORMAT, r) && |pre| < U32
    ensures var file := pre + RecordBytes(WAL_FORMAT, r, |pre|); var header := ReadAt(file, |pre|, 13);
            && |pre| + 17 <= |file|
            && Dec(ReadAt(file, |file| - 4, 4)) == |pre|
            && Dec(header[5..13]) == r.id
            && Dec(ReadAt(file, |pre| + 13 + Dec(header[..4]), 4)) == |pre|
  {
    hide RecordBytes, Enc, Dec;
    var bytes, n := RecordBytes(WAL_FORMAT, r, |pre|), |r.content|;
    var file := pre + bytes;
    ReadWritten(WAL_FORMAT, r, |pre|, []);
    assert bytes + [] == bytes;
    var header := ReadAt(file, |pre|, 13);
    assert header == bytes[..13];
    assert header[..4] == bytes[..4] && header[5..13] == bytes[5..13];
    assert ReadAt(file, |file| - 4, 4) == bytes[13 + n..17 + n] == ReadAt(file, |pre| + 13 + n, 4);
  }
}
