/** Messages on a byte stream: a 16-byte header of magic number, id and length,
    then the payload. */
module Frames {
  import opened Codec

  const MAGIC: nat := 0xdeadbeef
  const HEADER_SIZE: nat := 16
  const MAX_PAYLOAD: nat := 0x4000000

  datatype Message = Message(id: nat, payload: seq<byte>)

  /** Encoding throws on an empty payload and on one above 64 MiB. */
  predicate Encodable(m: Message) { 0 < |m.payload| <= MAX_PAYLOAD && m.id < U64 }

  function HeaderBytes(id: nat, len: nat): (s: seq<byte>)
    ensures |s| == HEADER_SIZE
  {
    Enc(MAGIC, 4) + Enc(id, 8) + Enc(len, 4)
  }

  function Encode(m: Message): (s: seq<byte>)
    ensures |s| == HEADER_SIZE + |m.payload|
  {
    HeaderBytes(m.id, |m.payload|) + m.payload
  }

  function EncodeAll(ms: seq<Message>): seq<byte> {
    if ms == [] then [] else Encode(ms[0]) + EncodeAll(ms[1..])
  }

  datatype Header = Header(id: nat, len: nat)

  /** Only the magic number and the upper bound of the length are looked at. */
  predicate GoodHeader(s: seq<byte>)
    requires |s| == HEADER_SIZE
  {
    Dec(s[..4]) == MAGIC && Dec(s[12..]) <= MAX_PAYLOAD
  }

  function HeaderOf(s: seq<byte>): (h: Header)
    requires |s| == HEADER_SIZE
    ensures h.id < U64 && h.len < U32
  {
    Widths();
    Header(Dec(s[4..12]), Dec(s[12..]))
  }

  /** A message on the wire, byte by byte: magic number, id, length, payload. */
  lemma {:induction false} OnWire(a: byte, b: byte)
    ensures Encode(Message(0x102, [a, b])) ==
            [0xde, 0xad, 0xbe, 0xef, 0, 0, 0, 0, 0, 0, 1, 2, 0, 0, 0, 2, a, b]
    ensures forall m: Message :: Encodable(m) <==> 0 < |m.payload| <= 64 * 1024 * 1024 && m.id < U64
  {
    hide Enc;
    BigEndian(0xde, 0xad, 0xbe, 0xef);
    BigEndian(0, 0, 0, 2);
    Enc8Low(0x102);
    BigEndian(0, 0, 1, 2);
  }

  lemma {:induction false} HeaderRoundTrip(id: nat, len: nat)
    requires id < U64 && len <= MAX_PAYLOAD
    ensures var s := HeaderBytes(id, len); GoodHeader(s) && HeaderOf(s) == Header(id, len)
  {
    hide Enc, Dec;
    var s := HeaderBytes(id, len);
    assert s[..4] == Enc(MAGIC, 4) && s[4..12] == Enc(id, 8) && s[12..] == Enc(len, 4);
    RoundTrip32(MAGIC);
    RoundTrip64(id);
    RoundTrip32(len);
  }

  lemma {:induction false} GoodHeaderIsWritten(s: seq<byte>)
    requires |s| == HEADER_SIZE && GoodHeader(s)
    ensures s == HeaderBytes(HeaderOf(s).id, HeaderOf(s).len)
  {
    hide Enc, Dec;
    EncDec(s[..4]);
    EncDec(s[4..12]);
    EncDec(s[12..]);
    assert s == s[..4] + s[4..12] + s[12..];
  }

  // ------------------------------------------------------------ decodability

  /** The beginning of a message that is not whole yet. */
  ghost predicate Incomplete(s: seq<byte>) {
    || |s| < HEADER_SIZE
    || (GoodHeader(s[..HEADER_SIZE]) && |s| < HEADER_SIZE + HeaderOf(s[..HEADER_SIZE]).len)
  }

  lemma {:induction false} EncodeAllConcat(a: seq<Message>, b: seq<Message>)
    ensures EncodeAll(a + b) == EncodeAll(a) + EncodeAll(b)
    decreases |a|
  {
    hide Encode;
    if a == [] {
      assert a + b == b;
    } else {
      assert (a + b)[1..] == a[1..] + b;
      EncodeAllConcat(a[1..], b);
    }
  }

  /** A stream begins with at most one encoded message. */
  lemma {:induction false} FirstMessage(m: Message, s: seq<byte>, m': Message, s': seq<byte>)
    requires Encodable(m) && Encodable(m') && Encode(m) + s == Encode(m') + s'
    ensures m == m' && s == s'
  {
    hide Dec, Enc, HeaderBytes;
    HeaderRoundTrip(m.id, |m.payload|);
    HeaderRoundTrip(m'.id, |m'.payload|);
    var t := Encode(m) + s;
    assert t[..16] == HeaderBytes(m.id, |m.payload|);
    assert t[..16] == HeaderBytes(m'.id, |m'.payload|);
    assert t[16..16 + |m.payload|] == m.payload && t[16 + |m.payload|..] == s;
    assert t[16..16 + |m'.payload|] == m'.payload && t[16 + |m'.payload|..] == s';
  }

  lemma {:induction false} NotYet(m: Message, s: seq<byte>, s': seq<byte>)
    requires Encodable(m) && Encode(m) + s' == s
    ensures !Incomplete(s)
  {
    hide Dec, Enc, HeaderBytes;
    HeaderRoundTrip(m.id, |m.payload|);
    assert s[..16] == HeaderBytes(m.id, |m.payload|);
  }

  /** Whatever way a stream of messages is cut: a receiver that has turned the
      first `p` bytes into `got` and the rest `pending` has exactly the messages
      that lie whole in those bytes, in order. */
  lemma {:induction false} Delivered(ms: seq<Message>, p: nat, got: seq<Message>, pending: seq<byte>)
    requires forall m | m in ms :: Encodable(m)
    requires forall m | m in got :: Encodable(m)
    requires p <= |EncodeAll(ms)| && EncodeAll(ms)[..p] == EncodeAll(got) + pending && Incomplete(pending)
    ensures got <= ms
    ensures |got| < |ms| ==> p < |EncodeAll(ms[..|got| + 1])|
    decreases |got|
  {
    hide Encode, Incomplete, Encodable;
    if got == [] {
      if ms != [] {
        assert ms[..1] == [ms[0]] && EncodeAll([ms[0]]) == Encode(ms[0]) + EncodeAll([ms[0]][1..]);
        assert [ms[0]][1..] == [];
        if p >= |Encode(ms[0])| {
          assert pending == EncodeAll(ms)[..p] == Encode(ms[0]) + EncodeAll(ms[1..])[..p - |Encode(ms[0])|];
          NotYet(ms[0], pending, EncodeAll(ms[1..])[..p - |Encode(ms[0])|]);
        }
      }
    } else {
      DeliveredFirst(ms, p, got, pending);
      var n := |Encode(ms[0])|;
      Delivered(ms[1..], p - n, got[1..], pending);
      if |got| < |ms| {
        assert ms[..|got| + 1][1..] == ms[1..][..|got[1..]| + 1];
      }
      assert got == [got[0]] + got[1..] && ms == [ms[0]] + ms[1..];
    }
  }

  lemma {:induction false} DeliveredFirst(ms: seq<Message>, p: nat, got: seq<Message>, pending: seq<byte>)
    requires (forall m | m in ms :: Encodable(m)) && (forall m | m in got :: Encodable(m)) && got != []
    requires p <= |EncodeAll(ms)| && EncodeAll(ms)[..p] == EncodeAll(got) + pending
    ensures ms != [] && ms[0] == got[0]
    ensures var n := |Encode(ms[0])|; p >= n && EncodeAll(ms[1..])[..p - n] == EncodeAll(got[1..]) + pending
  {
    hide Encode, Encodable;
    var s := EncodeAll(ms);
    assert ms != [] by {
      HasHeader(got[0]);
    }
    var rest := EncodeAll(got[1..]) + pending;
    assert s == s[..p] + s[p..] == Encode(got[0]) + (rest + s[p..]);
    assert got[0] in got && ms[0] in ms;
    FirstMessage(ms[0], EncodeAll(ms[1..]), got[0], rest + s[p..]);
  }

  lemma HasHeader(m: Message)
    ensures |Encode(m)| > 0
  {}

  /** A header no sender writes: wrong magic number, or a length out of range. */
  ghost predicate BadFrame(s: seq<byte>) {
    |s| == HEADER_SIZE && (!GoodHeader(s) || HeaderOf(s).len == 0)
  }

  lemma {:induction false} NoBadFrame(ms: seq<Message>, p: nat, got: seq<Message>, rest: seq<byte>)
    requires forall m | m in ms :: Encodable(m)
    requires forall m | m in got :: Encodable(m)
    requires p <= |EncodeAll(ms)| && EncodeAll(ms)[..p] == EncodeAll(got) + rest
    ensures !BadFrame(rest)
    decreases |got|
  {
    hide Encode, Encodable, BadFrame;
    if got != [] {
      DeliveredFirst(ms, p, got, rest);
      NoBadFrame(ms[1..], p - |Encode(ms[0])|, got[1..], rest);
    } else if ms != [] {
      assert ms[0] in ms && EncodeAll(got) + rest == rest;
      GoodStart(ms[0], EncodeAll(ms[1..]), p);
    } else {
      Short(rest);
    }
  }

  lemma Short(s: seq<byte>)
    requires |s| < HEADER_SIZE
    ensures !BadFrame(s)
  {}

  lemma {:induction false} GoodStart(m: Message, s: seq<byte>, p: nat)
    requires Encodable(m) && p <= |Encode(m) + s|
    ensures !BadFrame((Encode(m) + s)[..p])
  {
    hide Dec, Enc, HeaderBytes;
    HeaderRoundTrip(m.id, |m.payload|);
    if p == HEADER_SIZE {
      assert (Encode(m) + s)[..p] == HeaderBytes(m.id, |m.payload|);
    }
  }
}
