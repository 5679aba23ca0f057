/** Buffers, a socket that delivers and takes bytes in pieces, and the worker
    that receives and sends framed messages over it. */
module Net {
  import opened Codec
  import opened Common
  import opened Frames

  /** A window [pos, last] in a block of memory; both ends may be unset. */
  class Buffer {
    const mem: array<byte>
    var pos: Option<nat>
    var last: Option<int>
    var available: bool

    constructor (mem: array<byte>)
      ensures this.mem == mem && Unset()
    {
      this.mem, pos, last, available := mem, None, None, false;
    }

    /** A buffer all of whose cells are in use. */
    constructor Available(mem: array<byte>)
      requires mem.Length > 0
      ensures this.mem == mem && pos == Some(0) && last == Some(mem.Length - 1) && available
    {
      this.mem, pos, last, available := mem, Some(0), Some(mem.Length - 1), true;
    }

    ghost predicate Unset()
      reads this
    {
      pos == None && last == None && !available
    }

    /** The first `k` cells are in use. */
    ghost predicate Holds(k: nat)
      reads this
    {
      0 < k <= mem.Length && pos == Some(0) && last == Some(k - 1) && available
    }

    function TotalLength(): int { mem.Length }

    function AvailableLength(): int
      reads this
    {
      if !available || pos.None? || last.None? then 0 else last.value - pos.value + 1
    }

    function UnusedSize(): int
      reads this
    {
      if !available then 0
      else if last.Some? then mem.Length - 1 - last.value
      else mem.Length
    }

    method CheckAvailable()
      modifies this`available
      ensures available == (pos.Some? && last.Some? && pos.value <= last.value)
    {
      available := pos.Some? && last.Some? && pos.value <= last.value;
    }

    method SetPos(p: nat)
      modifies this`pos, this`available
      ensures pos == Some(p) && available == (last.Some? && p <= last.value)
    {
      pos := Some(p);
      CheckAvailable();
    }

    /** Takes `n` bytes off the front. */
    method MoveHeadBack(n: nat)
      modifies this`pos, this`available
      ensures old(pos.Some? && last.Some?) ==>
                pos == Some(old(pos.value) + n) && available == (old(pos.value) + n <= last.value)
      ensures !old(pos.Some? && last.Some?) ==> pos == old(pos) && !available
    {
      if pos.None? || last.None? {
        available := false;
        return;
      }
      pos := Some(pos.value + n);
      CheckAvailable();
    }

    /** Adds `n` bytes at the back. */
    method MoveTailBack(n: nat)
      modifies this`last, this`available
      ensures old(last.Some?) ==> last == Some(old(last.value) + n) && available == old(available)
      ensures !old(last.Some?) ==> last == Some(n - 1) && available == (pos.Some? && pos.value <= n - 1)
    {
      if last.Some? {
        last := Some(last.value + n);
      } else {
        last := Some(n - 1);
        CheckAvailable();
      }
    }

    method BZero()
      modifies this`pos, this`last, this`available, mem
      ensures Unset() && forall i | 0 <= i < mem.Length :: mem[i] == 0
    {
      pos, last, available := None, None, false;
      for i := 0 to mem.Length
        modifies mem
        invariant forall j | 0 <= j < i :: mem[j] == 0
      {
        mem[i] := 0;
      }
    }
  }

  /** What the kernel does on a call: some bytes, nothing yet, or the end. */
  datatype Turn = Moves(n: nat) | WouldBlock | Closed | Fault

  datatype Result = Bytes(n: nat) | Zero | Again | Broken

  /** How many of `max` bytes a turn moves, at least one. */
  function Clamp(n: nat, max: nat): (k: nat)
    requires max > 0
    ensures 0 < k <= max
  {
    if n == 0 then 1 else if n < max then n else max
  }

  /** Some call gets less than it asks for, though more may be waiting; no call asks
      for more than the largest payload. */
  ghost predicate Partial(turns: seq<Turn>) { exists t | t in turns :: t.Moves? && t.n < MAX_PAYLOAD }

  lemma PartialPart(turns: seq<Turn>, more: seq<Turn>)
    requires Partial(turns) && forall t | t in turns :: t in more
    ensures Partial(more)
  {
    var t :| t in turns && t.Moves? && t.n < MAX_PAYLOAD;
    assert t in more;
  }

  /** `inbound` is all the peer ever sends; `turns` scripts the kernel, for every
      script; when it runs out, calls would block. */
  class Socket {
    const inbound: seq<byte>
    var at: nat
    var outbound: seq<byte>
    var turns: seq<Turn>
    /** The peer closed or the connection failed. */
    var down: bool

    constructor (inbound: seq<byte>, turns: seq<Turn>)
      ensures this.inbound == inbound && at == 0 && outbound == [] && this.turns == turns && !down
    {
      this.inbound, at, outbound, this.turns, down := inbound, 0, [], turns, false;
    }

    /** The next call finds bytes to take. */
    ghost predicate Ready()
      reads this
    {
      turns != [] && turns[0].Moves? && at < |inbound|
    }

    /** The script goes on, and only it takes the connection down. */
    ghost predicate Used(turns: seq<Turn>, down: bool)
      reads this
    {
      && (forall t | t in this.turns :: t in turns)
      && (this.down ==> down || Closed in turns || Fault in turns)
    }

    /** Nothing is waiting, or the kernel said so. */
    ghost predicate Dry(turns: seq<Turn>)
      reads this
    {
      at == |inbound| || this.turns == [] || WouldBlock in turns
    }

    /** The turn the kernel takes on a call that can move up to `max` bytes. */
    method Turn(max: nat) returns (r: Result)
      modifies this`turns, this`down
      ensures r.Bytes? ==> 0 < r.n <= max
      ensures r != Again ==> |turns| < |old(turns)|
      ensures |turns| <= |old(turns)|
      ensures |turns| >= |old(turns)| - 1
      ensures r.Zero? || r.Broken? ==> down
      ensures old(down) ==> down
      ensures down ==> old(down) || Closed in old(turns) || Fault in old(turns)
      ensures max > 0 && old(turns != [] && turns[0].Moves?) ==> r.Bytes?
      ensures r.Bytes? && r.n < max ==> exists t | t in old(turns) :: t.Moves? && t.n <= r.n
      ensures forall t | t in turns :: t in old(turns)
      ensures max > 0 && r.Again? ==> turns == [] || WouldBlock in old(turns)
    {
      if turns == [] {
        return Again;
      }
      var t := turns[0];
      turns := turns[1..];
      assert t in old(turns);
      match t {
        case Moves(n) => r := if max == 0 then Again else Bytes(Clamp(n, max));
        case WouldBlock => r := Again;
        case Closed => r, down := Zero, true;
        case Fault => r, down := Broken, true;
      }
    }

    /** Reads at most `max` bytes into `buf` from `k` on; reading no bytes returns
        zero at once. */
    method Read(buf: array<byte>, k: nat, max: nat) returns (r: Result)
      requires at <= |inbound| && k + max <= buf.Length
      modifies this`at, this`turns, this`down, buf
      ensures at <= |inbound| && |turns| <= |old(turns)|
      ensures max == 0 ==> r.Zero?
      ensures r.Bytes? ==>
                && 0 < r.n <= max && at == old(at) + r.n && |turns| < |old(turns)|
                && buf[..k + r.n] == old(buf[..k]) + inbound[old(at)..at]
      ensures !r.Bytes? ==> at == old(at) && buf[..] == old(buf[..])
      ensures (r.Zero? && max > 0) || r.Broken? ==> down
      ensures down ==> old(down) || Closed in old(turns) || Fault in old(turns)
      ensures max > 0 && old(Ready()) ==> r.Bytes?
      ensures forall t | t in turns :: t in old(turns)
      ensures |turns| >= |old(turns)| - 1
      ensures max > 0 && r.Again? ==> Dry(old(turns))
      ensures r.Bytes? && r.n < max <= MAX_PAYLOAD ==> at == |inbound| || Partial(old(turns))
    {
      if max == 0 {
        return Zero;
      }
      var left := |inbound| - at;
      r := Turn(if left < max then left else max);
      if r.Bytes? {
        for i := 0 to r.n
          modifies buf
          invariant buf[..k + i] == old(buf[..k]) + inbound[at..at + i]
        {
          buf[k + i] := inbound[at + i];
        }
        at := at + r.n;
      }
    }

    /** Writes at most all of `bytes`. */
    method Write(bytes: seq<byte>) returns (r: Result)
      requires bytes != []
      modifies this`outbound, this`turns, this`down
      ensures |turns| <= |old(turns)|
      ensures r.Bytes? ==> 0 < r.n <= |bytes| && outbound == old(outbound) + bytes[..r.n] && |turns| < |old(turns)|
      ensures !r.Bytes? ==> outbound == old(outbound)
      ensures r.Zero? || r.Broken? ==> down
      ensures forall t | t in turns :: t in old(turns)
      ensures r.Again? ==> turns == [] || WouldBlock in old(turns)
    {
      r := Turn(|bytes|);
      if r.Bytes? {
        outbound := outbound + bytes[..r.n];
      }
    }
  }

  datatype RcvState = StartToRcvHeader | RcvingHeader | StartToRcvPayload | RcvingPayload

  class Receiver {
    const socket: Socket
    const header: Buffer
    var state: RcvState
    var head: Header
    var payload: Buffer
    var delivered: seq<Message>

    constructor (socket: Socket)
      requires socket.at == 0
      ensures this.socket == socket && Valid() && delivered == []
      ensures fresh(header) && fresh(header.mem) && fresh(payload) && fresh(payload.mem)
    {
      this.socket := socket;
      var mem := new byte[HEADER_SIZE];
      header := new Buffer(mem);
      state, head, delivered := StartToRcvHeader, Header(0, 0), [];
      var none := new byte[0];
      payload := new Buffer(none);
    }

    ghost predicate Apart()
      reads this, payload
    {
      header.mem.Length == HEADER_SIZE && header != payload && header.mem != payload.mem
    }

    /** The header is in, and a sane one. */
    ghost predicate HeaderIn()
      reads this, header, header.mem
    {
      && header.Holds(HEADER_SIZE) && header.mem.Length == HEADER_SIZE
      && GoodHeader(header.mem[..]) && head == HeaderOf(header.mem[..])
    }

    /** The bytes taken from the socket since the last whole message. */
    ghost function Pending(): seq<byte>
      reads this, header, header.mem, payload, payload.mem
    {
      match state
      case StartToRcvHeader => []
      case RcvingHeader =>
        if header.last.Some? && 0 <= header.last.value < header.mem.Length then
          header.mem[..header.last.value + 1]
        else []
      case StartToRcvPayload => header.mem[..]
      case RcvingPayload =>
        header.mem[..] +
        if payload.last.Some? && 0 <= payload.last.value < payload.mem.Length then
          payload.mem[..payload.last.value + 1]
        else []
    }

    ghost predicate InState()
      reads this, header, header.mem, payload, payload.mem
    {
      match state
      case StartToRcvHeader => true
      case RcvingHeader =>
        && header.last.Some? && header.last.value >= 0
        && header.Holds(header.last.value + 1) && header.last.value + 1 < HEADER_SIZE
      case StartToRcvPayload => HeaderIn()
      case RcvingPayload =>
        && HeaderIn() && payload.mem.Length == head.len && payload.last.Some? && payload.last.value >= 0
        && payload.Holds(payload.last.value + 1) && payload.last.value + 1 < head.len
    }

    /** The messages delivered and `rest` are what was taken from the socket. */
    ghost predicate Consumed(rest: seq<byte>)
      reads this, socket
    {
      && socket.at <= |socket.inbound|
      && socket.inbound[..socket.at] == EncodeAll(delivered) + rest
      && (forall m | m in delivered :: Encodable(m))
    }

    ghost predicate Valid()
      reads this, socket, header, header.mem, payload, payload.mem
    {
      Apart() && InState() && Consumed(Pending())
    }

    /** Reads behind the first `k` bytes of a buffer, up to all it has left. */
    method Fill(b: Buffer, k: nat, ghost before: seq<byte>) returns (r: Result)
      requires k == 0 || k < b.mem.Length
      requires (k == 0 && b.Unset()) || b.Holds(k)
      requires Consumed(before + b.mem[..k])
      modifies b, b.mem, socket`at, socket`turns, socket`down
      ensures r.Bytes? ==>
                && b.Holds(k + r.n) && Consumed(before + b.mem[..k + r.n])
                && |socket.turns| < |old(socket.turns)|
      ensures !r.Bytes? ==> Consumed(before + b.mem[..k]) && b.mem[..] == old(b.mem[..]) && unchanged(b)
      ensures |socket.turns| <= |old(socket.turns)|
      ensures b.mem.Length == 0 ==> r.Zero?
      ensures (r.Zero? && b.mem.Length > 0) || r.Broken? ==> socket.down
      ensures socket.at >= old(socket.at) && (r.Bytes? ==> socket.at > old(socket.at))
      ensures b.mem.Length > 0 && old(socket.Ready()) ==> r.Bytes?
      ensures socket.Used(old(socket.turns), old(socket.down))
      ensures |socket.turns| >= |old(socket.turns)| - 1
      ensures b.mem.Length > 0 && r.Again? ==> socket.Dry(old(socket.turns))
      ensures r.Bytes? && k + r.n < b.mem.Length <= MAX_PAYLOAD ==>
                socket.at == |socket.inbound| || Partial(old(socket.turns))
    {
      hide EncodeAll;
      var from := if b.last.Some? then b.last.value + 1 else 0;
      var max := if b.last.Some? then b.UnusedSize() else b.TotalLength();
      ghost var was := socket.at;
      r := socket.Read(b.mem, from, max);
      if r.Bytes? {
        if b.pos.None? {
          b.SetPos(0);
        }
        b.MoveTailBack(r.n);
        assert socket.inbound[..socket.at] == socket.inbound[..was] + socket.inbound[was..socket.at];
      } else {
        assert b.mem[..k] == b.mem[..][..k];
      }
    }

    /** Decodes the header: magic number and payload size are checked. */
    method DecodeMsgHeader() returns (ok: bool, h: Header)
      requires header.mem.Length == HEADER_SIZE
      ensures ok == GoodHeader(header.mem[..]) && (ok ==> h == HeaderOf(header.mem[..]))
    {
      hide Dec;
      ghost var s := header.mem[..];
      h := Header(0, 0);
      var magic := ReadUInt32(header.mem, 0);
      assert header.mem[0..4] == s[..4] && header.mem[4..12] == s[4..12] && header.mem[12..16] == s[12..];
      if magic != MAGIC {
        return false, h;
      }
      var id := ReadUInt64(header.mem, 4);
      var len := ReadUInt32(header.mem, 12);
      return len <= MAX_PAYLOAD, Header(id, len);
    }

    /** What a turn of the receive loop leaves: it goes on, rests with part of a
        message, or gives up. */
    ghost predicate Left(rc: bool, interrupt: bool, rest: seq<byte>)
      reads this, socket, header, header.mem, payload, payload.mem
    {
      && (rc ==> Valid() && rest == Pending())
      && (rc && interrupt ==> Incomplete(rest))
      && (!rc ==> Consumed(rest) && ((socket.down && Incomplete(rest)) || BadFrame(rest)))
    }

    method ParseHeader(k: nat) returns (rc: bool, interrupt: bool, ghost rest: seq<byte>)
      requires Apart() && k <= HEADER_SIZE && header.Holds(k) && Consumed(header.mem[..k])
      modifies this`state, this`head
      ensures Left(rc, interrupt, rest)
      ensures rc && interrupt ==> k < HEADER_SIZE && |rest| == k
    {
      hide EncodeAll, GoodHeader, HeaderOf;
      rest := header.mem[..k];
      if header.AvailableLength() == header.TotalLength() {
        assert rest == header.mem[..];
        var ok, h := DecodeMsgHeader();
        if !ok {
          return false, false, rest;
        }
        head, state := h, StartToRcvPayload;
        return true, false, rest;
      }
      state := RcvingHeader;
      return true, true, rest;
    }

    /** A turn in the two header states. */
    method StepHeader() returns (rc: bool, interrupt: bool, ghost rest: seq<byte>)
      requires Valid() && (state.StartToRcvHeader? || state.RcvingHeader?)
      modifies this`state, this`head, header, header.mem, socket`at, socket`turns, socket`down
      ensures Left(rc, interrupt, rest)
      ensures |socket.turns| <= |old(socket.turns)|
      ensures rc && !interrupt ==> |socket.turns| < |old(socket.turns)|
      ensures socket.at >= old(socket.at) && (rc && old(socket.Ready()) ==> socket.at > old(socket.at))
      ensures socket.Used(old(socket.turns), old(socket.down))
      ensures socket.at - old(socket.at) + (if interrupt then 1 else 0) >= |old(socket.turns)| - |socket.turns| || !rc
      ensures rc && interrupt ==> socket.Dry(old(socket.turns)) || (rest != [] && Partial(old(socket.turns)))
    {
      hide EncodeAll, GoodHeader, HeaderOf;
      rest := Pending();
      var k := 0;
      if state.StartToRcvHeader? {
        header.BZero();
      } else {
        k := header.last.value + 1;
      }
      assert [] + header.mem[..k] == header.mem[..k] == rest;
      var r := Fill(header, k, []);
      match r {
        case Zero => return false, false, rest;
        case Broken => return false, true, rest;
        case Again =>
          assert header.mem[..k] == header.mem[..][..k];
          return true, true, rest;
        case Bytes(n) =>
          assert [] + header.mem[..k + n] == header.mem[..k + n];
          rc, interrupt, rest := ParseHeader(k + n);
      }
    }

    /** Hands on the message once its payload is whole. */
    method CheckPayload(k: nat, breakWhenRecvOne: bool) returns (rc: bool, interrupt: bool, ghost rest: seq<byte>)
      requires Apart() && HeaderIn() && payload.mem.Length == head.len && payload.Holds(k)
      requires Consumed(header.mem[..] + payload.mem[..k])
      modifies this`state, this`delivered
      ensures rc && Left(rc, interrupt, rest)
      ensures delivered == old(delivered) || (|delivered| == |old(delivered)| + 1
                && delivered[..|old(delivered)|] == old(delivered))
      ensures breakWhenRecvOne && delivered != old(delivered) ==> interrupt
      ensures interrupt ==>
                || (breakWhenRecvOne && delivered != old(delivered))
                || (k < payload.mem.Length && |rest| == HEADER_SIZE + k)
    {
      hide EncodeAll, GoodHeader, HeaderOf;
      rest := header.mem[..] + payload.mem[..k];
      if payload.AvailableLength() == head.len {
        interrupt, state := breakWhenRecvOne, StartToRcvHeader;
        var m := Message(head.id, payload.mem[..]);
        assert payload.mem[..k] == m.payload;
        Whole(delivered, header.mem[..], m);
        delivered := delivered + [m];
        return true, interrupt, [];
      }
      state := RcvingPayload;
      assert header.mem[..] == rest[..HEADER_SIZE];
      return true, true, rest;
    }

    /** A turn in the two payload states. */
    method StepPayload(breakWhenRecvOne: bool) returns (rc: bool, interrupt: bool, ghost rest: seq<byte>)
      requires Valid() && (state.StartToRcvPayload? || state.RcvingPayload?)
      modifies this`state, this`delivered, this`payload, payload, payload.mem, socket`at, socket`turns, socket`down
      ensures payload == old(payload) || (fresh(payload) && fresh(payload.mem))
      ensures Left(rc, interrupt, rest)
      ensures delivered == old(delivered) || (|delivered| == |old(delivered)| + 1
                && delivered[..|old(delivered)|] == old(delivered))
      ensures breakWhenRecvOne && delivered != old(delivered) ==> interrupt
      ensures |socket.turns| <= |old(socket.turns)|
      ensures rc && !interrupt ==> |socket.turns| < |old(socket.turns)|
      ensures socket.at >= old(socket.at) && (rc && old(socket.Ready()) ==> socket.at > old(socket.at))
      ensures socket.Used(old(socket.turns), old(socket.down))
      ensures socket.at - old(socket.at) + (if interrupt then 1 else 0) >= |old(socket.turns)| - |socket.turns| || !rc
      ensures rc && interrupt ==>
                || (breakWhenRecvOne && delivered != old(delivered))
                || socket.Dry(old(socket.turns)) || (rest != [] && Partial(old(socket.turns)))
    {
      hide EncodeAll, GoodHeader, HeaderOf;
      rest := Pending();
      LengthBound(header.mem[..]);
      var k := 0;
      if state.StartToRcvPayload? {
        var mem := new byte[head.len];
        payload := new Buffer(mem);
      } else {
        k := payload.last.value + 1;
      }
      assert header.mem[..] + payload.mem[..k] == rest;
      var r := Fill(payload, k, header.mem[..]);
      match r {
        case Zero => return false, false, rest;
        case Broken => return false, true, rest;
        case Again =>
          assert payload.mem[..k] == payload.mem[..][..k] && header.mem[..] == rest[..HEADER_SIZE];
          return true, true, rest;
        case Bytes(n) =>
          rc, interrupt, rest := CheckPayload(k + n, breakWhenRecvOne);
      }
    }

    /** Receives until the socket has no more, part of a message is in and the kernel
        gave less than asked for, one message is in if that is all that is wanted,
        or the connection is given up. */
    method Recv(breakWhenRecvOne: bool) returns (rc: bool, ghost rest: seq<byte>)
      requires Valid()
      modifies this, header, header.mem, payload, payload.mem, socket`at, socket`turns, socket`down
      ensures rc ==> Valid() && rest == Pending() && Incomplete(rest)
      ensures !rc ==> Consumed(rest) && ((socket.down && Incomplete(rest)) || BadFrame(rest))
      ensures |delivered| >= |old(delivered)| && delivered[..|old(delivered)|] == old(delivered)
      ensures breakWhenRecvOne ==> |delivered| <= |old(delivered)| + 1
      ensures rc && old(socket.Ready()) ==> socket.at > old(socket.at)
      ensures rc ==>
                || (breakWhenRecvOne && |delivered| == |old(delivered)| + 1)
                || socket.Dry(old(socket.turns)) || (rest != [] && Partial(old(socket.turns)))
      ensures rc ==> socket.at - old(socket.at) + 1 >= |old(socket.turns)| - |socket.turns|
      ensures socket.Used(old(socket.turns), old(socket.down))
    {
      hide EncodeAll, GoodHeader, HeaderOf, BadFrame, Incomplete, Pending, InState, Partial;
      var interrupt := false;
      rc, rest := true, Pending();
      while rc && !interrupt
        invariant Left(rc, interrupt, rest)
        invariant payload == old(payload) || (fresh(payload) && fresh(payload.mem))
        invariant |delivered| >= |old(delivered)| && delivered[..|old(delivered)|] == old(delivered)
        invariant breakWhenRecvOne ==> delivered == old(delivered) || (interrupt && |delivered| == |old(delivered)| + 1)
        invariant socket.at >= old(socket.at) && socket.Used(old(socket.turns), old(socket.down))
        invariant rc ==>
                    socket.at - old(socket.at) + (if interrupt then 1 else 0) >= |old(socket.turns)| - |socket.turns|
        invariant rc && interrupt ==>
                    || (breakWhenRecvOne && |delivered| == |old(delivered)| + 1)
                    || socket.Dry(old(socket.turns)) || (rest != [] && Partial(old(socket.turns)))
        invariant rc && old(socket.Ready()) ==> socket.at > old(socket.at) || (!interrupt && socket.Ready())
        decreases |socket.turns|, rc && !interrupt
      {
        ghost var left := socket.turns;
        if Partial(left) {
          PartialPart(left, old(socket.turns));
        }
        if state.StartToRcvHeader? || state.RcvingHeader? {
          rc, interrupt, rest := StepHeader();
        } else {
          rc, interrupt, rest := StepPayload(breakWhenRecvOne);
        }
      }
    }
  }

  /** What a call of Send comes back with. */
  datatype Sent = Done | Lost | Threw

  class Sender {
    const socket: Socket
    var queue: seq<Message>
    var sending: Buffer?
    /** The messages taken off the queue so far. */
    ghost var taken: seq<Message>

    constructor (socket: Socket)
      requires socket.outbound == []
      ensures this.socket == socket && Valid() && taken == queue == [] && Idle()
    {
      this.socket, queue, sending, taken := socket, [], null, [];
    }

    ghost predicate Tail(b: Buffer)
      reads b
    {
      b.available && b.pos.Some? && b.last == Some(b.mem.Length - 1) && b.pos.value < b.mem.Length
    }

    /** The bytes of the message being sent that are still to go. */
    ghost function Unsent(): seq<byte>
      reads this, sending, if sending == null then {} else {sending.mem}
    {
      if sending != null && Tail(sending) then sending.mem[sending.pos.value..] else []
    }

    /** The bytes handed to the kernel and `rest` are the messages taken. */
    ghost predicate Produced(rest: seq<byte>)
      reads this, socket
    {
      socket.outbound + rest == EncodeAll(taken) && (forall m | m in taken :: Encodable(m))
    }

    /** The bytes handed to the kernel break off inside the messages taken. */
    ghost predicate Cut()
      reads this, socket
    {
      socket.outbound <= EncodeAll(taken) && (forall m | m in taken :: Encodable(m))
    }

    ghost predicate Valid()
      reads this, socket, sending, if sending == null then {} else {sending.mem}
    {
      (sending != null ==> Tail(sending)) && Produced(Unsent())
    }

    ghost predicate Idle()
      reads this
    {
      queue == [] && sending == null
    }

    method InsertMessage(m: Message)
      requires Valid()
      modifies this`queue
      ensures Valid() && queue == old(queue) + [m]
    {
      queue := queue + [m];
    }

    /** Lays a message out in a buffer, or throws. */
    method Encode(m: Message) returns (b: Buffer?)
      requires m.id < U64
      ensures b == null <==> !Encodable(m)
      ensures b != null ==> fresh(b) && fresh(b.mem) && Tail(b) && b.pos == Some(0) && b.mem[..] == Frames.Encode(m)
    {
      hide Enc;
      if |m.payload| == 0 || |m.payload| > MAX_PAYLOAD {
        return null;
      }
      var mem := new byte[HEADER_SIZE + |m.payload|];
      b := new Buffer.Available(mem);
      WriteUInt32(mem, b.pos.value, MAGIC);
      assert mem[..4] == Enc(MAGIC, 4);
      b.MoveHeadBack(4);
      WriteUInt64(mem, b.pos.value, m.id);
      assert mem[..12] == Enc(MAGIC, 4) + Enc(m.id, 8);
      b.MoveHeadBack(8);
      WriteUInt32(mem, b.pos.value, |m.payload|);
      assert mem[..16] == HeaderBytes(m.id, |m.payload|);
      b.MoveHeadBack(4);
      Copy(mem, b.pos.value, m.payload);
      assert mem[..] == mem[..HEADER_SIZE + |m.payload|];
      b.SetPos(0);
    }

    /** One write of the message being sent. */
    method WriteSome() returns (r: Sent, interrupt: bool)
      requires Valid() && sending != null
      modifies this`sending, sending, socket`outbound, socket`turns, socket`down
      ensures !r.Threw? && (sending == null || sending == old(sending))
      ensures r.Done? ==> Valid()
      ensures r.Lost? ==> sending == null && socket.down && Cut()
      ensures |socket.turns| <= |old(socket.turns)|
      ensures r.Done? && !interrupt ==> |socket.turns| < |old(socket.turns)|
      ensures forall t | t in socket.turns :: t in old(socket.turns)
      ensures r.Done? && interrupt ==> socket.turns == [] || WouldBlock in old(socket.turns)
    {
      hide EncodeAll;
      ghost var rest := Unsent();
      var p := sending.pos.value;
      var n := socket.Write(sending.mem[p..]);
      match n {
        case Zero =>
          sending := null;
          return Lost, false;
        case Bytes(k) =>
          sending.MoveHeadBack(k);
          assert rest == rest[..k] + rest[k..];
          if sending.AvailableLength() <= 0 {
            sending := null;
            assert rest[k..] == [];
          } else {
            assert rest[k..] == sending.mem[p + k..];
          }
          return Done, false;
        case Again => return Done, true;
        case Broken =>
          sending := null;
          return Lost, true;
      }
    }

    /** Takes the next message off the queue. */
    method Pop() returns (r: Sent, ghost m: Message)
      requires Valid() && sending == null && queue != [] && queue[0].id < U64
      modifies this
      ensures old(queue) == [m] + queue && Valid()
      ensures r == if Encodable(m) then Done else Threw
      ensures r.Done? ==> taken == old(taken) + [m] && sending != null && fresh(sending) && fresh(sending.mem)
      ensures r.Threw? ==> taken == old(taken) && sending == null
    {
      hide EncodeAll, Encodable;
      var next := queue[0];
      m, queue := next, queue[1..];
      var b := Encode(next);
      if b == null {
        return Threw, m;
      }
      One(taken, next);
      taken, sending := taken + [next], b;
      assert Unsent() == Frames.Encode(next);
      assert socket.outbound + [] == socket.outbound;
      return Done, m;
    }

    /** Sends queued messages until the kernel takes no more. */
    method Send() returns (r: Sent)
      requires Valid() && forall m | m in queue :: m.id < U64
      modifies this, sending, socket`outbound, socket`turns, socket`down
      ensures r.Done? ==> Valid() && taken + queue == old(taken + queue)
      ensures r.Done? ==> Idle() || socket.turns == [] || WouldBlock in old(socket.turns)
      ensures r.Lost? ==> socket.down && Cut() && taken + queue == old(taken + queue)
      ensures r.Threw? ==> Valid() && exists m | !Encodable(m) :: taken + [m] + queue == old(taken + queue)
    {
      hide EncodeAll, Encodable, Unsent, Produced, Cut;
      r := Done;
      var interrupt := false;
      while r.Done? && !interrupt
        invariant !r.Threw?
        invariant r.Done? ==> Valid()
        invariant r.Done? && interrupt ==> Idle() || socket.turns == [] || WouldBlock in old(socket.turns)
        invariant r.Lost? ==> socket.down && Cut()
        invariant sending == null || sending == old(sending) || (fresh(sending) && fresh(sending.mem))
        invariant taken + queue == old(taken + queue)
        invariant forall m | m in queue :: m.id < U64
        invariant forall t | t in socket.turns :: t in old(socket.turns)
        decreases |queue|, |socket.turns|, r.Done? && !interrupt
      {
        if sending != null && sending.AvailableLength() > 0 {
          r, interrupt := WriteSome();
        } else if queue != [] {
          ghost var was := taken + queue;
          ghost var m;
          r, m := Pop();
          if r.Threw? {
            assert was == taken + [m] + queue;
            return;
          }
          assert was == taken + queue;
        } else {
          interrupt := true;
        }
      }
    }
  }

  lemma LengthBound(h: seq<byte>)
    requires |h| == HEADER_SIZE && GoodHeader(h)
    ensures HeaderOf(h).len <= MAX_PAYLOAD
  {}

  lemma {:induction false} One(ms: seq<Message>, m: Message)
    ensures EncodeAll(ms + [m]) == EncodeAll(ms) + Encode(m)
  {
    hide Encode;
    EncodeAllConcat(ms, [m]);
    assert EncodeAll([m]) == Encode(m) + EncodeAll([m][1..]) == Encode(m);
  }

  lemma {:induction false} Whole(ms: seq<Message>, h: seq<byte>, m: Message)
    requires |h| == HEADER_SIZE && GoodHeader(h) && HeaderOf(h) == Header(m.id, |m.payload|) && |m.payload| > 0
    ensures Encodable(m) && EncodeAll(ms + [m]) == EncodeAll(ms) + (h + m.payload)
  {
    hide Dec, Enc;
    GoodHeaderIsWritten(h);
    One(ms, m);
  }

  /** Over a connection that carries what was written, however both ends were
      cut short: the messages delivered are the first ones taken off the sender's
      queue, each once and in order, none that is whole on the receiving side is
      missing, and no frame looks bad. */
  lemma {:induction false} EndToEnd(s: Sender, r: Receiver, rest: seq<byte>)
    requires s.Cut() && r.socket.inbound <= s.socket.outbound
    requires r.Consumed(rest) && (Incomplete(rest) || BadFrame(rest))
    ensures !BadFrame(rest) && r.delivered <= s.taken
    ensures |r.delivered| < |s.taken| ==> r.socket.at < |EncodeAll(s.taken[..|r.delivered| + 1])|
  {
    hide EncodeAll, BadFrame, Incomplete;
    var p := r.socket.at;
    assert EncodeAll(s.taken)[..p] == s.socket.outbound[..p] == r.socket.inbound[..p];
    NoBadFrame(s.taken, p, r.delivered, rest);
    Delivered(s.taken, p, r.delivered, rest);
  }

  /** Once the sender has nothing left and the receiver has read everything, all
      messages are delivered. */
  lemma {:induction false} AllDelivered(s: Sender, r: Receiver)
    requires s.Valid() && s.Idle() && r.Valid() && Incomplete(r.Pending())
    requires r.socket.inbound == s.socket.outbound && r.socket.at == |r.socket.inbound|
    ensures r.delivered == s.taken
  {
    hide EncodeAll, BadFrame, Incomplete, Receiver.Pending, Receiver.InState;
    assert s.socket.outbound + [] == s.socket.outbound;
    EndToEnd(s, r, r.Pending());
    var n := |r.delivered|;
    if n < |s.taken| {
      assert s.taken == s.taken[..n + 1] + s.taken[n + 1..];
      EncodeAllConcat(s.taken[..n + 1], s.taken[n + 1..]);
    }
  }

  /** A kernel that moves all it can on every call. */
  ghost predicate Greedy(turns: seq<Turn>) { forall t | t in turns :: t.Moves? && t.n >= MAX_PAYLOAD }

  /** One call of Recv on a connection that carries all the messages taken off the
      sender's queue, with a kernel that moves all it can: every one of them is
      delivered, once and in order, if there are turns enough. */
  method RecvAll(s: Sender, r: Receiver) returns (rc: bool)
    requires s.Valid() && s.Idle() && r.Valid() && r.socket.inbound == s.socket.outbound
    requires Greedy(r.socket.turns) && !r.socket.down && |r.socket.turns| > |r.socket.inbound| + 1
    modifies r, r.header, r.header.mem, r.payload, r.payload.mem, r.socket`at, r.socket`turns, r.socket`down
    ensures rc && r.delivered == s.taken && r.socket.at == |r.socket.inbound|
  {
    hide EncodeAll, BadFrame, Incomplete, Receiver.Pending, Receiver.InState, Sender.Unsent;
    ghost var rest;
    rc, rest := r.Recv(false);
    assert s.socket.outbound + [] == s.socket.outbound;
    EndToEnd(s, r, rest);
    AllDelivered(s, r);
  }
}
