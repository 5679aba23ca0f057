/** Fixed-width integers as bytes, most significant byte first, and the
    in-place readers and writers every on-disk and on-wire format uses. */
module Codec {
  import opened Arith

  type byte = x: int | 0 <= x < 256

  const U32: nat := 0x1_0000_0000
  const U64: nat := 0x1_0000_0000_0000_0000

  function Pow256(k: nat): (p: nat)
    ensures p >= 1
  {
    if k == 0 then 1 else 256 * Pow256(k - 1)
  }

  /** The `k` low-order bytes of `n`. */
  function Enc(n: nat, k: nat): (s: seq<byte>)
    ensures |s| == k
  {
    if k == 0 then [] else Enc(n / 256, k - 1) + [n % 256]
  }

  function Dec(s: seq<byte>): (n: nat)
    ensures n < Pow256(|s|)
  {
    if s == [] then 0 else Dec(s[..|s| - 1]) * 256 + s[|s| - 1]
  }

  lemma DecSnoc(s: seq<byte>, b: byte)
    ensures Dec(s + [b]) == Dec(s) * 256 + b
  {
    assert (s + [b])[..|s|] == s;
  }

  /** Reading back what was written gives the value modulo the width. */
  lemma {:induction false} DecEnc(n: nat, k: nat)
    ensures Dec(Enc(n, k)) == n % Pow256(k)
    ensures n < Pow256(k) ==> Dec(Enc(n, k)) == n
  {
    if k > 0 {
      DecEnc(n / 256, k - 1);
      DecSnoc(Enc(n / 256, k - 1), n % 256);
      LowByte(n, Pow256(k - 1));
    }
    if n < Pow256(k) {
      Unique(n, Pow256(k), 0, n);
    }
  }

  lemma {:induction false} LowByte(n: nat, p: nat)
    requires p > 0
    ensures n / 256 % p * 256 + n % 256 == n % (256 * p)
  {
    var h := n / 256;
    var q, r := h / p, h % p;
    assert h == q * p + r;
    assert n == q * (256 * p) + (r * 256 + n % 256) by {
      assert 256 * (q * p) == q * (256 * p);
    }
    Unique(n, 256 * p, q, r * 256 + n % 256);
  }

  /** Every byte string is the encoding of the number it reads as. */
  lemma {:induction false} EncDec(s: seq<byte>)
    ensures Enc(Dec(s), |s|) == s
  {
    if s != [] {
      var init, last := s[..|s| - 1], s[|s| - 1];
      EncDec(init);
      assert Dec(s) / 256 == Dec(init) && Dec(s) % 256 == last;
    }
  }

  /** Most significant byte first. */
  lemma {:induction false} BigEndian(a: byte, b: byte, c: byte, d: byte)
    ensures Enc(((a * 256 + b) * 256 + c) * 256 + d, 4) == [a, b, c, d]
  {
    hide Dec, Enc;
    DecNone();
    DecSnoc([], a);
    DecSnoc([a], b);
    DecSnoc([a, b], c);
    DecSnoc([a, b, c], d);
    assert [] + [a] == [a] && [a] + [b] == [a, b] && [a, b] + [c] == [a, b, c] && [a, b, c] + [d] == [a, b, c, d];
    EncDec([a, b, c, d]);
  }

  lemma DecNone()
    ensures Dec([]) == 0
  {}

  lemma {:induction false} EncHigh(n: nat, k: nat)
    requires n < Pow256(k)
    ensures Enc(n, k + 1) == [0] + Enc(n, k)
  {
    if k > 0 {
      EncHigh(n / 256, k - 1);
    }
  }

  lemma {:induction false} Enc8Low(n: nat)
    requires n < U32
    ensures Enc(n, 8) == [0, 0, 0, 0] + Enc(n, 4)
  {
    hide Enc;
    Widths();
    EncHigh(n, 4);
    EncHigh(n, 5);
    EncHigh(n, 6);
    EncHigh(n, 7);
  }

  lemma EncNone(n: nat)
    ensures Enc(n, 0) == []
  {}

  lemma Widths()
    ensures Pow256(0) == 1 && Pow256(4) == U32 && Pow256(8) == U64
  {}

  lemma {:induction false} RoundTrip32(n: nat)
    requires n < U32
    ensures Dec(Enc(n, 4)) == n
  {
    Widths();
    DecEnc(n, 4);
  }

  lemma {:induction false} RoundTrip64(n: nat)
    requires n < U64
    ensures Dec(Enc(n, 8)) == n
  {
    Widths();
    DecEnc(n, 8);
  }

  lemma Enc4(n: nat)
    ensures Enc(n, 4) == [n / 256 / 256 / 256 % 256, n / 256 / 256 % 256, n / 256 % 256, n % 256]
  {
    assert Enc(n / 256 / 256 / 256, 1) == [n / 256 / 256 / 256 % 256];
    assert Enc(n / 256 / 256, 2) == Enc(n / 256 / 256 / 256, 1) + [n / 256 / 256 % 256];
    assert Enc(n / 256, 3) == Enc(n / 256 / 256, 2) + [n / 256 % 256];
  }

  lemma Dec4(s: seq<byte>)
    requires |s| == 4
    ensures Dec(s) == ((s[0] as int * 256 + s[1]) * 256 + s[2]) * 256 + s[3]
  {
    assert s[..3][..2] == s[..2] && s[..2][..1] == s[..1] && s[..1][..0] == [];
    assert Dec(s[..1]) == s[0];
    assert Dec(s[..2]) == s[0] as int * 256 + s[1];
    assert Dec(s[..3]) == (s[0] as int * 256 + s[1]) * 256 + s[2];
  }

  /** Stores a 32-bit value, low byte first into the last cell. */
  method WriteUInt32(buf: array<byte>, at: nat, value: nat)
    requires at + 4 <= buf.Length && value < U32
    modifies buf
    ensures buf[..] == old(buf[..at]) + Enc(value, 4) + old(buf[at + 4..])
  {
    var n := value;
    buf[at + 3] := n % 256;
    n := n / 256;
    buf[at + 2] := n % 256;
    n := n / 256;
    buf[at + 1] := n % 256;
    n := n / 256;
    buf[at] := n % 256;
    Enc4(value);
  }

  /** Reads a 32-bit value by shifting left and or-ing bytes in. */
  method ReadUInt32(buf: array<byte>, at: nat) returns (n: nat)
    requires at + 4 <= buf.Length
    ensures n == Dec(buf[at..at + 4])
    ensures n < U32
  {
    n := buf[at];
    n := n * 256 + buf[at + 1];
    n := n * 256 + buf[at + 2];
    n := n * 256 + buf[at + 3];
    Dec4(buf[at..at + 4]);
  }

  /** Stores a 64-bit value. */
  method WriteUInt64(buf: array<byte>, at: nat, value: nat)
    requires at + 8 <= buf.Length && value < U64
    modifies buf
    ensures buf[..] == old(buf[..at]) + Enc(value, 8) + old(buf[at + 8..])
  {
    hide Enc, Low, High;
    var n := value;
    buf[at + 7] := Low(n);
    n := High(n);
    buf[at + 6] := Low(n);
    n := High(n);
    buf[at + 5] := Low(n);
    n := High(n);
    buf[at + 4] := Low(n);
    n := High(n);
    buf[at + 3] := Low(n);
    n := High(n);
    buf[at + 2] := Low(n);
    n := High(n);
    buf[at + 1] := Low(n);
    n := High(n);
    buf[at] := Low(n);
    Enc8(value);
    assert buf[at..at + 8] == Enc(value, 8);
    assert buf[..at] == old(buf[..at]) && buf[at + 8..] == old(buf[at + 8..]);
    assert buf[..] == buf[..at] + buf[at..at + 8] + buf[at + 8..];
  }

  function Low(n: nat): byte { n % 256 }

  function High(n: nat): nat { n / 256 }

  lemma {:induction false} EncOne(n: nat, k: nat)
    ensures Enc(n, k + 1) == Enc(High(n), k) + [Low(n)]
  {}

  lemma {:induction false} Enc8(n: nat)
    ensures var h1, h2, h3 := High(n), High(High(n)), High(High(High(n))); var h4 := High(h3);
            var h5, h6 := High(h4), High(High(h4));
            Enc(n, 8) == [Low(High(h6)), Low(h6), Low(h5), Low(h4), Low(h3), Low(h2), Low(h1), Low(n)]
  {
    hide Enc, Low, High;
    var h1, h2, h3 := High(n), High(High(n)), High(High(High(n)));
    var h4 := High(h3);
    var h5, h6 := High(h4), High(High(h4));
    var h7 := High(h6);
    EncOne(n, 7);
    EncOne(h1, 6);
    EncOne(h2, 5);
    EncOne(h3, 4);
    EncOne(h4, 3);
    EncOne(h5, 2);
    EncOne(h6, 1);
    EncOne(h7, 0);
    assert Enc(High(h7), 0) == [];
  }

  /** Reads a 64-bit value. */
  method ReadUInt64(buf: array<byte>, at: nat) returns (n: nat)
    requires at + 8 <= buf.Length
    ensures n == Dec(buf[at..at + 8])
    ensures n < U64
  {
    n := buf[at];
    n := n * 256 + buf[at + 1];
    n := n * 256 + buf[at + 2];
    n := n * 256 + buf[at + 3];
    Dec4(buf[at..at + 4]);
    ghost var s := buf[at..at + 8];
    assert s[..7][..6] == s[..6] && s[..6][..5] == s[..5] && s[..5][..4] == s[..4] == buf[at..at + 4];
    n := n * 256 + buf[at + 4];
    assert n == Dec(s[..5]);
    n := n * 256 + buf[at + 5];
    assert n == Dec(s[..6]);
    n := n * 256 + buf[at + 6];
    assert n == Dec(s[..7]);
    n := n * 256 + buf[at + 7];
    Widths();
  }

  method Copy(buf: array<byte>, at: nat, bytes: seq<byte>)
    requires at + |bytes| <= buf.Length
    modifies buf
    ensures buf[..at + |bytes|] == old(buf[..at]) + bytes
  {
    for i := 0 to |bytes|
      invariant buf[..at + i] == old(buf[..at]) + bytes[..i]
    {
      buf[at + i] := bytes[i];
    }
  }
}
