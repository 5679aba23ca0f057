/** JSON string literals: what escapes mean, and what the printer writes. */
module JsonSpec {
  import opened Codec
  import opened Common

  const QUOTE: byte := 34
  const BACKSLASH: byte := 92
  const SLASH: byte := 47
  const LOWER_U: byte := 117

  // ------------------------------------------------------------ hex digits

  predicate IsHex(c: byte) { 48 <= c <= 57 || 65 <= c <= 70 || 97 <= c <= 102 }

  function Nibble(c: byte): (n: nat)
    requires IsHex(c)
    ensures n < 16
  {
    if c <= 57 then c - 48 else if c <= 70 then c - 55 else c - 87
  }

  predicate AllHex(s: seq<byte>) { forall c | c in s :: IsHex(c) }

  function HexValue(s: seq<byte>): nat
    requires AllHex(s)
  {
    if s == [] then 0 else HexValue(s[..|s| - 1]) * 16 + Nibble(s[|s| - 1])
  }

  /** Four digits; any other character makes the whole number zero. */
  function Hex4(s: seq<byte>): nat { if AllHex(s) then HexValue(s) else 0 }

  lemma {:induction false} HexIsSmall(s: seq<byte>)
    requires |s| == 4 && AllHex(s)
    ensures HexValue(s) == Nibble(s[0]) * 4096 + Nibble(s[1]) * 256 + Nibble(s[2]) * 16 + Nibble(s[3])
    ensures HexValue(s) < 0x10000
  {
    var a, b, c := s[..3], s[..2], s[..1];
    assert a[..2] == b && b[..1] == c && c[..0] == [];
    assert HexValue(c) == HexValue(c[..0]) * 16 + Nibble(c[0]);
    assert HexValue(b) == HexValue(b[..1]) * 16 + Nibble(b[1]);
    assert HexValue(a) == HexValue(a[..2]) * 16 + Nibble(a[2]);
  }

  // ------------------------------------------------------------ UTF-8

  /** Section 3 of RFC 3629. */
  function Utf8(cp: nat): (s: seq<byte>)
    requires cp <= 0x10FFFF
    ensures 1 <= |s| <= 4
  {
    if cp < 0x80 then [cp]
    else if cp < 0x800 then [0xC0 + cp / 64, 0x80 + cp % 64]
    else if cp < 0x10000 then [0xE0 + cp / 4096, 0x80 + cp / 64 % 64, 0x80 + cp % 64]
    else [0xF0 + cp / 262144, 0x80 + cp / 4096 % 64, 0x80 + cp / 64 % 64, 0x80 + cp % 64]
  }

  predicate Scalar(cp: nat) { cp <= 0x10FFFF && !(0xD800 <= cp <= 0xDFFF) }

  predicate Tail(c: byte) { 0x80 <= c < 0xC0 }

  /** The code point a byte string begins with, by the grammar in section 4 of
      RFC 3629, and its length. */
  function DecodeUtf8(s: seq<byte>): Option<(nat, nat)> {
    if |s| >= 1 && s[0] < 0x80 then Some((s[0], 1))
    else if |s| >= 2 && 0xC2 <= s[0] <= 0xDF && Tail(s[1]) then
      Some(((s[0] as int - 0xC0) * 64 + (s[1] as int - 0x80), 2))
    else if |s| >= 3 && 0xE0 <= s[0] <= 0xEF && Tail(s[1]) && Tail(s[2])
            && (s[0] == 0xE0 ==> s[1] >= 0xA0) && (s[0] == 0xED ==> s[1] < 0xA0) then
      Some(((s[0] as int - 0xE0) * 4096 + (s[1] as int - 0x80) * 64 + (s[2] as int - 0x80), 3))
    else if |s| >= 4 && 0xF0 <= s[0] <= 0xF4 && Tail(s[1]) && Tail(s[2]) && Tail(s[3])
            && (s[0] == 0xF0 ==> s[1] >= 0x90) && (s[0] == 0xF4 ==> s[1] < 0x90) then
      var low := (s[2] as int - 0x80) * 64 + (s[3] as int - 0x80);
      Some(((s[0] as int - 0xF0) * 262144 + (s[1] as int - 0x80) * 4096 + low, 4))
    else None
  }

  lemma {:induction false} Utf8Decodes(cp: nat, rest: seq<byte>)
    requires Scalar(cp)
    ensures DecodeUtf8(Utf8(cp) + rest) == Some((cp, |Utf8(cp)|))
  {
    var a, b, c := cp / 64, cp / 4096, cp / 262144;
    assert b == a / 64 && c == b / 64;
    assert a * 64 + cp % 64 == cp && b * 64 + a % 64 == a && c * 64 + b % 64 == b;
    var s := Utf8(cp) + rest;
    assert forall i | 0 <= i < |Utf8(cp)| :: s[i] == Utf8(cp)[i];
  }

  // ------------------------------------------------------------ escapes

  /** What is read at a place: nothing valid, or bytes for a stretch of input. */
  datatype Move = Stop | Move(out: seq<byte>, len: nat)

  function FromPair(first: nat, second: nat): nat { 0x10000 + first % 1024 * 1024 + second % 1024 }

  /** One or two \uXXXX sequences at `i`. */
  function Literal(s: seq<byte>, i: nat, end: nat): (m: Move)
    requires end <= |s|
    ensures m.Move? ==> (m.len == 6 && 1 <= |m.out| <= 3) || (m.len == 12 && |m.out| == 4)
    ensures m.Move? ==> i + m.len <= end
  {
    if end < i + 6 then Stop
    else
      var digits := s[i + 2..i + 6];
      var first := Hex4(digits);
      if AllHex(digits) then (HexIsSmall(digits); InLiteral(s, i, end, first)) else InLiteral(s, i, end, first)
  }

  function InLiteral(s: seq<byte>, i: nat, end: nat, first: nat): (m: Move)
    requires i + 6 <= end <= |s| && first < 0x10000
    ensures m.Move? ==> (m.len == 6 && 1 <= |m.out| <= 3) || (m.len == 12 && |m.out| == 4)
    ensures m.Move? ==> i + m.len <= end
  {
    if 0xDC00 <= first <= 0xDFFF then Stop
    else if 0xD800 <= first <= 0xDBFF then
      if end < i + 12 || s[i + 6] != BACKSLASH || s[i + 7] != LOWER_U then Stop
      else
        var second := Hex4(s[i + 8..i + 12]);
        if !(0xDC00 <= second <= 0xDFFF) then Stop else Move(Utf8(FromPair(first, second)), 12)
    else Move(Utf8(first), 6)
  }

  function Simple(c: byte): Option<byte> {
    if c == 98 then Some(8)
    else if c == 102 then Some(12)
    else if c == 110 then Some(10)
    else if c == 114 then Some(13)
    else if c == 116 then Some(9)
    else if c == QUOTE || c == BACKSLASH || c == SLASH then Some(c)
    else None
  }

  /** The character behind a backslash is read even if it is the closing quote. */
  function At(s: seq<byte>, i: nat, end: nat): (m: Move)
    requires i < end < |s|
    ensures m.Move? ==> m.len > 0 && i + m.len <= end + 1
  {
    if s[i] != BACKSLASH then Move([s[i]], 1)
    else if s[i + 1] == LOWER_U then Literal(s, i, end)
    else match Simple(s[i + 1]) case Some(c) => Move([c], 2) case None => Stop
  }

  datatype Outcome = Parsed(value: seq<byte>, next: nat) | Failed(at: nat)

  /** Reads the literal up to the closing quote. */
  function Body(s: seq<byte>, i: nat, end: nat): Outcome
    requires i <= end + 1 && end < |s|
    decreases end + 1 - i
  {
    if i >= end then Parsed([], end + 1)
    else
      match At(s, i, end)
      case Stop => Failed(i)
      case Move(out, len) =>
        match Body(s, i + len, end)
        case Failed(at) => Failed(at)
        case Parsed(value, next) => Parsed(out + value, next)
  }

  /** The closing quote and the number of backslashes that skip a character. */
  function Scan(s: seq<byte>, i: nat): (r: Option<(nat, nat)>)
    ensures r.Some? ==> i <= r.value.0 < |s| && s[r.value.0] == QUOTE && 2 * r.value.1 <= r.value.0 - i
    decreases |s| - i
  {
    if i >= |s| then None
    else if s[i] == QUOTE then Some((i, 0))
    else if s[i] != BACKSLASH then Scan(s, i + 1)
    else if i + 1 >= |s| then None
    else match Scan(s, i + 2) case None => None case Some((end, skipped)) => Some((end, skipped + 1))
  }

  function Parse(s: seq<byte>, offset: nat): Outcome
    requires offset < |s|
  {
    if s[offset] != QUOTE then Failed(offset + 1)
    else match Scan(s, offset + 1) case None => Failed(offset + 1) case Some((end, _)) => Body(s, offset + 1, end)
  }

  // ------------------------------------------------------------ printing

  predicate Plain(c: byte) { c > 31 && c != QUOTE && c != BACKSLASH }

  function Letter(c: byte): Option<byte> {
    if c == BACKSLASH || c == QUOTE then Some(c)
    else if c == 8 then Some(98)
    else if c == 12 then Some(102)
    else if c == 10 then Some(110)
    else if c == 13 then Some(114)
    else if c == 9 then Some(116)
    else None
  }

  function LowerHex(n: nat): (c: byte)
    requires n < 16
    ensures (48 <= c <= 57 || 97 <= c <= 102) && Nibble(c) == n
  {
    if n < 10 then 48 + n else 87 + n
  }

  function Escape(c: byte): (s: seq<byte>)
    ensures |s| > 0
  {
    if Plain(c) then [c]
    else match Letter(c)
         case Some(l) => [BACKSLASH, l]
         case None => [BACKSLASH, LOWER_U, 48, 48, LowerHex(c / 16), LowerHex(c % 16)]
  }

  function EscapeAll(s: seq<byte>): seq<byte> {
    if s == [] then [] else Escape(s[0]) + EscapeAll(s[1..])
  }

  predicate ZeroFree(s: seq<byte>) { 0 !in s }

  lemma NoZero(s: seq<byte>)
    requires ZeroFree(s)
    ensures forall j | 0 <= j < |s| :: s[j] != 0
  {}

  lemma EscapeNone()
    ensures EscapeAll([]) == []
  {}

  lemma {:induction false} EscapeConcat(a: seq<byte>, b: seq<byte>)
    ensures EscapeAll(a + b) == EscapeAll(a) + EscapeAll(b)
    decreases |a|
  {
    hide Escape;
    if a == [] {
      assert a + b == b;
    } else {
      assert (a + b)[1..] == a[1..] + b;
      EscapeConcat(a[1..], b);
    }
  }

  /** One character more, and one that fits before the end. */
  lemma {:induction false} EscapeNext(s: seq<byte>, i: nat)
    requires i < |s|
    ensures EscapeAll(s[..i + 1]) == EscapeAll(s[..i]) + Escape(s[i])
    ensures |EscapeAll(s[..i + 1])| <= |EscapeAll(s)|
  {
    hide Escape;
    assert s[..i + 1] == s[..i] + [s[i]] && s == s[..i + 1] + s[i + 1..];
    EscapeConcat(s[..i], [s[i]]);
    EscapeConcat(s[..i + 1], s[i + 1..]);
    assert EscapeAll([s[i]]) == Escape(s[i]) + EscapeAll([s[i]][1..]) == Escape(s[i]);
  }

  /** A string whose escaped form is no longer is its own escaped form. */
  lemma {:induction false} NothingEscaped(s: seq<byte>)
    ensures |EscapeAll(s)| >= |s| && (|EscapeAll(s)| == |s| ==> EscapeAll(s) == s)
  {
    if s != [] {
      NothingEscaped(s[1..]);
      assert s == [s[0]] + s[1..];
    }
  }

  // ------------------------------------------------------------ scanning

  lemma ScanSkip(s: seq<byte>, i: nat)
    requires i + 1 < |s| && s[i] == BACKSLASH
    ensures Scan(s, i).Some? <==> Scan(s, i + 2).Some?
    ensures Scan(s, i).Some? ==> Scan(s, i).value.0 == Scan(s, i + 2).value.0
  {}

  lemma ScanPast(s: seq<byte>, i: nat)
    requires i < |s| && s[i] != QUOTE && s[i] != BACKSLASH
    ensures Scan(s, i) == Scan(s, i + 1)
  {}

  // ------------------------------------------------------------ output bound

  /** The scan passes `j` or the place behind it, and meets at most one
      backslash in two characters on the way. */
  lemma {:induction false} Pass(s: seq<byte>, p: nat, j: nat) returns (q: nat)
    requires Scan(s, p).Some? && p <= j + 1 && j <= Scan(s, p).value.0
    ensures j <= q <= j + 1 || (q == p && p == j + 1)
    ensures q >= p && Scan(s, q).Some? && Scan(s, q).value.0 == Scan(s, p).value.0
    ensures 2 * (Scan(s, p).value.1 - Scan(s, q).value.1) <= q - p
    decreases |s| - p
  {
    if p >= j {
      return p;
    } else if s[p] != BACKSLASH {
      q := Pass(s, p + 1, j);
    } else {
      q := Pass(s, p + 2, j);
    }
  }

  function Room(i: nat, end: nat): nat { if i <= end then end - i else 0 }

  /** The scan is at `i` or one behind it, with `k` backslashes to come. */
  ghost predicate InStep(s: seq<byte>, i: nat, end: nat, p: nat, k: nat) {
    (p == i || p == i + 1) && Scan(s, p) == Some((end, k))
  }

  /** No step of the reader writes more than its stretch of input leaves after
      the scan's skips, even where the two cut the input differently. */
  lemma {:induction false} StepFits(s: seq<byte>, i: nat, end: nat, p: nat, k: nat) returns (p': nat, k': nat)
    requires i < end < |s| && InStep(s, i, end, p, k) && At(s, i, end).Move?
    ensures var m := At(s, i, end);
            && |m.out| + Room(i + m.len, end) - k' <= Room(i, end) - k
            && (i + m.len <= end ==> InStep(s, i + m.len, end, p', k'))
            && (i + m.len > end ==> k' == 0)
  {
    var m := At(s, i, end);
    if i + m.len > end {
      assert k == 0;
      return 0, 0;
    }
    if s[i] != BACKSLASH {
      return i + 1, k;
    }
    p' := Pass(s, p, i + m.len);
    k' := Scan(s, p').value.1;
  }

  /** The value read fits the space that is set aside for it. */
  lemma {:induction false} BodyFits(s: seq<byte>, i: nat, end: nat, p: nat, k: nat)
    requires i <= end < |s| && InStep(s, i, end, p, k) && Body(s, i, end).Parsed?
    ensures |Body(s, i, end).value| + k <= end - i
    decreases end - i
  {
    hide At, Scan;
    if i < end {
      var m := At(s, i, end);
      var p', k' := StepFits(s, i, end, p, k);
      if i + m.len <= end {
        BodyFits(s, i + m.len, end, p', k');
      }
    } else {
      QuoteEndsScan(s, i, end, p, k);
    }
  }

  lemma QuoteEndsScan(s: seq<byte>, i: nat, end: nat, p: nat, k: nat)
    requires i == end < |s| && InStep(s, i, end, p, k)
    ensures k == 0
  {}

  lemma {:induction false} ValueFits(s: seq<byte>, offset: nat)
    requires offset < |s| && s[offset] == QUOTE && Scan(s, offset + 1).Some? && Parse(s, offset).Parsed?
    ensures |Parse(s, offset).value| + 1 <= Scan(s, offset + 1).value.0 - offset - Scan(s, offset + 1).value.1
  {
    hide Body;
    var (end, k) := Scan(s, offset + 1).value;
    BodyFits(s, offset + 1, end, offset + 1, k);
  }

  // ------------------------------------------------------------ escapes are UTF-8

  /** A \uXXXX literal, or a surrogate pair of them, spells a code point. */
  ghost predicate Spells(s: seq<byte>, i: nat, len: nat, cp: nat) {
    && Scalar(cp) && i + len <= |s|
    && if cp < 0x10000 then len == 6 && Unit(s[i..i + 6], cp)
       else
         && len == 12
         && Unit(s[i..i + 6], 0xD800 + (cp - 0x10000) / 1024)
         && Unit(s[i + 6..i + 12], 0xDC00 + (cp - 0x10000) % 1024)
  }

  ghost predicate Unit(s: seq<byte>, n: nat) {
    |s| == 6 && s[0] == BACKSLASH && s[1] == LOWER_U && AllHex(s[2..]) && HexValue(s[2..]) == n
  }

  /** Every literal that spells a code point is read as its UTF-8. */
  lemma {:induction false} SpelledIsRead(s: seq<byte>, i: nat, end: nat, len: nat, cp: nat)
    requires Spells(s, i, len, cp) && i + len <= end < |s|
    ensures At(s, i, end) == Move(Utf8(cp), len)
  {
    hide Utf8, HexValue, AllHex;
    assert s[i..i + 6][2..] == s[i + 2..i + 6];
    if cp >= 0x10000 {
      assert s[i + 6..i + 12][2..] == s[i + 8..i + 12];
      PairBack(cp);
    }
  }

  lemma PairBack(cp: nat)
    requires 0x10000 <= cp <= 0x10FFFF
    ensures var a, b := 0xD800 + (cp - 0x10000) / 1024, 0xDC00 + (cp - 0x10000) % 1024;
            a <= 0xDBFF && b <= 0xDFFF && FromPair(a, b) == cp
  {}

  /** And only those, except that a literal with a character that is no digit is
      read as a zero byte. */
  lemma {:induction false} ReadIsSpelled(s: seq<byte>, i: nat, end: nat) returns (cp: nat)
    requires i < end < |s| && s[i] == BACKSLASH && s[i + 1] == LOWER_U && Literal(s, i, end).Move?
    ensures var m := Literal(s, i, end);
            if AllHex(s[i + 2..i + 6]) then Spells(s, i, m.len, cp) && m.out == Utf8(cp) else m == Move([0], 6)
  {
    hide HexValue, AllHex;
    var digits := s[i + 2..i + 6];
    var first := Hex4(digits);
    cp := first;
    assert s[i..i + 6][2..] == digits;
    if AllHex(digits) {
      HexIsSmall(digits);
      if 0xD800 <= first <= 0xDBFF {
        var low := s[i + 8..i + 12];
        assert s[i + 6..i + 12][2..] == low;
        cp := FromPair(first, Hex4(low));
        PairForth(first, Hex4(low));
      }
    }
  }

  lemma PairForth(a: nat, b: nat)
    requires 0xD800 <= a <= 0xDBFF && 0xDC00 <= b <= 0xDFFF
    ensures var cp := FromPair(a, b);
            && 0x10000 <= cp <= 0x10FFFF
            && a == 0xD800 + (cp - 0x10000) / 1024 && b == 0xDC00 + (cp - 0x10000) % 1024
  {}

  // ------------------------------------------------------------ whole literals

  lemma HexDigits(d: nat)
    ensures d < 10 ==> IsHex(48 + d) && Nibble(48 + d) == d
    ensures d < 6 ==> IsHex(65 + d) && IsHex(97 + d) && Nibble(65 + d) == Nibble(97 + d) == 10 + d
  {}

  /** A piece of a literal: a byte as it is, a backslash and a letter for the byte `c`,
      a code point in hex digits, or, not in section 7 of RFC 8259, a \u with four
      characters that are not all hex digits. */
  datatype Token =
    | Raw(c: byte)
    | Short(letter: byte, c: byte)
    | CodePoint(text: seq<byte>, cp: nat)
    | Odd(text: seq<byte>)

  /** The two-character escapes of section 7 of RFC 8259. */
  ghost predicate ShortFor(letter: byte, c: byte) {
    || (letter == 34 && c == 34) || (letter == 92 && c == 92) || (letter == 47 && c == 47)
    || (letter == 98 && c == 8) || (letter == 102 && c == 12) || (letter == 110 && c == 10)
    || (letter == 114 && c == 13) || (letter == 116 && c == 9)
  }

  ghost predicate Good(t: Token) {
    match t
    case Raw(c) => c != 92
    case Short(letter, c) => ShortFor(letter, c)
    case CodePoint(text, cp) => Spells(text, 0, |text|, cp)
    case Odd(text) => |text| == 6 && text[0] == 92 && text[1] == 117 && !AllHex(text[2..])
  }

  /** Between the quotes of a literal by RFC 8259; it also rules out control characters
      as they are, which are taken here. */
  ghost predicate Inside(t: Token) { Good(t) && !t.Odd? && t != Raw(34) }

  function Text(t: Token): seq<byte> {
    match t
    case Raw(c) => [c]
    case Short(letter, _) => [92, letter]
    case CodePoint(text, _) => text
    case Odd(text) => text
  }

  function Meaning(t: Token): seq<byte> {
    match t
    case Raw(c) => [c]
    case Short(_, c) => [c]
    case CodePoint(_, cp) => if cp <= 0x10FFFF then Utf8(cp) else []
    case Odd(_) => [0]
  }

  function TextAll(ts: seq<Token>): seq<byte> { if ts == [] then [] else Text(ts[0]) + TextAll(ts[1..]) }

  function MeaningAll(ts: seq<Token>): seq<byte> { if ts == [] then [] else Meaning(ts[0]) + MeaningAll(ts[1..]) }

  /** A backslash and neither one of the eight letters nor a u behind it stops the
      reader there. */
  lemma OtherEscapesStop(s: seq<byte>, i: nat, end: nat)
    requires i < end < |s| && s[i] == 92 && s[i + 1] != 117
    ensures At(s, i, end) == Stop <==> s[i + 1] !in {34, 92, 47, 98, 102, 110, 114, 116}
    ensures At(s, i, end) == Stop ==> Body(s, i, end) == Failed(i)
  {}

  lemma {:induction false} AtToken(t: Token, s: seq<byte>, i: nat, end: nat)
    requires Good(t) && i + |Text(t)| <= end < |s| && s[i..i + |Text(t)|] == Text(t)
    ensures At(s, i, end) == Move(Meaning(t), |Text(t)|) && |Text(t)| > 0
  {
    hide Utf8, HexValue, AllHex;
    var text := Text(t);
    assert forall k | 0 <= k < |text| :: s[i + k] == s[i..i + |text|][k] == text[k];
    match t
    case Raw(_) => assert s[i + 0] == text[0];
    case Short(_, _) => assert s[i + 0] == text[0] && s[i + 1] == text[1];
    case CodePoint(_, cp) =>
      assert s[i..i + 6] == text[0..6];
      if cp >= 0x10000 {
        assert s[i + 6..i + 12] == text[6..12];
      }
      SpelledIsRead(s, i, end, |text|, cp);
    case Odd(_) =>
      assert s[i + 2..i + 6] == text[2..];
      ZeroByte();
  }

  lemma ZeroByte()
    ensures Utf8(0) == [0]
  {}

  lemma {:induction false} ScanHex(s: seq<byte>, i: nat)
    requires i + 6 <= |s| && s[i] == BACKSLASH && AllHex(s[i + 2..i + 6])
    ensures Scan(s, i).Some? <==> Scan(s, i + 6).Some?
    ensures Scan(s, i).Some? ==> Scan(s, i).value.0 == Scan(s, i + 6).value.0
  {
    hide Scan;
    var d := s[i + 2..i + 6];
    assert d[0] == s[i + 2] && d[1] == s[i + 3] && d[2] == s[i + 4] && d[3] == s[i + 5];
    assert d[0] in d && d[1] in d && d[2] in d && d[3] in d;
    ScanSkip(s, i);
    ScanPast(s, i + 2);
    ScanPast(s, i + 3);
    ScanPast(s, i + 4);
    ScanPast(s, i + 5);
  }

  lemma {:induction false} ScanToken(t: Token, s: seq<byte>, i: nat)
    requires Inside(t) && i + |Text(t)| <= |s| && s[i..i + |Text(t)|] == Text(t)
    ensures Scan(s, i).Some? <==> Scan(s, i + |Text(t)|).Some?
    ensures Scan(s, i).Some? ==> Scan(s, i).value.0 == Scan(s, i + |Text(t)|).value.0
  {
    hide Scan, AllHex, HexValue;
    var text := Text(t);
    assert forall k | 0 <= k < |text| :: s[i + k] == s[i..i + |text|][k] == text[k];
    match t
    case Raw(_) =>
      assert s[i + 0] == text[0];
      ScanPast(s, i);
    case Short(_, _) =>
      assert s[i + 0] == text[0];
      ScanSkip(s, i);
    case CodePoint(_, cp) =>
      assert s[i + 0] == text[0] == text[0..6][0];
      assert text[0..6][2..] == s[i + 2..i + 6];
      ScanHex(s, i);
      if cp >= 0x10000 {
        assert text[6..12][2..] == s[i + 8..i + 12] && s[i + 6] == text[6..12][0];
        ScanHex(s, i + 6);
      }
  }

  lemma Front(s: seq<byte>, i: nat, end: nat, a: seq<byte>, b: seq<byte>)
    requires i <= end <= |s| && s[i..end] == a + b
    ensures i + |a| <= end && s[i..i + |a|] == a && s[i + |a|..end] == b
  {
    Within(s, i, end - i, 0, |a|);
    Within(s, i, end - i, |a|, end - i);
  }

  lemma QuoteScans(s: seq<byte>, end: nat)
    requires end < |s|
    ensures s[end] == QUOTE ==> Scan(s, end) == Some((end, 0))
  {}

  /** A literal of good pieces means what its pieces mean. */
  lemma {:induction false} TokensRead(ts: seq<Token>, s: seq<byte>, i: nat, end: nat)
    requires (forall t | t in ts :: Good(t)) && i + |TextAll(ts)| == end < |s| && s[i..end] == TextAll(ts)
    ensures Body(s, i, end) == Parsed(MeaningAll(ts), end + 1)
    ensures s[end] == QUOTE && (forall t | t in ts :: Inside(t)) ==> Scan(s, i).Some? && Scan(s, i).value.0 == end
    decreases |ts|
  {
    hide At, Text, Meaning, Good, Inside, Scan;
    if ts == [] {
      QuoteScans(s, end);
    } else {
      var n := |Text(ts[0])|;
      Front(s, i, end, Text(ts[0]), TextAll(ts[1..]));
      AtToken(ts[0], s, i, end);
      TokensRead(ts[1..], s, i + n, end);
      if s[end] == QUOTE && forall t | t in ts :: Inside(t) {
        ScanToken(ts[0], s, i);
      }
    }
  }

  /** Every string RFC 8259 allows between the quotes, and raw control characters: it is
      read as what its pieces mean, whatever follows the closing quote. */
  lemma {:induction false} LiteralRead(ts: seq<Token>, rest: seq<byte>)
    requires forall t | t in ts :: Inside(t)
    ensures Parse([34] + TextAll(ts) + [34] + rest, 0) == Parsed(MeaningAll(ts), |TextAll(ts)| + 2)
  {
    hide TextAll, MeaningAll, Body, Scan, Good;
    var s := [34] + TextAll(ts) + [34] + rest;
    assert s[1..1 + |TextAll(ts)|] == TextAll(ts);
    TokensRead(ts, s, 1, 1 + |TextAll(ts)|);
  }

  /** The piece that is read at a place. */
  lemma {:induction false} ReadIsToken(s: seq<byte>, i: nat, end: nat) returns (t: Token)
    requires i < end < |s| && At(s, i, end).Move?
    ensures Good(t) && At(s, i, end) == Move(Meaning(t), |Text(t)|) && i + |Text(t)| <= |s|
    ensures s[i..i + |Text(t)|] == Text(t)
    ensures i + |Text(t)| > end ==> t.Short? && i + 1 == end
  {
    hide Utf8, HexValue, AllHex;
    var m := At(s, i, end);
    if s[i] != BACKSLASH {
      return Raw(s[i]);
    }
    if s[i + 1] != LOWER_U {
      return Short(s[i + 1], m.out[0]);
    }
    var text := s[i..i + m.len];
    var cp := ReadIsSpelled(s, i, end);
    Within(s, i, m.len, 2, 6);
    if AllHex(s[i + 2..i + 6]) {
      Within(s, i, m.len, 0, 6);
      if cp >= 0x10000 {
        Within(s, i, 12, 6, 12);
      }
      t := CodePoint(text, cp);
    } else {
      assert text[2..] == text[2..6];
      t := Odd(text);
    }
  }

  lemma Within(s: seq<byte>, i: nat, n: nat, a: nat, b: nat)
    requires i + n <= |s| && a <= b <= n
    ensures s[i..i + n][a..b] == s[i + a..i + b]
  {
    var all := s[i..i + n];
    assert forall k | 0 <= k < b - a :: all[a..b][k] == all[a + k] == s[i + a + k];
  }

  /** Exactly: a literal that is read is made of such pieces and means what they mean,
      up to the closing quote; or up to and with it, if a backslash is in front of
      it. */
  lemma {:induction false} ReadIsTokens(s: seq<byte>, i: nat, end: nat) returns (ts: seq<Token>, stop: nat)
    requires i <= end + 1 && end < |s| && Body(s, i, end).Parsed?
    ensures end <= stop <= end + 1 && i <= stop && s[i..stop] == TextAll(ts)
    ensures (forall t | t in ts :: Good(t)) && Body(s, i, end).value == MeaningAll(ts)
    ensures i <= end < stop ==> i < end && s[end - 1] == BACKSLASH
    decreases end + 1 - i
  {
    hide At, Text, Meaning, Good;
    if i >= end {
      return [], i;
    }
    var t := ReadIsToken(s, i, end);
    var n := |Text(t)|;
    var rest;
    rest, stop := ReadIsTokens(s, i + n, end);
    ts := [t] + rest;
    assert ts[1..] == rest;
    assert s[i..stop] == s[i..i + n] + s[i + n..stop];
    if i + n > end {
      ShortStarts(t, s, i);
    }
  }

  lemma ShortStarts(t: Token, s: seq<byte>, i: nat)
    requires t.Short? && i + |Text(t)| <= |s| && s[i..i + |Text(t)|] == Text(t)
    ensures s[i] == BACKSLASH
  {
    assert s[i] == s[i..i + |Text(t)|][0];
  }

  /** What is printed for a byte is a piece that means it, and no piece that means it
      and is allowed by RFC 8259 is shorter. */
  lemma {:induction false} EscapeIsShortest(c: byte, t: Token)
    requires c != 0 && Inside(t) && (t.Raw? ==> t.c > 31) && Meaning(t) == [c]
    ensures |Escape(c)| <= |Text(t)|
  {
    hide Utf8, AllHex, HexValue;
  }

  // ------------------------------------------------------------ round trip

  lemma {:induction false} ReadHex(c: byte, d: seq<byte>)
    requires c < 32
    ensures d == [48, 48, LowerHex(c / 16), LowerHex(c % 16)] ==> AllHex(d) && Hex4(d) == c && Utf8(c) == [c]
  {
    if d == [48, 48, LowerHex(c / 16), LowerHex(c % 16)] {
      HexIsSmall(d);
      assert Nibble(d[0]) == 0 && Nibble(d[1]) == 0 && Nibble(d[2]) == c / 16 && Nibble(d[3]) == c % 16;
    }
  }

  /** The piece that is printed for a byte. */
  function Printed(c: byte): Token {
    if Plain(c) then Raw(c) else match Letter(c) case Some(l) => Short(l, c) case None => CodePoint(Escape(c), c)
  }

  lemma {:induction false} PrintedMeans(c: byte)
    requires c != 0
    ensures Inside(Printed(c)) && Text(Printed(c)) == Escape(c) && Meaning(Printed(c)) == [c]
  {
    hide HexValue, AllHex, Nibble, Utf8;
    var e := Escape(c);
    if !Plain(c) && Letter(c).None? {
      assert e[0..6] == e && e[2..] == [48, 48, LowerHex(c / 16), LowerHex(c % 16)];
      ReadHex(c, e[2..]);
    }
  }

  function PrintedAll(v: seq<byte>): seq<Token> { if v == [] then [] else [Printed(v[0])] + PrintedAll(v[1..]) }

  lemma {:induction false} PrintedAllMeans(v: seq<byte>)
    requires ZeroFree(v)
    ensures var ts := PrintedAll(v);
            TextAll(ts) == EscapeAll(v) && MeaningAll(ts) == v && forall t | t in ts :: Inside(t)
  {
    hide Printed, Escape, Text, Meaning, Inside;
    if v != [] {
      var ts := PrintedAll(v);
      PrintedMeans(v[0]);
      PrintedAllMeans(v[1..]);
      assert ts[1..] == PrintedAll(v[1..]) && v == [v[0]] + v[1..];
    }
  }

  /** What is printed for a zero-free string, whatever follows it, is read back
      as that string, up to and with the closing quote. */
  lemma {:induction false} PrintThenParse(v: seq<byte>, rest: seq<byte>)
    requires ZeroFree(v)
    ensures Parse([QUOTE] + EscapeAll(v) + [QUOTE] + rest, 0) == Parsed(v, |EscapeAll(v)| + 2)
  {
    hide EscapeAll, Parse, PrintedAll, TextAll, MeaningAll, Inside;
    PrintedAllMeans(v);
    LiteralRead(PrintedAll(v), rest);
  }
}
