/** Reading and printing JSON strings in place. */
module Json {
  import opened Codec
  import opened Common
  import opened JsonSpec

  method ParseHex4(input: array<byte>, at: nat) returns (h: nat)
    requires at + 4 <= input.Length
    ensures h == Hex4(input[at..at + 4])
  {
    h := 0;
    var i := 0;
    ghost var s := input[at..at + 4];
    while i < 4
      invariant i <= 4 && AllHex(s[..i])
      invariant h == if 0 < i < 4 then HexValue(s[..i]) * 16 else HexValue(s[..i])
    {
      var c := input[at + i];
      assert c == s[i] && s[..i + 1][..i] == s[..i];
      if 48 <= c <= 57 {
        h := h + c - 48;
      } else if 65 <= c <= 70 {
        h := h + 10 + c - 65;
      } else if 97 <= c <= 102 {
        h := h + 10 + c - 97;
      } else {
        assert s[i] in s && !IsHex(s[i]);
        return 0;
      }
      if i < 3 {
        h := h * 16;
      }
      i := i + 1;
    }
    assert s[..4] == s;
  }

  /** `cp` shifted right by six bits, `k` times. */
  function Shifted(cp: nat, k: nat): nat { if k == 0 then cp else Shifted(cp, k - 1) / 64 }

  /** Writes the UTF-8 of a code point, last byte first. */
  method EncodeUtf8(cp: nat, output: array<byte>, o: nat) returns (next: nat)
    requires cp <= 0x10FFFF && o + |Utf8(cp)| <= output.Length
    modifies output
    ensures next == o + |Utf8(cp)| && output[..next] == old(output[..o]) + Utf8(cp)
  {
    hide Utf8, Shifted;
    var len, mark := 1, 0;
    if cp >= 0x80 {
      if cp < 0x800 {
        len, mark := 2, 0xC0;
      } else if cp < 0x10000 {
        len, mark := 3, 0xE0;
      } else {
        len, mark := 4, 0xF0;
      }
    }
    ghost var u := Utf8(cp);
    FirstByte(cp, len, mark);
    var c, pos := cp, len - 1;
    ShiftOnce(cp, 0);
    while pos > 0
      invariant 0 <= pos < len && c == Shifted(cp, len - 1 - pos)
      invariant output[o + pos + 1..o + len] == u[pos + 1..]
      invariant output[..o] == old(output[..o])
    {
      LaterByte(cp, pos);
      ShiftOnce(cp, len - 1 - pos);
      output[o + pos] := 0x80 + c % 64;
      assert output[o + pos..o + len] == [output[o + pos]] + output[o + pos + 1..o + len];
      c, pos := c / 64, pos - 1;
    }
    output[o] := if len > 1 then mark + c else c;
    assert output[o..o + len] == [output[o]] + output[o + 1..o + len] == u;
    Joined(output[..], o, o + len);
    assert output[..][..o + len] == output[..o + len] && output[..][..o] == output[..o];
    return o + len;
  }

  lemma Joined(s: seq<byte>, i: nat, j: nat)
    requires i <= j <= |s|
    ensures s[..j] == s[..i] + s[i..j]
  {}

  lemma ShiftOnce(cp: nat, k: nat)
    ensures Shifted(cp, 0) == cp && Shifted(cp, k + 1) == Shifted(cp, k) / 64
  {}

  lemma FirstByte(cp: nat, len: nat, mark: nat)
    requires cp <= 0x10FFFF
    requires (len, mark) ==
             if cp < 0x80 then (1, 0)
             else if cp < 0x800 then (2, 0xC0)
             else if cp < 0x10000 then (3, 0xE0)
             else (4, 0xF0)
    ensures mark + Shifted(cp, len - 1) == Utf8(cp)[0] && len == |Utf8(cp)|
  {
    assert Shifted(cp, 1) == cp / 64 && Shifted(cp, 2) == cp / 64 / 64 && Shifted(cp, 3) == cp / 64 / 64 / 64;
  }

  lemma LaterByte(cp: nat, j: nat)
    requires cp <= 0x10FFFF && 0 < j < |Utf8(cp)|
    ensures Utf8(cp)[j] == 0x80 + Shifted(cp, |Utf8(cp)| - 1 - j) % 64
  {
    assert Shifted(cp, 1) == cp / 64 && Shifted(cp, 2) == cp / 64 / 64;
  }

  /** Reads one or two \uXXXX at `at` and writes their UTF-8; zero is failure. */
  method Utf16LiteralToUtf8(input: array<byte>, at: nat, end: nat, output: array<byte>, o: nat)
        returns (len: nat, next: nat)
    requires end <= input.Length && output != input && o <= output.Length
    requires var m := Literal(input[..], at, end); m.Move? ==> o + |m.out| <= output.Length
    modifies output
    ensures match Literal(input[..], at, end)
            case Stop => len == 0 && next == o && output[..] == old(output[..])
            case Move(out, l) => len == l && next == o + |out| && output[..next] == old(output[..o]) + out
  {
    hide Utf8, HexValue, AllHex;
    ghost var s := input[..];
    if end < at + 6 {
      return 0, o;
    }
    var first := ParseHex4(input, at + 2);
    assert input[at + 2..at + 6] == s[at + 2..at + 6];
    Small(s[at + 2..at + 6]);
    if 0xDC00 <= first <= 0xDFFF {
      return 0, o;
    }
    if 0xD800 <= first <= 0xDBFF {
      if end < at + 12 || input[at + 6] != BACKSLASH || input[at + 7] != LOWER_U {
        return 0, o;
      }
      var second := ParseHex4(input, at + 8);
      assert input[at + 8..at + 12] == s[at + 8..at + 12];
      if second < 0xDC00 || second > 0xDFFF {
        return 0, o;
      }
      next := EncodeUtf8(0x10000 + (first % 1024 * 1024 + second % 1024), output, o);
      return 12, next;
    }
    next := EncodeUtf8(first, output, o);
    return 6, next;
  }

  lemma Small(s: seq<byte>)
    requires |s| == 4
    ensures Hex4(s) < 0x10000
  {
    if AllHex(s) {
      HexIsSmall(s);
    }
  }

  // ------------------------------------------------------------ parsing

  function Prepend(v: seq<byte>, r: Outcome): Outcome {
    match r case Failed(at) => Failed(at) case Parsed(value, next) => Parsed(v + value, next)
  }

  /** Finds the closing quote. */
  method ScanLiteral(content: array<byte>, from: nat) returns (ok: bool, end: nat, skipped: nat)
    requires from <= content.Length
    ensures ok == Scan(content[..], from).Some? && (ok ==> Scan(content[..], from) == Some((end, skipped)))
  {
    ghost var s := content[..];
    end, skipped := from, 0;
    while end < content.Length && content[end] != QUOTE
      invariant from <= end <= content.Length
      invariant Scan(s, from) ==
                match Scan(s, end) case None => None case Some((e, k)) => Some((e, k + skipped))
    {
      if content[end] == BACKSLASH {
        if end + 1 >= content.Length {
          return false, end, skipped;
        }
        skipped := skipped + 1;
        end := end + 1;
      }
      end := end + 1;
    }
    if end >= content.Length {
      return false, end, skipped;
    }
    return true, end, skipped;
  }

  /** Reads one character or escape sequence; zero is failure. */
  method ReadOne(content: array<byte>, i: nat, end: nat, output: array<byte>, o: nat) returns (len: nat, next: nat)
    requires i < end < content.Length && output != content && o < output.Length
    requires var m := At(content[..], i, end); m.Move? ==> o + |m.out| <= output.Length
    modifies output
    ensures match At(content[..], i, end)
            case Stop => len == 0
            case Move(out, l) => len == l && next == o + |out| && output[..next] == old(output[..o]) + out
  {
    hide Literal;
    if content[i] != BACKSLASH {
      output[o] := content[i];
      return 1, o + 1;
    }
    var c := content[i + 1];
    match c {
      case 98 => output[o] := 8;
      case 102 => output[o] := 12;
      case 110 => output[o] := 10;
      case 114 => output[o] := 13;
      case 116 => output[o] := 9;
      case 34 | 92 | 47 => output[o] := c;
      case 117 =>
        len, next := Utf16LiteralToUtf8(content, i, end, output, o);
        return;
      case _ => return 0, o;
    }
    return 2, o + 1;
  }

  /** Parses the literal at `offset`: the value with a zero byte behind it, and the
      place after the closing quote, or the place where parsing stopped. */
  method ParseString(content: array<byte>, offset: nat) returns (ok: bool, output: array<byte>, next: nat)
    requires offset < content.Length
    ensures match Parse(content[..], offset)
            case Failed(at) => !ok && next == at
            case Parsed(value, n) => ok && next == n && |value| < output.Length && output[..|value| + 1] == value + [0]
  {
    hide At, Body, Scan;
    ghost var s := content[..];
    output := new byte[0];
    if content[offset] != QUOTE {
      return false, output, offset + 1;
    }
    var found, end, skipped := ScanLiteral(content, offset + 1);
    if !found {
      return false, output, offset + 1;
    }
    ghost var k := skipped;
    output := new byte[end - offset - skipped + 1];
    var at, o := ReadLiteral(content, offset + 1, end, k, output);
    if at <= end {
      return false, output, at;
    }
    output[o] := 0;
    assert output[..o + 1] == output[..o] + [0];
    return true, output, end + 1;
  }

  /** Reads all of a literal; it stops at `at`, which is behind the closing quote
      if all is well. */
  method ReadLiteral(content: array<byte>, from: nat, end: nat, ghost skipped: nat, output: array<byte>)
      returns (at: nat, o: nat)
    requires from <= end < content.Length && output != content
    requires Scan(content[..], from) == Some((end, skipped)) && output.Length == end - from - skipped + 2
    modifies output
    ensures match Body(content[..], from, end)
            case Failed(i) => at == i <= end
            case Parsed(value, n) => at == n == end + 1 && o == |value| < output.Length && output[..o] == value
  {
    hide At, Body, Scan;
    ghost var s := content[..];
    var i: nat := from;
    o := 0;
    ghost var p, k := i, skipped;
    assert Prepend([], Body(s, from, end)) == Body(s, from, end) by {
      PrependNone(Body(s, from, end));
    }
    while i < end
      invariant from <= i <= end + 1 && o < output.Length
      invariant Body(s, from, end) == Prepend(output[..o], Body(s, i, end))
      invariant if i <= end then InStep(s, i, end, p, k) else k == 0
      invariant o + Room(i, end) - k <= output.Length - 2
      decreases end + 1 - i
    {
      BodyStep(s, i, end);
      ghost var m := At(s, i, end);
      ghost var p', k' := p, k;
      if m.Move? {
        p', k' := StepFits(s, i, end, p, k);
        RoomLeft(s, i + m.len, end, p', k');
        PrependTwice(output[..o], m.out, Body(s, i + m.len, end));
      }
      var len, next := ReadOne(content, i, end, output, o);
      if len == 0 {
        return i, o;
      }
      i, o := i + len, next;
      p, k := p', k';
    }
    BodyEnd(s, i, end);
    at := end + 1;
  }

  lemma PrependNone(r: Outcome)
    ensures Prepend([], r) == r
  {
    if r.Parsed? {
      assert [] + r.value == r.value;
    }
  }

  lemma PrependTwice(a: seq<byte>, b: seq<byte>, r: Outcome)
    ensures Prepend(a, Prepend(b, r)) == Prepend(a + b, r)
  {
    if r.Parsed? {
      assert a + (b + r.value) == a + b + r.value;
    }
  }

  lemma BodyStep(s: seq<byte>, i: nat, end: nat)
    requires i < end < |s|
    ensures At(s, i, end).Move? ==> At(s, i, end).len > 0 && i + At(s, i, end).len <= end + 1
    ensures At(s, i, end).Stop? ==> Body(s, i, end) == Failed(i)
    ensures At(s, i, end).Move? ==> Body(s, i, end) == Prepend(At(s, i, end).out, Body(s, i + At(s, i, end).len, end))
  {}

  lemma BodyEnd(s: seq<byte>, i: nat, end: nat)
    requires end <= i <= end + 1 && end < |s|
    ensures Body(s, i, end) == Parsed([], end + 1)
  {}

  lemma RoomLeft(s: seq<byte>, i: nat, end: nat, p: nat, k: nat)
    requires end < |s| && (i <= end ==> InStep(s, i, end, p, k)) && (i > end ==> k == 0)
    ensures Room(i, end) >= k
  {}

  // ------------------------------------------------------------ printing

  /** Writes one character, escaped where that is needed.  Formatting puts a zero
      byte behind its digits, which the next write replaces. */
  method WriteOne(c: byte, output: array<byte>, o: nat) returns (next: nat)
    requires o + |Escape(c)| < output.Length
    modifies output
    ensures next == o + |Escape(c)| && output[..next] == old(output[..o]) + Escape(c)
  {
    if c > 31 && c != QUOTE && c != BACKSLASH {
      output[o] := c;
      return o + 1;
    }
    output[o] := BACKSLASH;
    match c {
      case 92 => output[o + 1] := BACKSLASH;
      case 34 => output[o + 1] := QUOTE;
      case 8 => output[o + 1] := 98;
      case 12 => output[o + 1] := 102;
      case 10 => output[o + 1] := 110;
      case 13 => output[o + 1] := 114;
      case 9 => output[o + 1] := 116;
      case _ =>
        output[o + 1], output[o + 2], output[o + 3] := LOWER_U, 48, 48;
        output[o + 4], output[o + 5], output[o + 6] := LowerHex(c / 16), LowerHex(c % 16), 0;
        return o + 6;
    }
    return o + 2;
  }

  /** The number of characters that escaping adds to a zero-terminated string. */
  method CountEscapes(input: array<byte>, ghost n: nat) returns (length: nat, escapes: nat)
    requires n < input.Length && input[n] == 0 && ZeroFree(input[..n])
    ensures length == n && |EscapeAll(input[..n])| == n + escapes
  {
    hide EscapeAll;
    ghost var s := input[..n];
    NoZero(s);
    assert forall j | 0 <= j < n :: input[j] == s[j];
    length, escapes := 0, 0;
    EscapeNone();
    assert s[..0] == [];
    while input[length] != 0
      invariant length <= n && |EscapeAll(s[..length])| == length + escapes
      decreases n - length
    {
      var c := input[length];
      assert length < n && c == s[length];
      EscapeNext(s, length);
      if c in [QUOTE, BACKSLASH, 8, 12, 10, 13, 9] {
        escapes := escapes + 1;
      } else if c < 32 {
        escapes := escapes + 5;
      }
      length := length + 1;
    }
    assert s[..n] == s;
  }

  /** Writes a zero-terminated string, escaped, behind the opening quote. */
  method WriteAll(input: array<byte>, ghost n: nat, output: array<byte>) returns (o: nat)
    requires n < input.Length && input[n] == 0 && ZeroFree(input[..n]) && output != input
    requires output.Length == |EscapeAll(input[..n])| + 3 && output[0] == QUOTE
    modifies output
    ensures o == 1 + |EscapeAll(input[..n])| && output[..o] == [QUOTE] + EscapeAll(input[..n])
  {
    hide EscapeAll, Escape;
    ghost var s := input[..n];
    NoZero(s);
    assert forall j | 0 <= j < n :: input[j] == s[j];
    var i := 0;
    o := 1;
    EscapeNone();
    assert s[..0] == [];
    while input[i] != 0
      invariant 0 <= i <= n && |EscapeAll(s[..i])| <= |EscapeAll(s)|
      invariant o == 1 + |EscapeAll(s[..i])| && output[..o] == [QUOTE] + EscapeAll(s[..i])
      decreases n - i
    {
      EscapeNext(s, i);
      o := WriteOne(input[i], output, o);
      i := i + 1;
    }
    assert s[..n] == s;
  }

  /** Prints a zero-terminated string as a literal, into exactly the space its
      predicted length asks for; no string prints like the empty one. */
  method PrintString(input: array?<byte>, ghost n: nat) returns (output: array<byte>)
    requires input != null ==> n < input.Length && input[n] == 0 && ZeroFree(input[..n])
    ensures output[..] == [QUOTE] + EscapeAll(if input == null then [] else input[..n]) + [QUOTE, 0]
  {
    hide EscapeAll, Escape;
    if input == null {
      EscapeNone();
      output := new byte[3];
      output[0], output[1], output[2] := QUOTE, QUOTE, 0;
      return;
    }
    ghost var s := input[..n];
    var length, escapes := CountEscapes(input, n);
    output := new byte[length + escapes + 3];
    output[0] := QUOTE;
    var o := 1;
    if escapes == 0 {
      NothingEscaped(s);
      Copy(output, 1, input[..length]);
      o := 1 + length;
    } else {
      o := WriteAll(input, n, output);
    }
    output[o] := QUOTE;
    output[o + 1] := 0;
    assert output[..] == output[..o] + [QUOTE, 0];
  }
}
