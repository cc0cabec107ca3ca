/** Rewriting a printed request body to pure ASCII, in a counting and a writing pass. */
module Rewriter {
  import opened Bytes
  import opened Utf8
  import opened Json
  import opened Nodes
  import Grammar
  import RoundTrip
  import Printer
  import Parser

  /** Reads the multibyte sequence at i: the trail length, the value, and whether it is complete. */
  method DecodeAt(s: Bytes, i: nat) returns (valid: bool, cp: nat, trail: nat)
    requires i < |s| && s[i] >= 0x80
    ensures valid == Multibyte(s[i..])
    ensures valid ==> trail == Trail(s[i]) && cp == CodePoint(s[i..], trail + 1) && cp < 0x200000
  {
    var c := s[i];
    trail, cp := 0, c;
    if LowBits(c / 32, 8) == 6 {
      cp, trail := LowBits(c, 32), 1;
    } else if LowBits(c / 16, 16) == 14 {
      cp, trail := LowBits(c, 16), 2;
    } else if c / 8 == 30 {
      cp, trail := LowBits(c, 8), 3;
    }
    assert trail == Trail(c);
    valid := trail > 0 && i + trail < |s|;
    var t := 0;
    while valid && t < trail
      invariant valid ==> 0 <= t <= trail && i + trail < |s|
      invariant valid ==> forall k :: 1 <= k <= t ==> Tail(s[i..][k])
      invariant valid ==> cp == Partial(s[i..], trail, t)
      invariant valid || !Multibyte(s[i..])
      decreases valid, trail - t
    {
      var cont := s[i + 1 + t];
      assert cont == s[i..][t + 1];
      if cont / 64 != 2 {
        valid := false;
        break;
      }
      cp := cp * 64 + LowBits(cont, 64);
      t := t + 1;
    }
  }

  /** The value after t continuation bytes. */
  function Partial(s: Bytes, trail: nat, t: nat): (cp: nat)
    requires 1 <= trail <= 3 && t <= trail < |s|
    ensures t == trail ==> cp == CodePoint(s, trail + 1) && cp < 0x200000
  {
    var lead := LowBits(s[0], if trail == 1 then 32 else if trail == 2 then 16 else 8);
    if t == 0 then lead
    else if t == 1 then lead * 64 + LowBits(s[1], 64)
    else if t == 2 then (lead * 64 + LowBits(s[1], 64)) * 64 + LowBits(s[2], 64)
    else ((lead * 64 + LowBits(s[1], 64)) * 64 + LowBits(s[2], 64)) * 64 + LowBits(s[3], 64)
  }

  /** Four hexadecimal digits in upper case, and their value. */
  predicate UpperHex(h: Bytes, v: int) {
    && |h| == 4 && (forall i :: 0 <= i < 4 ==> 48 <= h[i] <= 57 || 65 <= h[i] <= 70)
    && v == HexDigit(h[0]) * 4096 + HexDigit(h[1]) * 256 + HexDigit(h[2]) * 16 + HexDigit(h[3])
  }

  function HexDigit(c: byte): int {
    var n := c as int;
    if n <= 57 then n - 48 else n - 55
  }

  lemma FourHexIsUpper(n: nat)
    requires n < 0x10000
    ensures UpperHex(FourHex(n, true), n)
  {
    var t := FourHex(n, true);
    assert At(t, 0, t);
    Hex4OfFourHex(t, 0, n, true);
  }

  /** The value a sequence of n bytes carries. */
  function Carried(s: Bytes, n: nat): int
    requires 2 <= n <= 4 && n <= |s|
  {
    if n == 2 then (s[0] as int - 0xC0) * 64 + (s[1] as int - 0x80)
    else if n == 3 then (s[0] as int - 0xE0) * 4096 + (s[1] as int - 0x80) * 64 + (s[2] as int - 0x80)
    else
      (s[0] as int - 0xF0) * 262144 + (s[1] as int - 0x80) * 4096 + (s[2] as int - 0x80) * 64 + (s[3] as int - 0x80)
  }

  /** A complete sequence becomes a literal of its value, or the two of a surrogate pair, whatever follows and also
      when the sequence is overlong or the value a surrogate. */
  lemma SequenceIsRewritten(s: Bytes, n: nat)
    requires 2 <= n <= 4 && n <= |s| && forall k :: 1 <= k < n ==> 0x80 <= s[k] < 0xC0
    requires if n == 2 then 0xC0 <= s[0] < 0xE0 else if n == 3 then 0xE0 <= s[0] < 0xF0 else 0xF0 <= s[0] < 0xF8
    ensures var v := Carried(s, n); var rest := AsciiRewrite(s[n..]);
      if v < 0x10000 then
        exists h :: UpperHex(h, v) && AsciiRewrite(s) == [92, 117] + h + rest
      else
        exists h, l :: UpperHex(h, 0xD800 + (v - 0x10000) / 1024) && UpperHex(l, 0xDC00 + (v - 0x10000) % 1024)
                       && AsciiRewrite(s) == [92, 117] + h + [92, 117] + l + rest
  {
    var v := Carried(s, n);
    CarriedIsRewritten(s, n);
    LiteralIsHex(v);
    hide UpperHex, UnicodeLiteral, Carried, AsciiRewrite;
  }

  lemma CarriedIsRewritten(s: Bytes, n: nat)
    requires 2 <= n <= 4 && n <= |s| && forall k :: 1 <= k < n ==> 0x80 <= s[k] < 0xC0
    requires if n == 2 then 0xC0 <= s[0] < 0xE0 else if n == 3 then 0xE0 <= s[0] < 0xF0 else 0xF0 <= s[0] < 0xF8
    ensures 0 <= Carried(s, n) < 0x200000 && AsciiRewrite(s) == UnicodeLiteral(Carried(s, n)) + AsciiRewrite(s[n..])
  {
    LeadAndTailBits(s[0]);
    LeadAndTailBits(s[1]);
    if n > 2 { LeadAndTailBits(s[2]); }
    if n > 3 { LeadAndTailBits(s[3]); }
    hide UnicodeLiteral, LowBits;
    assert Multibyte(s) && Trail(s[0]) + 1 == n;
    assert CodePoint(s, n) == Carried(s, n);
  }

  lemma LiteralIsHex(v: nat)
    requires v < 0x200000
    ensures v < 0x10000 ==> exists h :: UpperHex(h, v) && UnicodeLiteral(v) == [92, 117] + h
    ensures v >= 0x10000 ==>
      exists h, l :: UpperHex(h, 0xD800 + (v - 0x10000) / 1024) && UpperHex(l, 0xDC00 + (v - 0x10000) % 1024)
                     && UnicodeLiteral(v) == [92, 117] + h + [92, 117] + l
  {
    hide UpperHex, FourHex;
    if v < 0x10000 {
      FourHexIsUpper(v);
      assert UnicodeLiteral(v) == [92, 117] + FourHex(v, true);
    } else {
      var h, l := FourHex(0xD800 + (v - 0x10000) / 1024, true), FourHex(0xDC00 + (v - 0x10000) % 1024, true);
      FourHexIsUpper(0xD800 + (v - 0x10000) / 1024);
      FourHexIsUpper(0xDC00 + (v - 0x10000) % 1024);
      assert UnicodeLiteral(v) == [92, 117] + h + [92, 117] + l;
    }
  }

  /** Any other byte in front stays. */
  lemma OtherByteStays(s: Bytes)
    requires s != []
    requires s[0] < 0xC0 || s[0] >= 0xF8 || |s| == 1 || !(0x80 <= s[1] < 0xC0)
             || (s[0] >= 0xE0 && (|s| == 2 || !(0x80 <= s[2] < 0xC0)))
             || (s[0] >= 0xF0 && (|s| == 3 || !(0x80 <= s[3] < 0xC0)))
    ensures AsciiRewrite(s) == [s[0]] + AsciiRewrite(s[1..])
  {
    var n := Trail(s[0]);
    assert Multibyte(s) ==> (n >= 1 ==> Tail(s[1])) && (n >= 2 ==> Tail(s[2])) && (n >= 3 ==> Tail(s[3]));
    assert !Multibyte(s);
  }

  /** How far the rewrite of the rest is: the next literal or byte, then the rest. */
  lemma RewriteStep(s: Bytes, i: nat)
    requires i < |s|
    ensures s[i] < 0x80 ==> !Multibyte(s[i..])
    ensures !Multibyte(s[i..]) ==> AsciiRewrite(s[i..]) == [s[i]] + AsciiRewrite(s[i + 1..])
    ensures Multibyte(s[i..]) ==> var n := Trail(s[i]) + 1;
      i + n <= |s| && AsciiRewrite(s[i..]) == UnicodeLiteral(CodePoint(s[i..], n)) + AsciiRewrite(s[i + n..])
  {
    assert s[i..][1..] == s[i + 1..];
    if Multibyte(s[i..]) {
      assert s[i..][Trail(s[i]) + 1..] == s[i + Trail(s[i]) + 1..];
    }
  }

  /** The counting pass. */
  method RewrittenLength(s: Bytes) returns (length: nat)
    ensures length == |AsciiRewrite(s)| && length >= |s| && (length == |s| ==> AsciiRewrite(s) == s)
  {
    hide AsciiRewrite, UnicodeLiteral, Multibyte, CodePoint;
    length := 0;
    var i := 0;
    ghost var whole := AsciiRewrite(s);
    assert s[0..] == s;
    while i < |s|
      invariant 0 <= i <= |s| && length + |AsciiRewrite(s[i..])| == |whole|
      invariant length >= i && (length == i ==> s[..i] + AsciiRewrite(s[i..]) == whole)
      decreases |s| - i
    {
      RewriteStep(s, i);
      if s[i] >= 0x80 {
        var valid, cp, trail := DecodeAt(s, i);
        if valid {
          assert |UnicodeLiteral(cp)| > trail + 1;
          length := length + if cp <= 0xFFFF then 6 else 12;
          i := i + trail + 1;
          continue;
        }
      }
      if length == i {
        Longer(s[..i], [s[i]], AsciiRewrite(s[i + 1..]), whole);
        assert s[..i] + [s[i]] == s[..i + 1];
      }
      length := length + 1;
      i := i + 1;
    }
    NothingLeft(s);
  }

  /** "\u%04X" for one unit. */
  method PutUnit(unit: nat, output: array<byte>, j: nat)
    requires unit < 0x10000 && j + 6 <= output.Length
    modifies output
    ensures output[..j + 6] == old(output[..j]) + ([BACKSLASH, LETTER_U] + FourHex(unit, true))
  {
    var digits := FourHex(unit, true);
    output[j], output[j + 1] := BACKSLASH, LETTER_U;
    output[j + 2], output[j + 3], output[j + 4], output[j + 5] := digits[0], digits[1], digits[2], digits[3];
  }

  /** The literal or the surrogate pair of literals for a code point. */
  method PutLiteral(cp: nat, output: array<byte>, j: nat) returns (next: nat)
    requires cp < 0x200000 && j + |UnicodeLiteral(cp)| <= output.Length
    modifies output
    ensures next == j + |UnicodeLiteral(cp)|
    ensures output[..next] == old(output[..j]) + UnicodeLiteral(cp)
  {
    if cp <= 0xFFFF {
      PutUnit(cp, output, j);
      next := j + 6;
    } else {
      var v := cp - 0x10000;
      PutPair(0xD800 + v / 1024, 0xDC00 + v % 1024, output, j);
      next := j + 12;
    }
  }

  method PutPair(high: nat, low: nat, output: array<byte>, j: nat)
    requires high < 0x10000 && low < 0x10000 && j + 12 <= output.Length
    modifies output
    ensures output[..j + 12] == old(output[..j]) +
      ([BACKSLASH, LETTER_U] + FourHex(high, true) + [BACKSLASH, LETTER_U] + FourHex(low, true))
  {
    hide FourHex;
    PutUnit(high, output, j);
    PutUnit(low, output, j + 6);
  }

  /** The writing pass, into a buffer of the counted size and one byte for the NUL. */
  method WriteRewritten(s: Bytes, output: array<byte>)
    requires output.Length == |AsciiRewrite(s)| + 1
    modifies output
    ensures output[..] == AsciiRewrite(s) + [NUL]
  {
    hide AsciiRewrite, UnicodeLiteral, Multibyte, CodePoint;
    var i, j := 0, 0;
    ghost var whole := AsciiRewrite(s);
    assert s[0..] == s;
    while i < |s|
      invariant 0 <= i <= |s| && 0 <= j < output.Length
      invariant output[..j] + AsciiRewrite(s[i..]) == whole
      decreases |s| - i
    {
      RewriteStep(s, i);
      ghost var done := output[..j];
      if s[i] >= 0x80 {
        var valid, cp, trail := DecodeAt(s, i);
        if valid {
          Longer(done, UnicodeLiteral(cp), AsciiRewrite(s[i + trail + 1..]), whole);
          j := PutLiteral(cp, output, j);
          i := i + trail + 1;
          continue;
        }
      }
      Longer(done, [s[i]], AsciiRewrite(s[i + 1..]), whole);
      output[j] := s[i];
      j := j + 1;
      assert output[..j] == done + [s[i]];
      i := i + 1;
    }
    NothingLeft(s);
    output[j] := NUL;
  }

  lemma NothingLeft(s: Bytes)
    ensures AsciiRewrite(s[|s|..]) == []
  {
  }

  /** The rewrite as the request builder applies it: only when the count says something changes. */
  method RewriteBody(s: Bytes) returns (body: Bytes)
    ensures body == AsciiRewrite(s)
  {
    var length := RewrittenLength(s);
    if length <= |s| {
      return s;
    }
    var escaped := new byte[length + 1];
    WriteRewritten(s, escaped);
    body := escaped[..length];
  }

  lemma PrintableRaw(j: Json)
    requires Printable(j, true)
    ensures Printable(j, false)
  {
  }

  /** The body of a request, printed compactly and rewritten, and what its receiver parses. */
  method SendAndReceive(item: Node, initial: nat, requireTerminator: bool)
    returns (body: Option<Bytes>, received: Node?, end: nat)
    requires item.Valid() && Printable(item.Tree, true) && Depth(item.Tree) <= NESTING_LIMIT && initial <= INT_MAX
    ensures body.Some? == (|Text(item.Tree, 0, Style(false, false))| + 2 <= INT_MAX)
    ensures body.Some? ==> (
        && AllAscii(body.value) && end == |body.value|
        && received != null && fresh(received.Repr) && received.Valid() && received.Tree == item.Tree)
  {
    hide Node.Valid, Printable, Text, AllAscii, Grammar.ParseDocument;
    PrintableRaw(item.Tree);
    var printed := Printer.Print(item, initial, false);
    if printed.None? {
      return None, null, 0;
    }
    var rewritten := RewriteBody(printed.value);
    RoundTrip.RewrittenBodyMeansTheSame(item.Tree, false, requireTerminator);
    received, end := Parser.ParseWithLength(rewritten + [NUL], requireTerminator);
    body := Some(rewritten);
  }
}
