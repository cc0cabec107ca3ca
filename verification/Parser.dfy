/** The parser over its buffer: the loops of lib/cjson.c proved against the grammar. */
module Parser {
  import opened Bytes
  import opened Utf8
  import opened Json
  import opened Grammar
  import opened Nodes

  class ParseBuffer {
    const content: Bytes
    var offset: nat
    var depth: nat

    constructor (content: Bytes)
      ensures this.content == content && offset == 0 && depth == 0
    {
      this.content := content;
      offset, depth := 0, 0;
    }

    ghost predicate Valid()
      reads this
    {
      offset <= |content| && depth <= NESTING_LIMIT
    }

    predicate CanAccess(index: nat)
      reads this
    {
      offset + index < |content|
    }

    method SkipWhitespace()
      requires Valid()
      modifies this`offset
      ensures Valid() && offset == SkipSpace(content, old(offset))
    {
      if !CanAccess(0) {
        return;
      }
      while CanAccess(0) && content[offset] <= 32
        invariant old(offset) <= offset <= |content|
        invariant SkipBlanks(content, old(offset)) == SkipBlanks(content, offset)
        decreases |content| - offset
      {
        offset := offset + 1;
      }
      if offset == |content| {
        offset := offset - 1;
      }
    }

    method SkipByteOrderMark()
      requires Valid() && offset == 0
      modifies this`offset
      ensures Valid() && offset == Start(content)
    {
      if CanAccess(4) && content[0] == 0xEF && content[1] == 0xBB && content[2] == 0xBF {
        offset := offset + 3;
      }
    }
  }

  /** The node holds the parsed value, owns only itself and new nodes, and the offset moved behind it. */
  ghost predicate Produced(item: Node, r: Parsed<Json>, offset: nat)
    reads item, item.Repr
  {
    r.Parsed? && item.Valid() && item.Tree == r.value && offset == r.end
  }

  // ----- Room for the second pass of a string -----

  /** Bytes the first pass counts for s[i..end]; inside says i is the second half of an escape. */
  function Room(s: Bytes, i: nat, end: nat, inside: bool): (n: nat)
    requires i <= end <= |s|
    decreases end - i
  {
    if i == end then 0
    else if !inside && s[i] == BACKSLASH then Room(s, i + 1, end, true)
    else 1 + Room(s, i + 1, end, false)
  }

  /** The first pass, standing at i, will end at the quote at end. */
  predicate OnTrack(s: Bytes, i: nat, end: nat, inside: bool) {
    i <= end < |s| && ClosingQuote(s, if inside then i + 1 else i) == Some(end)
  }

  function Inside(s: Bytes, i: nat, inside: bool): bool
    requires i < |s|
  {
    !inside && s[i] == BACKSLASH
  }

  lemma OneStep(s: Bytes, i: nat, end: nat, inside: bool)
    requires OnTrack(s, i, end, inside) && i < end
    ensures OnTrack(s, i + 1, end, Inside(s, i, inside))
    ensures Room(s, i, end, inside) ==
      Room(s, i + 1, end, Inside(s, i, inside)) + (if Inside(s, i, inside) then 0 else 1)
    ensures Inside(s, i, inside) ==> i + 1 < end
  {
  }

  /** However the second pass falls out of step, k characters leave room for half as many bytes. */
  lemma {:induction false} Steps(s: Bytes, i: nat, end: nat, inside: bool, k: nat) returns (after: bool)
    requires OnTrack(s, i, end, inside) && i + k <= end
    ensures OnTrack(s, i + k, end, after)
    ensures Room(s, i, end, inside) >= Room(s, i + k, end, after) + k / 2
    decreases k
  {
    if k < 2 {
      after := inside;
      if k == 1 { OneStep(s, i, end, inside); after := Inside(s, i, inside); }
    } else {
      OneStep(s, i, end, inside);
      var one := Inside(s, i, inside);
      OneStep(s, i + 1, end, one);
      after := Steps(s, i + 2, end, Inside(s, i + 1, one), k - 2);
    }
  }

  // ----- Numbers -----

  /** The number characters at the offset, copied into a 64-byte buffer. */
  method ReadNumberChars(buf: ParseBuffer) returns (t: Bytes)
    requires buf.Valid()
    ensures t == NumberChars(buf.content, buf.offset, NUMBER_CHARS_MAX)
  {
    hide NumberChars, NumberChar;
    var digits := new byte[64];
    var i := 0;
    while i < 63 && buf.CanAccess(i) && NumberChar(buf.content[buf.offset + i])
      invariant 0 <= i <= 63 && buf.offset + i <= |buf.content|
      invariant forall k :: 0 <= k < i ==> digits[k] == buf.content[buf.offset + k]
      invariant forall k :: buf.offset <= k < buf.offset + i ==> NumberChar(buf.content[k])
    {
      digits[i] := buf.content[buf.offset + i];
      i := i + 1;
    }
    digits[i] := NUL;
    t := digits[..i];
    NumberCharsAre(buf.content, buf.offset, NUMBER_CHARS_MAX, i);
    assert t == buf.content[buf.offset..buf.offset + i];
  }

  lemma NumberCharsAre(s: Bytes, off: nat, max: nat, n: nat)
    requires n <= max && off + n <= |s| && forall k :: off <= k < off + n ==> NumberChar(s[k])
    requires n == max || off + n == |s| || !NumberChar(s[off + n])
    ensures NumberChars(s, off, max) == s[off..off + n]
    decreases n
  {
    if n > 0 {
      NumberCharsAre(s, off + 1, max - 1, n - 1);
      assert s[off..off + n] == [s[off]] + s[off + 1..off + n];
    }
  }

  method ParseNumber(item: Node, buf: ParseBuffer) returns (ok: bool)
    requires buf.Valid() && item.Blank()
    modifies item, buf`offset
    ensures buf.Valid()
    ensures ok == Grammar.ParseNumber(buf.content, old(buf.offset)).Parsed?
    ensures ok ==> Produced(item, Grammar.ParseNumber(buf.content, old(buf.offset)), buf.offset)
    ensures SamePlace(item) && item.Repr == {item}
  {
    hide NumberLength, NumberValue, NumberChars;
    var t := ReadNumberChars(buf);
    var length := NumberLength(t);
    if length == 0 {
      return false;
    }
    item.number := Saturate(NumberValue(t));
    item.kind := KNumber;
    item.Tree := Number(item.number);
    buf.offset := buf.offset + length;
    return true;
  }

  /** Parsing fills a node without moving it: its links and its key stay. */
  twostate predicate SamePlace(item: Node)
    reads item
  {
    item.next == old(item.next) && item.prev == old(item.prev) && item.key == old(item.key)
  }

  // ----- Strings -----

  /** parse_hex4. */
  method ParseHex4(s: Bytes, i: nat) returns (h: nat)
    requires i + 4 <= |s|
    ensures h == Hex4(s, i)
  {
    h := 0;
    var k := 0;
    while k < 4
      invariant 0 <= k <= 4
      invariant k > 0 ==> HexValue(s[i]) >= 0
      invariant k > 1 ==> HexValue(s[i + 1]) >= 0
      invariant k > 2 ==> HexValue(s[i + 2]) >= 0
      invariant k > 3 ==> HexValue(s[i + 3]) >= 0
      invariant k == 0 ==> h == 0
      invariant k == 1 ==> h == 16 * HexValue(s[i])
      invariant k == 2 ==> h == 256 * HexValue(s[i]) + 16 * HexValue(s[i + 1])
      invariant k == 3 ==> h == 4096 * HexValue(s[i]) + 256 * HexValue(s[i + 1]) + 16 * HexValue(s[i + 2])
      invariant k == 4 ==>
        h == 4096 * HexValue(s[i]) + 256 * HexValue(s[i + 1]) + 16 * HexValue(s[i + 2]) + HexValue(s[i + 3])
    {
      var c := s[i + k];
      if 48 <= c <= 57 {
        h := h + (c - 48);
      } else if 65 <= c <= 70 {
        h := h + 10 + (c - 65);
      } else if 97 <= c <= 102 {
        h := h + 10 + (c - 97);
      } else {
        return 0;
      }
      if k < 3 {
        h := h * 16;
      }
      k := k + 1;
    }
  }

  /** The encoding loop: continuation bytes from the last to the second, then the lead byte. */
  method EncodeUtf8(codepoint: nat, output: array<byte>, out: nat) returns (length: nat)
    requires codepoint <= 0x10FFFF && out + |Encode(codepoint)| <= output.Length
    modifies output
    ensures length == |Encode(codepoint)|
    ensures output[..out] == old(output[..out]) && output[out..out + length] == Encode(codepoint)
  {
    hide Encode, Shifted;
    var mark;
    if codepoint < 0x80 {
      length, mark := 1, 0;
    } else if codepoint < 0x800 {
      length, mark := 2, 0xC0;
    } else if codepoint < 0x10000 {
      length, mark := 3, 0xE0;
    } else {
      length, mark := 4, 0xF0;
    }
    EncodedLength(codepoint);
    ghost var bytes := Encode(codepoint);
    var position, cp := length - 1, codepoint;
    while position > 0
      invariant 0 <= position < length
      invariant forall k :: 0 <= k < out ==> output[k] == old(output[k])
      invariant cp == Shifted(codepoint, length - 1 - position)
      invariant forall k :: position < k < length ==> output[out + k] == bytes[k]
    {
      EncodeTail(codepoint, length, position);
      output[out + position] := 0x80 + cp % 64;
      cp := cp / 64;
      position := position - 1;
    }
    EncodeLead(codepoint, length);
    output[out] := mark + cp;
    assert output[out..out + length] == bytes;
  }

  lemma EncodedLength(cp: nat)
    requires cp <= 0x10FFFF
    ensures |Encode(cp)| == if cp < 0x80 then 1 else if cp < 0x800 then 2 else if cp < 0x10000 then 3 else 4
    ensures Shifted(cp, 0) == cp
  {
  }

  function Shifted(cp: nat, k: nat): nat { if k == 0 then cp else Shifted(cp, k - 1) / 64 }

  lemma EncodeTail(cp: nat, length: nat, position: nat)
    requires cp <= 0x10FFFF && 0 < position < length == |Encode(cp)|
    ensures Encode(cp)[position] == 0x80 + Shifted(cp, length - 1 - position) % 64
    ensures Shifted(cp, length - 1 - position) / 64 == Shifted(cp, length - position)
  {
    assert Shifted(cp, 1) == cp / 64 && Shifted(cp, 2) == cp / 64 / 64;
  }

  lemma EncodeLead(cp: nat, length: nat)
    requires cp <= 0x10FFFF && length == |Encode(cp)|
    ensures length == 1 ==> Encode(cp)[0] == Shifted(cp, 0)
    ensures length == 2 ==> Encode(cp)[0] == 0xC0 + Shifted(cp, 1)
    ensures length == 3 ==> Encode(cp)[0] == 0xE0 + Shifted(cp, 2)
    ensures length == 4 ==> Encode(cp)[0] == 0xF0 + Shifted(cp, 3)
  {
    assert Shifted(cp, 1) == cp / 64 && Shifted(cp, 2) == cp / 64 / 64 && Shifted(cp, 3) == cp / 64 / 64 / 64;
  }

  /** utf16_literal_to_utf8: length 0 reports failure. */
  method ConvertUtf16Literal(s: Bytes, i: nat, end: nat, output: array<byte>, out: nat)
    returns (length: nat, written: nat)
    requires i <= end <= |s| && out <= output.Length
    requires Utf16Literal(s, i, end).Literal? ==> out + |Utf16Literal(s, i, end).bytes| <= output.Length
    modifies output
    ensures length == 0 <==> Utf16Literal(s, i, end).BadLiteral?
    ensures out <= written <= output.Length
    ensures length > 0 ==> Utf16Literal(s, i, end) == Literal(output[out..written], length)
    ensures length > 0 ==> output[..out] == old(output[..out])
  {
    hide Hex4, Encode;
    if end - i < 6 {
      return 0, out;
    }
    var first := ParseHex4(s, i + 2);
    if 0xDC00 <= first <= 0xDFFF {
      return 0, out;
    }
    var codepoint;
    if 0xD800 <= first <= 0xDBFF {
      if end - (i + 6) < 6 {
        return 0, out;
      }
      if s[i + 6] != BACKSLASH || s[i + 7] != LETTER_U {
        return 0, out;
      }
      var second := ParseHex4(s, i + 8);
      if second < 0xDC00 || second > 0xDFFF {
        return 0, out;
      }
      codepoint, length := 0x10000 + first % 1024 * 1024 + second % 1024, 12;
    } else {
      codepoint, length := first, 6;
    }
    var n := EncodeUtf8(codepoint, output, out);
    written := out + n;
  }

  /** The first pass: finds the closing quote and counts the escapes it skipped. */
  method MeasureString(s: Bytes, start: nat) returns (end: nat, skipped: nat)
    requires start <= |s|
    ensures end <= |s|
    ensures ClosingQuote(s, start).None? ==> end == |s|
    ensures ClosingQuote(s, start).Some? ==>
        && ClosingQuote(s, start) == Some(end)
        && skipped <= end - start && end - start - skipped == Room(s, start, end, false)
  {
    hide Room;
    end, skipped := start, 0;
    while end < |s| && s[end] != QUOTE
      invariant start <= end <= |s| && 0 <= skipped <= end - start
      invariant ClosingQuote(s, start) == ClosingQuote(s, end)
      invariant forall q :: OnTrack(s, end, q, false) ==>
        Room(s, start, q, false) == end - start - skipped + Room(s, end, q, false)
      decreases |s| - end
    {
      if s[end] == BACKSLASH {
        if end + 1 >= |s| {
          return |s|, skipped;
        }
        forall q | OnTrack(s, end, q, false)
          ensures OnTrack(s, end + 2, q, false) && Room(s, end, q, false) == 1 + Room(s, end + 2, q, false)
        {
          OneStep(s, end, q, false);
          OneStep(s, end + 1, q, true);
        }
        assert forall q :: OnTrack(s, end + 2, q, false) ==> OnTrack(s, end, q, false);
        skipped := skipped + 1;
        end := end + 2;
      } else {
        forall q | OnTrack(s, end, q, false)
          ensures Room(s, end, q, false) == 1 + Room(s, end + 1, q, false)
        {
          OneStep(s, end, q, false);
        }
        end := end + 1;
      }
    }
    if end < |s| {
      assert OnTrack(s, end, end, false);
      RoomAtEnd(s, end);
    }
  }

  lemma RoomAtEnd(s: Bytes, end: nat)
    requires end <= |s|
    ensures Room(s, end, end, false) == 0
  {
  }

  lemma EscapeIsShort(s: Bytes, i: nat, end: nat)
    requires i < end < |s| && Escape(s, i, end).Literal?
    ensures |Escape(s, i, end).bytes| <= Escape(s, i, end).length / 2
  {
    hide Hex4, Encode;
  }

  /** One escape leaves room for the bytes it writes, even when it runs into the closing quote. */
  lemma EscapeFits(s: Bytes, i: nat, end: nat, inside: bool) returns (after: bool)
    requires OnTrack(s, i, end, inside) && i < end && s[i] == BACKSLASH
    requires Escape(s, i, end).Literal?
    ensures var e := Escape(s, i, end);
      && |e.bytes| <= Room(s, i, end, inside)
      && (i + e.length <= end ==>
            && OnTrack(s, i + e.length, end, after)
            && |e.bytes| + Room(s, i + e.length, end, after) <= Room(s, i, end, inside))
  {
    hide Escape, Room, OnTrack;
    TrackBounds(s, i, end, inside);
    EscapeIsShort(s, i, end);
    var e := Escape(s, i, end);
    if i + e.length <= end {
      after := Steps(s, i, end, inside, e.length);
    } else {
      after := false;
      LastBackslash(s, i, end, inside);
      ShortEscape(s, i, end);
    }
  }

  /** For every literal the first pass lets through, its estimate is at least what the second pass writes. */
  lemma {:induction false} EstimateSuffices(s: Bytes, i: nat, end: nat, inside: bool)
    requires OnTrack(s, i, end, inside) && Unescape(s, i, end).Some?
    ensures |Unescape(s, i, end).value| <= Room(s, i, end, inside)
    decreases end - i
  {
    hide Escape, OnTrack;
    TrackBounds(s, i, end, inside);
    if i < end {
      if s[i] == BACKSLASH {
        var after := EscapeFits(s, i, end, inside);
        if i + Escape(s, i, end).length <= end {
          EstimateSuffices(s, i + Escape(s, i, end).length, end, after);
        }
      } else {
        OneStep(s, i, end, inside);
        EstimateSuffices(s, i + 1, end, Inside(s, i, inside));
      }
    }
  }

  /** Only a two-character escape can reach past the closing quote, and it writes one byte. */
  lemma ShortEscape(s: Bytes, i: nat, end: nat)
    requires i < end < |s| && Escape(s, i, end).Literal? && i + Escape(s, i, end).length > end
    ensures Escape(s, i, end).length == 2 && |Escape(s, i, end).bytes| == 1 && i + 1 == end
  {
  }

  lemma LastBackslash(s: Bytes, i: nat, end: nat, inside: bool)
    requires OnTrack(s, i, end, inside) && i < end
    ensures i + 1 == end ==> Room(s, i, end, inside) == 1
  {
    OneStep(s, i, end, inside);
  }

  method SimpleEscapeByte(c: byte) returns (r: Option<byte>)
    ensures r == SimpleEscape(c)
  {
    match c {
      case 98 => r := Some(8);
      case 102 => r := Some(12);
      case 110 => r := Some(NEWLINE);
      case 114 => r := Some(RETURN);
      case 116 => r := Some(TAB);
      case 34 => r := Some(c);
      case 92 => r := Some(c);
      case 47 => r := Some(c);
      case _ => r := None;
    }
  }

  /** One escape of the second pass; consumed 0 reports failure. */
  method CopyEscape(s: Bytes, i: nat, end: nat, output: array<byte>, out: nat) returns (consumed: nat, written: nat)
    requires i < end < |s| && out < output.Length
    requires Escape(s, i, end).Literal? ==> out + |Escape(s, i, end).bytes| <= output.Length
    modifies output
    ensures out <= written <= output.Length
    ensures consumed == 0 <==> Escape(s, i, end).BadLiteral?
    ensures consumed > 0 ==> Escape(s, i, end) == Literal(output[out..written], consumed)
    ensures consumed > 0 ==> output[..out] == old(output[..out])
  {
    hide Utf16Literal, SimpleEscape;
    if s[i + 1] == LETTER_U {
      consumed, written := ConvertUtf16Literal(s, i, end, output, out);
    } else {
      var c := SimpleEscapeByte(s[i + 1]);
      if c.None? {
        return 0, out;
      }
      output[out] := c.value;
      consumed, written := 2, out + 1;
      assert output[out..written] == [c.value];
    }
  }

  lemma UnescapePlain(s: Bytes, i: nat, end: nat, done: Bytes)
    requires i < end < |s| && s[i] != BACKSLASH
    ensures Joined(done, Unescape(s, i, end)) == Joined(done + [s[i]], Unescape(s, i + 1, end))
  {
    var rest := Unescape(s, i + 1, end);
    if rest.Some? { assert done + ([s[i]] + rest.value) == done + [s[i]] + rest.value; }
  }

  lemma UnescapeEscape(s: Bytes, i: nat, end: nat, done: Bytes)
    requires i < end < |s| && s[i] == BACKSLASH
    ensures match Escape(s, i, end)
      case BadLiteral => Unescape(s, i, end) == None
      case Literal(bytes, length) =>
        Joined(done, Unescape(s, i, end)) == Joined(done + bytes, Unescape(s, i + length, end))
  {
    hide Escape;
    match Escape(s, i, end)
    case BadLiteral =>
    case Literal(bytes, length) =>
      var rest := Unescape(s, i + length, end);
      if rest.Some? { assert done + (bytes + rest.value) == done + bytes + rest.value; }
  }

  /** The bytes already written followed by what the rest of the literal gives. */
  function Joined(done: Bytes, rest: Option<Bytes>): Option<Bytes> {
    match rest
    case None => None
    case Some(r) => Some(done + r)
  }

  /** The second pass: writes into a buffer of the size the first pass estimated. */
  method UnescapeInto(s: Bytes, start: nat, end: nat, output: array<byte>) returns (ok: bool, out: nat)
    requires OnTrack(s, start, end, false)
    requires output.Length > Room(s, start, end, false)
    modifies output
    ensures ok == Unescape(s, start, end).Some?
    ensures ok ==> out < output.Length && Unescape(s, start, end) == Some(output[..out])
  {
    hide OnTrack, Room, Unescape, Escape;
    TrackBounds(s, start, end, false);
    var i := start;
    out := 0;
    ghost var inside := false;
    EmptyJoined(s, start, end);
    while i < end
      invariant start <= i <= end + 1 && out <= Room(s, start, end, false)
      invariant i <= end ==> OnTrack(s, i, end, inside) && out + Room(s, i, end, inside) <= Room(s, start, end, false)
      invariant Unescape(s, start, end) == Joined(output[..out], Unescape(s, i, end))
      decreases end + 1 - i
    {
      ghost var before := output[..out];
      if s[i] != BACKSLASH {
        OneStep(s, i, end, inside);
        UnescapePlain(s, i, end, before);
        inside := Inside(s, i, inside);
        output[out] := s[i];
        i, out := i + 1, out + 1;
        assert output[..out] == before + [s[i - 1]];
      } else {
        UnescapeEscape(s, i, end, before);
        ghost var after := false;
        if Escape(s, i, end).Literal? { after := EscapeFits(s, i, end, inside); }
        var consumed, written := CopyEscape(s, i, end, output, out);
        if consumed == 0 {
          return false, out;
        }
        assert output[..written] == before + output[out..written];
        inside, i, out := after, i + consumed, written;
      }
    }
    UnescapeDone(s, i, end, output[..out]);
    ok := true;
  }

  lemma EmptyJoined(s: Bytes, i: nat, end: nat)
    requires end < |s|
    ensures Unescape(s, i, end) == Joined([], Unescape(s, i, end))
  {
    var r := Unescape(s, i, end);
    if r.Some? { assert [] + r.value == r.value; }
  }

  lemma UnescapeDone(s: Bytes, i: nat, end: nat, done: Bytes)
    requires i >= end && end < |s|
    ensures Joined(done, Unescape(s, i, end)) == Some(done)
  {
    assert done + [] == done;
  }

  lemma TrackBounds(s: Bytes, i: nat, end: nat, inside: bool)
    requires OnTrack(s, i, end, inside)
    ensures i <= end < |s|
  {
  }

  /** parse_string up to the point where the bytes are stored. */
  method ReadString(buf: ParseBuffer) returns (ok: bool, bytes: Bytes)
    requires buf.Valid()
    modifies buf`offset
    ensures buf.Valid()
    ensures ok == Grammar.ParseString(buf.content, old(buf.offset)).Parsed?
    ensures ok ==> Grammar.ParseString(buf.content, old(buf.offset)) == Parsed(bytes, buf.offset)
  {
    hide Room, Unescape, CString, ClosingQuote;
    bytes := [];
    if !buf.CanAccess(0) || buf.content[buf.offset] != QUOTE {
      return false, bytes;
    }
    var start := buf.offset + 1;
    var end, skipped := MeasureString(buf.content, start);
    if end >= |buf.content| || buf.content[end] != QUOTE {
      return false, bytes;
    }
    var allocation := end - buf.offset - skipped;
    var output := new byte[allocation + 1];
    var out;
    ok, out := UnescapeInto(buf.content, start, end, output);
    if ok {
      output[out] := NUL;
      bytes := CString(output[..]);
      TerminatedOutput(output[..], out);
      buf.offset := end + 1;
    }
  }

  lemma TerminatedOutput(output: Bytes, out: nat)
    requires out < |output| && output[out] == NUL
    ensures CString(output) == CString(output[..out])
    decreases out
  {
    if out > 0 && output[0] != NUL {
      TerminatedOutput(output[1..], out - 1);
      assert output[1..][..out - 1] == output[..out][1..];
    }
  }

  method ParseString(item: Node, buf: ParseBuffer) returns (ok: bool)
    requires buf.Valid() && item.Blank()
    modifies item, buf`offset
    ensures buf.Valid()
    ensures SamePlace(item) && item.Repr == {item}
    ensures item.child == old(item.child) && item.Kids == old(item.Kids)
    ensures match Grammar.ParseString(buf.content, old(buf.offset))
      case Rejected => !ok
      case Parsed(bytes, end) =>
        ok && item.Valid() && item.Tree == String(bytes) && item.text == bytes && buf.offset == end
  {
    hide Grammar.ParseString;
    var bytes;
    ok, bytes := ReadString(buf);
    if ok {
      item.kind := KString;
      item.text := bytes;
      item.Tree := String(bytes);
    }
  }

  // ----- Values -----

  method ParseValue(item: Node, buf: ParseBuffer) returns (ok: bool)
    requires buf.Valid() && item.Blank()
    modifies item, buf
    ensures buf.Valid() && SamePlace(item)
    ensures ok == Grammar.ParseValue(buf.content, old(buf.offset), old(buf.depth)).Parsed?
    ensures ok ==> Produced(item, Grammar.ParseValue(buf.content, old(buf.offset), old(buf.depth)), buf.offset)
    ensures ok ==> fresh(item.Repr - {item}) && buf.depth == old(buf.depth)
    decreases |buf.content| - buf.offset, 2
  {
    hide Grammar.ParseString, Grammar.ParseNumber, Grammar.ParseArray, Grammar.ParseObject;
    if At(buf.content, buf.offset, NULL_TEXT) {
      item.kind := KNull;
      item.Tree := Null;
      buf.offset := buf.offset + 4;
      return true;
    }
    if At(buf.content, buf.offset, FALSE_TEXT) {
      item.kind := KFalse;
      item.Tree := False;
      buf.offset := buf.offset + 5;
      return true;
    }
    if At(buf.content, buf.offset, TRUE_TEXT) {
      item.kind := KTrue;
      item.number := 1;
      item.Tree := True;
      buf.offset := buf.offset + 4;
      return true;
    }
    if buf.CanAccess(0) && buf.content[buf.offset] == QUOTE {
      ok := ParseString(item, buf);
    } else if buf.CanAccess(0) && (buf.content[buf.offset] == MINUS || Digit(buf.content[buf.offset])) {
      ok := ParseNumber(item, buf);
    } else if buf.CanAccess(0) && buf.content[buf.offset] == OPEN_BRACKET {
      ok := ParseArray(item, buf);
    } else if buf.CanAccess(0) && buf.content[buf.offset] == OPEN_BRACE {
      ok := ParseObject(item, buf);
    } else {
      ok := false;
    }
  }

  method ParseArray(item: Node, buf: ParseBuffer) returns (ok: bool)
    requires buf.Valid() && item.Blank() && buf.CanAccess(0) && buf.content[buf.offset] == OPEN_BRACKET
    modifies item, buf
    ensures buf.Valid() && SamePlace(item)
    ensures ok == Grammar.ParseArray(buf.content, old(buf.offset), old(buf.depth)).Parsed?
    ensures ok ==> Produced(item, Grammar.ParseArray(buf.content, old(buf.offset), old(buf.depth)), buf.offset)
    ensures ok ==> fresh(item.Repr - {item}) && buf.depth == old(buf.depth)
    decreases |buf.content| - buf.offset, 1
  {
    hide Grammar.ParseArray, Separate, Chained, Node.Valid, Reprs, CarriesItems;
    var head, last;
    ghost var kids, items;
    ok, head, last, kids, items := ParseArrayList(buf);
    if ok {
      Finish(item, KArray, head, last, kids, Array(items));
    }
  }

  /** parse_array up to its success label: the list of children, not yet attached to the item. */
  method ParseArrayList(buf: ParseBuffer)
    returns (ok: bool, head: Node?, last: Node?, ghost kids: seq<Node>, ghost items: seq<Json>)
    requires buf.Valid() && buf.CanAccess(0) && buf.content[buf.offset] == OPEN_BRACKET
    modifies buf
    ensures buf.Valid()
    ensures ok == Grammar.ParseArray(buf.content, old(buf.offset), old(buf.depth)).Parsed?
    ensures ok ==> Grammar.ParseArray(buf.content, old(buf.offset), old(buf.depth)) == Parsed(Array(items), buf.offset)
    ensures ok ==> buf.depth == old(buf.depth)
    ensures ok ==> ItemList(head, last, kids, items, null) && fresh(Reprs(kids)) && (head != null ==> fresh(head))
    decreases |buf.content| - buf.offset, 0
  {
    hide SkipSpace, Grammar.ParseItems, ItemList, Reprs;
    head, last, kids, items := null, null, [], [];
    if buf.depth >= NESTING_LIMIT {
      return false, head, last, kids, items;
    }
    buf.depth := buf.depth + 1;
    buf.offset := buf.offset + 1;
    buf.SkipWhitespace();
    if buf.CanAccess(0) && buf.content[buf.offset] == CLOSE_BRACKET {
      ok := true;
      NoItems();
    } else {
      if !buf.CanAccess(0) {
        buf.offset := buf.offset - 1;
        return false, head, last, kids, items;
      }
      ok, head, last, kids, items := ParseItems(buf);
      if !ok {
        return;
      }
    }
    buf.depth := buf.depth - 1;
    buf.offset := buf.offset + 1;
  }

  /** The list built so far: head and last, the nodes in order and the values they carry. */
  ghost predicate ItemList(head: Node?, last: Node?, kids: seq<Node>, items: seq<Json>, after: Node?)
    reads kids`child, kids`kind, kids`text, kids`number, kids`Kids, kids`Repr, kids`Tree
    reads Reprs(kids)`child, Reprs(kids)`kind, Reprs(kids)`text, Reprs(kids)`number
    reads Reprs(kids)`Kids, Reprs(kids)`Repr, Reprs(kids)`Tree
    reads Below(kids)`next, Below(kids)`prev, Below(kids)`key
    reads kids`next, kids`prev, kids`key
  {
    hide Reprs, Below, Chain, CarriesItems;
    CarriesItems(kids, items) && Chain(head, last, kids, after)
  }

  lemma NoItems()
    ensures ItemList(null, null, [], [], null) && Reprs([]) == {}
  {
  }

  /** The comma-separated items, up to the closing bracket; the list hangs off head. */
  method ParseItems(buf: ParseBuffer)
    returns (ok: bool, head: Node?, last: Node?, ghost kids: seq<Node>, ghost items: seq<Json>)
    requires buf.Valid() && buf.offset > 0
    modifies buf
    ensures buf.Valid()
    ensures ok == Grammar.ParseItems(buf.content, old(buf.offset), old(buf.depth)).Parsed?
    ensures ok ==> Grammar.ParseItems(buf.content, old(buf.offset), old(buf.depth)) == Parsed(items, buf.offset + 1)
    ensures ok ==> buf.depth == old(buf.depth) && buf.offset < |buf.content|
    ensures ok ==> ItemList(head, last, kids, items, null) && fresh(Reprs(kids)) && head != null && fresh(head)
    decreases |buf.content| - buf.offset, 6
  {
    hide ItemList, SkipSpace, Grammar.ParseItems;
    head, last, kids, items := null, null, [], [];
    ok := false;
    ghost var start := buf.offset;
    buf.offset := buf.offset - 1;
    NoItems();
    NothingBefore(Grammar.ParseItems(buf.content, start, buf.depth));
    hide Reprs;
    var more := true;
    while more
      invariant buf.Valid() && buf.offset < |buf.content|
      invariant more ==> start <= buf.offset + 1
      invariant buf.depth == old(buf.depth)
      invariant ItemList(head, last, kids, items, null) && fresh(Reprs(kids))
      invariant (head != null ==> fresh(head)) && (last != null ==> fresh(last)) && (more || head != null)
      invariant more ==> (
          Grammar.ParseItems(buf.content, start, old(buf.depth)) ==
          After(items, Grammar.ParseItems(buf.content, buf.offset + 1, old(buf.depth))))
      invariant !more ==> Grammar.ParseItems(buf.content, start, old(buf.depth)) == Parsed(items, buf.offset + 1)
      decreases more, |buf.content| - buf.offset
    {
      ok, more, head, last, kids, items := ParseItemRound(buf, head, last, kids, items);
      if !ok {
        return;
      }
    }
    ok := true;
  }

  /** One round of the loop: attach a new node, parse into it, look for a comma. */
  method ParseItemRound(buf: ParseBuffer, head: Node?, last: Node?, ghost kids: seq<Node>, ghost items: seq<Json>)
    returns (ok: bool, more: bool, head': Node?, last': Node?, ghost kids': seq<Node>, ghost items': seq<Json>)
    requires buf.Valid() && buf.offset < |buf.content| && ItemList(head, last, kids, items, null)
    modifies buf, (if last == null then {} else {last})`next
    ensures buf.Valid()
    ensures !ok ==> After(items, Grammar.ParseItems(buf.content, old(buf.offset) + 1, old(buf.depth))) == Rejected
    ensures ok ==> buf.depth == old(buf.depth) && old(buf.offset) < buf.offset < |buf.content|
    ensures ok && more ==> (
        After(items, Grammar.ParseItems(buf.content, old(buf.offset) + 1, old(buf.depth))) ==
        After(items', Grammar.ParseItems(buf.content, buf.offset + 1, old(buf.depth))))
    ensures ok && !more ==> (
        After(items, Grammar.ParseItems(buf.content, old(buf.offset) + 1, old(buf.depth))) ==
        Parsed(items', buf.offset + 1))
    ensures ok ==> ItemList(head', last', kids', items', null) && fresh(Reprs(kids') - old(Reprs(kids)))
    ensures ok ==> head' != null && (head == head' || (head == null && fresh(head'))) && last' != null && fresh(last')
    decreases |buf.content| - buf.offset - 1, 5
  {
    hide ItemList, Reprs, SkipSpace, Grammar.ParseItems, Grammar.ParseValue;
    more := false;
    var node;
    ghost var end;
    ok, node, head', kids', items', end := ParseNextItem(buf, head, last, kids, items);
    last' := node;
    ItemsStep(buf.content, old(buf.offset) + 1, old(buf.depth), items);
    if ok {
      if buf.CanAccess(0) && buf.content[buf.offset] == COMMA {
        more := true;
      } else if !buf.CanAccess(0) || buf.content[buf.offset] != CLOSE_BRACKET {
        ok := false;
      }
    }
  }

  lemma CarryItem(kids: seq<Node>, items: seq<Json>, node: Node)
    requires CarriesItems(kids, items)
    ensures CarriesItems(kids + [node], items + [node.Tree])
  {
  }

  /** A parsed piece in front of what the rest of the text gives. */
  function After<T>(done: seq<T>, rest: Parsed<seq<T>>): Parsed<seq<T>> {
    match rest
    case Rejected => Rejected
    case Parsed(more, end) => Parsed(done + more, end)
  }

  /** Attach a new node to the list and parse the next value into it. */
  method ParseNextItem(buf: ParseBuffer, head: Node?, last: Node?, ghost kids: seq<Node>, ghost items: seq<Json>)
    returns (ok: bool, node: Node, head': Node?, ghost kids': seq<Node>, ghost items': seq<Json>, ghost end: nat)
    requires buf.Valid() && buf.offset < |buf.content| && ItemList(head, last, kids, items, null)
    modifies buf, (if last == null then {} else {last})`next
    ensures buf.Valid() && fresh(node)
    ensures ok == Grammar.ParseValue(buf.content, SkipSpace(buf.content, old(buf.offset) + 1), old(buf.depth)).Parsed?
    ensures ok ==> end <= |buf.content|
    ensures ok ==>
      Grammar.ParseValue(buf.content, SkipSpace(buf.content, old(buf.offset) + 1), old(buf.depth)) ==
        Parsed(node.Tree, end)
    ensures ok ==> buf.offset == SkipSpace(buf.content, end)
    ensures ok ==> buf.depth == old(buf.depth) && items' == items + [node.Tree]
    ensures ok ==> ItemList(head', node, kids', items', null) && fresh(Reprs(kids') - old(Reprs(kids)))
    ensures head' == if head == null then node else head
    decreases |buf.content| - buf.offset - 1, 4
  {
    hide ItemList, Node.Valid, SkipSpace, Grammar.ParseValue, Node.Blank;
    head', kids', items', end := head, kids, items, 0;
    node := AttachToItems(head, last, kids, items);
    if head == null {
      head' := node;
    }
    ghost var owned := Reprs(kids);
    assert forall o :: o in owned + Below(kids) ==> allocated(o);
    hide Reprs, Below;
    ok, end := ParseItemAndSkip(node, buf);
    if ok {
      CloseItems(head, last, kids, items, node);
      kids', items' := kids + [node], items + [node.Tree];
    }
  }

  /** Step over the bracket or comma, parse, and skip to what follows. */
  method ParseItemAndSkip(node: Node, buf: ParseBuffer) returns (ok: bool, ghost end: nat)
    requires buf.Valid() && buf.offset < |buf.content| && node.Blank()
    modifies node, buf
    ensures buf.Valid() && node.next == old(node.next) && node.prev == old(node.prev)
    ensures ok == Grammar.ParseValue(buf.content, SkipSpace(buf.content, old(buf.offset) + 1), old(buf.depth)).Parsed?
    ensures ok ==> end <= |buf.content|
    ensures ok ==>
      Grammar.ParseValue(buf.content, SkipSpace(buf.content, old(buf.offset) + 1), old(buf.depth)) ==
        Parsed(node.Tree, end)
    ensures ok ==> buf.offset == SkipSpace(buf.content, end) && buf.depth == old(buf.depth)
    ensures ok ==> node.Valid() && fresh(node.Repr - {node})
    decreases |buf.content| - buf.offset - 1, 3
  {
    hide Node.Valid, SkipSpace, Grammar.ParseValue;
    buf.offset := buf.offset + 1;
    buf.SkipWhitespace();
    ok := ParseValue(node, buf);
    end := buf.offset;
    if ok {
      buf.SkipWhitespace();
    }
  }

  method AttachToItems(head: Node?, last: Node?, ghost kids: seq<Node>, ghost items: seq<Json>) returns (node: Node)
    requires ItemList(head, last, kids, items, null)
    modifies (if last == null then {} else {last})`next
    ensures fresh(node) && node.Blank() && node.next == null && node.prev == last
    ensures ItemList(head, last, kids, items, node) && node !in kids && node !in Reprs(kids)
    ensures Reprs(kids) == old(Reprs(kids)) && Below(kids) == old(Below(kids))
  {
    hide Separate, Node.Valid, Chained, CarriesItems;
    ghost var owned := Reprs(kids) + Below(kids);
    node := new Node();
    assert node !in owned && node !in kids;
    assert Separate(kids);
    if last != null {
      Hang(last, node, kids);
    } else {
      NoneHung(node);
    }
  }

  lemma CloseItems(head: Node?, last: Node?, kids: seq<Node>, items: seq<Json>, node: Node)
    requires ItemList(head, last, kids, items, node)
    requires node.Valid() && node.Repr !! Reprs(kids) && node.next == null && node.prev == last
    ensures ItemList(if head == null then node else head, node, kids + [node], items + [node.Tree], null)
    ensures Reprs(kids + [node]) == Reprs(kids) + node.Repr
  {
    hide Separate, Node.Valid, Chained, CarriesItems;
    Grow(kids, node);
    CarryItem(kids, items, node);
  }

  lemma NothingBefore<T>(r: Parsed<seq<T>>)
    ensures r == After([], r)
  {
    if r.Parsed? { assert [] + r.value == r.value; }
  }

  /** One round of the item loop, in terms of the grammar. */
  lemma ItemsStep(s: Bytes, here: nat, depth: nat, done: seq<Json>)
    requires here <= |s| && depth <= NESTING_LIMIT
    ensures match Grammar.ParseValue(s, SkipSpace(s, here), depth)
      case Rejected => After(done, Grammar.ParseItems(s, here, depth)) == Rejected
      case Parsed(item, itemEnd) =>
        var next := SkipSpace(s, itemEnd);
        After(done, Grammar.ParseItems(s, here, depth)) ==
          if Sees(s, next, COMMA) then After(done + [item], Grammar.ParseItems(s, next + 1, depth))
          else if Sees(s, next, CLOSE_BRACKET) then Parsed(done + [item], next + 1)
          else Rejected
  {
    hide SkipSpace, Grammar.ParseValue;
    match Grammar.ParseValue(s, SkipSpace(s, here), depth)
    case Rejected =>
    case Parsed(item, itemEnd) =>
      var next := SkipSpace(s, itemEnd);
      if Sees(s, next, COMMA) {
        var rest := Grammar.ParseItems(s, next + 1, depth);
        if rest.Parsed? { assert done + ([item] + rest.value) == done + [item] + rest.value; }
      }
  }

  method ParseObject(item: Node, buf: ParseBuffer) returns (ok: bool)
    requires buf.Valid() && item.Blank() && buf.CanAccess(0) && buf.content[buf.offset] == OPEN_BRACE
    modifies item, buf
    ensures buf.Valid() && SamePlace(item)
    ensures ok == Grammar.ParseObject(buf.content, old(buf.offset), old(buf.depth)).Parsed?
    ensures ok ==> Produced(item, Grammar.ParseObject(buf.content, old(buf.offset), old(buf.depth)), buf.offset)
    ensures ok ==> fresh(item.Repr - {item}) && buf.depth == old(buf.depth)
    decreases |buf.content| - buf.offset, 1
  {
    hide Grammar.ParseObject, Separate, Chained, Node.Valid, Reprs, CarriesMembers;
    var head, last;
    ghost var kids, members;
    ok, head, last, kids, members := ParseObjectList(buf);
    if ok {
      Finish(item, KObject, head, last, kids, Object(members));
    }
  }

  /** parse_object up to its success label: the list of children, not yet attached to the item. */
  method ParseObjectList(buf: ParseBuffer)
    returns (ok: bool, head: Node?, last: Node?, ghost kids: seq<Node>, ghost members: seq<Member>)
    requires buf.Valid() && buf.CanAccess(0) && buf.content[buf.offset] == OPEN_BRACE
    modifies buf
    ensures buf.Valid()
    ensures ok == Grammar.ParseObject(buf.content, old(buf.offset), old(buf.depth)).Parsed?
    ensures ok ==>
      Grammar.ParseObject(buf.content, old(buf.offset), old(buf.depth)) == Parsed(Object(members), buf.offset)
    ensures ok ==> buf.depth == old(buf.depth)
    ensures ok ==> MemberList(head, last, kids, members, null) && fresh(Reprs(kids)) && (head != null ==> fresh(head))
    decreases |buf.content| - buf.offset, 0
  {
    hide SkipSpace, Grammar.ParseMembers, MemberList, Reprs;
    head, last, kids, members := null, null, [], [];
    if buf.depth >= NESTING_LIMIT {
      return false, head, last, kids, members;
    }
    buf.depth := buf.depth + 1;
    buf.offset := buf.offset + 1;
    buf.SkipWhitespace();
    if buf.CanAccess(0) && buf.content[buf.offset] == CLOSE_BRACE {
      ok := true;
      NoMembers();
    } else {
      if !buf.CanAccess(0) {
        buf.offset := buf.offset - 1;
        return false, head, last, kids, members;
      }
      ok, head, last, kids, members := ParseMembers(buf);
      if !ok {
        return;
      }
    }
    buf.depth := buf.depth - 1;
    buf.offset := buf.offset + 1;
  }

  /** The list built so far: head and last, the nodes in order and the values they carry. */
  ghost predicate MemberList(head: Node?, last: Node?, kids: seq<Node>, members: seq<Member>, after: Node?)
    reads kids`child, kids`kind, kids`text, kids`number, kids`Kids, kids`Repr, kids`Tree
    reads Reprs(kids)`child, Reprs(kids)`kind, Reprs(kids)`text, Reprs(kids)`number
    reads Reprs(kids)`Kids, Reprs(kids)`Repr, Reprs(kids)`Tree
    reads Below(kids)`next, Below(kids)`prev, Below(kids)`key
    reads kids`next, kids`prev, kids`key
  {
    hide Reprs, Below, Chain, CarriesMembers;
    CarriesMembers(kids, members) && Chain(head, last, kids, after)
  }

  lemma NoMembers()
    ensures MemberList(null, null, [], [], null) && Reprs([]) == {}
  {
  }

  /** The comma-separated members, up to the closing bracket; the list hangs off head. */
  method ParseMembers(buf: ParseBuffer)
    returns (ok: bool, head: Node?, last: Node?, ghost kids: seq<Node>, ghost members: seq<Member>)
    requires buf.Valid() && buf.offset > 0
    modifies buf
    ensures buf.Valid()
    ensures ok == Grammar.ParseMembers(buf.content, old(buf.offset), old(buf.depth)).Parsed?
    ensures ok ==> Grammar.ParseMembers(buf.content, old(buf.offset), old(buf.depth)) == Parsed(members, buf.offset + 1)
    ensures ok ==> buf.depth == old(buf.depth) && buf.offset < |buf.content|
    ensures ok ==> MemberList(head, last, kids, members, null) && fresh(Reprs(kids)) && head != null && fresh(head)
    decreases |buf.content| - buf.offset, 7
  {
    hide MemberList, SkipSpace, Grammar.ParseMembers;
    head, last, kids, members := null, null, [], [];
    ok := false;
    ghost var start := buf.offset;
    buf.offset := buf.offset - 1;
    NoMembers();
    NothingBefore(Grammar.ParseMembers(buf.content, start, buf.depth));
    hide Reprs;
    var more := true;
    while more
      invariant buf.Valid() && buf.offset < |buf.content|
      invariant more ==> start <= buf.offset + 1
      invariant buf.depth == old(buf.depth)
      invariant MemberList(head, last, kids, members, null) && fresh(Reprs(kids))
      invariant (head != null ==> fresh(head)) && (last != null ==> fresh(last)) && (more || head != null)
      invariant more ==> (
          Grammar.ParseMembers(buf.content, start, old(buf.depth)) ==
          After(members, Grammar.ParseMembers(buf.content, buf.offset + 1, old(buf.depth))))
      invariant !more ==> Grammar.ParseMembers(buf.content, start, old(buf.depth)) == Parsed(members, buf.offset + 1)
      decreases more, |buf.content| - buf.offset
    {
      ok, more, head, last, kids, members := ParseMemberRound(buf, head, last, kids, members);
      if !ok {
        return;
      }
    }
    ok := true;
  }

  /** One round of the loop: attach a new node, parse into it, look for a comma. */
  method ParseMemberRound(buf: ParseBuffer, head: Node?, last: Node?, ghost kids: seq<Node>, ghost members: seq<Member>)
    returns (ok: bool, more: bool, head': Node?, last': Node?, ghost kids': seq<Node>, ghost members': seq<Member>)
    requires buf.Valid() && buf.offset < |buf.content| && MemberList(head, last, kids, members, null)
    modifies buf, (if last == null then {} else {last})`next
    ensures buf.Valid()
    ensures !ok ==> After(members, Grammar.ParseMembers(buf.content, old(buf.offset) + 1, old(buf.depth))) == Rejected
    ensures ok ==> buf.depth == old(buf.depth) && old(buf.offset) < buf.offset < |buf.content|
    ensures ok && more ==> (
        After(members, Grammar.ParseMembers(buf.content, old(buf.offset) + 1, old(buf.depth))) ==
        After(members', Grammar.ParseMembers(buf.content, buf.offset + 1, old(buf.depth))))
    ensures ok && !more ==> (
        After(members, Grammar.ParseMembers(buf.content, old(buf.offset) + 1, old(buf.depth))) ==
        Parsed(members', buf.offset + 1))
    ensures ok ==> MemberList(head', last', kids', members', null) && fresh(Reprs(kids') - old(Reprs(kids)))
    ensures ok ==> head' != null && (head == head' || (head == null && fresh(head'))) && last' != null && fresh(last')
    decreases |buf.content| - buf.offset - 1, 6
  {
    hide MemberList, Reprs, SkipSpace, Grammar.ParseMembers, Grammar.ParseMember;
    more := false;
    var node;
    ghost var end;
    ok, node, head', kids', members', end := ParseNextMember(buf, head, last, kids, members);
    last' := node;
    MembersStep(buf.content, old(buf.offset) + 1, old(buf.depth), members);
    if ok {
      if buf.CanAccess(0) && buf.content[buf.offset] == COMMA {
        more := true;
      } else if !buf.CanAccess(0) || buf.content[buf.offset] != CLOSE_BRACE {
        ok := false;
      }
    }
  }

  lemma CarryMember(kids: seq<Node>, members: seq<Member>, node: Node)
    requires CarriesMembers(kids, members)
    ensures CarriesMembers(kids + [node], members + [Member(node.key, node.Tree)])
  {
  }

  /** The name, the colon and the value of one member, read into a node. */
  method ParseMember(node: Node, buf: ParseBuffer) returns (ok: bool)
    requires buf.Valid() && node.Blank()
    modifies node, buf
    ensures buf.Valid() && node.next == old(node.next) && node.prev == old(node.prev)
    ensures ok == Grammar.ParseMember(buf.content, old(buf.offset), old(buf.depth)).Parsed?
    ensures ok ==>
      Grammar.ParseMember(buf.content, old(buf.offset), old(buf.depth)) ==
        Parsed(Member(node.key, node.Tree), buf.offset)
    ensures ok ==> node.Valid() && fresh(node.Repr - {node}) && buf.depth == old(buf.depth)
    decreases |buf.content| - buf.offset, 3
  {
    hide SkipSpace, Grammar.ParseValue, Grammar.ParseString, Node.Valid;
    buf.SkipWhitespace();
    ok := ParseString(node, buf);
    if !ok {
      return;
    }
    buf.SkipWhitespace();
    node.key := node.text;
    node.text := [];
    if !buf.CanAccess(0) || buf.content[buf.offset] != COLON {
      return false;
    }
    buf.offset := buf.offset + 1;
    buf.SkipWhitespace();
    ok := ParseValue(node, buf);
  }

  /** Attach a new node to the list and parse the next member into it. */
  method ParseNextMember(buf: ParseBuffer, head: Node?, last: Node?, ghost kids: seq<Node>, ghost members: seq<Member>)
    returns (ok: bool, node: Node, head': Node?, ghost kids': seq<Node>, ghost members': seq<Member>, ghost end: nat)
    requires buf.Valid() && buf.offset < |buf.content| && MemberList(head, last, kids, members, null)
    modifies buf, (if last == null then {} else {last})`next
    ensures buf.Valid() && fresh(node)
    ensures ok == Grammar.ParseMember(buf.content, old(buf.offset) + 1, old(buf.depth)).Parsed?
    ensures ok ==> end <= |buf.content|
    ensures ok ==>
      Grammar.ParseMember(buf.content, old(buf.offset) + 1, old(buf.depth)) ==
        Parsed(Member(node.key, node.Tree), end)
    ensures ok ==> buf.offset == SkipSpace(buf.content, end)
    ensures ok ==> buf.depth == old(buf.depth) && members' == members + [Member(node.key, node.Tree)]
    ensures ok ==> MemberList(head', node, kids', members', null) && fresh(Reprs(kids') - old(Reprs(kids)))
    ensures head' == if head == null then node else head
    decreases |buf.content| - buf.offset - 1, 5
  {
    hide MemberList, Node.Valid, SkipSpace, Grammar.ParseMember, Node.Blank;
    head', kids', members', end := head, kids, members, 0;
    node := AttachToMembers(head, last, kids, members);
    if head == null {
      head' := node;
    }
    ghost var owned := Reprs(kids);
    assert forall o :: o in owned + Below(kids) ==> allocated(o);
    hide Reprs, Below;
    ok, end := ParseMemberAndSkip(node, buf);
    if ok {
      CloseMembers(head, last, kids, members, node);
      kids', members' := kids + [node], members + [Member(node.key, node.Tree)];
    }
  }

  /** Step over the bracket or comma, parse, and skip to what follows. */
  method ParseMemberAndSkip(node: Node, buf: ParseBuffer) returns (ok: bool, ghost end: nat)
    requires buf.Valid() && buf.offset < |buf.content| && node.Blank()
    modifies node, buf
    ensures buf.Valid() && node.next == old(node.next) && node.prev == old(node.prev)
    ensures ok == Grammar.ParseMember(buf.content, old(buf.offset) + 1, old(buf.depth)).Parsed?
    ensures ok ==> end <= |buf.content|
    ensures ok ==>
      Grammar.ParseMember(buf.content, old(buf.offset) + 1, old(buf.depth)) ==
        Parsed(Member(node.key, node.Tree), end)
    ensures ok ==> buf.offset == SkipSpace(buf.content, end) && buf.depth == old(buf.depth)
    ensures ok ==> node.Valid() && fresh(node.Repr - {node})
    decreases |buf.content| - buf.offset - 1, 4
  {
    hide Node.Valid, SkipSpace, Grammar.ParseMember;
    buf.offset := buf.offset + 1;
    ok := ParseMember(node, buf);
    end := buf.offset;
    if ok {
      buf.SkipWhitespace();
    }
  }

  method AttachToMembers(head: Node?, last: Node?, ghost kids: seq<Node>, ghost members: seq<Member>)
    returns (node: Node)
    requires MemberList(head, last, kids, members, null)
    modifies (if last == null then {} else {last})`next
    ensures fresh(node) && node.Blank() && node.next == null && node.prev == last
    ensures MemberList(head, last, kids, members, node) && node !in kids && node !in Reprs(kids)
    ensures Reprs(kids) == old(Reprs(kids)) && Below(kids) == old(Below(kids))
  {
    hide Separate, Node.Valid, Chained, CarriesMembers;
    ghost var owned := Reprs(kids) + Below(kids);
    node := new Node();
    assert node !in owned && node !in kids;
    assert Separate(kids);
    if last != null {
      Hang(last, node, kids);
    } else {
      NoneHung(node);
    }
  }

  lemma CloseMembers(head: Node?, last: Node?, kids: seq<Node>, members: seq<Member>, node: Node)
    requires MemberList(head, last, kids, members, node)
    requires node.Valid() && node.Repr !! Reprs(kids) && node.next == null && node.prev == last
    ensures MemberList(if head == null then node else head, node, kids + [node],
                       members + [Member(node.key, node.Tree)], null)
    ensures Reprs(kids + [node]) == Reprs(kids) + node.Repr
  {
    hide Separate, Node.Valid, Chained, CarriesMembers;
    Grow(kids, node);
    CarryMember(kids, members, node);
  }

  /** One round of the member loop, in terms of the grammar. */
  lemma MembersStep(s: Bytes, here: nat, depth: nat, done: seq<Member>)
    requires here <= |s| && depth <= NESTING_LIMIT
    ensures match Grammar.ParseMember(s, here, depth)
      case Rejected => After(done, Grammar.ParseMembers(s, here, depth)) == Rejected
      case Parsed(member, memberEnd) =>
        var next := SkipSpace(s, memberEnd);
        After(done, Grammar.ParseMembers(s, here, depth)) ==
          if Sees(s, next, COMMA) then After(done + [member], Grammar.ParseMembers(s, next + 1, depth))
          else if Sees(s, next, CLOSE_BRACE) then Parsed(done + [member], next + 1)
          else Rejected
  {
    hide SkipSpace, Grammar.ParseMember;
    match Grammar.ParseMember(s, here, depth)
    case Rejected =>
    case Parsed(member, memberEnd) =>
      var next := SkipSpace(s, memberEnd);
      if Sees(s, next, COMMA) {
        var rest := Grammar.ParseMembers(s, next + 1, depth);
        if rest.Parsed? { assert done + ([member] + rest.value) == done + [member] + rest.value; }
      }
  }

  // ----- Documents -----

  /** cJSON_ParseWithLengthOpts. */
  method ParseWithLength(content: Bytes, requireTerminator: bool) returns (root: Node?, end: nat)
    ensures (root != null) == ParseDocument(content, requireTerminator).Parsed?
    ensures root != null ==>
        && fresh(root.Repr) && root.Valid() && root.next == null && root.prev == null
        && ParseDocument(content, requireTerminator) == Parsed(root.Tree, end)
  {
    hide SkipSpace, Grammar.ParseValue, Node.Valid;
    if content == [] {
      return null, 0;
    }
    var buf := new ParseBuffer(content);
    var item := new Node();
    buf.SkipByteOrderMark();
    buf.SkipWhitespace();
    var ok := ParseValue(item, buf);
    if !ok {
      return null, 0;
    }
    if requireTerminator {
      buf.SkipWhitespace();
      if buf.offset >= |content| || content[buf.offset] != NUL {
        return null, 0;
      }
    }
    return item, buf.offset;
  }
}
