/** Sanitizing text in place, so that it can be stored in JSON. */
module Sanitizer {
  import opened Bytes
  import opened Utf8

  /** What one step reads from the front, and whether those bytes are kept. */
  datatype Piece = Piece(used: nat, keep: bool)

  // ----- The two passes as functions -----

  /** Sequence length announced by a lead byte, 0 for none. */
  function SeqLen(c: byte): (n: nat)
    ensures n <= 4
  {
    if c < 0x80 then 1
    else if 0xC0 <= c < 0xE0 then 2
    else if 0xE0 <= c < 0xF0 then 3
    else if 0xF0 <= c < 0xF8 then 4
    else 0
  }

  predicate Tails(s: Bytes, n: nat) {
    n <= |s| && forall k :: 1 <= k < n ==> Tail(s[k])
  }

  predicate Allowed(c: byte) {
    c >= 0x20 || c == NEWLINE || c == RETURN || c == TAB
  }

  /** The value of an n-byte sequence is one that needs n bytes and is no surrogate. */
  predicate Fits(cp: nat, n: nat) {
    && (if n == 2 then cp >= 0x80 else if n == 3 then cp >= 0x800 else 0x10000 <= cp <= 0x10FFFF)
    && !(0xD800 <= cp <= 0xDFFF)
  }

  /** One round of the loop of text_sanitize_utf8_json. */
  function CleanPiece(s: Bytes): (p: Piece)
    requires s != []
    ensures 1 <= p.used <= |s|
  {
    var n := SeqLen(s[0]);
    if n == 0 then Piece(1, false)
    else if n == 1 then Piece(1, Allowed(s[0]))
    else if !Tails(s, n) then Piece(1, false)
    else Piece(n, Fits(CodePoint(s, n), n))
  }

  /** One round of fix_truncated_utf8. */
  function FixPiece(s: Bytes): (p: Piece)
    requires s != []
    ensures 1 <= p.used <= |s|
  {
    var b := s[0];
    if b < 0x80 then Piece(1, true)
    else if b < 0xC0 then Piece(1, false)
    else if b < 0xE0 then Whole(s, 2)
    else if b < 0xF0 then Whole(s, 3)
    else if b < 0xF5 then Whole(s, 4)
    else Piece(1, false)
  }

  function Whole(s: Bytes, n: nat): (p: Piece)
    requires n > 0 && s != []
    ensures 1 <= p.used <= |s|
  {
    if Tails(s, n) then Piece(n, true) else Piece(1, false)
  }

  function Kept(s: Bytes, p: Piece): Bytes
    requires p.used <= |s|
  {
    if p.keep then s[..p.used] else []
  }

  function Clean(s: Bytes): Bytes {
    if s == [] then [] else Kept(s, CleanPiece(s)) + Clean(s[CleanPiece(s).used..])
  }

  function FixAll(s: Bytes): Bytes {
    if s == [] then [] else Kept(s, FixPiece(s)) + FixAll(s[FixPiece(s).used..])
  }

  /** The first pass leaves texts of fewer than two bytes alone. */
  function Fix(s: Bytes): Bytes {
    if |s| < 2 then s else FixAll(s)
  }

  function Sanitized(s: Bytes): Bytes {
    Clean(Fix(s))
  }

  // ----- What the result is -----

  predicate NoControls(s: Bytes) {
    forall i :: 0 <= i < |s| ==> Allowed(s[i])
  }

  /** Well-formed UTF-8 without control characters other than newline, return and tab. */
  predicate Proper(s: Bytes) {
    WellFormed(s) && NoControls(s)
  }

  /** The loop keeps exactly the characters of RFC 3629, less the control characters. */
  lemma KeptIsChar(s: Bytes)
    requires s != []
    ensures CleanPiece(s).keep <==> CharLen(s) > 0 && Allowed(s[0])
    ensures CleanPiece(s).keep ==> CleanPiece(s).used == CharLen(s)
  {
    var n := SeqLen(s[0]);
    if 2 <= n && Tails(s, n) {
      LeadAndTailBits(s[0]);
      LeadAndTailBits(s[1]);
      if n > 2 { LeadAndTailBits(s[2]); }
      if n > 3 { LeadAndTailBits(s[3]); }
    }
  }

  lemma CharIsProper(s: Bytes)
    requires CharLen(s) > 0 && Allowed(s[0])
    ensures Proper(s[..CharLen(s)])
  {
    var n := CharLen(s);
    var t := s[..n];
    assert CharLen(t) == n;
    assert t[n..] == [];
  }

  lemma {:induction false} CleanIsProper(s: Bytes)
    ensures Proper(Clean(s)) && |Clean(s)| <= |s|
  {
    if s != [] {
      var p := CleanPiece(s);
      KeptIsChar(s);
      CleanIsProper(s[p.used..]);
      if p.keep {
        CharIsProper(s);
        WellFormedConcat(s[..p.used], Clean(s[p.used..]));
      } else {
        assert Clean(s) == Clean(s[p.used..]);
      }
    }
  }

  /** What stands behind a proper text does not change what happens to it. */
  lemma {:induction false} CleanKeepsProper(a: Bytes, b: Bytes)
    requires Proper(a)
    ensures Clean(a + b) == a + Clean(b)
  {
    if a == [] {
      assert a + b == b;
    } else {
      var n := CharLen(a);
      assert n > 0 && Allowed(a[0]);
      ProperRest(a, n);
      CleanStep(a, b, n);
      hide *;
      CleanKeepsProper(a[n..], b);
      Longer(a[..n], a[n..], Clean(b), a[..n] + (a[n..] + Clean(b)));
      assert a[..n] + a[n..] == a;
    }
  }

  lemma ProperRest(a: Bytes, n: nat)
    requires Proper(a) && a != [] && n == CharLen(a)
    ensures n <= |a| && Proper(a[n..])
  {
    hide CharLen;
  }

  lemma CleanStep(a: Bytes, b: Bytes, n: nat)
    requires n == CharLen(a) > 0 && Allowed(a[0])
    ensures Clean(a + b) == a[..n] + Clean(a[n..] + b)
  {
    CharLenPrefix(a, b);
    KeptIsChar(a + b);
    hide CharLen, CleanPiece, CodePoint, Allowed;
    assert (a + b)[n..] == a[n..] + b;
    assert (a + b)[..n] == a[..n];
  }

  lemma FixKeepsChar(s: Bytes)
    requires CharLen(s) > 0
    ensures FixPiece(s) == Piece(CharLen(s), true)
  {
  }

  lemma {:induction false} FixKeepsWellFormed(s: Bytes)
    requires WellFormed(s)
    ensures FixAll(s) == s
  {
    if s != [] {
      FixKeepsChar(s);
      FixKeepsWellFormed(s[CharLen(s)..]);
    }
  }

  lemma {:induction false} FixIsNulFree(s: Bytes)
    requires NulFree(s)
    ensures NulFree(FixAll(s)) && |FixAll(s)| <= |s|
  {
    if s != [] {
      FixIsNulFree(s[FixPiece(s).used..]);
    }
  }

  /** Every result is proper, exactly the proper texts stay as they are, and so a second run changes nothing. */
  lemma SanitizedIsProper(s: Bytes)
    ensures Proper(Sanitized(s))
    ensures Sanitized(s) == s <==> Proper(s)
    ensures Sanitized(Sanitized(s)) == Sanitized(s)
  {
    CleanIsProper(Fix(s));
    ProperStays(Sanitized(s));
    if Proper(s) {
      ProperStays(s);
    }
  }

  lemma ProperStays(s: Bytes)
    requires Proper(s)
    ensures Sanitized(s) == s
  {
    FixKeepsWellFormed(s);
    CleanKeepsProper(s, []);
    assert s + [] == s;
  }

  // ----- What is kept -----

  /** The ASCII bytes that may stay, in order: newline, return, tab and everything from the space on. */
  function AsciiOf(s: Bytes): Bytes {
    if s == [] then []
    else (if s[0] == 9 || s[0] == 10 || s[0] == 13 || 32 <= s[0] < 128 then [s[0]] else []) + AsciiOf(s[1..])
  }

  lemma {:induction false} AsciiOfConcat(a: Bytes, b: Bytes)
    ensures AsciiOf(a + b) == AsciiOf(a) + AsciiOf(b)
  {
    if a == [] {
      assert a + b == b && [] + AsciiOf(b) == AsciiOf(b);
    } else {
      AsciiOfStep(a);
      AsciiOfStep(a + b);
      AsciiOfConcat(a[1..], b);
      hide *;
      assert (a + b)[1..] == a[1..] + b && (a + b)[0] == a[0];
    }
  }

  lemma AsciiOfStep(s: Bytes)
    requires s != []
    ensures AsciiOf(s) ==
      (if s[0] == 9 || s[0] == 10 || s[0] == 13 || 32 <= s[0] < 128 then [s[0]] else []) + AsciiOf(s[1..])
  {
  }

  lemma {:induction false} NoAscii(s: Bytes)
    requires forall i :: 0 <= i < |s| ==> s[i] >= 128
    ensures AsciiOf(s) == []
  {
    if s != [] {
      NoAscii(s[1..]);
    }
  }

  /** What a round drops has no ASCII byte that may stay. */
  lemma DroppedPieces(s: Bytes)
    requires s != []
    ensures AsciiOf(Kept(s, CleanPiece(s))) == AsciiOf(s[..CleanPiece(s).used])
    ensures AsciiOf(Kept(s, FixPiece(s))) == AsciiOf(s[..FixPiece(s).used])
  {
    var p := CleanPiece(s);
    if !p.keep && p.used > 1 {
      NoAscii(s[..p.used]);
    }
    assert s[..1] == [s[0]] && AsciiOf([]) == [];
  }

  lemma {:induction false} CleanKeepsAscii(s: Bytes)
    ensures AsciiOf(Clean(s)) == AsciiOf(s)
  {
    if s != [] {
      var p := CleanPiece(s);
      DroppedPieces(s);
      PieceStep(s);
      CleanKeepsAscii(s[p.used..]);
      PiecesOf(Kept(s, p), Clean(s[p.used..]), s, p.used);
    }
  }

  lemma {:induction false} FixKeepsAscii(s: Bytes)
    ensures AsciiOf(FixAll(s)) == AsciiOf(s)
  {
    if s != [] {
      var p := FixPiece(s);
      DroppedPieces(s);
      PieceStep(s);
      FixKeepsAscii(s[p.used..]);
      PiecesOf(Kept(s, p), FixAll(s[p.used..]), s, p.used);
    }
  }

  lemma PiecesOf(kept: Bytes, rest: Bytes, s: Bytes, n: nat)
    requires n <= |s| && AsciiOf(kept) == AsciiOf(s[..n]) && AsciiOf(rest) == AsciiOf(s[n..])
    ensures AsciiOf(kept + rest) == AsciiOf(s)
  {
    hide AsciiOf;
    AsciiOfConcat(kept, rest);
    AsciiOfConcat(s[..n], s[n..]);
    assert s[..n] + s[n..] == s;
  }

  /** No ASCII byte that may stay is lost, whatever is broken around it, and no other one stays. */
  lemma AsciiIsKept(s: Bytes)
    ensures AsciiOf(Sanitized(s)) == AsciiOf(s)
    ensures forall c <- Sanitized(s) :: c == 9 || c == 10 || c == 13 || c >= 32
  {
    CleanIsProper(Fix(s));
    FixKeepsAscii(s);
    CleanKeepsAscii(Fix(s));
  }

  /** A round does not look into the proper text behind it. */
  lemma SamePieces(x: Bytes, b: Bytes)
    requires x != [] && WellFormed(b)
    ensures CleanPiece(x + b) == CleanPiece(x) && FixPiece(x + b) == FixPiece(x)
  {
    assert forall i :: 0 <= i < |x| ==> (x + b)[i] == x[i];
    assert b != [] ==> !Tail(b[0]) && (x + b)[|x|] == b[0];
    SameTails(x, b, 2);
    SameTails(x, b, 3);
    SameTails(x, b, 4);
    hide Tails;
  }

  lemma SameTails(x: Bytes, b: Bytes, n: nat)
    requires x != [] && n <= 4 && (b != [] ==> !Tail(b[0]))
    ensures Tails(x + b, n) == Tails(x, n)
  {
    assert forall k :: 0 <= k < |x| ==> (x + b)[k] == x[k];
    assert b != [] ==> (x + b)[|x|] == b[0];
  }

  lemma {:induction false} CleanKeepsBehind(x: Bytes, b: Bytes)
    requires Proper(b)
    ensures Clean(x + b) == Clean(x) + b
  {
    if x == [] {
      assert [] + b == b && b + [] == b;
      CleanKeepsProper(b, []);
    } else {
      var p := CleanPiece(x);
      ProperParts(b);
      SamePieces(x, b);
      PieceStep(x);
      PieceStep(x + b);
      CleanKeepsBehind(x[p.used..], b);
      hide *;
      KeptFront(x, b, p);
    }
  }

  lemma {:induction false} FixKeepsBehind(x: Bytes, b: Bytes)
    requires WellFormed(b)
    ensures FixAll(x + b) == FixAll(x) + b
  {
    if x == [] {
      assert [] + b == b;
      FixKeepsWellFormed(b);
    } else {
      var p := FixPiece(x);
      SamePieces(x, b);
      PieceStep(x);
      PieceStep(x + b);
      FixKeepsBehind(x[p.used..], b);
      hide *;
      KeptFront(x, b, p);
    }
  }

  lemma KeptFront(x: Bytes, b: Bytes, p: Piece)
    requires p.used <= |x|
    ensures (x + b)[p.used..] == x[p.used..] + b && Kept(x + b, p) == Kept(x, p)
    ensures forall c :: Kept(x, p) + (c + b) == (Kept(x, p) + c) + b
  {
    assert (x + b)[..p.used] == x[..p.used];
  }

  /** One byte alone is treated by the second pass as the first one would. */
  lemma ShortText(x: Bytes)
    requires |x| < 2
    ensures Clean(FixAll(x)) == Clean(x)
  {
    if x != [] {
      assert x[1..] == [] && FixAll([]) == [] && Clean([]) == [] && x[..1] == x;
      if x[0] < 0x80 {
        assert FixAll(x) == x;
      }
    }
  }

  lemma {:induction false} FixKeepsFront(a: Bytes, x: Bytes)
    requires WellFormed(a)
    ensures FixAll(a + x) == a + FixAll(x)
    decreases |a|
  {
    if a == [] {
      assert a + x == x && a + FixAll(x) == FixAll(x);
    } else {
      var n := CharLen(a);
      CharLenPrefix(a, x);
      FixKeepsChar(a + x);
      PieceStep(a + x);
      FixKeepsFront(a[n..], x);
      hide *;
      KeptChar(a, x, n);
    }
  }

  lemma KeptChar(a: Bytes, x: Bytes, n: nat)
    requires n <= |a|
    ensures (a + x)[n..] == a[n..] + x && Kept(a + x, Piece(n, true)) == a[..n]
    ensures forall c :: a[..n] + (a[n..] + c) == a + c
  {
    assert (a + x)[..n] == a[..n] && a[..n] + a[n..] == a;
  }

  /** Proper text on both sides of a broken place stays as it is, and does not change what becomes of that place. */
  lemma ProperAroundIsKept(a: Bytes, x: Bytes, b: Bytes)
    requires Proper(a) && Proper(b)
    ensures Sanitized(a + x + b) == a + Sanitized(x) + b
  {
    assert forall t :: Clean(Fix(t)) == Clean(FixAll(t)) by {
      forall t ensures Clean(Fix(t)) == Clean(FixAll(t)) {
        if |t| < 2 { ShortText(t); }
      }
    }
    hide Clean, FixAll, Fix, Proper;
    var y := FixAll(x);
    ProperParts(a);
    ProperParts(b);
    FixKeepsBehind(a + x, b);
    FixKeepsFront(a, x);
    CleanKeepsBehind(a + y, b);
    CleanKeepsProper(a, y);
  }

  lemma ProperParts(a: Bytes)
    requires Proper(a)
    ensures WellFormed(a)
  {
  }

  // ----- The passes in place -----

  /** Moves n bytes towards the front. */
  method MoveBytes(buf: array<byte>, dst: nat, src: nat, n: nat)
    requires dst <= src && src + n <= buf.Length
    modifies buf
    ensures buf[..dst + n] == old(buf[..dst]) + old(buf[src..src + n])
    ensures buf[src + n..] == old(buf[src + n..])
  {
    var i := 0;
    while i < n
      invariant 0 <= i <= n
      invariant buf[..dst + i] == old(buf[..dst]) + old(buf[src..src + i])
      invariant buf[src + i..] == old(buf[src + i..])
    {
      assert buf[src + i] == old(buf[src + i]) by { assert buf[src + i] == buf[src + i..][0]; }
      buf[dst + i] := buf[src + i];
      i := i + 1;
    }
  }

  /** Keeps or drops the bytes in front of the unread rest, buf[src..len]. */
  method TakePiece(buf: array<byte>, dst: nat, src: nat, p: Piece, ghost len: nat) returns (next: nat)
    requires dst <= src && src + p.used <= len < buf.Length
    modifies buf
    ensures dst <= next <= src + p.used
    ensures buf[..next] == old(buf[..dst]) + Kept(old(buf[src..len]), p)
    ensures buf[src + p.used..len] == old(buf[src..len])[p.used..] && buf[len] == old(buf[len])
  {
    next := dst;
    ghost var rest := buf[src..len];
    assert buf[src..src + p.used] == rest[..p.used];
    if p.keep {
      ghost var tail := buf[src + p.used..];
      MoveBytes(buf, dst, src, p.used);
      next := dst + p.used;
      assert buf[src + p.used..len] == tail[..len - src - p.used] && buf[len] == tail[len - src - p.used];
    }
  }

  lemma PieceStep(rest: Bytes)
    requires rest != []
    ensures Clean(rest) == Kept(rest, CleanPiece(rest)) + Clean(rest[CleanPiece(rest).used..])
    ensures FixAll(rest) == Kept(rest, FixPiece(rest)) + FixAll(rest[FixPiece(rest).used..])
  {
  }

  lemma NothingLeft(rest: Bytes, done: Bytes)
    requires rest == []
    ensures done + FixAll(rest) == done && done + Clean(rest) == done
  {
  }

  /** fix_truncated_utf8 on the first len bytes. */
  method FixTruncated(buf: array<byte>, len: nat) returns (ghost fixed: Bytes)
    requires len < buf.Length && buf[len] == NUL
    modifies buf
    ensures fixed == Fix(old(buf[..len])) && |fixed| <= len && buf[..|fixed|] == fixed && buf[|fixed|] == NUL
  {
    fixed := Fix(buf[..len]);
    if len < 2 {
      return;
    }
    assert fixed == FixAll(buf[..len]);
    hide FixPiece, FixAll, Kept, Fix, Clean, CleanPiece;
    ghost var rest := buf[..len];
    ghost var whole := fixed;
    var out, pos := 0, 0;
    assert buf[0..len] == rest && [] + whole == whole;
    while pos < len
      invariant 0 <= out <= pos <= len && |rest| == len - pos && buf[pos..len] == rest
      invariant buf[..out] + FixAll(rest) == whole
    {
      out, pos, rest := FixStep(buf, out, pos, len, rest, whole);
    }
    NothingLeft(rest, buf[..out]);
    buf[out] := NUL;
  }

  method FixStep(buf: array<byte>, out: nat, pos: nat, len: nat, ghost rest: Bytes, ghost whole: Bytes)
    returns (out': nat, pos': nat, ghost rest': Bytes)
    requires out <= pos < len < buf.Length && buf[pos..len] == rest && buf[..out] + FixAll(rest) == whole
    modifies buf
    ensures out' <= pos' <= len && pos < pos' && |rest'| == len - pos'
    ensures buf[pos'..len] == rest' && buf[..out'] + FixAll(rest') == whole
  {
    hide FixPiece, FixAll, Kept;
    PieceStep(rest);
    var p := ReadFixPiece(buf, pos, len);
    Longer(buf[..out], Kept(rest, p), FixAll(rest[p.used..]), whole);
    out' := TakePiece(buf, out, pos, p, len);
    pos', rest' := pos + p.used, rest[p.used..];
  }

  /** The branches of fix_truncated_utf8 at pos. */
  method ReadFixPiece(buf: array<byte>, pos: nat, len: nat) returns (p: Piece)
    requires pos < len < buf.Length
    ensures p == FixPiece(buf[pos..len])
  {
    var b := buf[pos];
    if b < 0x80 {
      p := Piece(1, true);
    } else if b < 0xC0 {
      p := Piece(1, false);
    } else if b < 0xE0 {
      p := if pos + 1 < len && Tail(buf[pos + 1]) then Piece(2, true) else Piece(1, false);
    } else if b < 0xF0 {
      p := if pos + 2 < len && Tail(buf[pos + 1]) && Tail(buf[pos + 2]) then Piece(3, true) else Piece(1, false);
    } else if b < 0xF5 {
      p := if pos + 3 < len && Tail(buf[pos + 1]) && Tail(buf[pos + 2]) && Tail(buf[pos + 3]) then Piece(4, true)
      else Piece(1, false);
    } else {
      p := Piece(1, false);
    }
  }

  /** The loop of text_sanitize_utf8_json: the write index never passes the read index. */
  method CleanInPlace(buf: array<byte>) returns (ghost clean: Bytes)
    requires |CString(buf[..])| < buf.Length
    modifies buf
    ensures clean == Clean(CString(old(buf[..]))) && |clean| < buf.Length
    ensures buf[..|clean|] == clean && buf[|clean|] == NUL
  {
    hide CleanPiece, Clean, Kept, CString;
    ghost var rest := CString(buf[..]);
    clean := Clean(rest);
    ghost var len, whole := |rest|, clean;
    var src, dst := 0, 0;
    assert buf[0..len] == rest && [] + whole == whole;
    NotAtNul(buf[..], src, len, rest);
    while buf[src] != NUL
      invariant 0 <= dst <= src <= len < buf.Length && buf[src..len] == rest && buf[len] == NUL && NulFree(rest)
      invariant buf[..dst] + Clean(rest) == whole && (src < len ==> buf[src] != NUL)
      decreases len - src
    {
      PieceStep(rest);
      var p := ReadCleanPiece(buf, src, len);
      Longer(buf[..dst], Kept(rest, p), Clean(rest[p.used..]), whole);
      dst := TakePiece(buf, dst, src, p, len);
      src, rest := src + p.used, rest[p.used..];
      NotAtNul(buf[..], src, len, rest);
    }
    NothingLeft(rest, buf[..dst]);
    buf[dst] := NUL;
  }

  lemma NotAtNul(s: Bytes, src: nat, len: nat, rest: Bytes)
    requires src <= len < |s| && s[src..len] == rest && NulFree(rest)
    ensures src < len ==> s[src] != NUL
  {
    assert src < len ==> rest[0] == s[src];
  }

  /** One round of the loop: the sequence at src, which ends at the latest in front of the NUL. */
  method ReadCleanPiece(buf: array<byte>, src: nat, ghost len: nat) returns (p: Piece)
    requires src < len < buf.Length && NulFree(buf[src..len]) && buf[len] == NUL
    ensures p == CleanPiece(buf[src..len])
  {
    var n := SeqLen(buf[src]);
    if n == 0 {
      return Piece(1, false);
    }
    if n == 1 {
      return Piece(1, Allowed(buf[src]));
    }
    var valid, i := true, 1;
    while i < n
      invariant 1 <= i <= n && src + i <= len
      invariant forall k :: 1 <= k < i ==> Tail(buf[src..len][k])
      decreases n - i
    {
      var ch := buf[src + i];
      if ch == NUL || !Tail(ch) {
        valid := false;
        break;
      }
      i := i + 1;
    }
    if !valid {
      return Piece(1, false);
    }
    var codepoint := CodePoint(buf[src..src + n], n);
    p := Piece(n, Fits(codepoint, n));
  }

  /** text_sanitize_utf8_json on a NUL-terminated buffer. */
  method SanitizeUtf8Json(s: array<byte>)
    requires |CString(s[..])| < s.Length
    modifies s
    ensures |CString(s[..])| < s.Length && CString(s[..]) == Sanitized(CString(old(s[..])))
  {
    if s[0] == NUL {
      return;
    }
    hide CString, Clean, FixAll;
    ghost var text := CString(s[..]);
    var fixed := FixTruncated(s, |CString(s[..])|);
    FixIsNulFree(text);
    Terminated(s[..], fixed);
    var clean := CleanInPlace(s);
    CleanIsProper(fixed);
    Terminated(s[..], clean);
  }
}
