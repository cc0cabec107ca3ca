/** UTF-8 as RFC 3629 defines it, and the hexadecimal digits of \u literals. */
module Utf8 {
  import opened Bytes

  predicate Tail(c: byte) { 0x80 <= c <= 0xBF }

  /** Length of the UTF8-char (RFC 3629, section 4) that starts s, or 0. */
  function CharLen(s: Bytes): (n: nat)
    ensures n <= 4 && n <= |s|
  {
    if |s| >= 1 && s[0] <= 0x7F then 1
    else if |s| >= 2 && 0xC2 <= s[0] <= 0xDF && Tail(s[1]) then 2
    else if |s| >= 3 && Tail(s[2]) &&
            ((s[0] == 0xE0 && 0xA0 <= s[1] <= 0xBF) ||
             (0xE1 <= s[0] <= 0xEC && Tail(s[1])) ||
             (s[0] == 0xED && 0x80 <= s[1] <= 0x9F) ||
             (0xEE <= s[0] <= 0xEF && Tail(s[1]))) then 3
    else if |s| >= 4 && Tail(s[2]) && Tail(s[3]) &&
            ((s[0] == 0xF0 && 0x90 <= s[1] <= 0xBF) ||
             (0xF1 <= s[0] <= 0xF3 && Tail(s[1])) ||
             (s[0] == 0xF4 && 0x80 <= s[1] <= 0x8F)) then 4
    else 0
  }

  predicate WellFormed(s: Bytes) {
    s == [] || (CharLen(s) > 0 && WellFormed(s[CharLen(s)..]))
  }

  /** A Unicode scalar value: no surrogate, nothing above U+10FFFF. */
  predicate Scalar(cp: int) {
    0 <= cp <= 0xD7FF || 0xE000 <= cp <= 0x10FFFF
  }

  /** The encoding of RFC 3629, section 3; also defined on surrogate values. */
  function Encode(cp: nat): (r: Bytes)
    requires cp <= 0x10FFFF
    ensures 1 <= |r| <= 4
    ensures cp < 0x80 <==> |r| == 1
    ensures cp < 0x10000 <==> |r| <= 3
  {
    if cp < 0x80 then [cp]
    else if cp < 0x800 then [0xC0 + cp / 64, 0x80 + cp % 64]
    else if cp < 0x10000 then [0xE0 + cp / 64 / 64, 0x80 + cp / 64 % 64, 0x80 + cp % 64]
    else [0xF0 + cp / 64 / 64 / 64, 0x80 + cp / 64 / 64 % 64, 0x80 + cp / 64 % 64, 0x80 + cp % 64]
  }

  /** The number carried by the first n bytes of s, lead-byte mask and all. */
  function CodePoint(s: Bytes, n: nat): (cp: nat)
    requires 1 <= n <= 4 && n <= |s|
  {
    if n == 1 then s[0]
    else if n == 2 then LowBits(s[0], 32) * 64 + LowBits(s[1], 64)
    else if n == 3 then LowBits(s[0], 16) * 4096 + LowBits(s[1], 64) * 64 + LowBits(s[2], 64)
    else LowBits(s[0], 8) * 262144 + LowBits(s[1], 64) * 4096 + LowBits(s[2], 64) * 64 + LowBits(s[3], 64)
  }

  lemma SixBits(q: nat, r: nat)
    requires r < 64
    ensures (q * 64 + r) / 64 == q && (q * 64 + r) % 64 == r
  {
  }

  lemma LeadAndTailBits(c: byte)
    ensures 0xC0 <= c < 0xE0 ==> LowBits(c, 32) == c - 0xC0
    ensures 0xE0 <= c < 0xF0 ==> LowBits(c, 16) == c - 0xE0
    ensures 0xF0 <= c < 0xF8 ==> LowBits(c, 8) == c - 0xF0
    ensures Tail(c) ==> LowBits(c, 64) == c - 0x80
  {
  }

  lemma Encode2(a: nat, b: nat)
    requires 2 <= a < 32 && b < 64
    ensures Encode(a * 64 + b) == [0xC0 + a, 0x80 + b]
  {
    SixBits(a, b);
  }

  lemma Encode3(a: nat, b: nat, c: nat)
    requires a < 16 && b < 64 && c < 64 && (a > 0 || b >= 32)
    ensures Encode(a * 4096 + b * 64 + c) == [0xE0 + a, 0x80 + b, 0x80 + c]
  {
    SixBits(a, b);
    SixBits(a * 64 + b, c);
  }

  lemma Encode4(a: nat, b: nat, c: nat, d: nat)
    requires a < 5 && b < 64 && c < 64 && d < 64 && (a > 0 || b >= 16) && (a < 4 || b < 16)
    ensures Encode(a * 262144 + b * 4096 + c * 64 + d) == [0xF0 + a, 0x80 + b, 0x80 + c, 0x80 + d]
  {
    SixBits(a, b);
    SixBits(a * 64 + b, c);
    SixBits(a * 4096 + b * 64 + c, d);
  }

  /** Decoding a well-formed char and encoding it again gives the same bytes. */
  lemma EncodeCodePoint(s: Bytes)
    requires CharLen(s) > 0
    ensures Scalar(CodePoint(s, CharLen(s)))
    ensures Encode(CodePoint(s, CharLen(s))) == s[..CharLen(s)]
  {
    var n := CharLen(s);
    LeadAndTailBits(s[0]);
    if n == 2 {
      LeadAndTailBits(s[1]);
      Encode2(LowBits(s[0], 32), LowBits(s[1], 64));
    } else if n == 3 {
      LeadAndTailBits(s[1]); LeadAndTailBits(s[2]);
      Encode3(LowBits(s[0], 16), LowBits(s[1], 64), LowBits(s[2], 64));
    } else if n == 4 {
      EncodeCodePoint4(s);
    }
  }

  lemma EncodeCodePoint4(s: Bytes)
    requires CharLen(s) == 4
    ensures Scalar(CodePoint(s, 4)) && Encode(CodePoint(s, 4)) == s[..4]
  {
    LeadAndTailBits(s[0]); LeadAndTailBits(s[1]); LeadAndTailBits(s[2]); LeadAndTailBits(s[3]);
    Encode4(LowBits(s[0], 8), LowBits(s[1], 64), LowBits(s[2], 64), LowBits(s[3], 64));
  }

  /** The char at the front is read the same whatever follows it. */
  lemma CharLenPrefix(s: Bytes, t: Bytes)
    requires CharLen(s) > 0
    ensures CharLen(s + t) == CharLen(s)
    ensures CodePoint(s + t, CharLen(s)) == CodePoint(s, CharLen(s))
  {
    var n := CharLen(s);
    assert forall i :: 0 <= i < n ==> (s + t)[i] == s[i];
  }

  lemma {:induction false} WellFormedConcat(a: Bytes, b: Bytes)
    requires WellFormed(a) && WellFormed(b)
    ensures WellFormed(a + b)
    decreases |a|
  {
    if a == [] {
      assert a + b == b;
    } else {
      CharLenPrefix(a, b);
      assert (a + b)[CharLen(a)..] == a[CharLen(a)..] + b;
      WellFormedConcat(a[CharLen(a)..], b);
    }
  }

  /** Value of a hexadecimal digit, either case, or -1. */
  function HexValue(c: byte): (v: int)
    ensures -1 <= v < 16
  {
    if 48 <= c <= 57 then c - 48
    else if 65 <= c <= 70 then c - 55
    else if 97 <= c <= 102 then c - 87
    else -1
  }

  /** Value of the four characters at i: 0 as soon as one is no hex digit. */
  function Hex4(s: Bytes, i: nat): (h: nat)
    requires i + 4 <= |s|
    ensures h < 0x10000
  {
    if HexValue(s[i]) < 0 || HexValue(s[i + 1]) < 0 || HexValue(s[i + 2]) < 0 || HexValue(s[i + 3]) < 0
    then 0
    else HexValue(s[i]) * 4096 + HexValue(s[i + 1]) * 256 + HexValue(s[i + 2]) * 16 + HexValue(s[i + 3])
  }

  function HexDigit(n: nat, upper: bool): (c: byte)
    requires n < 16
    ensures HexValue(c) == n && 48 <= c <= 102
    ensures c != QUOTE && c != BACKSLASH
  {
    if n < 10 then 48 + n else if upper then 55 + n else 87 + n
  }

  /** printf's %04x and %04X for a value below 0x10000. */
  function FourHex(n: nat, upper: bool): (r: Bytes)
    requires n < 0x10000
    ensures |r| == 4
  {
    [HexDigit(n / 4096, upper), HexDigit(n / 256 % 16, upper), HexDigit(n / 16 % 16, upper), HexDigit(n % 16, upper)]
  }

  lemma Hex4OfFourHex(s: Bytes, i: nat, n: nat, upper: bool)
    requires n < 0x10000 && At(s, i, FourHex(n, upper))
    ensures Hex4(s, i) == n
  {
    var t := FourHex(n, upper);
    AtByte(s, i, t, 0); AtByte(s, i, t, 1); AtByte(s, i, t, 2); AtByte(s, i, t, 3);
    assert n / 16 == n / 256 * 16 + n / 16 % 16 by { assert n / 16 / 16 == n / 256; }
    assert n / 256 == n / 4096 * 16 + n / 256 % 16 by { assert n / 256 / 16 == n / 4096; }
  }

  /** The two halves of a surrogate pair. */
  lemma SurrogateBits(v: nat)
    requires v < 0x100000
    ensures var hi, lo := 0xD800 + v / 1024, 0xDC00 + v % 1024;
      && 0xD800 <= hi <= 0xDBFF && 0xDC00 <= lo <= 0xDFFF
      && hi % 1024 * 1024 + lo % 1024 == v
  {
  }
}
