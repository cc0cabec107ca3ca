/** Every text that RFC 8259 derives is parsed to the value it stands for. */
module Reading {
  import opened Bytes
  import opened Utf8
  import opened Json
  import opened Grammar
  import R = Rfc8259

  // ----- Numbers -----

  /** Bytes that end a number: what follows a printed value is always one. */
  predicate Ends(s: Bytes, off: nat) {
    off < |s| ==> !NumberChar(s[off])
  }

  lemma {:induction false} NumberCharsOf(s: Bytes, off: nat, t: Bytes, max: nat)
    requires At(s, off, t) && |t| <= max
    requires forall i :: 0 <= i < |t| ==> NumberChar(t[i])
    requires off + |t| < |s| ==> !NumberChar(s[off + |t|])
    ensures NumberChars(s, off, max) == t
    decreases |t|
  {
    if t != [] {
      AtConcat(s, off, [t[0]], t[1..]) by { assert [t[0]] + t[1..] == t; }
      AtByte(s, off, t, 0);
      NumberCharsOf(s, off + 1, t[1..], max - 1);
    }
  }

  lemma {:induction false} SameDigits(d: Bytes)
    requires R.Digits(d)
    ensures AllDigits(d) && Grammar.DigitsValue(d) == R.DigitsValue(d)
  {
    if d != [] {
      SameDigits(d[..|d| - 1]);
    }
  }

  lemma {:induction false} SamePower(k: nat)
    ensures Pow10(k) == R.TenTo(k)
  {
    if k > 0 {
      SamePower(k - 1);
    }
  }

  lemma {:induction false} DigitsAt(t: Bytes, i: nat, d: Bytes)
    requires At(t, i, d) && R.Digits(d) && (i + |d| < |t| ==> !Digit(t[i + |d|]))
    ensures Digits(t, i) == |d|
    decreases |d|
  {
    if d != [] {
      AtByte(t, i, d, 0);
      AtConcat(t, i, [d[0]], d[1..]) by { assert [d[0]] + d[1..] == d; }
      DigitsAt(t, i + 1, d[1..]);
    }
  }

  /** Where the parts of a number stand. */
  lemma NumeralPieces(n: R.Numeral)
    requires R.ProperNumeral(n)
    ensures var t := R.NumeralText(n); var sign := if n.minus then 1 else 0; var dot := sign + |n.whole|;
      var e := if n.fraction == [] then dot else dot + 1 + |n.fraction|;
      && |t| == e + |R.ExponentText(n.exponent)| && (n.minus ==> t[0] == 45)
      && At(t, sign, n.whole) && At(t, e, R.ExponentText(n.exponent))
      && (n.fraction != [] ==> t[dot] == 46 && At(t, dot + 1, n.fraction))
  {
    hide R.ExponentText, R.ProperNumeral, At;
    var lead: Bytes := if n.minus then [45] else [];
    var tail: Bytes := if n.fraction == [] then [] else [46] + n.fraction;
    var t, e := R.NumeralText(n), R.ExponentText(n.exponent);
    assert t == lead + n.whole + tail + e;
    AtSelf(t);
    AtConcat(t, 0, lead + n.whole + tail, e);
    AtConcat3(t, 0, lead, n.whole, tail);
    if n.minus {
      AtByte(t, 0, lead, 0);
    }
    if n.fraction != [] {
      AtConcat(t, |lead| + |n.whole|, [46], n.fraction);
      AtByte(t, |lead| + |n.whole|, [46], 0);
    }
  }

  lemma AtSelf(t: Bytes)
    ensures At(t, 0, t)
  {
  }

  lemma AtLength(t: Bytes, i: nat, p: Bytes)
    requires At(t, i, p)
    ensures i + |p| <= |t|
  {
  }

  lemma ExponentPieces(t: Bytes, i: nat, e: R.Exponent)
    requires R.ProperExponent(e) && At(t, i, R.ExponentText(e)) && i + |R.ExponentText(e)| == |t|
    ensures ExponentLength(t, i) == |R.ExponentText(e)| && ExponentValue(t, i) == R.ExponentValue(e)
    ensures e.Exponent? ==> i < |t| && t[i] == e.letter
  {
    hide *;
    if e.Exponent? {
      ExponentParts(e);
      ExponentAt(t, i, e.letter, e.sign, e.digits);
      SameDigits(e.digits);
      ExponentValueIs(t, i, e.sign, e.digits);
    } else {
      NoExponentAt(t, i, e);
    }
  }

  lemma NoExponentAt(t: Bytes, i: nat, e: R.Exponent)
    requires e.NoExponent? && i + |R.ExponentText(e)| == |t|
    ensures ExponentLength(t, i) == |R.ExponentText(e)| && ExponentValue(t, i) == R.ExponentValue(e)
  {
  }

  lemma ExponentParts(e: R.Exponent)
    requires R.ProperExponent(e) && e.Exponent?
    ensures R.ExponentText(e) == [e.letter] + e.sign + e.digits && R.Digits(e.digits)
    ensures R.ExponentValue(e) == if e.sign == [45] then -R.DigitsValue(e.digits) else R.DigitsValue(e.digits)
    ensures e == R.Exponent(e.letter, e.sign, e.digits) && (e.sign == [] || e.sign == [43] || e.sign == [45])
    ensures e.digits != []
  {
  }

  lemma ExponentValueIs(t: Bytes, i: nat, sign: Bytes, digits: Bytes)
    requires i <= |t| && digits != [] && AllDigits(digits) && |sign| <= 1
    requires ExponentLength(t, i) == 1 + |sign| + |digits| && Sign(t, i + 1) == |sign|
    requires i + 1 + |sign| + |digits| == |t| && t[i + 1 + |sign|..] == digits
    requires sign != [] ==> t[i + 1] == sign[0]
    ensures var v: int := Grammar.DigitsValue(digits); ExponentValue(t, i) == if sign == [45] then -v else v
  {
    hide ExponentLength, Sign, Grammar.DigitsValue, AllDigits;
    assert t[i + 1 + |sign|..|t|] == digits;
  }

  lemma ExponentAt(t: Bytes, i: nat, letter: byte, sign: Bytes, digits: Bytes)
    requires R.ProperExponent(R.Exponent(letter, sign, digits)) && At(t, i, [letter] + sign + digits)
    requires i + 1 + |sign| + |digits| == |t|
    ensures t[i] == letter && Sign(t, i + 1) == |sign| && (sign != [] ==> t[i + 1] == sign[0])
    ensures ExponentLength(t, i) == 1 + |sign| + |digits| && t[i + 1 + |sign|..] == digits
  {
    hide At, Digits, Sign, R.Digits;
    AtConcat3(t, i, [letter], sign, digits);
    AtByte(t, i, [letter], 0);
    SignAt(t, i + 1, sign, digits);
    AtSlice(t, i + 1 + |sign|, digits);
    DigitsAt(t, i + 1 + |sign|, digits);
    assert t[i + 1 + |sign|..|t|] == digits;
  }

  lemma AtSlice(t: Bytes, i: nat, p: Bytes)
    requires At(t, i, p)
    ensures i + |p| <= |t| && t[i..i + |p|] == p
  {
  }

  lemma SignAt(t: Bytes, i: nat, sign: Bytes, digits: Bytes)
    requires sign == [] || sign == [43] || sign == [45]
    requires At(t, i, sign) && At(t, i + |sign|, digits) && digits != [] && R.Digits(digits)
    ensures Sign(t, i) == |sign| && (sign != [] ==> t[i] == sign[0])
  {
    if sign == [] {
      AtByte(t, i, digits, 0);
    } else {
      AtByte(t, i, sign, 0);
    }
  }

  lemma NumeralParts(n: R.Numeral)
    requires R.ProperNumeral(n)
    ensures DecimalParts(R.NumeralText(n)) == PartsOf(n)
  {
    hide *;
    var t, d := R.NumeralText(n), PartsOf(n);
    var dot := d.sign + d.whole;
    NumeralPieces(n);
    NumeralIsProper(n);
    ExponentPieces(t, dot + d.point + d.fraction, n.exponent);
    ExponentFirst(n.exponent);
    AtByte(t, d.sign, n.whole, 0);
    AtLength(t, d.sign, n.whole);
    NoDigit();
    SignIs(t, d.sign);
    DigitsAt(t, d.sign, n.whole);
    if n.fraction != [] {
      DigitsAt(t, dot + 1, n.fraction);
    }
    PartsAre(t, d);
  }

  lemma NoDigit()
    ensures forall c :: Digit(c) <==> 48 <= c <= 57
    ensures MINUS == 45
  {
  }

  lemma SignIs(t: Bytes, sign: nat)
    requires sign <= 1 && t != [] && if sign == 1 then t[0] == 45 else 48 <= t[0] <= 57
    ensures Sign(t, 0) == sign
  {
  }

  lemma NumeralIsProper(n: R.Numeral)
    requires R.ProperNumeral(n)
    ensures n.whole != [] && R.Digits(n.whole) && 48 <= n.whole[0] <= 57
    ensures R.Digits(n.fraction) && R.ProperExponent(n.exponent)
  {
  }

  lemma PartsAre(t: Bytes, d: Parts)
    requires Sign(t, 0) == d.sign && d.sign <= |t| && Digits(t, d.sign) == d.whole > 0
    requires var dot := d.sign + d.whole;
      && d.point == (if dot < |t| && t[dot] == 46 then 1 else 0)
      && d.fraction == (if d.point == 1 then Digits(t, dot + 1) else 0)
      && dot + d.point + d.fraction <= |t| && d.exponent == ExponentLength(t, dot + d.point + d.fraction)
    ensures DecimalParts(t) == d
  {
    hide Digits, ExponentLength, Sign;
  }

  lemma ExponentFirst(e: R.Exponent)
    requires R.ProperExponent(e)
    ensures e.Exponent? ==> !Digit(e.letter) && e.letter != 46
    ensures e.NoExponent? ==> R.ExponentText(e) == []
  {
  }

  lemma ExactQuotient(m: int, k: int)
    requires k >= 1
    ensures m * k / k == m
  {
    var q, r := m * k / k, m * k % k;
    assert m * k == q * k + r && (m - q) * k == r;
    Multiple(m - q, k, r);
  }

  lemma Multiple(d: int, k: int, r: int)
    requires d * k == r && 0 <= r < k
    ensures d == 0
  {
    if d < 0 {
      NegativeMultiple(d, k);
    }
  }

  lemma NegativeMultiple(d: int, k: int)
    requires d < 0 < k
    ensures d * k < 0
  {
  }

  /** The value that strtod's parts give when it is an int. */
  lemma ValueOfParts(t: Bytes, d: Parts, digits: Bytes, x: int, v: int)
    requires DecimalParts(t) == d && d.whole + d.fraction > 0
    requires var dot := d.sign + d.whole;
      digits == t[d.sign..dot] + t[dot + d.point..dot + d.point + d.fraction] && AllDigits(digits)
    requires x == if d.exponent > 0 then ExponentValue(t, d.sign + d.whole + d.point + d.fraction) else 0
    requires var magnitude := if d.sign == 1 && t[0] == MINUS then -v else v;
      if x >= d.fraction then magnitude == Grammar.DigitsValue(digits) * Pow10(x - d.fraction)
      else Grammar.DigitsValue(digits) == magnitude * Pow10(d.fraction - x)
    ensures NumberValue(t) == v
  {
    hide DecimalParts, Grammar.DigitsValue, Pow10, ExponentValue, AllDigits;
    var magnitude := if d.sign == 1 && t[0] == MINUS then -v else v;
    if x < d.fraction {
      ExactQuotient(magnitude, Pow10(d.fraction - x));
    }
  }

  /** The value of a number that is an int. */
  lemma NumeralIsInt(n: R.Numeral, v: int)
    requires R.ProperNumeral(n) && R.IsInt(n, v)
    ensures NumberLength(R.NumeralText(n)) == |R.NumeralText(n)| && NumberValue(R.NumeralText(n)) == v
  {
    hide *;
    var d := PartsOf(n);
    NumeralSlices(n);
    ScaledInt(n, v);
    ValueOfParts(R.NumeralText(n), d, n.whole + n.fraction, R.ExponentValue(n.exponent), v);
    LengthOfParts(R.NumeralText(n), d);
  }

  lemma LengthOfParts(t: Bytes, d: Parts)
    requires DecimalParts(t) == d && d.whole + d.fraction > 0
    ensures NumberLength(t) == d.sign + d.whole + d.point + d.fraction + d.exponent
  {
  }

  function PartsOf(n: R.Numeral): (d: Parts)
    ensures d.sign == (if n.minus then 1 else 0) && d.whole == |n.whole| && d.fraction == |n.fraction|
    ensures d.point == (if n.fraction == [] then 0 else 1) && d.exponent == |R.ExponentText(n.exponent)|
  {
    Parts(if n.minus then 1 else 0, |n.whole|, if n.fraction == [] then 0 else 1, |n.fraction|,
          |R.ExponentText(n.exponent)|)
  }

  lemma ScaledInt(n: R.Numeral, v: int)
    requires R.ProperNumeral(n) && R.IsInt(n, v)
    ensures var digits := n.whole + n.fraction; var x := R.ExponentValue(n.exponent); var f := |n.fraction|;
      var magnitude := if n.minus then -v else v;
      && AllDigits(digits) && n.whole != [] && R.ProperExponent(n.exponent)
      && (if x >= f then magnitude == Grammar.DigitsValue(digits) * Pow10(x - f)
          else Grammar.DigitsValue(digits) == magnitude * Pow10(f - x))
  {
    SameDigits(n.whole + n.fraction);
    var x := R.ExponentValue(n.exponent) - |n.fraction|;
    if x >= 0 {
      SamePower(x);
    } else {
      SamePower(-x);
    }
    hide R.TenTo, Pow10, R.DigitsValue, Grammar.DigitsValue, R.ExponentValue, R.ProperExponent;
  }

  /** The parts as the conversion cuts them out. */
  lemma NumeralSlices(n: R.Numeral)
    requires R.ProperNumeral(n)
    ensures var t, d := R.NumeralText(n), PartsOf(n); var dot := d.sign + d.whole; var e := dot + d.point + d.fraction;
      && DecimalParts(t) == d && d.whole > 0 && dot <= dot + d.point <= e <= |t| == e + d.exponent
      && (n.minus <==> d.sign == 1 && t[0] == MINUS)
      && t[d.sign..dot] + t[dot + d.point..e] == n.whole + n.fraction
      && (if d.exponent > 0 then ExponentValue(t, e) else 0) == R.ExponentValue(n.exponent)
  {
    hide R.NumeralText, R.ExponentText, R.ExponentValue, ExponentValue, R.ProperExponent, At, DecimalParts;
    var t, d := R.NumeralText(n), PartsOf(n);
    var dot := d.sign + d.whole;
    NumeralParts(n);
    NumeralPieces(n);
    ExponentPieces(t, dot + d.point + d.fraction, n.exponent);
    NoExponentIsNothing(n.exponent);
    AtSlice(t, d.sign, n.whole);
    if n.fraction != [] {
      AtSlice(t, dot + 1, n.fraction);
    }
  }

  lemma NoExponentIsNothing(e: R.Exponent)
    requires R.ProperExponent(e)
    ensures |R.ExponentText(e)| == 0 ==> R.ExponentValue(e) == 0
  {
  }

  lemma NumeralChars(n: R.Numeral)
    requires R.ProperNumeral(n)
    ensures R.NumeralText(n) != []
    ensures forall i :: 0 <= i < |R.NumeralText(n)| ==> NumberChar(R.NumeralText(n)[i])
    ensures var c := R.NumeralText(n)[0]; c == 45 || 48 <= c <= 57
  {
  }

  /** A number that is an int is read to its end and exactly if and only if it has at most 63 characters. */
  lemma NumberIsRead(s: Bytes, off: nat, n: R.Numeral, v: int)
    requires R.ProperNumeral(n) && R.IsInt(n, v) && INT_MIN <= v <= INT_MAX
    requires At(s, off, R.NumeralText(n)) && Ends(s, off + |R.NumeralText(n)|)
    ensures ParseNumber(s, off) == Parsed(Number(v), off + |R.NumeralText(n)|) <==> |R.NumeralText(n)| <= 63
  {
    hide *;
    var t := R.NumeralText(n);
    if |t| <= 63 {
      NumeralIsInt(n, v);
      NumeralChars(n);
      EndsMeans(s, off + |t|);
      NumberCharsOf(s, off, t, 63);
      NumberStep(s, off, t, v);
    } else {
      AtLength(s, off, t);
      AtMostSixtyThree(s, off);
    }
  }

  lemma EndsMeans(s: Bytes, off: nat)
    requires Ends(s, off)
    ensures off < |s| ==> !NumberChar(s[off])
  {
  }

  lemma NumberStep(s: Bytes, off: nat, t: Bytes, v: int)
    requires off <= |s| && NumberChars(s, off, 63) == t && NumberLength(t) == |t| > 0 && NumberValue(t) == v
    requires INT_MIN <= v <= INT_MAX
    ensures ParseNumber(s, off) == Parsed(Number(v), off + |t|)
  {
    hide NumberChars, NumberLength, NumberValue;
  }

  lemma AtMostSixtyThree(s: Bytes, off: nat)
    requires off <= |s|
    ensures ParseNumber(s, off).Parsed? ==> ParseNumber(s, off).end <= off + 63
  {
    hide NumberChars, NumberValue;
  }

  // ----- Strings -----

  /** A piece of a string literal that both passes read as the bytes it stands for. */
  ghost predicate Reads(piece: Bytes, bytes: Bytes) {
    && (forall s, i: nat {:trigger At(s, i, piece), ClosingQuote(s, i)} ::
          At(s, i, piece) ==> ClosingQuote(s, i) == ClosingQuote(s, i + |piece|))
    && (forall s, i: nat, end: nat {:trigger At(s, i, piece), Unescape(s, i, end)} ::
          At(s, i, piece) && i + |piece| <= end < |s| ==>
          Unescape(s, i, end) == Prepend(bytes, Unescape(s, i + |piece|, end)))
  }

  function Prepend(bytes: Bytes, rest: Option<Bytes>): Option<Bytes> {
    match rest
    case None => None
    case Some(r) => Some(bytes + r)
  }

  lemma ReadsNothing()
    ensures Reads([], [])
  {
    forall s: Bytes, i: nat, end: nat | At(s, i, []) && i <= end < |s|
      ensures Unescape(s, i, end) == Prepend([], Unescape(s, i, end))
    {
      match Unescape(s, i, end)
      case None =>
      case Some(r) => assert [] + r == r;
    }
  }

  lemma ReadsConcat(p: Bytes, a: Bytes, q: Bytes, b: Bytes)
    requires Reads(p, a) && Reads(q, b)
    ensures Reads(p + q, a + b)
  {
    forall s: Bytes, i: nat | At(s, i, p + q)
      ensures ClosingQuote(s, i) == ClosingQuote(s, i + |p + q|)
    {
      AtConcat(s, i, p, q);
    }
    forall s: Bytes, i: nat, end: nat | At(s, i, p + q) && i + |p + q| <= end < |s|
      ensures Unescape(s, i, end) == Prepend(a + b, Unescape(s, i + |p + q|, end))
    {
      AtConcat(s, i, p, q);
      var r := Unescape(s, i + |p| + |q|, end);
      if r.Some? { assert a + (b + r.value) == a + b + r.value; }
    }
  }

  lemma ReadsPlain(c: byte)
    requires c != QUOTE && c != BACKSLASH
    ensures Reads([c], [c])
  {
    forall s: Bytes, i: nat | At(s, i, [c]) ensures s[i] == c { AtByte(s, i, [c], 0); }
  }

  lemma ReadsSimpleEscape(x: byte, c: byte)
    requires x != LETTER_U && SimpleEscape(x) == Some(c)
    ensures Reads([BACKSLASH, x], [c])
  {
    var p: Bytes := [BACKSLASH, x];
    forall s: Bytes, i: nat | At(s, i, p) ensures s[i] == BACKSLASH && s[i + 1] == x {
      AtByte(s, i, p, 0); AtByte(s, i, p, 1);
    }
  }

  lemma ReadsAt(piece: Bytes, bytes: Bytes, s: Bytes, i: nat, end: nat)
    requires Reads(piece, bytes) && At(s, i, piece) && i + |piece| <= end < |s|
    ensures ClosingQuote(s, i) == ClosingQuote(s, i + |piece|)
    ensures Unescape(s, i, end) == Prepend(bytes, Unescape(s, i + |piece|, end))
  {
  }

  /** A surrogate pair is read back as the code point it was made from. */
  lemma PairLiteral(s: Bytes, i: nat, cp: nat)
    requires 0x10000 <= cp <= 0x10FFFF && i + 12 <= |s|
    requires s[i + 6] == BACKSLASH && s[i + 7] == LETTER_U
    requires Hex4(s, i + 2) == 0xD800 + (cp - 0x10000) / 1024
    requires Hex4(s, i + 8) == 0xDC00 + (cp - 0x10000) % 1024
    ensures forall end: nat :: i + 12 <= end <= |s| ==> Utf16Literal(s, i, end) == Literal(Encode(cp), 12)
  {
    hide Hex4, Encode;
    SurrogateBits(cp - 0x10000);
  }

  predicate Hexadecimal(c: byte) {
    48 <= c <= 57 || 65 <= c <= 70 || 97 <= c <= 102
  }

  lemma SameHexDigit(c: byte)
    requires Hexadecimal(c)
    ensures HexValue(c) == R.HexDigit(c) && 0 <= HexValue(c) < 16 && c != QUOTE && c != BACKSLASH
  {
  }

  lemma SameHex(h: Bytes, s: Bytes, i: nat)
    requires R.Hexadecimal(h) && At(s, i, h)
    ensures i + 4 <= |s| && Hex4(s, i) == R.Code(h) && 0 <= R.Code(h) < 0x10000
    ensures forall k :: i <= k < i + 4 ==> s[k] != QUOTE && s[k] != BACKSLASH
  {
    AtByte(s, i, h, 0); AtByte(s, i, h, 1); AtByte(s, i, h, 2); AtByte(s, i, h, 3);
    AtLength(s, i, h);
    assert Hexadecimal(h[0]) && Hexadecimal(h[1]) && Hexadecimal(h[2]) && Hexadecimal(h[3]);
    hide HexValue, R.HexDigit, At, R.Hexadecimal, Hexadecimal;
    SameHexDigit(h[0]); SameHexDigit(h[1]); SameHexDigit(h[2]); SameHexDigit(h[3]);
    assert s[i] == h[0] && s[i + 1] == h[1] && s[i + 2] == h[2] && s[i + 3] == h[3];
  }

  /** The encoding is the only one. */
  lemma SameEncoding(b: Bytes, cp: int)
    requires R.Encodes(b, cp)
    ensures 0 <= cp <= 0x10FFFF && Encode(cp) == b
  {
    if |b| == 2 {
      Encode2(b[0] as int - 0xC0, b[1] as int - 0x80);
    } else if |b| == 3 {
      Encode3(b[0] as int - 0xE0, b[1] as int - 0x80, b[2] as int - 0x80);
    } else if |b| == 4 {
      Encode4(b[0] as int - 0xF0, b[1] as int - 0x80, b[2] as int - 0x80, b[3] as int - 0x80);
    }
  }

  /** One \u literal in the text, and how the first pass goes over it. */
  lemma UnitAt(s: Bytes, i: nat, h: Bytes)
    requires R.Hexadecimal(h) && At(s, i, [92, 117] + h)
    ensures i + 6 <= |s| && s[i] == BACKSLASH && s[i + 1] == LETTER_U && Hex4(s, i + 2) == R.Code(h)
    ensures ClosingQuote(s, i) == ClosingQuote(s, i + 6)
  {
    AtConcat(s, i, [92, 117], h);
    AtByte(s, i, [92, 117], 0);
    AtByte(s, i, [92, 117], 1);
    SameHex(h, s, i + 2);
    hide R.Hexadecimal, At, Hex4;
    assert ClosingQuote(s, i) == ClosingQuote(s, i + 2);
    assert ClosingQuote(s, i + 2) == ClosingQuote(s, i + 3) == ClosingQuote(s, i + 4);
    assert ClosingQuote(s, i + 4) == ClosingQuote(s, i + 5) == ClosingQuote(s, i + 6);
  }

  lemma ReadsUnit(h: Bytes, b: Bytes)
    requires R.ProperChar(R.Unit(h, b))
    ensures Reads([92, 117] + h, b)
  {
    var p: Bytes := [92, 117] + h;
    SameEncoding(b, R.Code(h));
    hide R.Hexadecimal, R.Encodes, R.Code, Encode;
    forall s: Bytes, i: nat | At(s, i, p)
      ensures ClosingQuote(s, i) == ClosingQuote(s, i + |p|)
      ensures forall end: nat :: i + |p| <= end < |s| ==> Unescape(s, i, end) == Prepend(b, Unescape(s, i + |p|, end))
    {
      hide At, Hex4;
      UnitAt(s, i, h);
    }
  }

  lemma ReadsPair(h: Bytes, l: Bytes, b: Bytes)
    requires R.ProperChar(R.Pair(h, l, b))
    ensures Reads(([92, 117] + h) + ([92, 117] + l), b)
  {
    var p := ([92, 117] + h) + ([92, 117] + l);
    SameEncoding(b, 0x10000 + (R.Code(h) - 0xD800) * 1024 + (R.Code(l) - 0xDC00));
    hide R.Encodes, R.Code, Encode, R.Hexadecimal;
    forall s: Bytes, i: nat | At(s, i, p)
      ensures ClosingQuote(s, i) == ClosingQuote(s, i + |p|)
      ensures forall end: nat :: i + |p| <= end < |s| ==> Unescape(s, i, end) == Prepend(b, Unescape(s, i + |p|, end))
    {
      hide At, Hex4;
      PairAt(s, i, h, l, b);
    }
  }

  lemma PairAt(s: Bytes, i: nat, h: Bytes, l: Bytes, b: Bytes)
    requires R.ProperChar(R.Pair(h, l, b)) && At(s, i, ([92, 117] + h) + ([92, 117] + l))
    ensures i + 12 <= |s| && s[i] == BACKSLASH && s[i + 1] == LETTER_U
    ensures ClosingQuote(s, i) == ClosingQuote(s, i + 12)
    ensures forall end: nat :: i + 12 <= end <= |s| ==> Utf16Literal(s, i, end) == Literal(b, 12)
  {
    var cp := 0x10000 + (R.Code(h) - 0xD800) * 1024 + (R.Code(l) - 0xDC00);
    SameEncoding(b, cp);
    hide R.Encodes, R.Code, Encode, At, Hex4, R.Hexadecimal;
    AtConcat(s, i, [92, 117] + h, [92, 117] + l);
    UnitAt(s, i, h);
    UnitAt(s, i + 6, l);
    PairLiteral(s, i, cp);
  }

  lemma ReadsChar(c: R.Char)
    requires R.ProperChar(c)
    ensures Reads(R.CharText(c), R.CharBytes(c))
  {
    match c
    case Plain(x) => ReadsPlain(x);
    case Short(x) => ReadsSimpleEscape(x, R.CharBytes(c)[0]);
    case Unit(h, b) => ReadsUnit(h, b);
    case Pair(h, l, b) => ReadsPair(h, l, b);
  }

  lemma {:induction false} ReadsChars(cs: seq<R.Char>)
    requires R.ProperChars(cs)
    ensures Reads(R.CharsText(cs), R.CharsBytes(cs))
  {
    hide Reads, R.CharText, R.CharBytes, R.ProperChar;
    if cs == [] {
      ReadsNothing();
    } else {
      assert cs[0] in cs;
      ReadsChar(cs[0]);
      ReadsChars(cs[1..]);
      ReadsConcat(R.CharText(cs[0]), R.CharBytes(cs[0]), R.CharsText(cs[1..]), R.CharsBytes(cs[1..]));
    }
  }

  /** Every derived string without NUL is read as its bytes, wherever it stands. */
  lemma StringIsRead(s: Bytes, off: nat, cs: seq<R.Char>)
    requires R.ProperChars(cs) && 0 !in R.CharsBytes(cs) && At(s, off, R.StringText(cs))
    ensures ParseString(s, off) == Parsed(R.CharsBytes(cs), off + |R.StringText(cs)|)
  {
    ReadsChars(cs);
    hide Reads, R.CharsText, R.CharsBytes, R.ProperChars;
    BodyIsRead(s, off, R.CharsText(cs), R.CharsBytes(cs));
  }

  lemma BodyIsRead(s: Bytes, off: nat, body: Bytes, str: Bytes)
    requires Reads(body, str) && 0 !in str && At(s, off, [34] + body + [34])
    ensures ParseString(s, off) == Parsed(str, off + |body| + 2)
  {
    AtConcat3(s, off, [34], body, [34]);
    AtByte(s, off, [34], 0);
    var end := off + 1 + |body|;
    AtByte(s, end, [34], 0);
    ReadsAt(body, str, s, off + 1, end);
    assert str + [] == str;
  }

  // ----- Strings that RFC 8259 does not derive -----

  /** Four characters that are not all hexadecimal digits count as 0. */
  lemma BadDigitsCountAsZero(s: Bytes, i: nat)
    requires i + 4 <= |s| && !R.Hexadecimal(s[i..i + 4])
    ensures Hex4(s, i) == 0
  {
    var h := s[i..i + 4];
    assert h[0] == s[i] && h[1] == s[i + 1] && h[2] == s[i + 2] && h[3] == s[i + 3];
  }

  /** A surrogate alone is rejected. */
  lemma LoneSurrogateIsRejected(s: Bytes, off: nat, h: Bytes)
    requires R.Hexadecimal(h) && 0xD800 <= R.Code(h) <= 0xDFFF && At(s, off, [34] + ([92, 117] + h) + [34])
    ensures ParseString(s, off) == Rejected
  {
    AtConcat3(s, off, [34], [92, 117] + h, [34]);
    AtByte(s, off, [34], 0);
    AtByte(s, off + 7, [34], 0);
    UnitAt(s, off + 1, h);
    hide R.Hexadecimal, R.Code, At, Hex4;
    assert ClosingQuote(s, off + 1) == Some(off + 7);
    assert Unescape(s, off + 1, off + 7) == None;
  }

  /** So is a reverse solidus in front of any character but the nine of section 7. */
  lemma UnknownEscapeIsRejected(s: Bytes, off: nat, c: byte)
    requires c !in {34, 92, 47, 98, 102, 110, 114, 116, 117} && At(s, off, [34, 92, c, 34])
    ensures ParseString(s, off) == Rejected
  {
    AtByte(s, off, [34, 92, c, 34], 0);
    AtByte(s, off, [34, 92, c, 34], 1);
    AtByte(s, off, [34, 92, c, 34], 2);
    AtByte(s, off, [34, 92, c, 34], 3);
    hide At;
    assert ClosingQuote(s, off + 1) == ClosingQuote(s, off + 3) == Some(off + 3);
    assert Unescape(s, off + 1, off + 3) == None;
  }

  // ----- Values -----

  predicate Blank(s: Bytes) { forall i :: 0 <= i < |s| ==> s[i] <= 32 }

  lemma SkipOver(s: Bytes, off: nat, blank: Bytes)
    requires At(s, off, blank) && Blank(blank)
    requires off + |blank| < |s| && s[off + |blank|] > 32
    ensures SkipSpace(s, off) == off + |blank|
  {
    var r := SkipBlanks(s, off);
    assert forall i {:trigger s[i]} :: off <= i < off + |blank| ==> s[i] <= 32 by {
      forall i | off <= i < off + |blank| ensures s[i] <= 32 { AtByte(s, off, blank, i - off); }
    }
  }

  lemma NoKeyword(s: Bytes, off: nat)
    requires off < |s| && s[off] !in {110, 102, 116}
    ensures !Starts(s, off, NULL_TEXT) && !Starts(s, off, FALSE_TEXT) && !Starts(s, off, TRUE_TEXT)
  {
    if Starts(s, off, NULL_TEXT) { AtByte(s, off, NULL_TEXT, 0); assert false; }
    if Starts(s, off, FALSE_TEXT) { AtByte(s, off, FALSE_TEXT, 0); assert false; }
    if Starts(s, off, TRUE_TEXT) { AtByte(s, off, TRUE_TEXT, 0); assert false; }
  }

  lemma ContainerStep(s: Bytes, off: nat, depth: nat)
    requires off < |s| && depth <= NESTING_LIMIT
    ensures s[off] == OPEN_BRACKET ==> ParseValue(s, off, depth) == ParseArray(s, off, depth)
    ensures s[off] == OPEN_BRACE ==> ParseValue(s, off, depth) == ParseObject(s, off, depth)
  {
    hide ParseArray, ParseObject, At;
    if s[off] == OPEN_BRACKET || s[off] == OPEN_BRACE { NoKeyword(s, off); }
  }

  lemma SeesFirst(s: Bytes, off: nat, t: Bytes)
    requires |t| > 0 && At(s, off, t)
    ensures Sees(s, off, t[0])
  {
    AtByte(s, off, t, 0);
  }

  lemma WsIsBlank(w: Bytes)
    requires R.Ws(w)
    ensures Blank(w)
  {
  }

  /** White space, and what follows it is no white space. */
  lemma SkipWs(s: Bytes, off: nat, w: Bytes)
    requires R.Ws(w) && At(s, off, w) && off + |w| < |s| && s[off + |w|] > 32
    ensures SkipSpace(s, off) == off + |w|
  {
    WsIsBlank(w);
    SkipOver(s, off, w);
  }

  /** How the text of a value starts. */
  lemma FirstOfValue(v: R.Value)
    requires R.Proper(v)
    ensures R.ValueText(v) != [] && 32 < R.ValueText(v)[0] < 128 && R.ValueText(v)[0] != 93 && R.ValueText(v)[0] != 125
    ensures v.Number? ==> R.ValueText(v)[0] == 45 || 48 <= R.ValueText(v)[0] <= 57
    ensures v.String? ==> R.ValueText(v)[0] == 34
    ensures v.Array? ==> R.ValueText(v)[0] == 91
    ensures v.Object? ==> R.ValueText(v)[0] == 123
  {
    if v.Number? {
      NumeralChars(v.numeral);
    }
  }

  lemma NameIsRead(v: R.Value, s: Bytes, off: nat, depth: nat)
    requires v.NullName? || v.FalseName? || v.TrueName?
    requires depth <= NESTING_LIMIT && At(s, off, R.ValueText(v))
    ensures ParseValue(s, off, depth) == Parsed(R.Meaning(v), off + |R.ValueText(v)|)
  {
    AtByte(s, off, R.ValueText(v), 0);
    if Starts(s, off, NULL_TEXT) { AtByte(s, off, NULL_TEXT, 0); }
    if Starts(s, off, FALSE_TEXT) { AtByte(s, off, FALSE_TEXT, 0); }
  }

  lemma ScalarIsRead(v: R.Value, s: Bytes, off: nat, depth: nat, levels: int)
    requires v.Number? || v.String?
    requires R.Proper(v) && R.Within(v, levels) && depth <= NESTING_LIMIT
    requires At(s, off, R.ValueText(v)) && Ends(s, off + |R.ValueText(v)|)
    ensures ParseValue(s, off, depth) == Parsed(R.Meaning(v), off + |R.ValueText(v)|)
  {
    FirstOfValue(v);
    AtByte(s, off, R.ValueText(v), 0);
    hide ParseArray, ParseObject, ParseNumber, ParseString, R.StringText, R.NumeralText, R.CharsBytes;
    NoKeyword(s, off);
    match v
    case Number(n, i) => NumberIsRead(s, off, n, i);
    case String(cs) => StringIsRead(s, off, cs);
  }

  /** A byte that is neither blank nor part of a number. */
  predicate Stop(c: byte) {
    c > 32 && !(48 <= c <= 57) && c != 43 && c != 45 && c != 46 && c != 69 && c != 101
  }

  /** What ends a value: white space, or the character behind it. */
  lemma EndOfValue(s: Bytes, e: nat, after: Bytes)
    requires R.Ws(after) && At(s, e, after) && e + |after| < |s| && Stop(s[e + |after|])
    ensures Ends(s, e) && SkipSpace(s, e) == e + |after|
  {
    SkipWs(s, e, after);
    if after != [] {
      AtByte(s, e, after, 0);
    }
  }

  lemma {:induction false} ValueIsRead(v: R.Value, s: Bytes, off: nat, depth: nat)
    requires R.Proper(v) && depth <= 1000 && R.Within(v, 1000 - depth)
    requires At(s, off, R.ValueText(v)) && Ends(s, off + |R.ValueText(v)|)
    ensures ParseValue(s, off, depth) == Parsed(R.Meaning(v), off + |R.ValueText(v)|)
    decreases v, 1
  {
    hide ParseValue, ParseArray, ParseObject, R.StringText, R.NumeralText, R.ItemsText, R.MembersText;
    match v
    case Number(_, _) => ScalarIsRead(v, s, off, depth, 1000 - depth);
    case String(_) => ScalarIsRead(v, s, off, depth, 1000 - depth);
    case Array(_, _) =>
      FirstOfValue(v);
      AtByte(s, off, R.ValueText(v), 0);
      ContainerStep(s, off, depth);
      ArrayIsRead(v, s, off, depth);
    case Object(_, _) =>
      FirstOfValue(v);
      AtByte(s, off, R.ValueText(v), 0);
      ContainerStep(s, off, depth);
      ObjectIsRead(v, s, off, depth);
    case _ => NameIsRead(v, s, off, depth);
  }

  lemma StructuralStops()
    ensures Stop(44) && Stop(93) && Stop(125)
  {
  }

  // ----- Arrays -----

  ghost predicate GoodItems(items: seq<R.Item>, levels: int) {
    forall i :: 0 <= i < |items| ==>
      R.Ws(items[i].before) && R.Proper(items[i].value) && R.Ws(items[i].after) && R.Within(items[i].value, levels)
  }

  lemma ArrayParts(v: R.Value, levels: int)
    requires v.Array? && R.Proper(v) && R.Within(v, levels)
    ensures R.ValueText(v) == [91] + (if v.items == [] then v.blank else R.ItemsText(v.items)) + [93]
    ensures R.Ws(v.blank) && GoodItems(v.items, levels - 1) && R.Meaning(v) == Array(R.ItemsMeaning(v.items))
    ensures v.items == [] ==> R.ItemsMeaning(v.items) == []
  {
  }

  lemma GoodItem(items: seq<R.Item>, levels: int)
    requires items != [] && GoodItems(items, levels)
    ensures var i := items[0]; R.Ws(i.before) && R.Proper(i.value) && R.Ws(i.after) && R.Within(i.value, levels)
    ensures GoodItems(items[1..], levels)
    ensures R.ItemsMeaning(items) == [R.Meaning(items[0].value)] + R.ItemsMeaning(items[1..])
    ensures |items| == 1 ==> R.ItemsMeaning(items) == [R.Meaning(items[0].value)]
  {
  }

  lemma ArrayStep(s: Bytes, off: nat, depth: nat, first: nat, items: seq<Json>, end: nat)
    requires depth < NESTING_LIMIT && off < |s| && SkipSpace(s, off + 1) == first < |s|
    ensures s[first] == 93 ==> ParseArray(s, off, depth) == Parsed(Array([]), first + 1)
    ensures s[first] != 93 && ParseItems(s, first, depth + 1) == Parsed(items, end) ==>
      ParseArray(s, off, depth) == Parsed(Array(items), end)
  {
    hide ParseItems, SkipSpace;
  }

  lemma {:induction false} ArrayIsRead(v: R.Value, s: Bytes, off: nat, depth: nat)
    requires v.Array? && R.Proper(v) && depth < 1000 && R.Within(v, 1000 - depth) && At(s, off, R.ValueText(v))
    ensures ParseArray(s, off, depth) == Parsed(R.Meaning(v), off + |R.ValueText(v)|)
    decreases v, 0
  {
    hide *;
    var items := v.items;
    var body := if items == [] then v.blank else R.ItemsText(items);
    Limit();
    ArrayParts(v, 1000 - depth);
    AtConcat3(s, off, [91], body, [93]);
    AtLength(s, off, R.ValueText(v));
    AtByte(s, off + 1 + |body|, [93], 0);
    var end := off + |R.ValueText(v)|;
    if items == [] {
      SkipWs(s, off + 1, v.blank);
      ArrayStep(s, off, depth, off + 1 + |v.blank|, [], end);
    } else {
      var first := off + 1 + |items[0].before|;
      FirstItem(items, s, off + 1, 999 - depth);
      SkipHere(s, first);
      SeesFirst(s, off + 1 + |body|, [93]);
      ItemsAreRead(items, s, off + 1, first, depth + 1);
      ArrayStep(s, off, depth, first, R.ItemsMeaning(items), end);
    }
  }

  lemma Limit()
    ensures NESTING_LIMIT == 1000
  {
  }

  lemma SkipHere(s: Bytes, off: nat)
    requires off < |s| && s[off] > 32
    ensures SkipSpace(s, off) == off
  {
  }

  lemma ItemsParts(items: seq<R.Item>)
    requires items != []
    ensures R.ItemsText(items) == R.ItemText(items[0]) + (if |items| > 1 then [44] else []) + R.ItemsText(items[1..])
    ensures R.ItemText(items[0]) == items[0].before + R.ValueText(items[0].value) + items[0].after
  {
  }

  /** White space in front of the first item. */
  lemma FirstItem(items: seq<R.Item>, s: Bytes, p: nat, levels: int)
    requires items != [] && GoodItems(items, levels) && At(s, p, R.ItemsText(items))
    ensures var q := p + |items[0].before|; SkipSpace(s, p) == q < |s| && s[q] > 32 && s[q] != 93
  {
    hide *;
    var item := items[0];
    GoodItem(items, levels);
    FirstOfValue(item.value);
    ItemsParts(items);
    AtConcat3(s, p, R.ItemText(item), if |items| > 1 then [44] else [], R.ItemsText(items[1..]));
    AtConcat3(s, p, item.before, R.ValueText(item.value), item.after);
    AtByte(s, p + |item.before|, R.ValueText(item.value), 0);
    AtLength(s, p + |item.before|, R.ValueText(item.value));
    SkipWs(s, p, item.before);
  }

  /** The first item, and where the next one starts. */
  lemma ItemPieces(items: seq<R.Item>, s: Bytes, p: nat, c: byte)
    requires items != [] && At(s, p, R.ItemsText(items)) && Sees(s, p + |R.ItemsText(items)|, c)
    ensures var item := items[0]; var q := p + |item.before|; var e := q + |R.ValueText(item.value)|;
      var next := e + |item.after|;
      && At(s, q, R.ValueText(item.value)) && At(s, e, item.after)
      && Sees(s, next, if |items| > 1 then 44 else c)
      && (|items| > 1 ==> At(s, next + 1, R.ItemsText(items[1..])))
      && p + |R.ItemsText(items)| == if |items| > 1 then next + 1 + |R.ItemsText(items[1..])| else next
  {
    hide At, R.ValueText;
    var item := items[0];
    AtConcat3(s, p, R.ItemText(item), if |items| > 1 then [44] else [], R.ItemsText(items[1..]));
    AtConcat3(s, p, item.before, R.ValueText(item.value), item.after);
    if |items| > 1 {
      SeesFirst(s, p + |R.ItemText(item)|, [44]);
    }
  }

  /** The first item is read, and its separator or what stands behind the last one is found. */
  lemma {:induction false} FirstItemIsRead(items: seq<R.Item>, s: Bytes, p: nat, depth: nat, c: byte)
    returns (e: nat, next: nat)
    requires items != [] && depth <= 1000 && GoodItems(items, 1000 - depth) && Stop(c)
    requires At(s, p, R.ItemsText(items)) && Sees(s, p + |R.ItemsText(items)|, c)
    ensures p + |items[0].before| <= |s| && e <= |s| && SkipSpace(s, e) == next
    ensures depth <= NESTING_LIMIT
    ensures ParseValue(s, p + |items[0].before|, depth) == Parsed(R.Meaning(items[0].value), e)
    ensures Sees(s, next, if |items| > 1 then 44 else c)
    ensures |items| > 1 ==> At(s, next + 1, R.ItemsText(items[1..]))
    ensures p + |R.ItemsText(items)| == if |items| > 1 then next + 1 + |R.ItemsText(items[1..])| else next
    decreases items, 0
  {
    hide *;
    var item := items[0];
    var q := p + |item.before|;
    e := q + |R.ValueText(item.value)|;
    next := e + |item.after|;
    Limit();
    GoodItem(items, 1000 - depth);
    ItemPieces(items, s, p, c);
    SeesByte(s, next);
    StructuralStops();
    EndOfValue(s, e, item.after);
    ValueIsRead(item.value, s, q, depth);
  }

  lemma {:induction false} ItemsAreRead(items: seq<R.Item>, s: Bytes, p: nat, off: nat, depth: nat)
    requires items != [] && depth <= 1000 && GoodItems(items, 1000 - depth)
    requires At(s, p, R.ItemsText(items)) && Sees(s, p + |R.ItemsText(items)|, 93)
    requires off <= |s| && SkipSpace(s, off) == p + |items[0].before|
    ensures ParseItems(s, off, depth) == Parsed(R.ItemsMeaning(items), p + |R.ItemsText(items)| + 1)
    decreases items, 1
  {
    hide *;
    GoodItem(items, 1000 - depth);
    StructuralStops();
    var e, next := FirstItemIsRead(items, s, p, depth, 93);
    SeesByte(s, next);
    if |items| > 1 {
      FirstItem(items[1..], s, next + 1, 1000 - depth);
      ItemsAreRead(items[1..], s, next + 1, next + 1, depth);
    }
    ItemsStep(s, off, depth, p + |items[0].before|, R.Meaning(items[0].value), e, next, R.ItemsMeaning(items[1..]),
              p + |R.ItemsText(items)| + 1);
  }

  lemma SeesByte(s: Bytes, off: nat)
    ensures forall c :: Sees(s, off, c) ==> off < |s| && s[off] == c
  {
  }

  lemma ItemsStep(s: Bytes, off: nat, depth: nat, q: nat, j: Json, e: nat, next: nat, rest: seq<Json>, end: nat)
    requires off <= |s| && depth <= NESTING_LIMIT && SkipSpace(s, off) == q && ParseValue(s, q, depth) == Parsed(j, e)
    requires SkipSpace(s, e) == next
    ensures Sees(s, next, 93) ==> ParseItems(s, off, depth) == Parsed([j], next + 1)
    ensures Sees(s, next, 44) && ParseItems(s, next + 1, depth) == Parsed(rest, end) ==>
      ParseItems(s, off, depth) == Parsed([j] + rest, end)
  {
    hide ParseValue, SkipSpace;
  }

  // ----- Objects -----

  ghost predicate GoodMember(m: R.Member, levels: int) {
    && R.Ws(m.before) && R.ProperChars(m.key) && 0 !in R.CharsBytes(m.key) && R.Ws(m.behindKey)
    && R.Ws(m.beforeValue) && R.Proper(m.value) && R.Ws(m.after) && R.Within(m.value, levels)
  }

  ghost predicate GoodMembers(members: seq<R.Member>, levels: int) {
    forall i :: 0 <= i < |members| ==> GoodMember(members[i], levels)
  }

  lemma ObjectParts(v: R.Value, levels: int)
    requires v.Object? && R.Proper(v) && R.Within(v, levels)
    ensures R.ValueText(v) == [123] + (if v.members == [] then v.blank else R.MembersText(v.members)) + [125]
    ensures R.Ws(v.blank) && GoodMembers(v.members, levels - 1)
    ensures R.Meaning(v) == Object(R.MembersMeaning(v.members))
    ensures v.members == [] ==> R.MembersMeaning(v.members) == []
  {
  }

  lemma FirstIsGood(members: seq<R.Member>, levels: int)
    requires members != [] && GoodMembers(members, levels)
    ensures GoodMember(members[0], levels) && R.Ws(members[0].before) && GoodMembers(members[1..], levels)
    ensures R.MembersMeaning(members) ==
      [Member(R.CharsBytes(members[0].key), R.Meaning(members[0].value))] + R.MembersMeaning(members[1..])
    ensures |members| == 1 ==>
      R.MembersMeaning(members) == [Member(R.CharsBytes(members[0].key), R.Meaning(members[0].value))]
  {
  }

  lemma ObjectStep(s: Bytes, off: nat, depth: nat, first: nat, members: seq<Member>, end: nat)
    requires depth < NESTING_LIMIT && off < |s| && SkipSpace(s, off + 1) == first < |s|
    ensures s[first] == 125 ==> ParseObject(s, off, depth) == Parsed(Object([]), first + 1)
    ensures s[first] != 125 && ParseMembers(s, first, depth + 1) == Parsed(members, end) ==>
      ParseObject(s, off, depth) == Parsed(Object(members), end)
  {
    hide ParseMembers, SkipSpace;
  }

  lemma {:induction false} ObjectIsRead(v: R.Value, s: Bytes, off: nat, depth: nat)
    requires v.Object? && R.Proper(v) && depth < 1000 && R.Within(v, 1000 - depth) && At(s, off, R.ValueText(v))
    ensures ParseObject(s, off, depth) == Parsed(R.Meaning(v), off + |R.ValueText(v)|)
    decreases v, 0
  {
    hide *;
    var members := v.members;
    var body := if members == [] then v.blank else R.MembersText(members);
    Limit();
    ObjectParts(v, 1000 - depth);
    AtConcat3(s, off, [123], body, [125]);
    AtLength(s, off, R.ValueText(v));
    AtByte(s, off + 1 + |body|, [125], 0);
    var end := off + |R.ValueText(v)|;
    if members == [] {
      SkipWs(s, off + 1, v.blank);
      ObjectStep(s, off, depth, off + 1 + |v.blank|, [], end);
    } else {
      var first := off + 1 + |members[0].before|;
      FirstMember(members, s, off + 1, 999 - depth);
      SkipHere(s, first);
      SeesFirst(s, off + 1 + |body|, [125]);
      MembersAreRead(members, s, off + 1, first, depth + 1);
      ObjectStep(s, off, depth, first, R.MembersMeaning(members), end);
    }
  }

  lemma MembersParts(members: seq<R.Member>)
    requires members != []
    ensures R.MembersText(members) ==
      R.MemberText(members[0]) + (if |members| > 1 then [44] else []) + R.MembersText(members[1..])
  {
  }

  lemma KeyFirst(m: R.Member)
    ensures R.MemberText(m) ==
      m.before + [34] +
      (R.CharsText(m.key) + [34] + m.behindKey + [58] + m.beforeValue + R.ValueText(m.value) + m.after)
  {
  }

  /** White space in front of the first key. */
  lemma FirstMember(members: seq<R.Member>, s: Bytes, p: nat, levels: int)
    requires members != [] && GoodMembers(members, levels) && At(s, p, R.MembersText(members))
    ensures var q := p + |members[0].before|; SkipSpace(s, p) == q < |s| && s[q] == 34
  {
    hide *;
    var m := members[0];
    FirstIsGood(members, levels);
    MembersParts(members);
    KeyFirst(m);
    AtConcat3(s, p, R.MemberText(m), if |members| > 1 then [44] else [], R.MembersText(members[1..]));
    AtConcat3(s, p, m.before, [34],
              R.CharsText(m.key) + [34] + m.behindKey + [58] + m.beforeValue + R.ValueText(m.value) + m.after);
    AtByte(s, p + |m.before|, [34], 0);
    AtLength(s, p + |m.before|, [34]);
    SkipWs(s, p, m.before);
  }

  lemma MemberPieces(m: R.Member, s: Bytes, p: nat)
    requires At(s, p, R.MemberText(m))
    ensures var key := p + |m.before|; var b := key + |R.StringText(m.key)|; var colon := b + |m.behindKey|;
      var q := colon + 1 + |m.beforeValue|; var e := q + |R.ValueText(m.value)|;
      && At(s, key, R.StringText(m.key)) && At(s, b, m.behindKey) && Sees(s, colon, 58)
      && At(s, colon + 1, m.beforeValue) && At(s, q, R.ValueText(m.value)) && At(s, e, m.after)
      && |R.MemberText(m)| == e + |m.after| - p
  {
    hide At, R.ValueText, R.StringText;
    var k, v := R.StringText(m.key), R.ValueText(m.value);
    AtConcat(s, p, m.before + k + m.behindKey + [58] + m.beforeValue + v, m.after);
    AtConcat(s, p, m.before + k + m.behindKey + [58] + m.beforeValue, v);
    AtConcat3(s, p, m.before + k + m.behindKey, [58], m.beforeValue);
    AtConcat3(s, p, m.before, k, m.behindKey);
    SeesFirst(s, p + |m.before + k + m.behindKey|, [58]);
  }

  /** The first member, and where the next one starts. */
  lemma MembersPieces(members: seq<R.Member>, s: Bytes, p: nat, c: byte)
    requires members != [] && At(s, p, R.MembersText(members)) && Sees(s, p + |R.MembersText(members)|, c)
    ensures var next := p + |R.MemberText(members[0])|;
      && At(s, p, R.MemberText(members[0])) && Sees(s, next, if |members| > 1 then 44 else c)
      && (|members| > 1 ==> At(s, next + 1, R.MembersText(members[1..])))
      && p + |R.MembersText(members)| == if |members| > 1 then next + 1 + |R.MembersText(members[1..])| else next
  {
    hide At, R.MemberText;
    AtConcat3(s, p, R.MemberText(members[0]), if |members| > 1 then [44] else [], R.MembersText(members[1..]));
    if |members| > 1 {
      SeesFirst(s, p + |R.MemberText(members[0])|, [44]);
    }
  }

  lemma {:induction false} MembersAreRead(members: seq<R.Member>, s: Bytes, p: nat, off: nat, depth: nat)
    requires members != [] && depth <= 1000 && GoodMembers(members, 1000 - depth)
    requires At(s, p, R.MembersText(members)) && Sees(s, p + |R.MembersText(members)|, 125)
    requires off <= |s| && SkipSpace(s, off) == p + |members[0].before|
    ensures ParseMembers(s, off, depth) == Parsed(R.MembersMeaning(members), p + |R.MembersText(members)| + 1)
    decreases members, 1
  {
    hide *;
    Limit();
    FirstIsGood(members, 1000 - depth);
    StructuralStops();
    MembersPieces(members, s, p, 125);
    var next := p + |R.MemberText(members[0])|;
    SeesByte(s, next);
    var e := MemberIsRead(members[0], s, p, off, depth);
    if |members| > 1 {
      FirstMember(members[1..], s, next + 1, 1000 - depth);
      MembersAreRead(members[1..], s, next + 1, next + 1, depth);
    }
    MembersStep(s, off, depth, Member(R.CharsBytes(members[0].key), R.Meaning(members[0].value)), e, next,
                R.MembersMeaning(members[1..]), p + |R.MembersText(members)| + 1);
  }

  lemma KeyIsRead(m: R.Member, s: Bytes, p: nat, levels: int) returns (b: nat, colon: nat)
    requires GoodMember(m, levels) && At(s, p, R.MemberText(m))
    ensures p + |m.before| <= |s| && ParseString(s, p + |m.before|) == Parsed(R.CharsBytes(m.key), b)
    ensures b <= |s| && SkipSpace(s, b) == colon && Sees(s, colon, 58)
    ensures colon == p + |m.before| + |R.StringText(m.key)| + |m.behindKey|
  {
    hide *;
    b := p + |m.before| + |R.StringText(m.key)|;
    colon := b + |m.behindKey|;
    MemberPieces(m, s, p);
    MemberIsGood(m, levels);
    AtLength(s, p + |m.before|, R.StringText(m.key));
    SeesByte(s, colon);
    StringIsRead(s, p + |m.before|, m.key);
    SkipWs(s, b, m.behindKey);
  }

  lemma {:induction false} MemberValueIsRead(m: R.Member, s: Bytes, p: nat, depth: nat, colon: nat)
    returns (q: nat, e: nat)
    requires depth <= 1000 && GoodMember(m, 1000 - depth) && At(s, p, R.MemberText(m))
    requires p + |R.MemberText(m)| < |s| && Stop(s[p + |R.MemberText(m)|])
    requires colon == p + |m.before| + |R.StringText(m.key)| + |m.behindKey|
    ensures colon < |s| && SkipSpace(s, colon + 1) == q <= |s| && depth <= NESTING_LIMIT
    ensures ParseValue(s, q, depth) == Parsed(R.Meaning(m.value), e)
    ensures e <= |s| && SkipSpace(s, e) == p + |R.MemberText(m)|
    decreases m, 0
  {
    hide *;
    q := colon + 1 + |m.beforeValue|;
    e := q + |R.ValueText(m.value)|;
    Limit();
    MemberPieces(m, s, p);
    MemberIsGood(m, 1000 - depth);
    FirstOfValue(m.value);
    AtByte(s, q, R.ValueText(m.value), 0);
    AtLength(s, q, R.ValueText(m.value));
    SkipWs(s, colon + 1, m.beforeValue);
    EndOfValue(s, e, m.after);
    ValueIsRead(m.value, s, q, depth);
  }

  lemma {:induction false} MemberIsRead(m: R.Member, s: Bytes, p: nat, off: nat, depth: nat) returns (e: nat)
    requires depth <= 1000 && GoodMember(m, 1000 - depth) && At(s, p, R.MemberText(m))
    requires p + |R.MemberText(m)| < |s| && Stop(s[p + |R.MemberText(m)|])
    requires off <= |s| && SkipSpace(s, off) == p + |m.before|
    ensures depth <= NESTING_LIMIT
    ensures ParseMember(s, off, depth) == Parsed(Member(R.CharsBytes(m.key), R.Meaning(m.value)), e)
    ensures e <= |s| && SkipSpace(s, e) == p + |R.MemberText(m)|
    decreases m, 2
  {
    hide *;
    var b, colon := KeyIsRead(m, s, p, 1000 - depth);
    var q;
    q, e := MemberValueIsRead(m, s, p, depth, colon);
    MemberStep(s, off, depth, Member(R.CharsBytes(m.key), R.Meaning(m.value)), p + |m.before|, b, colon, q, e);
  }

  lemma MemberIsGood(m: R.Member, levels: int)
    requires GoodMember(m, levels)
    ensures R.Ws(m.before) && R.ProperChars(m.key) && 0 !in R.CharsBytes(m.key) && R.Ws(m.behindKey)
    ensures R.Ws(m.beforeValue) && R.Proper(m.value) && R.Ws(m.after) && R.Within(m.value, levels)
  {
  }

  lemma MemberStep(s: Bytes, off: nat, depth: nat, m: Member, key: nat, b: nat, colon: nat, q: nat, e: nat)
    requires off <= |s| && depth <= NESTING_LIMIT && SkipSpace(s, off) == key && ParseString(s, key) == Parsed(m.key, b)
    requires b <= |s| && SkipSpace(s, b) == colon && Sees(s, colon, 58) && SkipSpace(s, colon + 1) == q
    requires ParseValue(s, q, depth) == Parsed(m.value, e)
    ensures ParseMember(s, off, depth) == Parsed(m, e)
  {
    hide ParseString, ParseValue, SkipSpace;
  }

  lemma MembersStep(s: Bytes, off: nat, depth: nat, m: Member, e: nat, next: nat, rest: seq<Member>, end: nat)
    requires off <= |s| && depth <= NESTING_LIMIT && ParseMember(s, off, depth) == Parsed(m, e) && e <= |s|
    requires SkipSpace(s, e) == next
    ensures Sees(s, next, 125) ==> ParseMembers(s, off, depth) == Parsed([m], next + 1)
    ensures Sees(s, next, 44) && ParseMembers(s, next + 1, depth) == Parsed(rest, end) ==>
      ParseMembers(s, off, depth) == Parsed([m] + rest, end)
  {
    hide ParseMember, SkipSpace;
  }

  // ----- Texts that are rejected -----

  /** Behind an item stands neither a comma nor a closing bracket, or a comma and no further item. */
  lemma {:induction false} BrokenItems(items: seq<R.Item>, s: Bytes, p: nat, off: nat, depth: nat, c: byte)
    requires items != [] && depth <= 1000 && GoodItems(items, 1000 - depth) && Stop(c) && c != 93
    requires At(s, p, R.ItemsText(items)) && Sees(s, p + |R.ItemsText(items)|, c)
    requires c == 44 ==>
      && p + |R.ItemsText(items)| + 1 <= |s| && depth <= NESTING_LIMIT
      && ParseItems(s, p + |R.ItemsText(items)| + 1, depth) == Rejected
    requires off <= |s| && SkipSpace(s, off) == p + |items[0].before|
    ensures depth <= NESTING_LIMIT && ParseItems(s, off, depth) == Rejected
    decreases items
  {
    hide *;
    Limit();
    GoodItem(items, 1000 - depth);
    var e, next := FirstItemIsRead(items, s, p, depth, c);
    SeesByte(s, next);
    if |items| > 1 {
      FirstItem(items[1..], s, next + 1, 1000 - depth);
      BrokenItems(items[1..], s, next + 1, next + 1, depth, c);
    }
    BrokenStep(s, off, depth, p + |items[0].before|, R.Meaning(items[0].value), e, next);
  }

  lemma BrokenStep(s: Bytes, off: nat, depth: nat, q: nat, j: Json, e: nat, next: nat)
    requires off <= |s| && depth <= NESTING_LIMIT && SkipSpace(s, off) == q && ParseValue(s, q, depth) == Parsed(j, e)
    requires SkipSpace(s, e) == next < |s| && s[next] != 93
    requires s[next] == 44 ==> ParseItems(s, next + 1, depth) == Rejected
    ensures ParseItems(s, off, depth) == Rejected
  {
    hide ParseValue, SkipSpace;
  }

  /** An array whose items are followed by anything but a comma or its closing bracket is rejected: a missing comma,
      the wrong bracket, or garbage. */
  lemma BrokenArrayIsRejected(items: seq<R.Item>, s: Bytes, off: nat, depth: nat, c: byte)
    requires items != [] && depth < 1000 && GoodItems(items, 999 - depth) && Stop(c) && c != 93 && c != 44
    requires At(s, off, [91] + R.ItemsText(items) + [c])
    ensures ParseArray(s, off, depth) == Rejected
  {
    hide *;
    Limit();
    AtConcat3(s, off, [91], R.ItemsText(items), [c]);
    SeesFirst(s, off + 1 + |R.ItemsText(items)|, [c]);
    AtLength(s, off, [91]);
    var first := off + 1 + |items[0].before|;
    FirstItem(items, s, off + 1, 999 - depth);
    SkipHere(s, first);
    BrokenItems(items, s, off + 1, first, depth + 1, c);
    NoArray(s, off, depth, first);
  }

  lemma NoArray(s: Bytes, off: nat, depth: nat, first: nat)
    requires depth < NESTING_LIMIT && off < |s| && SkipSpace(s, off + 1) == first < |s| && s[first] != 93
    requires ParseItems(s, first, depth + 1) == Rejected
    ensures ParseArray(s, off, depth) == Rejected
  {
    hide ParseItems, SkipSpace;
  }

  /** So is one with a comma behind its last item. */
  lemma TrailingCommaIsRejected(items: seq<R.Item>, s: Bytes, off: nat, depth: nat, w: Bytes)
    requires items != [] && depth < 1000 && GoodItems(items, 999 - depth) && R.Ws(w)
    requires At(s, off, [91] + R.ItemsText(items) + ([44] + w + [93]))
    ensures ParseArray(s, off, depth) == Rejected
  {
    hide *;
    Limit();
    StructuralStops();
    var comma := off + 1 + |R.ItemsText(items)|;
    AtConcat3(s, off, [91], R.ItemsText(items), [44] + w + [93]);
    AtConcat3(s, comma, [44], w, [93]);
    SeesFirst(s, comma, [44]);
    AtByte(s, comma + 1 + |w|, [93], 0);
    AtLength(s, comma + 1 + |w|, [93]);
    SkipWs(s, comma + 1, w);
    NoItem(s, comma + 1, depth + 1, comma + 1 + |w|);
    var first := off + 1 + |items[0].before|;
    FirstItem(items, s, off + 1, 999 - depth);
    SkipHere(s, first);
    BrokenItems(items, s, off + 1, first, depth + 1, 44);
    NoArray(s, off, depth, first);
  }

  lemma NoItem(s: Bytes, off: nat, depth: nat, q: nat)
    requires off <= |s| && depth <= NESTING_LIMIT && SkipSpace(s, off) == q < |s| && s[q] == 93
    ensures ParseItems(s, off, depth) == Rejected
  {
    NoKeyword(s, q);
    hide SkipSpace, ParseNumber, ParseArray, ParseObject, ParseString;
  }

  lemma {:induction false} BrokenMembers(members: seq<R.Member>, s: Bytes, p: nat, off: nat, depth: nat, c: byte)
    requires members != [] && depth <= 1000 && GoodMembers(members, 1000 - depth) && Stop(c) && c != 125 && c != 44
    requires At(s, p, R.MembersText(members)) && Sees(s, p + |R.MembersText(members)|, c)
    requires off <= |s| && SkipSpace(s, off) == p + |members[0].before|
    ensures depth <= NESTING_LIMIT && ParseMembers(s, off, depth) == Rejected
    decreases members
  {
    hide *;
    Limit();
    StructuralStops();
    FirstIsGood(members, 1000 - depth);
    MembersPieces(members, s, p, c);
    var next := p + |R.MemberText(members[0])|;
    SeesByte(s, next);
    var e := MemberIsRead(members[0], s, p, off, depth);
    if |members| > 1 {
      FirstMember(members[1..], s, next + 1, 1000 - depth);
      BrokenMembers(members[1..], s, next + 1, next + 1, depth, c);
    }
    BrokenMemberStep(s, off, depth, Member(R.CharsBytes(members[0].key), R.Meaning(members[0].value)), e, next);
  }

  lemma BrokenMemberStep(s: Bytes, off: nat, depth: nat, m: Member, e: nat, next: nat)
    requires off <= |s| && depth <= NESTING_LIMIT && ParseMember(s, off, depth) == Parsed(m, e) && e <= |s|
    requires SkipSpace(s, e) == next < |s| && s[next] != 125
    requires s[next] == 44 ==> ParseMembers(s, next + 1, depth) == Rejected
    ensures ParseMembers(s, off, depth) == Rejected
  {
    hide ParseMember, SkipSpace;
  }

  /** The same for an object and its closing brace. */
  lemma BrokenObjectIsRejected(members: seq<R.Member>, s: Bytes, off: nat, depth: nat, c: byte)
    requires members != [] && depth < 1000 && GoodMembers(members, 999 - depth) && Stop(c) && c != 125 && c != 44
    requires At(s, off, [123] + R.MembersText(members) + [c])
    ensures ParseObject(s, off, depth) == Rejected
  {
    hide *;
    Limit();
    AtConcat3(s, off, [123], R.MembersText(members), [c]);
    SeesFirst(s, off + 1 + |R.MembersText(members)|, [c]);
    AtLength(s, off, [123]);
    var first := off + 1 + |members[0].before|;
    FirstMember(members, s, off + 1, 999 - depth);
    SkipHere(s, first);
    BrokenMembers(members, s, off + 1, first, depth + 1, c);
    NoObject(s, off, depth, first);
  }

  lemma NoObject(s: Bytes, off: nat, depth: nat, first: nat)
    requires depth < NESTING_LIMIT && off < |s| && SkipSpace(s, off + 1) == first < |s| && s[first] != 125
    requires ParseMembers(s, first, depth + 1) == Rejected
    ensures ParseObject(s, off, depth) == Rejected
  {
    hide ParseMembers, SkipSpace;
  }

  /** A key without a colon is no member. */
  lemma MissingColonIsRejected(cs: seq<R.Char>, s: Bytes, off: nat, depth: nat, before: Bytes, after: Bytes, c: byte)
    requires R.ProperChars(cs) && 0 !in R.CharsBytes(cs) && R.Ws(before) && R.Ws(after) && depth <= 1000
    requires c > 32 && c != 58 && At(s, off, before + R.StringText(cs) + (after + [c]))
    ensures off <= |s| && depth <= NESTING_LIMIT && ParseMember(s, off, depth) == Rejected
  {
    hide *;
    Limit();
    var key := off + |before|;
    var b := key + |R.StringText(cs)|;
    AtConcat3(s, off, before, R.StringText(cs), after + [c]);
    AtConcat(s, b, after, [c]);
    KeyStarts(s, key, cs);
    AtByte(s, b + |after|, [c], 0);
    AtLength(s, b + |after|, [c]);
    SkipWs(s, off, before);
    SkipWs(s, b, after);
    StringIsRead(s, key, cs);
    NoColon(s, off, depth, key, R.CharsBytes(cs), b, b + |after|);
  }

  lemma KeyStarts(s: Bytes, key: nat, cs: seq<R.Char>)
    requires At(s, key, R.StringText(cs))
    ensures key < |s| && s[key] == 34
  {
    AtByte(s, key, R.StringText(cs), 0);
  }

  lemma NoColon(s: Bytes, off: nat, depth: nat, key: nat, name: Bytes, b: nat, next: nat)
    requires off <= |s| && depth <= NESTING_LIMIT && SkipSpace(s, off) == key && ParseString(s, key) == Parsed(name, b)
    requires b <= |s| && SkipSpace(s, b) == next < |s| && s[next] != 58
    ensures ParseMember(s, off, depth) == Rejected
  {
    hide ParseString, SkipSpace;
  }

  /** With the check for the terminator nothing but white space may stand behind the value. */
  lemma GarbageIsRejected(before: Bytes, v: R.Value, after: Bytes, c: byte, rest: Bytes)
    requires R.Ws(before) && R.Proper(v) && R.Ws(after) && R.Within(v, 1000) && Stop(c)
    ensures ParseDocument(before + R.ValueText(v) + after + [c] + rest, true) == Rejected
  {
    hide *;
    var s := before + R.ValueText(v) + after + [c] + rest;
    var q := |before|;
    var e := q + |R.ValueText(v)|;
    FirstOfValue(v);
    AtSelf(s);
    AtConcat3(s, 0, before + R.ValueText(v) + after, [c], rest);
    AtConcat3(s, 0, before, R.ValueText(v), after);
    AtByte(s, q, R.ValueText(v), 0);
    AtByte(s, e + |after|, [c], 0);
    AtLength(s, e + |after|, [c]);
    SkipWs(s, 0, before);
    NoMark(s, before);
    EndOfValue(s, e, after);
    StopIsNoBlank(c);
    ValueIsRead(v, s, q, 0);
    GarbageStep(s, q, R.Meaning(v), e, e + |after|);
  }

  lemma StopIsNoBlank(c: byte)
    requires Stop(c)
    ensures c > 32
  {
  }

  lemma GarbageStep(s: Bytes, q: nat, j: Json, e: nat, next: nat)
    requires s != [] && Start(s) == 0 && SkipSpace(s, 0) == q <= |s| && 0 <= NESTING_LIMIT && e <= |s|
    requires ParseValue(s, q, 0) == Parsed(j, e) && SkipSpace(s, e) == next < |s| && s[next] > 32
    ensures ParseDocument(s, true) == Rejected
  {
    hide ParseValue, SkipSpace;
  }

  // ----- Documents -----

  /** Every text that derives a value is parsed to exactly that value, with and without a terminator in the buffer and
      with and without the check that nothing but white space stands in front of it. */
  lemma DocumentIsRead(before: Bytes, v: R.Value, after: Bytes)
    requires R.Ws(before) && R.Proper(v) && R.Ws(after) && R.Within(v, 1000)
    ensures var text := before + R.ValueText(v) + after;
      && ParseText(text, true) == Parsed(R.Meaning(v), |text|)
      && ParseText(text, false) == Parsed(R.Meaning(v), |before| + |R.ValueText(v)|)
      && ParseDocument(text, false) == Parsed(R.Meaning(v), |before| + |R.ValueText(v)|)
  {
    var text := before + R.ValueText(v) + after;
    hide ParseDocument, R.ValueText, R.Meaning, R.Proper, R.Within, R.Ws, Blank;
    WsAndNul(after);
    TextIsRead(text, before, v, after);
    assert text + [NUL] == before + R.ValueText(v) + (after + [NUL]);
    TextIsRead(text + [NUL], before, v, after + [NUL]);
  }

  lemma WsAndNul(w: Bytes)
    requires R.Ws(w)
    ensures Blank(w) && Blank(w + [NUL]) && NUL == 0
  {
  }

  lemma TextIsRead(s: Bytes, before: Bytes, v: R.Value, after: Bytes)
    requires R.Ws(before) && R.Proper(v) && Blank(after) && R.Within(v, 1000)
    requires s == before + R.ValueText(v) + after
    ensures ParseDocument(s, false) == Parsed(R.Meaning(v), |before| + |R.ValueText(v)|)
    ensures after != [] && after[|after| - 1] == 0 ==> ParseDocument(s, true) == Parsed(R.Meaning(v), |s| - 1)
  {
    hide *;
    var q := |before|;
    var e := q + |R.ValueText(v)|;
    FirstOfValue(v);
    AtSelf(s);
    AtConcat3(s, 0, before, R.ValueText(v), after);
    AtByte(s, q, R.ValueText(v), 0);
    SkipWs(s, 0, before);
    NoMark(s, before);
    BlankIsEnd(s, e, after);
    ValueIsRead(v, s, q, 0);
    BlankToTheEnd(s, e, after);
    DocumentStep(s, q, R.Meaning(v), e);
  }

  lemma NoMark(s: Bytes, before: Bytes)
    requires R.Ws(before) && before <= s && s != [] && (before == [] ==> s[0] < 128)
    ensures Start(s) == 0
  {
    assert before != [] ==> s[0] == before[0];
  }

  lemma BlankIsEnd(s: Bytes, e: nat, after: Bytes)
    requires At(s, e, after) && Blank(after) && e + |after| == |s|
    ensures Ends(s, e)
  {
    if after != [] {
      AtByte(s, e, after, 0);
    }
  }

  lemma DocumentStep(s: Bytes, q: nat, j: Json, e: nat)
    requires s != [] && Start(s) == 0 && SkipSpace(s, 0) == q <= |s| && 0 <= NESTING_LIMIT
    requires ParseValue(s, q, 0) == Parsed(j, e) && e <= |s|
    ensures ParseDocument(s, false) == Parsed(j, e)
    ensures SkipSpace(s, e) == |s| - 1 && s[|s| - 1] == 0 ==> ParseDocument(s, true) == Parsed(j, |s| - 1)
  {
    hide ParseValue, SkipSpace;
  }

  lemma BlankToTheEnd(s: Bytes, e: nat, after: Bytes)
    requires At(s, e, after) && Blank(after) && e + |after| == |s|
    ensures after != [] ==> SkipSpace(s, e) == |s| - 1 && s[|s| - 1] == after[|after| - 1]
  {
    if after != [] {
      AtByte(s, e, after, |after| - 1);
      var r := SkipBlanks(s, e);
      if r < |s| {
        AtByte(s, e, after, r - e);
      }
    }
  }

  /** A number of 64 characters is not read to its end: 1. and 62 zeros. */
  lemma LongNumberIsNotRead()
    ensures var n := R.Numeral(false, [49], seq(62, _ => 48), R.NoExponent); var text := R.NumeralText(n);
      && R.ProperNumeral(n) && R.IsInt(n, 1) && |text| == 64 && ParseNumber(text, 0) != Parsed(Number(1), 64)
  {
    var zeros: Bytes := seq(62, _ => 48);
    OneAndZeros(zeros);
  }

  lemma {:induction false} OneAndZeros(zeros: Bytes)
    requires forall i :: 0 <= i < |zeros| ==> zeros[i] == 48
    ensures R.DigitsValue([49] + zeros) == R.TenTo(|zeros|)
  {
    var d := [49] + zeros;
    if zeros == [] {
      assert d[..0] == [];
    } else {
      assert d[..|d| - 1] == [49] + zeros[..|zeros| - 1];
      OneAndZeros(zeros[..|zeros| - 1]);
    }
  }
}
