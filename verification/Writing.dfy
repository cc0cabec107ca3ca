/** Every printed text is derived by RFC 8259 from its value, in the layout of its style. */
module Writing {
  import opened Bytes
  import opened Utf8
  import opened Json
  import R = Rfc8259

  // ----- The layout -----

  predicate LowerCase(h: Bytes) {
    forall i :: 0 <= i < |h| ==> h[i] < 65 || h[i] > 90
  }

  predicate UpperCase(h: Bytes) {
    forall i :: 0 <= i < |h| ==> h[i] < 97
  }

  /** Which form a character is printed in: as it is wherever that is allowed, as a two-character escape, or as a
      literal in lower case when it is another control character; in ASCII style also in upper case when it is not
      ASCII. A solidus is never escaped. */
  predicate PrintedChar(c: R.Char, ascii: bool) {
    match c
    case Plain(x) => ascii ==> x < 128
    case Short(x) => x != 47
    case Unit(h, b) =>
      if |b| == 1 then LowerCase(h) && b[0] < 32 && b[0] !in {8, 9, 10, 12, 13} else ascii && UpperCase(h)
    case Pair(h, l, _) => ascii && UpperCase(h) && UpperCase(l)
  }

  predicate PrintedChars(cs: seq<R.Char>, ascii: bool) {
    forall c <- cs :: PrintedChar(c, ascii)
  }

  /** A line feed and tabs. */
  function Line(pretty: bool, d: nat): Bytes {
    if pretty then [10] + seq(d, _ => 9) else []
  }

  /** Compact text has no white space. Pretty text has a space behind the comma of an array, a tab behind the colon,
      and every member on a line of its own, with one tab for each level. */
  predicate Formatted(v: R.Value, d: nat, pretty: bool, ascii: bool)
    decreases v
  {
    match v
    case Number(n, _) => n.fraction == [] && n.exponent == R.NoExponent
    case String(cs) => PrintedChars(cs, ascii)
    case Array(blank, items) =>
      blank == [] && forall i :: 0 <= i < |items| ==>
        && items[i].before == (if pretty && i > 0 then [32] else []) && items[i].after == []
        && Formatted(items[i].value, d + 1, pretty, ascii)
    case Object(blank, members) =>
      blank == Line(pretty, d) && forall i :: 0 <= i < |members| ==>
        && members[i].before == Line(pretty, d + 1) && PrintedChars(members[i].key, ascii)
        && members[i].behindKey == [] && members[i].beforeValue == (if pretty then [9] else [])
        && Formatted(members[i].value, d + 1, pretty, ascii)
        && members[i].after == (if i == |members| - 1 then Line(pretty, d) else [])
    case _ => true
  }

  // ----- The ASCII rewrite, piece by piece -----

  /** The rewriter turns the piece a into the pure ASCII piece b, whatever follows. */
  ghost predicate Rewrites(a: Bytes, b: Bytes) {
    AllAscii(b) && forall t {:trigger AsciiRewrite(a + t)} :: AsciiRewrite(a + t) == b + AsciiRewrite(t)
  }

  lemma RewritesConcat(a: Bytes, b: Bytes, c: Bytes, d: Bytes)
    requires Rewrites(a, b) && Rewrites(c, d)
    ensures Rewrites(a + c, b + d)
  {
    hide AsciiRewrite;
    forall t: Bytes ensures AsciiRewrite(a + c + t) == b + d + AsciiRewrite(t) {
      assert a + c + t == a + (c + t);
      assert b + d + AsciiRewrite(t) == b + (d + AsciiRewrite(t));
    }
  }

  lemma RewriteAsciiByte(s: Bytes)
    requires s != [] && s[0] < 128
    ensures AsciiRewrite(s) == [s[0]] + AsciiRewrite(s[1..])
  {
  }

  lemma {:induction false} RewritesAscii(a: Bytes)
    requires AllAscii(a)
    ensures Rewrites(a, a)
    decreases |a|
  {
    hide AsciiRewrite;
    if a == [] {
      forall t: Bytes ensures AsciiRewrite(a + t) == a + AsciiRewrite(t) {
        assert a + t == t && a + AsciiRewrite(t) == AsciiRewrite(t);
      }
    } else {
      RewritesAscii(a[1..]);
      forall t: Bytes ensures AsciiRewrite(a + t) == a + AsciiRewrite(t) {
        RewriteAsciiByte(a + t);
        assert (a + t)[1..] == a[1..] + t;
        assert [a[0]] + (a[1..] + AsciiRewrite(t)) == a + AsciiRewrite(t);
      }
    }
  }

  lemma UnicodeLiteralIsAscii(cp: nat)
    requires cp < 0x200000
    ensures AllAscii(UnicodeLiteral(cp))
  {
  }

  lemma RewritesChar(s: Bytes)
    requires CharLen(s) > 1
    ensures Rewrites(s[..CharLen(s)], UnicodeLiteral(CodePoint(s, CharLen(s))))
  {
    var n := CharLen(s);
    var c := s[..n];
    EncodeCodePoint(s);
    UnicodeLiteralIsAscii(CodePoint(s, n));
    assert Trail(s[0]) + 1 == n;
    forall t: Bytes
      ensures AsciiRewrite(c + t) == UnicodeLiteral(CodePoint(s, n)) + AsciiRewrite(t)
    {
      var w := c + t;
      assert forall k :: 0 <= k < n ==> w[k] == s[k];
      if t == [] {
        assert w[n - 1] == s[n - 1];
      }
      assert Multibyte(w);
      assert CodePoint(w, n) == CodePoint(s, n);
      assert w[n..] == t;
    }
  }

  lemma {:induction false} EscapeKeepsChar(s: Bytes, n: nat)
    requires n <= |s| && forall k :: 0 <= k < n ==> s[k] >= 0x80
    ensures EscapeString(s) == s[..n] + EscapeString(s[n..])
  {
    if n == 0 {
      assert s[0..] == s;
    } else {
      EscapeKeepsChar(s[1..], n - 1);
      assert EscapeByte(s[0]) == [s[0]];
      hide EscapeByte;
      assert s[1..][n - 1..] == s[n..];
      var front, rest := s[1..][..n - 1], EscapeString(s[n..]);
      assert [s[0]] + front == s[..n];
      assert [s[0]] + (front + rest) == ([s[0]] + front) + rest;
    }
  }

  lemma CharBytesAreHigh(s: Bytes)
    requires CharLen(s) > 1
    ensures forall k :: 0 <= k < CharLen(s) ==> s[k] >= 0x80
  {
  }

  lemma NothingRewritten()
    ensures AsciiRewrite([]) == []
  {
  }

  lemma EscapeByteIsAscii(c: byte)
    requires c < 128
    ensures AllAscii(EscapeByte(c))
  {
  }

  // ----- Strings -----

  function CharOf(c: byte): R.Char {
    if c > 31 && c != 34 && c != 92 then R.Plain(c)
    else if c == 34 || c == 92 then R.Short(c)
    else if c == 8 then R.Short(98)
    else if c == 12 then R.Short(102)
    else if c == 10 then R.Short(110)
    else if c == 13 then R.Short(114)
    else if c == 9 then R.Short(116)
    else R.Unit(FourHex(c, false), [c])
  }

  function LiteralOf(cp: nat, b: Bytes): R.Char
    requires cp < 0x110000
  {
    if cp <= 0xFFFF then R.Unit(FourHex(cp, true), b)
    else R.Pair(FourHex(0xD800 + (cp - 0x10000) / 1024, true), FourHex(0xDC00 + (cp - 0x10000) % 1024, true), b)
  }

  function CharsOf(s: Bytes, ascii: bool): seq<R.Char>
    decreases |s|
  {
    if s == [] then []
    else if ascii && CharLen(s) > 1 then
      EncodeCodePoint(s);
      [LiteralOf(CodePoint(s, CharLen(s)), s[..CharLen(s)])] + CharsOf(s[CharLen(s)..], ascii)
    else [CharOf(s[0])] + CharsOf(s[1..], ascii)
  }

  lemma FourHexIs(n: nat, upper: bool)
    requires n < 0x10000
    ensures R.Hexadecimal(FourHex(n, upper)) && R.Code(FourHex(n, upper)) == n
    ensures if upper then UpperCase(FourHex(n, upper)) else LowerCase(FourHex(n, upper))
  {
    var t := FourHex(n, upper);
    AtSelf(t);
    Hex4OfFourHex(t, 0, n, upper);
  }

  lemma AtSelf(t: Bytes)
    ensures At(t, 0, t)
  {
  }

  lemma CharOfIs(c: byte, ascii: bool)
    requires c != 0 && (ascii ==> c < 128)
    ensures var ch := CharOf(c);
      R.ProperChar(ch) && R.CharText(ch) == EscapeByte(c) && R.CharBytes(ch) == [c] && PrintedChar(ch, ascii)
  {
    if c < 32 && c !in {8, 9, 10, 12, 13} {
      FourHexIs(c, false);
      hide R.Hexadecimal, R.Code, FourHex, LowerCase;
      assert CharOf(c) == R.Unit(FourHex(c, false), [c]);
    } else {
      hide FourHex, R.Encodes, R.Hexadecimal, LowerCase, UpperCase;
    }
  }

  lemma EncodesChar(s: Bytes)
    requires CharLen(s) > 1
    ensures var n := CharLen(s); R.Encodes(s[..n], CodePoint(s, n)) && Scalar(CodePoint(s, n))
  {
    var n := CharLen(s);
    EncodeCodePoint(s);
    LeadAndTailBits(s[0]);
    LeadAndTailBits(s[1]);
    if n > 2 { LeadAndTailBits(s[2]); }
    if n > 3 { LeadAndTailBits(s[3]); }
  }

  lemma LiteralOfIs(cp: nat, b: Bytes)
    requires Scalar(cp) && R.Encodes(b, cp)
    ensures var ch := LiteralOf(cp, b);
      && R.ProperChar(ch) && R.CharText(ch) == UnicodeLiteral(cp) && R.CharBytes(ch) == b
      && (|b| > 1 ==> PrintedChar(ch, true))
  {
    hide R.Hexadecimal, R.Code, FourHex, UpperCase, R.Encodes;
    if cp <= 0xFFFF {
      FourHexIs(cp, true);
    } else {
      var v := cp - 0x10000;
      SurrogateBits(v);
      FourHexIs(0xD800 + v / 1024, true);
      FourHexIs(0xDC00 + v % 1024, true);
      assert v / 1024 * 1024 + v % 1024 == v;
    }
  }

  /** The printed characters of a string are derived, in the form of the style. */
  lemma {:induction false} CharsAreDerived(s: Bytes, ascii: bool)
    requires GoodString(s, ascii)
    ensures var cs := CharsOf(s, ascii);
      && R.ProperChars(cs) && PrintedChars(cs, ascii)
      && R.CharsText(cs) == StringBody(s, ascii) && R.CharsBytes(cs) == s
    ensures ascii ==> Rewrites(EscapeString(s), StringBody(s, true))
    decreases |s|
  {
    if s == [] {
      NothingRewritten();
      RewritesAscii([]);
    } else if !ascii {
      CharOfIs(s[0], false);
      CharsAreDerived(s[1..], false);
      OneMoreChar(CharOf(s[0]), CharsOf(s[1..], false), false);
      hide CharOf, EscapeByte;
      assert s == [s[0]] + s[1..];
    } else {
      AsciiCharsAreDerived(s);
    }
  }

  lemma OneMoreChar(c: R.Char, cs: seq<R.Char>, ascii: bool)
    requires R.ProperChar(c) && PrintedChar(c, ascii) && R.ProperChars(cs) && PrintedChars(cs, ascii)
    ensures R.ProperChars([c] + cs) && PrintedChars([c] + cs, ascii)
    ensures R.CharsText([c] + cs) == R.CharText(c) + R.CharsText(cs)
    ensures R.CharsBytes([c] + cs) == R.CharBytes(c) + R.CharsBytes(cs)
  {
    hide R.ProperChar, PrintedChar, R.CharText, R.CharBytes;
    assert ([c] + cs)[1..] == cs;
  }

  /** One rewritten piece in front of a rewritten text. */
  lemma RewrittenConcat(piece: Bytes, literal: Bytes, rest: Bytes)
    requires Rewrites(piece, literal) && Rewrites(rest, AsciiRewrite(rest))
    ensures AsciiRewrite(piece + rest) == literal + AsciiRewrite(rest)
    ensures Rewrites(piece + rest, AsciiRewrite(piece + rest))
  {
    hide AsciiRewrite;
    RewritesConcat(piece, literal, rest, AsciiRewrite(rest));
  }

  lemma {:induction false} AsciiCharsAreDerived(s: Bytes)
    requires GoodString(s, true) && s != []
    ensures var cs := CharsOf(s, true);
      && R.ProperChars(cs) && PrintedChars(cs, true)
      && R.CharsText(cs) == StringBody(s, true) && R.CharsBytes(cs) == s
    ensures Rewrites(EscapeString(s), StringBody(s, true))
    decreases |s|, 0
  {
    hide AsciiRewrite, Rewrites, UnicodeLiteral, EscapeByte, CharOf, LiteralOf, R.ProperChars, PrintedChars;
    hide R.CharsText, R.CharsBytes, R.ProperChar, PrintedChar;
    var n := CharLen(s);
    var rest := s[n..];
    CharsAreDerived(rest, true);
    assert s[..n] + rest == s;
    if n == 1 {
      EscapeByteIsAscii(s[0]);
      RewritesAscii(EscapeByte(s[0]));
      RewrittenConcat(EscapeByte(s[0]), EscapeByte(s[0]), EscapeString(rest));
      CharOfIs(s[0], true);
      OneMoreChar(CharOf(s[0]), CharsOf(rest, true), true);
    } else {
      CharBytesAreHigh(s);
      EscapeKeepsChar(s, n);
      EncodesChar(s);
      RewritesChar(s);
      RewrittenConcat(s[..n], UnicodeLiteral(CodePoint(s, n)), EscapeString(rest));
      LiteralOfIs(CodePoint(s, n), s[..n]);
      OneMoreChar(LiteralOf(CodePoint(s, n), s[..n]), CharsOf(rest, true), true);
    }
  }

  // ----- Numbers -----

  lemma {:induction false} DecimalIsShort(n: nat, k: nat)
    requires n < R.TenTo(k)
    requires k >= 1
    ensures |Decimal(n)| <= k
    decreases k
  {
    assert R.TenTo(k) == 10 * R.TenTo(k - 1) && R.TenTo(0) == 1;
    if n >= 10 && k > 1 { DecimalIsShort(n / 10, k - 1); }
  }

  lemma TenDigits(m: nat)
    requires m <= -INT_MIN
    ensures |Decimal(m)| <= 10
  {
    assert R.TenTo(3) == 1000;
    assert R.TenTo(6) == 1000 * R.TenTo(3);
    assert R.TenTo(9) == 1000 * R.TenTo(6);
    assert R.TenTo(10) == 10 * R.TenTo(9);
    DecimalIsShort(m, 10);
  }

  function NumeralOf(n: int): R.Numeral {
    R.Numeral(n < 0, Decimal(if n < 0 then -n else n), [], R.NoExponent)
  }

  lemma {:induction false} DecimalIsDerived(n: nat)
    ensures R.Digits(Decimal(n)) && R.DigitsValue(Decimal(n)) == n
    ensures Decimal(n) != [] && (Decimal(n)[0] == 48 ==> n == 0)
  {
    if n >= 10 {
      DecimalIsDerived(n / 10);
      assert Decimal(n)[..|Decimal(n)| - 1] == Decimal(n / 10);
    } else {
      assert Decimal(n)[..0] == [];
    }
  }

  lemma NumeralIsDerived(n: int)
    requires INT_MIN <= n <= INT_MAX
    ensures R.ProperNumeral(NumeralOf(n)) && R.IsInt(NumeralOf(n), n) && R.NumeralText(NumeralOf(n)) == IntText(n)
    ensures |IntText(n)| <= 63
  {
    IntTextLength(n);
    NumeralTextIs(n);
    NumeralIsProper(n);
    DecimalIsDerived(if n < 0 then -n else n);
    hide *;
    NumeralFields(n);
    WholeIsInt(NumeralOf(n), n);
  }

  lemma NumeralFields(n: int)
    ensures var r := NumeralOf(n); r.fraction == [] && r.exponent == R.NoExponent && (r.minus <==> n < 0)
    ensures NumeralOf(n).whole == Decimal(if n < 0 then -n else n)
  {
    hide Decimal;
  }

  lemma NumeralTextIs(n: int)
    ensures R.NumeralText(NumeralOf(n)) == IntText(n)
  {
    var d := Decimal(if n < 0 then -n else n);
    hide Decimal;
    assert [] + d + [] + [] == d && [45] + d + [] + [] == [45] + d;
  }

  lemma NumeralIsProper(n: int)
    ensures R.ProperNumeral(NumeralOf(n))
  {
    DecimalIsDerived(if n < 0 then -n else n);
    ZeroText();
    NoDigits();
    hide Decimal, R.Digits, R.DigitsValue;
  }

  lemma WholeIsInt(n: R.Numeral, v: int)
    requires n.fraction == [] && n.exponent == R.NoExponent
    requires R.DigitsValue(n.whole) == if n.minus then -v else v
    ensures R.IsInt(n, v)
  {
    hide R.DigitsValue;
    assert n.whole + [] == n.whole && R.TenTo(0) == 1;
  }

  lemma NoDigits()
    ensures R.Digits([])
  {
  }

  lemma ZeroText()
    ensures |Decimal(0)| == 1
  {
  }

  lemma IntTextLength(n: int)
    requires INT_MIN <= n <= INT_MAX
    ensures |IntText(n)| <= 63
  {
    TenDigits(if n < 0 then -n else n);
  }

  // ----- Values -----

  lemma NoMembers(d: nat, st: Style)
    ensures MembersText([], d, st) == []
  {
  }

  function Derivation(j: Json, d: nat, st: Style): R.Value
    requires Printable(j, st.ascii)
    decreases j, 0
  {
    match j
    case Null => R.NullName
    case False => R.FalseName
    case True => R.TrueName
    case Number(n) => R.Number(NumeralOf(n), n)
    case String(s) => R.String(CharsOf(s, st.ascii))
    case Array(items) => R.Array([], ItemsDerivation(items, d + 1, st, []))
    case Object(members) => R.Object(Line(st.pretty, d), MembersDerivation(members, d + 1, st))
  }

  function ItemsDerivation(items: seq<Json>, d: nat, st: Style, before: Bytes): (r: seq<R.Item>)
    requires forall i :: 0 <= i < |items| ==> Printable(items[i], st.ascii)
    ensures |r| == |items|
    decreases items, 0
  {
    if items == [] then []
    else
      [R.Item(before, Derivation(items[0], d, st), [])] +
      ItemsDerivation(items[1..], d, st, if st.pretty then [32] else [])
  }

  function MembersDerivation(members: seq<Member>, d: nat, st: Style): (r: seq<R.Member>)
    requires d > 0
    requires forall i :: 0 <= i < |members| ==>
      GoodString(members[i].key, st.ascii) && Printable(members[i].value, st.ascii)
    ensures |r| == |members|
    decreases members, 0
  {
    if members == [] then []
    else
      [MemberOf(CharsOf(members[0].key, st.ascii), Derivation(members[0].value, d, st), d, st, |members| == 1)] +
      MembersDerivation(members[1..], d, st)
  }

  lemma {:induction false} TabsAre(d: nat)
    ensures Tabs(d) == seq(d, _ => 9)
  {
  }

  lemma LineIs(st: Style, d: nat)
    ensures Newline(st) + Indent(st, d) == Line(st.pretty, d) && R.Ws(Line(st.pretty, d))
  {
    TabsAre(d);
  }

  /** What holds of the derivation of a printed value. */
  ghost predicate Derives(v: R.Value, j: Json, d: nat, st: Style) {
    && R.Proper(v) && R.ValueText(v) == Text(j, d, st) && R.Meaning(v) == j
    && Formatted(v, d, st.pretty, st.ascii) && R.Within(v, Depth(j))
  }

  lemma {:induction false} WithinMore(v: R.Value, levels: int, more: int)
    requires R.Within(v, levels) && levels <= more
    ensures R.Within(v, more)
    decreases v
  {
    hide R.NumeralText, R.CharsBytes;
    match v
    case Array(_, items) =>
      forall i | 0 <= i < |items| ensures R.Within(items[i].value, more - 1) {
        WithinMore(items[i].value, levels - 1, more - 1);
      }
    case Object(_, members) =>
      forall i | 0 <= i < |members|
        ensures 0 !in R.CharsBytes(members[i].key) && R.Within(members[i].value, more - 1)
      {
        WithinMore(members[i].value, levels - 1, more - 1);
      }
    case _ =>
  }

  lemma {:induction false} ValueIsDerived(j: Json, d: nat, st: Style)
    requires Printable(j, st.ascii)
    ensures Derives(Derivation(j, d, st), j, d, st)
    decreases j, 1
  {
    hide R.IsInt, R.NumeralText, R.StringText, CharsOf, StringBody, IntText, R.CharsBytes, R.ProperNumeral;
    hide ItemsDerivation, MembersDerivation, ItemsDerived, MembersDerived, ItemsText, MembersText, Line;
    match j
    case Number(n) => NumeralIsDerived(n);
    case String(s) => StringIsDerived(s, st.ascii);
    case Array(items) =>
      ItemsAreDerived(items, d + 1, st, []);
      ArrayIsDerived(items, ItemsDerivation(items, d + 1, st, []), d, st);
    case Object(members) =>
      MembersAreDerived(members, d + 1, st);
      ObjectIsDerived(members, MembersDerivation(members, d + 1, st), d, st);
    case _ =>
  }

  lemma StringIsDerived(s: Bytes, ascii: bool)
    requires GoodString(s, ascii)
    ensures var cs := CharsOf(s, ascii);
      && R.ProperChars(cs) && PrintedChars(cs, ascii) && R.StringText(cs) == StringText(s, ascii)
      && R.CharsBytes(cs) == s && 0 !in s
  {
    CharsAreDerived(s, ascii);
  }

  // ----- Arrays -----

  /** What holds of the derivation of items; before is the white space in front of the first one. */
  ghost predicate ItemsDerived(r: seq<R.Item>, items: seq<Json>, d: nat, st: Style, before: Bytes) {
    && |r| == |items| && R.ItemsMeaning(r) == items
    && (items != [] ==> R.ItemsText(r) == before + ItemsText(items, d, st))
    && forall i :: 0 <= i < |r| ==>
      && R.Proper(r[i].value) && Formatted(r[i].value, d, st.pretty, st.ascii)
      && R.Within(r[i].value, ItemsDepth(items)) && r[i].after == []
      && r[i].before == (if i == 0 then before else if st.pretty then [32] else [])
  }

  lemma {:induction false} ArrayIsDerived(items: seq<Json>, r: seq<R.Item>, d: nat, st: Style)
    requires ItemsDerived(r, items, d + 1, st, [])
    ensures Derives(R.Array([], r), Array(items), d, st)
  {
    hide Text, R.ValueText, R.ItemsText, ItemsText, R.ItemsMeaning, R.Proper, Formatted, R.Within;
    ArrayText(items, r, d, st);
    ArrayIsProper(items, r, d, st);
    ArrayIsFormatted(items, r, d, st);
  }

  lemma {:induction false} ArrayIsProper(items: seq<Json>, r: seq<R.Item>, d: nat, st: Style)
    requires ItemsDerived(r, items, d + 1, st, [])
    ensures R.Proper(R.Array([], r)) && R.Within(R.Array([], r), Depth(Array(items)))
  {
    hide R.ItemsText, ItemsText, R.ItemsMeaning, Formatted, ItemsDepth;
    assert R.Ws([]) && R.Ws([32]);
  }

  lemma {:induction false} ArrayIsFormatted(items: seq<Json>, r: seq<R.Item>, d: nat, st: Style)
    requires ItemsDerived(r, items, d + 1, st, [])
    ensures Formatted(R.Array([], r), d, st.pretty, st.ascii)
  {
    hide R.ItemsText, ItemsText, R.ItemsMeaning, R.Proper, R.Within;
  }

  lemma {:induction false} ArrayText(items: seq<Json>, r: seq<R.Item>, d: nat, st: Style)
    requires |r| == |items| && (items != [] ==> R.ItemsText(r) == [] + ItemsText(items, d + 1, st))
    ensures R.ValueText(R.Array([], r)) == Text(Array(items), d, st)
  {
    hide R.ItemsText;
  }

  lemma {:induction false} ItemsAreDerived(items: seq<Json>, d: nat, st: Style, before: Bytes)
    requires forall i :: 0 <= i < |items| ==> Printable(items[i], st.ascii)
    ensures ItemsDerived(ItemsDerivation(items, d, st, before), items, d, st, before)
    decreases items, 0
  {
    if items != [] {
      var gap := if st.pretty then [32] else [];
      ValueIsDerived(items[0], d, st);
      ItemsAreDerived(items[1..], d, st, gap);
      OneMoreItem(items, d, st, before, Derivation(items[0], d, st), ItemsDerivation(items[1..], d, st, gap));
    }
  }

  lemma {:induction false} OneMoreItem(items: seq<Json>, d: nat, st: Style, before: Bytes, v: R.Value,
                                       rest: seq<R.Item>)
    requires items != [] && Derives(v, items[0], d, st)
    requires ItemsDerived(rest, items[1..], d, st, if st.pretty then [32] else [])
    ensures ItemsDerived([R.Item(before, v, [])] + rest, items, d, st, before)
  {
    var r := [R.Item(before, v, [])] + rest;
    assert r[1..] == rest;
    ItemsTextStep(items, d, st, before, v, rest);
    ItemsMeaningStep(items, r);
    ItemsDepthStep(items);
    hide Text, R.ItemsText, ItemsText, R.Proper, Formatted, R.Within, R.ItemsMeaning, Depth, ItemsDepth, R.Meaning;
    hide R.ValueText;
    WithinMore(v, Depth(items[0]), ItemsDepth(items));
    forall i | 0 <= i < |rest| ensures R.Within(rest[i].value, ItemsDepth(items)) {
      WithinMore(rest[i].value, ItemsDepth(items[1..]), ItemsDepth(items));
    }
  }

  lemma ItemsDepthStep(items: seq<Json>)
    requires items != []
    ensures Depth(items[0]) <= ItemsDepth(items) && ItemsDepth(items[1..]) <= ItemsDepth(items)
  {
  }

  lemma {:induction false} ItemsMeaningStep(items: seq<Json>, r: seq<R.Item>)
    requires items != [] && r != [] && R.Meaning(r[0].value) == items[0] && R.ItemsMeaning(r[1..]) == items[1..]
    ensures R.ItemsMeaning(r) == items
  {
    assert items == [items[0]] + items[1..];
  }

  lemma {:induction false} ItemsTextStep(items: seq<Json>, d: nat, st: Style, before: Bytes, v: R.Value,
                                         rest: seq<R.Item>)
    requires items != [] && |rest| == |items| - 1 && R.ValueText(v) == Text(items[0], d, st)
    requires rest != [] ==> R.ItemsText(rest) == (if st.pretty then [32] else []) + ItemsText(items[1..], d, st)
    ensures R.ItemsText([R.Item(before, v, [])] + rest) == before + ItemsText(items, d, st)
  {
    hide *;
    var t, tail := Text(items[0], d, st), ItemsText(items[1..], d, st);
    var gap := if st.pretty then [32] else [];
    ItemsUnfold(items, d, st);
    DerivedItems(R.Item(before, v, []), rest);
    MoreItems(before, t, gap, tail);
  }

  lemma MoreItems(before: Bytes, t: Bytes, gap: Bytes, tail: Bytes)
    ensures before + t + [] + [44] + (gap + tail) == before + (t + ([44] + gap) + tail)
    ensures before + t + [] + [] + [] == before + (t + [] + [])
  {
  }

  lemma ItemsUnfold(items: seq<Json>, d: nat, st: Style)
    requires items != []
    ensures ItemsText(items, d, st) ==
      Text(items[0], d, st) + (if |items| > 1 then [44] + (if st.pretty then [32] else []) else []) +
      ItemsText(items[1..], d, st)
    ensures |items| == 1 ==> ItemsText(items[1..], d, st) == []
  {
    hide Text;
  }

  lemma DerivedItems(i: R.Item, rest: seq<R.Item>)
    ensures R.ItemsText([i] + rest) ==
      i.before + R.ValueText(i.value) + i.after + (if rest != [] then [44] else []) + R.ItemsText(rest)
    ensures rest == [] ==> R.ItemsText(rest) == []
  {
    hide R.ValueText;
    assert ([i] + rest)[1..] == rest;
  }

  // ----- Objects -----

  ghost predicate MembersDerived(r: seq<R.Member>, members: seq<Member>, d: nat, st: Style)
    requires d > 0
  {
    && |r| == |members| && R.MembersMeaning(r) == members
    && (members != [] ==> R.MembersText(r) == Newline(st) + MembersText(members, d, st) + Indent(st, d - 1))
    && forall i :: 0 <= i < |r| ==> MemberDerived(r[i], d, st, MembersDepth(members), i == |r| - 1)
  }

  ghost predicate MemberDerived(m: R.Member, d: nat, st: Style, levels: nat, last: bool)
    requires d > 0
  {
    && R.ProperChars(m.key) && PrintedChars(m.key, st.ascii) && 0 !in R.CharsBytes(m.key)
    && R.Proper(m.value) && Formatted(m.value, d, st.pretty, st.ascii) && R.Within(m.value, levels)
    && m.before == Line(st.pretty, d) && m.behindKey == [] && m.beforeValue == (if st.pretty then [9] else [])
    && m.after == (if last then Line(st.pretty, d - 1) else [])
  }

  lemma {:induction false} ObjectIsDerived(members: seq<Member>, r: seq<R.Member>, d: nat, st: Style)
    requires MembersDerived(r, members, d + 1, st)
    ensures Derives(R.Object(Line(st.pretty, d), r), Object(members), d, st)
  {
    hide Text, R.ValueText, R.MembersText, MembersText, R.MembersMeaning, Line, R.ProperChars, R.CharsBytes;
    hide PrintedChars, Newline, Indent, R.Proper, Formatted, R.Within;
    ObjectText(members, r, d, st);
    ObjectIsProper(members, r, d, st);
    ObjectIsFormatted(members, r, d, st);
  }

  lemma {:induction false} ObjectIsProper(members: seq<Member>, r: seq<R.Member>, d: nat, st: Style)
    requires MembersDerived(r, members, d + 1, st)
    ensures var v := R.Object(Line(st.pretty, d), r); R.Proper(v) && R.Within(v, Depth(Object(members)))
  {
    hide R.ValueText, R.MembersText, MembersText, R.MembersMeaning, Line, R.ProperChars, R.CharsBytes;
    hide PrintedChars, Newline, Indent, Formatted, MembersDepth;
    LineIs(st, d);
    LineIs(st, d + 1);
    assert R.Ws([]) && R.Ws([9]);
  }

  lemma {:induction false} ObjectIsFormatted(members: seq<Member>, r: seq<R.Member>, d: nat, st: Style)
    requires MembersDerived(r, members, d + 1, st)
    ensures Formatted(R.Object(Line(st.pretty, d), r), d, st.pretty, st.ascii)
  {
    hide R.MembersText, MembersText, R.MembersMeaning, Line, R.ProperChars, R.CharsBytes, R.Proper, R.Within;
    hide PrintedChars, Newline, Indent;
  }

  lemma {:induction false} ObjectText(members: seq<Member>, r: seq<R.Member>, d: nat, st: Style)
    requires |r| == |members|
    requires members != [] ==> R.MembersText(r) == Newline(st) + MembersText(members, d + 1, st) + Indent(st, d)
    ensures R.ValueText(R.Object(Line(st.pretty, d), r)) == Text(Object(members), d, st)
  {
    hide *;
    NoMembers(d + 1, st);
    LineIs(st, d);
    PrintedObject(members, d, st);
    DerivedObject(r, Line(st.pretty, d));
    Braces(Newline(st), MembersText(members, d + 1, st), Indent(st, d));
  }

  lemma Braces(a: Bytes, b: Bytes, c: Bytes)
    ensures [123] + a + b + c + [125] == [123] + (a + b + c) + [125]
    ensures [123] + a + [] + c + [125] == [123] + (a + c) + [125]
  {
  }

  lemma {:induction false} PrintedObject(members: seq<Member>, d: nat, st: Style)
    ensures Text(Object(members), d, st) ==
      [123] + Newline(st) + MembersText(members, d + 1, st) + Indent(st, d) + [125]
  {
  }

  lemma {:induction false} DerivedObject(r: seq<R.Member>, blank: Bytes)
    ensures R.ValueText(R.Object(blank, r)) == [123] + (if r == [] then blank else R.MembersText(r)) + [125]
  {
  }

  lemma {:induction false} MembersAreDerived(members: seq<Member>, d: nat, st: Style)
    requires d > 0
    requires forall i :: 0 <= i < |members| ==>
      GoodString(members[i].key, st.ascii) && Printable(members[i].value, st.ascii)
    ensures MembersDerived(MembersDerivation(members, d, st), members, d, st)
    decreases members, 0
  {
    if members != [] {
      ValueIsDerived(members[0].value, d, st);
      MembersAreDerived(members[1..], d, st);
      StringIsDerived(members[0].key, st.ascii);
      OneMoreMember(members, d, st, CharsOf(members[0].key, st.ascii), Derivation(members[0].value, d, st),
                    MembersDerivation(members[1..], d, st));
    }
  }

  function MemberOf(cs: seq<R.Char>, v: R.Value, d: nat, st: Style, last: bool): R.Member
    requires d > 0
  {
    R.Member(Line(st.pretty, d), cs, [], if st.pretty then [9] else [], v, if last then Line(st.pretty, d - 1) else [])
  }

  lemma {:induction false} OneMoreMember(members: seq<Member>, d: nat, st: Style, cs: seq<R.Char>, v: R.Value,
                                         rest: seq<R.Member>)
    requires d > 0 && members != [] && Derives(v, members[0].value, d, st)
    requires R.ProperChars(cs) && PrintedChars(cs, st.ascii) && R.CharsBytes(cs) == members[0].key
    requires 0 !in members[0].key && R.StringText(cs) == StringText(members[0].key, st.ascii)
    requires MembersDerived(rest, members[1..], d, st)
    ensures MembersDerived([MemberOf(cs, v, d, st, |members| == 1)] + rest, members, d, st)
  {
    hide *;
    var m := MemberOf(cs, v, d, st, |members| == 1);
    var levels := MembersDepth(members);
    MembersParts(rest, members[1..], d, st);
    DerivedParts(v, members[0].value, d, st);
    MembersTextStep(members, d, st, cs, v, rest);
    MemberFields(cs, v, d, st, |members| == 1);
    assert ([m] + rest)[1..] == rest;
    MembersMeaningStep(members, [m] + rest);
    MembersDepthStep(members);
    WithinMore(v, Depth(members[0].value), levels);
    MemberOfIsDerived(cs, v, d, st, levels, |members| == 1);
    forall i | 0 <= i < |rest| ensures MemberDerived(rest[i], d, st, levels, i == |rest| - 1) {
      MemberStaysDerived(rest[i], d, st, MembersDepth(members[1..]), levels, i == |rest| - 1);
    }
    MembersJoin(m, rest, members, d, st);
  }

  lemma {:induction false} DerivedParts(v: R.Value, j: Json, d: nat, st: Style)
    requires Derives(v, j, d, st)
    ensures R.Proper(v) && R.ValueText(v) == Text(j, d, st) && R.Meaning(v) == j
    ensures Formatted(v, d, st.pretty, st.ascii) && R.Within(v, Depth(j))
  {
  }

  lemma {:induction false} MembersParts(r: seq<R.Member>, members: seq<Member>, d: nat, st: Style)
    requires d > 0 && MembersDerived(r, members, d, st)
    ensures |r| == |members| && R.MembersMeaning(r) == members
    ensures members != [] ==> R.MembersText(r) == Newline(st) + MembersText(members, d, st) + Indent(st, d - 1)
    ensures forall i :: 0 <= i < |r| ==> MemberDerived(r[i], d, st, MembersDepth(members), i == |r| - 1)
  {
    hide R.MembersText, MembersText, MemberDerived, MembersDepth, R.MembersMeaning, Newline, Indent;
  }

  lemma MemberFields(cs: seq<R.Char>, v: R.Value, d: nat, st: Style, last: bool)
    requires d > 0
    ensures var m := MemberOf(cs, v, d, st, last); m.key == cs && m.value == v
  {
  }

  lemma {:induction false} MemberOfIsDerived(cs: seq<R.Char>, v: R.Value, d: nat, st: Style, levels: nat, last: bool)
    requires d > 0 && R.ProperChars(cs) && PrintedChars(cs, st.ascii) && 0 !in R.CharsBytes(cs)
    requires R.Proper(v) && Formatted(v, d, st.pretty, st.ascii) && R.Within(v, levels)
    ensures MemberDerived(MemberOf(cs, v, d, st, last), d, st, levels, last)
  {
    hide R.ProperChars, PrintedChars, R.CharsBytes, R.Proper, Formatted, R.Within, Line;
  }

  lemma {:induction false} MemberStaysDerived(m: R.Member, d: nat, st: Style, levels: nat, more: nat, last: bool)
    requires d > 0 && MemberDerived(m, d, st, levels, last) && levels <= more
    ensures MemberDerived(m, d, st, more, last)
  {
    hide R.ProperChars, PrintedChars, R.CharsBytes, R.Proper, Formatted, R.Within, Line;
    WithinMore(m.value, levels, more);
  }

  lemma {:induction false} MembersJoin(m: R.Member, rest: seq<R.Member>, members: seq<Member>, d: nat, st: Style)
    requires d > 0 && |members| == |rest| + 1 && R.MembersMeaning([m] + rest) == members
    requires R.MembersText([m] + rest) == Newline(st) + MembersText(members, d, st) + Indent(st, d - 1)
    requires MemberDerived(m, d, st, MembersDepth(members), |members| == 1)
    requires forall i :: 0 <= i < |rest| ==> MemberDerived(rest[i], d, st, MembersDepth(members), i == |rest| - 1)
    ensures MembersDerived([m] + rest, members, d, st)
  {
    hide R.MembersText, MembersText, MemberDerived, MembersDepth, R.MembersMeaning, Newline, Indent;
  }

  lemma MembersDepthStep(members: seq<Member>)
    requires members != []
    ensures Depth(members[0].value) <= MembersDepth(members) && MembersDepth(members[1..]) <= MembersDepth(members)
  {
  }

  lemma {:induction false} MembersMeaningStep(members: seq<Member>, r: seq<R.Member>)
    requires members != [] && r != [] && R.Meaning(r[0].value) == members[0].value
    requires R.CharsBytes(r[0].key) == members[0].key && R.MembersMeaning(r[1..]) == members[1..]
    ensures R.MembersMeaning(r) == members
  {
    hide R.CharsBytes, R.Meaning;
    assert members == [members[0]] + members[1..];
  }

  lemma {:induction false} MembersTextStep(members: seq<Member>, d: nat, st: Style, cs: seq<R.Char>, v: R.Value,
                                           rest: seq<R.Member>)
    requires d > 0 && members != [] && |rest| == |members| - 1
    requires R.ValueText(v) == Text(members[0].value, d, st)
    requires R.StringText(cs) == StringText(members[0].key, st.ascii)
    requires rest != [] ==>
      R.MembersText(rest) == Newline(st) + MembersText(members[1..], d, st) + Indent(st, d - 1)
    ensures R.MembersText([MemberOf(cs, v, d, st, |members| == 1)] + rest) ==
      Newline(st) + MembersText(members, d, st) + Indent(st, d - 1)
  {
    hide *;
    var m := MemberOf(cs, v, d, st, |members| == 1);
    var key, value := StringText(members[0].key, st.ascii), Text(members[0].value, d, st);
    var nl, indent, close, sep := Newline(st), Indent(st, d), Indent(st, d - 1), KeySeparator(st);
    LineIs(st, d);
    LineIs(st, d - 1);
    SeparatorIs(st);
    OneMemberText(cs, v, d, st, |members| == 1);
    MembersUnfold(members, d, st);
    DerivedUnfold(m, rest);
    var tail := MembersText(members[1..], d, st);
    if |members| > 1 {
      MoreMembers(nl, indent, key, sep, value, tail, close);
    } else {
      LastMember(nl, indent, key, sep, value, close);
    }
  }

  lemma MoreMembers(nl: Bytes, indent: Bytes, key: Bytes, sep: Bytes, value: Bytes, tail: Bytes, close: Bytes)
    ensures (nl + indent) + key + sep + value + [] + [44] + (nl + tail + close) ==
      nl + (indent + key + sep + value + [44] + nl + tail) + close
  {
  }

  lemma LastMember(nl: Bytes, indent: Bytes, key: Bytes, sep: Bytes, value: Bytes, close: Bytes)
    ensures (nl + indent) + key + sep + value + (nl + close) + [] + [] ==
      nl + (indent + key + sep + value + [] + nl + []) + close
  {
  }

  lemma SeparatorIs(st: Style)
    ensures KeySeparator(st) == [58] + if st.pretty then [9] else []
    ensures COMMA == 44
  {
  }

  lemma DerivedUnfold(m: R.Member, rest: seq<R.Member>)
    ensures R.MembersText([m] + rest) == R.MemberText(m) + (if rest != [] then [44] else []) + R.MembersText(rest)
    ensures rest == [] ==> R.MembersText(rest) == []
  {
    assert ([m] + rest)[1..] == rest;
  }

  lemma OneMemberText(cs: seq<R.Char>, v: R.Value, d: nat, st: Style, last: bool)
    requires d > 0
    ensures var m := MemberOf(cs, v, d, st, last);
      R.MemberText(m) == Line(st.pretty, d) + R.StringText(cs) + ([58] + if st.pretty then [9] else []) +
                         R.ValueText(v) + if last then Line(st.pretty, d - 1) else []
  {
    hide Line, R.StringText, R.ValueText;
  }

  lemma MembersUnfold(members: seq<Member>, d: nat, st: Style)
    requires members != []
    ensures var m, more := members[0], |members| > 1;
      MembersText(members, d, st) ==
        Indent(st, d) + StringText(m.key, st.ascii) + KeySeparator(st) + Text(m.value, d, st) +
        (if more then [COMMA] else []) + Newline(st) + MembersText(members[1..], d, st)
    ensures |members| == 1 ==> MembersText(members[1..], d, st) == []
  {
  }

  /** Every printed text is derived from its value, in the layout of its style. */
  lemma TextIsDerived(j: Json, st: Style)
    requires Printable(j, st.ascii)
    ensures exists v :: R.Proper(v) && R.ValueText(v) == Text(j, 0, st) && R.Meaning(v) == j
                        && Formatted(v, 0, st.pretty, st.ascii)
  {
    ValueIsDerived(j, 0, st);
  }
}
