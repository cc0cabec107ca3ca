/** What the recursive-descent parser accepts and returns, as functions of the text. */
module Grammar {
  import opened Bytes
  import opened Utf8
  import opened Json

  datatype Parsed<+T> = Rejected | Parsed(value: T, end: nat)

  // ----- White space -----

  /** First offset from off on that holds no byte <= 32, or the length. */
  function SkipBlanks(s: Bytes, off: nat): (r: nat)
    requires off <= |s|
    ensures off <= r <= |s|
    ensures forall i :: off <= i < r ==> s[i] <= 32
    ensures r < |s| ==> s[r] > 32
    decreases |s| - off
  {
    if off < |s| && s[off] <= 32 then SkipBlanks(s, off + 1) else off
  }

  /** Skipping stops on the last byte when nothing but blanks is left. */
  function SkipSpace(s: Bytes, off: nat): (r: nat)
    requires off <= |s|
    ensures off <= r <= |s|
    ensures off < |s| ==> r < |s|
  {
    if off == |s| then off
    else if SkipBlanks(s, off) == |s| then |s| - 1
    else SkipBlanks(s, off)
  }

  // ----- Numbers -----

  predicate Digit(c: byte) { 48 <= c <= 57 }

  /** Characters copied into the number buffer: digits and + - . e E. */
  predicate NumberChar(c: byte) {
    Digit(c) || c == 43 || c == 45 || c == 46 || c == 69 || c == 101
  }

  /** The number buffer holds 64 bytes, one of them the terminator. */
  const NUMBER_CHARS_MAX: nat := 63

  function NumberChars(s: Bytes, off: nat, max: nat): (r: Bytes)
    requires off <= |s|
    ensures |r| <= max && off + |r| <= |s| && r == s[off..off + |r|]
    decreases max
  {
    if max > 0 && off < |s| && NumberChar(s[off]) then [s[off]] + NumberChars(s, off + 1, max - 1) else []
  }

  function Digits(t: Bytes, i: nat): (n: nat)
    requires i <= |t|
    ensures i + n <= |t|
    ensures forall k :: i <= k < i + n ==> Digit(t[k])
    ensures i + n < |t| ==> !Digit(t[i + n])
    decreases |t| - i
  {
    if i < |t| && Digit(t[i]) then 1 + Digits(t, i + 1) else 0
  }

  predicate AllDigits(t: Bytes) { forall k :: 0 <= k < |t| ==> Digit(t[k]) }

  function DigitsValue(t: Bytes): nat
    requires AllDigits(t)
  {
    if t == [] then 0
    else
      assert Digit(t[|t| - 1]);
      DigitsValue(t[..|t| - 1]) * 10 + (t[|t| - 1] as int - 48)
  }

  function Sign(t: Bytes, i: nat): (n: nat)
    ensures n <= 1 && (n == 1 ==> i < |t|)
  {
    if i < |t| && (t[i] == 43 || t[i] == MINUS) then 1 else 0
  }

  /** The parts of the longest prefix of t that strtod reads as a decimal number. */
  datatype Parts = Parts(sign: nat, whole: nat, point: nat, fraction: nat, exponent: nat)

  function DecimalParts(t: Bytes): (d: Parts)
    ensures d.sign + d.whole + d.point + d.fraction + d.exponent <= |t|
    ensures d.sign <= 1
    ensures AllDigits(t[d.sign..d.sign + d.whole])
    ensures AllDigits(t[d.sign + d.whole + d.point..d.sign + d.whole + d.point + d.fraction])
  {
    var sign := Sign(t, 0);
    var whole := Digits(t, sign);
    var dot := sign + whole;
    var point := if dot < |t| && t[dot] == 46 then 1 else 0;
    var fraction := if point == 1 then Digits(t, dot + 1) else 0;
    if whole + fraction == 0 then Parts(sign, 0, 0, 0, 0)
    else Parts(sign, whole, point, fraction, ExponentLength(t, dot + point + fraction))
  }

  /** Length of an exponent with at least one digit at i, or 0. */
  function ExponentLength(t: Bytes, i: nat): (n: nat)
    requires i <= |t|
    ensures i + n <= |t|
    ensures n > 0 ==> n == 1 + Sign(t, i + 1) + Digits(t, i + 1 + Sign(t, i + 1))
  {
    if i < |t| && (t[i] == 69 || t[i] == 101) then
      var digits := Digits(t, i + 1 + Sign(t, i + 1));
      if digits > 0 then 1 + Sign(t, i + 1) + digits else 0
    else 0
  }

  /** Characters strtod consumes: none when there is no digit. */
  function NumberLength(t: Bytes): (n: nat)
    ensures n <= |t|
  {
    var d := DecimalParts(t);
    if d.whole + d.fraction == 0 then 0 else d.sign + d.whole + d.point + d.fraction + d.exponent
  }

  function Pow10(n: nat): (r: nat)
    ensures r >= 1
  {
    if n == 0 then 1 else 10 * Pow10(n - 1)
  }

  function ExponentValue(t: Bytes, i: nat): int
    requires i <= |t|
  {
    var n := ExponentLength(t, i);
    if n == 0 then 0
    else
      var sign := Sign(t, i + 1);
      var value: int := DigitsValue(t[i + 1 + sign..i + n]);
      if sign == 1 && t[i + 1] == MINUS then -value else value
  }

  /** The decimal number at the front of t, truncated toward zero. */
  function NumberValue(t: Bytes): int {
    var d := DecimalParts(t);
    if d.whole + d.fraction == 0 then 0
    else
      var dot := d.sign + d.whole;
      var digits := t[d.sign..dot] + t[dot + d.point..dot + d.point + d.fraction];
      var mantissa := DigitsValue(digits);
      var shift := (if d.exponent > 0 then ExponentValue(t, dot + d.point + d.fraction) else 0) - d.fraction;
      var magnitude := if shift >= 0 then mantissa * Pow10(shift) else mantissa / Pow10(-shift);
      if d.sign == 1 && t[0] == MINUS then -magnitude else magnitude
  }

  function Saturate(n: int): (r: int)
    ensures INT_MIN <= r <= INT_MAX
    ensures INT_MIN <= n <= INT_MAX ==> r == n
  {
    if n >= INT_MAX then INT_MAX else if n <= INT_MIN then INT_MIN else n
  }

  function ParseNumber(s: Bytes, off: nat): (r: Parsed<Json>)
    requires off <= |s|
    ensures r.Parsed? ==> off < r.end <= |s| && Printable(r.value, false)
  {
    var t := NumberChars(s, off, NUMBER_CHARS_MAX);
    if NumberLength(t) == 0 then Rejected
    else Parsed(Number(Saturate(NumberValue(t))), off + NumberLength(t))
  }

  // ----- Strings -----

  /** Offset of the closing quote: the first unescaped quote from i on. */
  function ClosingQuote(s: Bytes, i: nat): (r: Option<nat>)
    requires i <= |s|
    ensures r.Some? ==> i <= r.value < |s| && s[r.value] == QUOTE
    decreases |s| - i
  {
    if i == |s| then None
    else if s[i] == QUOTE then Some(i)
    else if s[i] != BACKSLASH then ClosingQuote(s, i + 1)
    else if i + 1 == |s| then None
    else ClosingQuote(s, i + 2)
  }

  datatype Literal = BadLiteral | Literal(bytes: Bytes, length: nat)

  /** A \uXXXX literal, or a surrogate pair of two, at i (RFC 2781, section 2.2). */
  function Utf16Literal(s: Bytes, i: nat, end: nat): (r: Literal)
    requires i <= end <= |s|
    ensures r.Literal? ==> r.length in {6, 12} && i + r.length <= end && 1 <= |r.bytes| <= 4
    ensures r.Literal? ==> |r.bytes| <= r.length / 3 + 1
  {
    if end - i < 6 then BadLiteral
    else
      var first := Hex4(s, i + 2);
      if 0xDC00 <= first <= 0xDFFF then BadLiteral
      else if 0xD800 <= first <= 0xDBFF then
        if end - (i + 6) < 6 then BadLiteral
        else if s[i + 6] != BACKSLASH || s[i + 7] != LETTER_U then BadLiteral
        else
          var second := Hex4(s, i + 8);
          if second < 0xDC00 || second > 0xDFFF then BadLiteral
          else Literal(Encode(0x10000 + first % 1024 * 1024 + second % 1024), 12)
      else Literal(Encode(first), 6)
  }

  /** The byte a two-character escape stands for. */
  function SimpleEscape(c: byte): Option<byte> {
    if c == 98 then Some(8)
    else if c == 102 then Some(12)
    else if c == 110 then Some(NEWLINE)
    else if c == 114 then Some(RETURN)
    else if c == 116 then Some(TAB)
    else if c == QUOTE || c == BACKSLASH || c == 47 then Some(c)
    else None
  }

  /** What the escape at i produces and how many characters it takes. */
  function Escape(s: Bytes, i: nat, end: nat): (r: Literal)
    requires i < end < |s|
    ensures r.Literal? ==> r.length in {2, 6, 12} && 1 <= |r.bytes| <= 4
    ensures r.Literal? ==> i + r.length <= end + 1
  {
    if s[i + 1] == LETTER_U then Utf16Literal(s, i, end)
    else if SimpleEscape(s[i + 1]).Some? then Literal([SimpleEscape(s[i + 1]).value], 2)
    else BadLiteral
  }

  /** The second pass over a string literal: s[i..end] with escapes replaced. */
  function Unescape(s: Bytes, i: nat, end: nat): (r: Option<Bytes>)
    requires end < |s|
    decreases end + 1 - i
  {
    if i >= end then Some([])
    else if s[i] != BACKSLASH then
      match Unescape(s, i + 1, end)
      case None => None
      case Some(rest) => Some([s[i]] + rest)
    else
      match Escape(s, i, end)
      case BadLiteral => None
      case Literal(bytes, length) =>
        match Unescape(s, i + length, end)
        case None => None
        case Some(rest) => Some(bytes + rest)
  }

  function ParseString(s: Bytes, off: nat): (r: Parsed<Bytes>)
    requires off <= |s|
    ensures r.Parsed? ==> off + 1 < r.end <= |s| && NulFree(r.value)
  {
    if off == |s| || s[off] != QUOTE then Rejected
    else
      match ClosingQuote(s, off + 1)
      case None => Rejected
      case Some(end) =>
        match Unescape(s, off + 1, end)
        case None => Rejected
        case Some(bytes) => Parsed(CString(bytes), end + 1)
  }

  // ----- Values -----

  predicate Starts(s: Bytes, off: nat, t: Bytes) { At(s, off, t) }

  predicate Sees(s: Bytes, off: nat, c: byte) { off < |s| && s[off] == c }

  function ParseValue(s: Bytes, off: nat, depth: nat): (r: Parsed<Json>)
    requires off <= |s| && depth <= NESTING_LIMIT
    ensures r.Parsed? ==> off < r.end <= |s|
    ensures r.Parsed? ==> Depth(r.value) + depth <= NESTING_LIMIT
    ensures r.Parsed? ==> Printable(r.value, false)
    decreases |s| - off, 1
  {
    if Starts(s, off, NULL_TEXT) then Parsed(Null, off + 4)
    else if Starts(s, off, FALSE_TEXT) then Parsed(False, off + 5)
    else if Starts(s, off, TRUE_TEXT) then Parsed(True, off + 4)
    else if Sees(s, off, QUOTE) then
      match ParseString(s, off)
      case Rejected => Rejected
      case Parsed(bytes, end) => Parsed(String(bytes), end)
    else if off < |s| && (s[off] == MINUS || Digit(s[off])) then ParseNumber(s, off)
    else if Sees(s, off, OPEN_BRACKET) then ParseArray(s, off, depth)
    else if Sees(s, off, OPEN_BRACE) then ParseObject(s, off, depth)
    else Rejected
  }

  function ParseArray(s: Bytes, off: nat, depth: nat): (r: Parsed<Json>)
    requires off < |s| && depth <= NESTING_LIMIT
    ensures r.Parsed? ==> off < r.end <= |s|
    ensures r.Parsed? ==> Depth(r.value) + depth <= NESTING_LIMIT
    ensures r.Parsed? ==> Printable(r.value, false)
    decreases |s| - off, 0
  {
    if depth >= NESTING_LIMIT then Rejected
    else
      var first := SkipSpace(s, off + 1);
      if Sees(s, first, CLOSE_BRACKET) then Parsed(Array([]), first + 1)
      else if first == |s| then Rejected
      else
        match ParseItems(s, first, depth + 1)
        case Rejected => Rejected
        case Parsed(items, end) => Parsed(Array(items), end)
  }

  /** The items from off on, up to and including the closing bracket. */
  function ParseItems(s: Bytes, off: nat, depth: nat): (r: Parsed<seq<Json>>)
    requires off <= |s| && depth <= NESTING_LIMIT
    ensures r.Parsed? ==> off < r.end <= |s|
    ensures r.Parsed? ==> ItemsDepth(r.value) + depth <= NESTING_LIMIT
    ensures r.Parsed? ==> forall i :: 0 <= i < |r.value| ==> Printable(r.value[i], false)
    decreases |s| - off, 2
  {
    match ParseValue(s, SkipSpace(s, off), depth)
    case Rejected => Rejected
    case Parsed(item, itemEnd) =>
      var next := SkipSpace(s, itemEnd);
      if Sees(s, next, COMMA) then
        match ParseItems(s, next + 1, depth)
        case Rejected => Rejected
        case Parsed(rest, end) => Parsed([item] + rest, end)
      else if Sees(s, next, CLOSE_BRACKET) then Parsed([item], next + 1)
      else Rejected
  }

  function ParseObject(s: Bytes, off: nat, depth: nat): (r: Parsed<Json>)
    requires off < |s| && depth <= NESTING_LIMIT
    ensures r.Parsed? ==> off < r.end <= |s|
    ensures r.Parsed? ==> Depth(r.value) + depth <= NESTING_LIMIT
    ensures r.Parsed? ==> Printable(r.value, false)
    decreases |s| - off, 0
  {
    if depth >= NESTING_LIMIT then Rejected
    else
      var first := SkipSpace(s, off + 1);
      if Sees(s, first, CLOSE_BRACE) then Parsed(Object([]), first + 1)
      else if first == |s| then Rejected
      else
        match ParseMembers(s, first, depth + 1)
        case Rejected => Rejected
        case Parsed(members, end) => Parsed(Object(members), end)
  }

  /** Key, colon and value of the member at off. */
  function ParseMember(s: Bytes, off: nat, depth: nat): (r: Parsed<Member>)
    requires off <= |s| && depth <= NESTING_LIMIT
    ensures r.Parsed? ==> off < r.end <= |s|
    ensures r.Parsed? ==> Depth(r.value.value) + depth <= NESTING_LIMIT
    ensures r.Parsed? ==> NulFree(r.value.key) && Printable(r.value.value, false)
    decreases |s| - off, 2
  {
    match ParseString(s, SkipSpace(s, off))
    case Rejected => Rejected
    case Parsed(key, keyEnd) =>
      var colon := SkipSpace(s, keyEnd);
      if !Sees(s, colon, COLON) then Rejected
      else
        match ParseValue(s, SkipSpace(s, colon + 1), depth)
        case Rejected => Rejected
        case Parsed(value, end) => Parsed(Member(key, value), end)
  }

  /** The members from off on, up to and including the closing brace. */
  function ParseMembers(s: Bytes, off: nat, depth: nat): (r: Parsed<seq<Member>>)
    requires off <= |s| && depth <= NESTING_LIMIT
    ensures r.Parsed? ==> off < r.end <= |s|
    ensures r.Parsed? ==> MembersDepth(r.value) + depth <= NESTING_LIMIT
    ensures r.Parsed? ==>
      forall i :: 0 <= i < |r.value| ==> NulFree(r.value[i].key) && Printable(r.value[i].value, false)
    decreases |s| - off, 3
  {
    match ParseMember(s, off, depth)
    case Rejected => Rejected
    case Parsed(member, memberEnd) =>
      var next := SkipSpace(s, memberEnd);
      if Sees(s, next, COMMA) then
        match ParseMembers(s, next + 1, depth)
        case Rejected => Rejected
        case Parsed(rest, end) => Parsed([member] + rest, end)
      else if Sees(s, next, CLOSE_BRACE) then Parsed([member], next + 1)
      else Rejected
  }

  // ----- Documents -----

  /** The UTF-8 byte order mark at the very start is skipped. */
  function Start(s: Bytes): (r: nat)
    ensures r <= |s|
  {
    if |s| > 4 && s[0] == 0xEF && s[1] == 0xBB && s[2] == 0xBF then 3 else 0
  }

  function ParseDocument(s: Bytes, requireTerminator: bool): (r: Parsed<Json>)
    ensures r.Parsed? ==> r.end <= |s| && Depth(r.value) <= NESTING_LIMIT && Printable(r.value, false)
  {
    if s == [] then Rejected
    else
      match ParseValue(s, SkipSpace(s, Start(s)), 0)
      case Rejected => Rejected
      case Parsed(value, end) =>
        if !requireTerminator then Parsed(value, end)
        else if Sees(s, SkipSpace(s, end), NUL) then Parsed(value, SkipSpace(s, end))
        else Rejected
  }

  /** Parsing a C string: the terminator is part of the buffer. */
  function ParseText(text: Bytes, requireTerminator: bool): Parsed<Json> {
    ParseDocument(text + [NUL], requireTerminator)
  }
}
