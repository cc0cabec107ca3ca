/** The JSON values of the engine and the text it prints for them. */
module Json {
  import opened Bytes
  import opened Utf8

  const INT_MAX: int := 2147483647
  const INT_MIN: int := -2147483648
  const NESTING_LIMIT: nat := 1000

  datatype Json =
    | Null
    | False
    | True
    | Number(n: int)
    | String(s: Bytes)
    | Array(items: seq<Json>)
    | Object(members: seq<Member>)

  datatype Member = Member(key: Bytes, value: Json)

  /** Layout of the printed text: pretty or compact, raw bytes or ASCII only. */
  datatype Style = Style(pretty: bool, ascii: bool)

  const NULL_TEXT: Bytes := [110, 117, 108, 108]
  const FALSE_TEXT: Bytes := [102, 97, 108, 115, 101]
  const TRUE_TEXT: Bytes := [116, 114, 117, 101]
  const OPEN_BRACKET: byte := 91
  const CLOSE_BRACKET: byte := 93
  const OPEN_BRACE: byte := 123
  const CLOSE_BRACE: byte := 125
  const MINUS: byte := 45
  const LETTER_U: byte := 117

  // ----- Trees -----

  function Max(a: nat, b: nat): nat { if a < b then b else a }

  /** Nesting of arrays and objects. */
  function Depth(j: Json): nat
    decreases j, 0
  {
    match j
    case Array(items) => 1 + ItemsDepth(items)
    case Object(members) => 1 + MembersDepth(members)
    case _ => 0
  }

  function ItemsDepth(items: seq<Json>): nat
    decreases items, 0
  {
    if items == [] then 0 else Max(Depth(items[0]), ItemsDepth(items[1..]))
  }

  function MembersDepth(members: seq<Member>): nat
    decreases members, 0
  {
    if members == [] then 0 else Max(Depth(members[0].value), MembersDepth(members[1..]))
  }

  /** A C string; in ASCII style it must also be well-formed UTF-8. */
  predicate GoodString(s: Bytes, ascii: bool) {
    NulFree(s) && (ascii ==> WellFormed(s))
  }

  /** Trees a caller can build and print: int numbers, C strings. */
  predicate Printable(j: Json, ascii: bool)
    decreases j, 0
  {
    match j
    case Number(n) => INT_MIN <= n <= INT_MAX
    case String(s) => GoodString(s, ascii)
    case Array(items) => forall i :: 0 <= i < |items| ==> Printable(items[i], ascii)
    case Object(members) =>
      forall i :: 0 <= i < |members| ==> GoodString(members[i].key, ascii) && Printable(members[i].value, ascii)
    case _ => true
  }

  // ----- Numbers -----

  function Decimal(n: nat): (r: Bytes)
    ensures |r| >= 1
    ensures forall i :: 0 <= i < |r| ==> 48 <= r[i] <= 57
  {
    if n < 10 then [48 + n] else Decimal(n / 10) + [48 + n % 10]
  }

  /** printf's %d. */
  function IntText(n: int): (r: Bytes)
    ensures |r| >= 1
  {
    if n < 0 then [MINUS] + Decimal(-n) else Decimal(n)
  }

  // ----- Strings -----

  /** The escaped form of one byte of a string. */
  function EscapeByte(c: byte): (r: Bytes)
    ensures 1 <= |r| <= 6
  {
    if c > 31 && c != QUOTE && c != BACKSLASH then [c]
    else if c == BACKSLASH then [BACKSLASH, BACKSLASH]
    else if c == QUOTE then [BACKSLASH, QUOTE]
    else if c == 8 then [BACKSLASH, 98]
    else if c == 12 then [BACKSLASH, 102]
    else if c == NEWLINE then [BACKSLASH, 110]
    else if c == RETURN then [BACKSLASH, 114]
    else if c == TAB then [BACKSLASH, 116]
    else [BACKSLASH, LETTER_U] + FourHex(c, false)
  }

  function EscapeString(s: Bytes): Bytes {
    if s == [] then [] else EscapeByte(s[0]) + EscapeString(s[1..])
  }

  // ----- The ASCII rewrite of a printed text -----

  /** The one or two \uXXXX literals for a code point (RFC 2781, section 2.1). */
  function UnicodeLiteral(cp: nat): (r: Bytes)
    requires cp < 0x200000
    ensures |r| == if cp <= 0xFFFF then 6 else 12
  {
    if cp <= 0xFFFF then [BACKSLASH, LETTER_U] + FourHex(cp, true)
    else
      var v := cp - 0x10000;
      [BACKSLASH, LETTER_U] + FourHex(0xD800 + v / 1024, true) +
      [BACKSLASH, LETTER_U] + FourHex(0xDC00 + v % 1024, true)
  }

  /** Number of continuation bytes the lead byte asks for, 0 for none. */
  function Trail(c: byte): (n: nat)
    ensures n <= 3
  {
    if 0xC0 <= c < 0xE0 then 1
    else if 0xE0 <= c < 0xF0 then 2
    else if 0xF0 <= c < 0xF8 then 3
    else 0
  }

  /** The rewriter's own test: lead byte, enough bytes left, continuation bytes. */
  predicate Multibyte(s: Bytes) {
    |s| > 0 && Trail(s[0]) > 0 && Trail(s[0]) < |s| &&
    forall k :: 1 <= k <= Trail(s[0]) ==> Tail(s[k])
  }

  function AsciiRewrite(s: Bytes): Bytes {
    if s == [] then []
    else if Multibyte(s) then
      UnicodeLiteral(CodePoint(s, Trail(s[0]) + 1)) + AsciiRewrite(s[Trail(s[0]) + 1..])
    else [s[0]] + AsciiRewrite(s[1..])
  }

  /** The characters between the quotes of a printed string. */
  function StringBody(s: Bytes, ascii: bool): Bytes {
    if ascii then AsciiRewrite(EscapeString(s)) else EscapeString(s)
  }

  function StringText(s: Bytes, ascii: bool): (r: Bytes)
    ensures |r| >= 2 && r[0] == QUOTE
  {
    [QUOTE] + StringBody(s, ascii) + [QUOTE]
  }

  // ----- The serializer -----

  function Tabs(n: nat): (r: Bytes)
    ensures |r| == n && forall i :: 0 <= i < n ==> r[i] == TAB
  {
    if n == 0 then [] else [TAB] + Tabs(n - 1)
  }

  function Newline(st: Style): Bytes { if st.pretty then [NEWLINE] else [] }

  function Indent(st: Style, d: nat): Bytes { if st.pretty then Tabs(d) else [] }

  function ItemSeparator(st: Style): Bytes { if st.pretty then [COMMA, SPACE] else [COMMA] }

  function KeySeparator(st: Style): Bytes { if st.pretty then [COLON, TAB] else [COLON] }

  function Text(j: Json, d: nat, st: Style): (r: Bytes)
    ensures |r| >= 1
    decreases j, 0
  {
    match j
    case Null => NULL_TEXT
    case False => FALSE_TEXT
    case True => TRUE_TEXT
    case Number(n) => IntText(n)
    case String(s) => StringText(s, st.ascii)
    case Array(items) => [OPEN_BRACKET] + ItemsText(items, d + 1, st) + [CLOSE_BRACKET]
    case Object(members) =>
      [OPEN_BRACE] + Newline(st) + MembersText(members, d + 1, st) + Indent(st, d) + [CLOSE_BRACE]
  }

  function ItemsText(items: seq<Json>, d: nat, st: Style): Bytes
    decreases items, 0
  {
    if items == [] then []
    else Text(items[0], d, st) + (if |items| > 1 then ItemSeparator(st) else []) + ItemsText(items[1..], d, st)
  }

  function MembersText(members: seq<Member>, d: nat, st: Style): Bytes
    decreases members, 0
  {
    if members == [] then []
    else MemberText(members[0], d, st, |members| > 1) + MembersText(members[1..], d, st)
  }

  function MemberText(m: Member, d: nat, st: Style, more: bool): (r: Bytes)
    ensures |r| >= 3
    decreases m, 0
  {
    Indent(st, d) + StringText(m.key, st.ascii) + KeySeparator(st) + Text(m.value, d, st) +
    (if more then [COMMA] else []) + Newline(st)
  }
}
