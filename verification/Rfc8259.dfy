/** JSON as RFC 8259 defines it: derivations, their text and their value. Every byte is written out; nothing of the
    parser or the printer is used. */
module Rfc8259 {
  import opened Bytes
  import Json

  // ----- Section 2: structural characters and white space -----

  /** Space, horizontal tab, line feed and carriage return. */
  predicate Ws(s: Bytes) {
    forall i :: 0 <= i < |s| ==> s[i] == 32 || s[i] == 9 || s[i] == 10 || s[i] == 13
  }

  // ----- Section 7: strings -----

  /** A byte of an unescaped character, a two-character escape, one \u literal, or two for a surrogate pair. */
  datatype Char =
    | Plain(c: byte)
    | Short(c: byte)
    | Unit(digits: Bytes, bytes: Bytes)
    | Pair(high: Bytes, low: Bytes, bytes: Bytes)

  predicate Hexadecimal(h: Bytes) {
    |h| == 4 && forall i :: 0 <= i < 4 ==> 48 <= h[i] <= 57 || 65 <= h[i] <= 70 || 97 <= h[i] <= 102
  }

  function HexDigit(c: byte): int {
    var n := c as int;
    if n <= 57 then n - 48 else if n <= 70 then n - 55 else n - 87
  }

  function Code(h: Bytes): int
    requires |h| == 4
  {
    HexDigit(h[0]) * 4096 + HexDigit(h[1]) * 256 + HexDigit(h[2]) * 16 + HexDigit(h[3])
  }

  /** The bytes are the UTF-8 encoding of the number (RFC 3629, section 3). */
  predicate Encodes(b: Bytes, cp: int) {
    || (|b| == 1 && b[0] < 0x80 && cp == b[0])
    || (|b| == 2 && 0xC0 <= b[0] < 0xE0 && 0x80 <= b[1] < 0xC0
        && cp == (b[0] as int - 0xC0) * 64 + (b[1] as int - 0x80) >= 0x80)
    || (|b| == 3 && 0xE0 <= b[0] < 0xF0 && 0x80 <= b[1] < 0xC0 && 0x80 <= b[2] < 0xC0
        && cp == (b[0] as int - 0xE0) * 4096 + (b[1] as int - 0x80) * 64 + (b[2] as int - 0x80) >= 0x800)
    || (|b| == 4 && 0xF0 <= b[0] < 0xF8 && 0x80 <= b[1] < 0xC0 && 0x80 <= b[2] < 0xC0 && 0x80 <= b[3] < 0xC0
        && cp == (b[0] as int - 0xF0) * 262144 + (b[1] as int - 0x80) * 4096 + (b[2] as int - 0x80) * 64
                 + (b[3] as int - 0x80)
        && 0x10000 <= cp <= 0x10FFFF)
  }

  /** Lone surrogates, about which section 8.2 leaves the result open, are left out. */
  predicate ProperChar(c: Char) {
    match c
    case Plain(x) => x >= 32 && x != 34 && x != 92
    case Short(x) => x == 34 || x == 92 || x == 47 || x == 98 || x == 102 || x == 110 || x == 114 || x == 116
    case Unit(h, b) => Hexadecimal(h) && !(0xD800 <= Code(h) <= 0xDFFF) && Encodes(b, Code(h))
    case Pair(h, l, b) =>
      && Hexadecimal(h) && Hexadecimal(l) && 0xD800 <= Code(h) <= 0xDBFF && 0xDC00 <= Code(l) <= 0xDFFF
      && Encodes(b, 0x10000 + (Code(h) - 0xD800) * 1024 + (Code(l) - 0xDC00))
  }

  function CharText(c: Char): Bytes {
    match c
    case Plain(x) => [x]
    case Short(x) => [92, x]
    case Unit(h, _) => [92, 117] + h
    case Pair(h, l, _) => ([92, 117] + h) + ([92, 117] + l)
  }

  function CharBytes(c: Char): Bytes {
    match c
    case Plain(x) => [x]
    case Short(x) =>
      if x == 98 then [8] else if x == 102 then [12] else if x == 110 then [10] else if x == 114 then [13]
      else if x == 116 then [9] else [x]
    case Unit(_, b) => b
    case Pair(_, _, b) => b
  }

  predicate ProperChars(cs: seq<Char>) {
    forall c <- cs :: ProperChar(c)
  }

  function CharsText(cs: seq<Char>): Bytes {
    if cs == [] then [] else CharText(cs[0]) + CharsText(cs[1..])
  }

  function CharsBytes(cs: seq<Char>): Bytes {
    if cs == [] then [] else CharBytes(cs[0]) + CharsBytes(cs[1..])
  }

  function StringText(cs: seq<Char>): Bytes {
    [34] + CharsText(cs) + [34]
  }

  // ----- Section 6: numbers -----

  datatype Exponent = NoExponent | Exponent(letter: byte, sign: Bytes, digits: Bytes)

  /** The parts of a number; without a fraction there are no fraction digits. */
  datatype Numeral = Numeral(minus: bool, whole: Bytes, fraction: Bytes, exponent: Exponent)

  predicate Digits(d: Bytes) {
    forall i :: 0 <= i < |d| ==> 48 <= d[i] <= 57
  }

  predicate ProperExponent(e: Exponent) {
    match e
    case NoExponent => true
    case Exponent(letter, sign, digits) =>
      && (letter == 101 || letter == 69) && (sign == [] || sign == [43] || sign == [45])
      && digits != [] && Digits(digits)
  }

  predicate ProperNumeral(n: Numeral) {
    && n.whole != [] && Digits(n.whole) && (n.whole[0] == 48 ==> |n.whole| == 1)
    && Digits(n.fraction) && ProperExponent(n.exponent)
  }

  function ExponentText(e: Exponent): Bytes {
    match e
    case NoExponent => []
    case Exponent(letter, sign, digits) => [letter] + sign + digits
  }

  function NumeralText(n: Numeral): Bytes {
    (if n.minus then [45] else []) + n.whole + (if n.fraction == [] then [] else [46] + n.fraction) +
    ExponentText(n.exponent)
  }

  function DigitsValue(d: Bytes): int {
    if d == [] then 0 else DigitsValue(d[..|d| - 1]) * 10 + (d[|d| - 1] as int - 48)
  }

  function ExponentValue(e: Exponent): int {
    match e
    case NoExponent => 0
    case Exponent(_, sign, digits) => if sign == [45] then -DigitsValue(digits) else DigitsValue(digits)
  }

  function TenTo(k: nat): int {
    if k == 0 then 1 else 10 * TenTo(k - 1)
  }

  /** The number is exactly the int. */
  predicate IsInt(n: Numeral, v: int) {
    var mantissa := DigitsValue(n.whole + n.fraction);
    var magnitude := if n.minus then -v else v;
    var scale := ExponentValue(n.exponent) - |n.fraction|;
    if scale >= 0 then magnitude == mantissa * TenTo(scale) else mantissa == magnitude * TenTo(-scale)
  }

  // ----- Sections 3, 4 and 5: values, objects and arrays -----

  /** The blank of a container stands between its brackets when it is empty. */
  datatype Value =
    | NullName
    | FalseName
    | TrueName
    | Number(numeral: Numeral, v: int)
    | String(chars: seq<Char>)
    | Array(blank: Bytes, items: seq<Item>)
    | Object(blank: Bytes, members: seq<Member>)

  /** An item with the white space around it. */
  datatype Item = Item(before: Bytes, value: Value, after: Bytes)

  /** A member with the white space around its key and its value. */
  datatype Member = Member(before: Bytes, key: seq<Char>, behindKey: Bytes, beforeValue: Bytes, value: Value,
                           after: Bytes)

  predicate Proper(v: Value)
    decreases v, 0
  {
    match v
    case Number(n, i) => ProperNumeral(n) && IsInt(n, i)
    case String(cs) => ProperChars(cs)
    case Array(blank, items) =>
      Ws(blank) && forall i :: 0 <= i < |items| ==>
        Ws(items[i].before) && Proper(items[i].value) && Ws(items[i].after)
    case Object(blank, members) =>
      Ws(blank) && forall i :: 0 <= i < |members| ==>
        && Ws(members[i].before) && ProperChars(members[i].key) && Ws(members[i].behindKey)
        && Ws(members[i].beforeValue) && Proper(members[i].value) && Ws(members[i].after)
    case _ => true
  }

  function ValueText(v: Value): Bytes
    decreases v, 0
  {
    match v
    case NullName => [110, 117, 108, 108]
    case FalseName => [102, 97, 108, 115, 101]
    case TrueName => [116, 114, 117, 101]
    case Number(n, _) => NumeralText(n)
    case String(cs) => StringText(cs)
    case Array(blank, items) => [91] + (if items == [] then blank else ItemsText(items)) + [93]
    case Object(blank, members) => [123] + (if members == [] then blank else MembersText(members)) + [125]
  }

  function ItemText(i: Item): Bytes
    decreases i, 0
  {
    i.before + ValueText(i.value) + i.after
  }

  function ItemsText(items: seq<Item>): Bytes
    decreases items, 0
  {
    if items == [] then []
    else ItemText(items[0]) + (if |items| > 1 then [44] else []) + ItemsText(items[1..])
  }

  function MemberText(m: Member): Bytes
    decreases m, 0
  {
    m.before + StringText(m.key) + m.behindKey + [58] + m.beforeValue + ValueText(m.value) + m.after
  }

  function MembersText(members: seq<Member>): Bytes
    decreases members, 0
  {
    if members == [] then []
    else MemberText(members[0]) + (if |members| > 1 then [44] else []) + MembersText(members[1..])
  }

  /** The value the text stands for. */
  function Meaning(v: Value): Json.Json
    decreases v, 0
  {
    match v
    case NullName => Json.Null
    case FalseName => Json.False
    case TrueName => Json.True
    case Number(_, i) => Json.Number(i)
    case String(cs) => Json.String(CharsBytes(cs))
    case Array(_, items) => Json.Array(ItemsMeaning(items))
    case Object(_, members) => Json.Object(MembersMeaning(members))
  }

  function ItemsMeaning(items: seq<Item>): seq<Json.Json>
    decreases items, 0
  {
    if items == [] then [] else [Meaning(items[0].value)] + ItemsMeaning(items[1..])
  }

  function MembersMeaning(members: seq<Member>): seq<Json.Member>
    decreases members, 0
  {
    if members == [] then []
    else [Json.Member(CharsBytes(members[0].key), Meaning(members[0].value))] + MembersMeaning(members[1..])
  }

  // ----- What an implementation may limit (section 9) -----

  /** Nesting of at most that many arrays and objects; int numbers of at most 63 characters; strings without NUL. */
  predicate Within(v: Value, levels: int)
    decreases v, 0
  {
    match v
    case Number(n, i) => |NumeralText(n)| <= 63 && -2147483648 <= i <= 2147483647
    case String(cs) => 0 !in CharsBytes(cs)
    case Array(_, items) => levels > 0 && forall i :: 0 <= i < |items| ==> Within(items[i].value, levels - 1)
    case Object(_, members) =>
      levels > 0 && forall i :: 0 <= i < |members| ==>
        0 !in CharsBytes(members[i].key) && Within(members[i].value, levels - 1)
    case _ => true
  }
}
