/** Parsing a printed text gives the tree back, in every layout. */
module RoundTrip {
  import opened Bytes
  import opened Utf8
  import opened Json
  import opened Grammar
  import opened Reading
  import opened Writing
  import R = Rfc8259

  // ----- Numbers and strings -----

  lemma NumberRoundTrip(s: Bytes, off: nat, n: int)
    requires INT_MIN <= n <= INT_MAX && At(s, off, IntText(n)) && Ends(s, off + |IntText(n)|)
    ensures ParseNumber(s, off) == Parsed(Number(n), off + |IntText(n)|)
  {
    NumeralIsDerived(n);
    NumberIsRead(s, off, NumeralOf(n), n);
  }

  lemma StringRoundTrip(s: Bytes, off: nat, str: Bytes, ascii: bool)
    requires GoodString(str, ascii) && At(s, off, StringText(str, ascii))
    ensures ParseString(s, off) == Parsed(str, off + |StringText(str, ascii)|)
  {
    StringIsDerived(str, ascii);
    StringIsRead(s, off, CharsOf(str, ascii));
  }

  /** The one or two literals of a code point are read as its encoding, wherever they stand. */
  lemma ReadsUnicodeLiteral(cp: nat)
    requires Scalar(cp)
    ensures Reads(UnicodeLiteral(cp), Encode(cp))
  {
    EncodesScalar(cp);
    LiteralOfIs(cp, Encode(cp));
    ReadsChar(LiteralOf(cp, Encode(cp)));
  }

  lemma EncodesScalar(cp: nat)
    requires Scalar(cp)
    ensures R.Encodes(Encode(cp), cp)
  {
    SixBits(cp / 64, cp % 64);
  }

  // ----- Trees -----

  /** A printed value is read back at any offset of any text and at any depth that fits the limit. */
  lemma ValueRoundTrip(s: Bytes, off: nat, j: Json, d: nat, st: Style, depth: nat)
    requires Printable(j, st.ascii) && Depth(j) + depth <= NESTING_LIMIT
    requires At(s, off, Text(j, d, st)) && Ends(s, off + |Text(j, d, st)|)
    ensures ParseValue(s, off, depth) == Parsed(j, off + |Text(j, d, st)|)
  {
    hide ParseValue, Text, Printable, Depth, Derivation, R.Proper, R.ValueText, R.Within, R.Meaning, Formatted, Ends;
    var v := Derivation(j, d, st);
    ValueIsDerived(j, d, st);
    WithinMore(v, Depth(j), 1000 - depth);
    ValueIsRead(v, s, off, depth);
  }

  /** Parsing a printed tree of depth at most 1000 gives the tree back, for pretty and
      compact text, for raw and for ASCII-only strings, with and without the check that
      nothing but the terminator follows. */
  lemma DocumentRoundTrip(j: Json, st: Style, requireTerminator: bool)
    requires Printable(j, st.ascii) && Depth(j) <= NESTING_LIMIT
    ensures ParseText(Text(j, 0, st), requireTerminator) == Parsed(j, |Text(j, 0, st)|)
  {
    hide ParseText, Text, Printable, Depth, Derivation, R.Proper, R.ValueText, R.Within, R.Meaning, Formatted;
    var v := Derivation(j, 0, st);
    ValueIsDerived(j, 0, st);
    WithinMore(v, Depth(j), 1000);
    DocumentIsRead([], v, []);
    assert [] + R.ValueText(v) + [] == R.ValueText(v);
  }

  // ----- The rewritten body -----

  lemma RewritesStringText(s: Bytes)
    requires GoodString(s, true)
    ensures Rewrites(StringText(s, false), StringText(s, true))
  {
    CharsAreDerived(s, true);
    RewritesAscii([QUOTE]);
    RewritesConcat([QUOTE], [QUOTE], StringBody(s, false), StringBody(s, true));
    RewritesConcat([QUOTE] + StringBody(s, false), [QUOTE] + StringBody(s, true), [QUOTE], [QUOTE]);
  }

  lemma {:induction false} RewritesText(j: Json, d: nat, pretty: bool)
    requires Printable(j, true)
    ensures Rewrites(Text(j, d, Style(pretty, false)), Text(j, d, Style(pretty, true)))
    decreases j, 0
  {
    var raw, ascii := Style(pretty, false), Style(pretty, true);
    match j
    case Number(n) =>
      RewritesAscii(IntText(n));
    case String(s) => RewritesStringText(s);
    case Array(items) =>
      RewritesItems(items, d + 1, pretty);
      RewritesAscii([OPEN_BRACKET]);
      RewritesAscii([CLOSE_BRACKET]);
      RewritesConcat([OPEN_BRACKET], [OPEN_BRACKET], ItemsText(items, d + 1, raw), ItemsText(items, d + 1, ascii));
      RewritesConcat([OPEN_BRACKET] + ItemsText(items, d + 1, raw), [OPEN_BRACKET] + ItemsText(items, d + 1, ascii),
                     [CLOSE_BRACKET], [CLOSE_BRACKET]);
    case Object(members) =>
      RewritesMembers(members, d + 1, pretty);
      var open := [OPEN_BRACE] + Newline(raw);
      var a, b := MembersText(members, d + 1, raw), MembersText(members, d + 1, ascii);
      RewritesAscii(open);
      RewritesAscii(Indent(raw, d));
      RewritesAscii([CLOSE_BRACE]);
      RewritesConcat(open, open, a, b);
      RewritesConcat(open + a, open + b, Indent(raw, d), Indent(raw, d));
      RewritesConcat(open + a + Indent(raw, d), open + b + Indent(raw, d), [CLOSE_BRACE], [CLOSE_BRACE]);
    case _ =>
      RewritesAscii(Text(j, d, raw));
  }

  lemma {:induction false} RewritesItems(items: seq<Json>, d: nat, pretty: bool)
    requires forall i :: 0 <= i < |items| ==> Printable(items[i], true)
    ensures Rewrites(ItemsText(items, d, Style(pretty, false)), ItemsText(items, d, Style(pretty, true)))
    decreases items, 0
  {
    if items == [] {
      RewritesAscii([]);
    } else {
      var raw, ascii := Style(pretty, false), Style(pretty, true);
      var sep := if |items| > 1 then ItemSeparator(raw) else [];
      RewritesText(items[0], d, pretty);
      RewritesAscii(sep);
      RewritesItems(items[1..], d, pretty);
      RewritesConcat(Text(items[0], d, raw), Text(items[0], d, ascii), sep, sep);
      RewritesConcat(Text(items[0], d, raw) + sep, Text(items[0], d, ascii) + sep,
                     ItemsText(items[1..], d, raw), ItemsText(items[1..], d, ascii));
    }
  }

  lemma {:induction false} RewritesMember(m: Member, d: nat, pretty: bool, more: bool)
    requires GoodString(m.key, true) && Printable(m.value, true)
    ensures Rewrites(MemberText(m, d, Style(pretty, false), more), MemberText(m, d, Style(pretty, true), more))
    decreases m, 1
  {
    var raw, ascii := Style(pretty, false), Style(pretty, true);
    var indent, sep, comma, nl := Indent(raw, d), KeySeparator(raw), if more then [COMMA] else [], Newline(raw);
    RewritesAscii(indent); RewritesAscii(sep); RewritesAscii(comma); RewritesAscii(nl);
    RewritesStringText(m.key);
    RewritesText(m.value, d, pretty);
    var k, k' := StringText(m.key, false), StringText(m.key, true);
    var v, v' := Text(m.value, d, raw), Text(m.value, d, ascii);
    RewritesConcat(indent, indent, k, k');
    RewritesConcat(indent + k, indent + k', sep, sep);
    RewritesConcat(indent + k + sep, indent + k' + sep, v, v');
    RewritesConcat(indent + k + sep + v, indent + k' + sep + v', comma, comma);
    RewritesConcat(indent + k + sep + v + comma, indent + k' + sep + v' + comma, nl, nl);
  }

  lemma {:induction false} RewritesMembers(members: seq<Member>, d: nat, pretty: bool)
    requires forall i :: 0 <= i < |members| ==> GoodString(members[i].key, true) && Printable(members[i].value, true)
    ensures Rewrites(MembersText(members, d, Style(pretty, false)), MembersText(members, d, Style(pretty, true)))
    decreases members, 0
  {
    if members == [] {
      RewritesAscii([]);
    } else {
      var raw, ascii := Style(pretty, false), Style(pretty, true);
      RewritesMember(members[0], d, pretty, |members| > 1);
      RewritesMembers(members[1..], d, pretty);
      RewritesConcat(MemberText(members[0], d, raw, |members| > 1), MemberText(members[0], d, ascii, |members| > 1),
                     MembersText(members[1..], d, raw), MembersText(members[1..], d, ascii));
    }
  }

  /** The rewritten body of a tree with well-formed UTF-8 strings is pure ASCII and
      parses to the same tree. */
  lemma RewrittenBodyMeansTheSame(j: Json, pretty: bool, requireTerminator: bool)
    requires Printable(j, true) && Depth(j) <= NESTING_LIMIT
    ensures var body := AsciiRewrite(Text(j, 0, Style(pretty, false)));
      && AllAscii(body)
      && ParseText(body, requireTerminator) == Parsed(j, |body|)
  {
    hide Text, ParseDocument;
    RewritesText(j, 0, pretty);
    var raw := Text(j, 0, Style(pretty, false));
    assert raw + [] == raw;
    assert AsciiRewrite(raw + []) == Text(j, 0, Style(pretty, true)) + AsciiRewrite([]);
    assert AsciiRewrite(raw) == Text(j, 0, Style(pretty, true));
    DocumentRoundTrip(j, Style(pretty, true), requireTerminator);
  }
}
