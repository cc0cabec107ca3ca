/** The one read behind the buffer: parse_object hands the end of the buffer to parse_string. */
module Overread {
  import opened Bytes
  import opened Json
  import opened Grammar

  // The functions follow the parser down to the place; parse_string is the only one that reads its first byte
  // without a test.

  predicate InValue(s: Bytes, off: nat, depth: nat)
    requires off <= |s| && depth <= NESTING_LIMIT
    decreases |s| - off, 1
  {
    && !Starts(s, off, NULL_TEXT) && !Starts(s, off, FALSE_TEXT) && !Starts(s, off, TRUE_TEXT)
    && (Sees(s, off, OPEN_BRACKET) || Sees(s, off, OPEN_BRACE)) && depth < NESTING_LIMIT
    && var first := SkipSpace(s, off + 1);
      && first < |s|
      && if s[off] == OPEN_BRACKET then s[first] != CLOSE_BRACKET && InItems(s, first, depth + 1)
         else s[first] != CLOSE_BRACE && InMembers(s, first, depth + 1)
  }

  predicate InItems(s: Bytes, off: nat, depth: nat)
    requires off <= |s| && depth <= NESTING_LIMIT
    decreases |s| - off, 2
  {
    var start := SkipSpace(s, off);
    || InValue(s, start, depth)
    || match ParseValue(s, start, depth)
       case Rejected => false
       case Parsed(_, end) =>
         var next := SkipSpace(s, end);
         Sees(s, next, COMMA) && InItems(s, next + 1, depth)
  }

  predicate InMembers(s: Bytes, off: nat, depth: nat)
    requires off <= |s| && depth <= NESTING_LIMIT
    decreases |s| - off, 3
  {
    || SkipSpace(s, off) == |s|
    || InMember(s, off, depth)
    || match ParseMember(s, off, depth)
       case Rejected => false
       case Parsed(_, end) =>
         var next := SkipSpace(s, end);
         Sees(s, next, COMMA) && InMembers(s, next + 1, depth)
  }

  predicate InMember(s: Bytes, off: nat, depth: nat)
    requires off <= |s| && depth <= NESTING_LIMIT
    decreases |s| - off, 2
  {
    match ParseString(s, SkipSpace(s, off))
    case Rejected => false
    case Parsed(_, keyEnd) =>
      var colon := SkipSpace(s, keyEnd);
      Sees(s, colon, COLON) && InValue(s, SkipSpace(s, colon + 1), depth)
  }

  /** The parse of the buffer reads the byte behind it. */
  predicate ReadsBehind(s: Bytes) {
    s != [] && InValue(s, SkipSpace(s, Start(s)), 0)
  }

  predicate LastIs(s: Bytes, c: byte) {
    s != [] && s[|s| - 1] == c
  }

  /** A read behind the buffer needs a comma as its last byte, and the parse fails. */
  lemma ReadsBehindNeedsComma(s: Bytes)
    requires ReadsBehind(s)
    ensures LastIs(s, COMMA)
    ensures ParseDocument(s, false).Rejected? && ParseDocument(s, true).Rejected?
  {
    ValueNeedsComma(s, SkipSpace(s, Start(s)), 0);
  }

  lemma {:induction false} ValueNeedsComma(s: Bytes, off: nat, depth: nat)
    requires off <= |s| && depth <= NESTING_LIMIT && InValue(s, off, depth)
    ensures LastIs(s, COMMA) && ParseValue(s, off, depth).Rejected?
    decreases |s| - off, 1
  {
    var first := SkipSpace(s, off + 1);
    if s[off] == OPEN_BRACKET {
      ItemsNeedComma(s, first, depth + 1);
    } else {
      MembersNeedComma(s, first, depth + 1);
    }
  }

  lemma {:induction false} ItemsNeedComma(s: Bytes, off: nat, depth: nat)
    requires off <= |s| && depth <= NESTING_LIMIT && InItems(s, off, depth)
    ensures LastIs(s, COMMA) && ParseItems(s, off, depth).Rejected?
    decreases |s| - off, 2
  {
    hide InValue, SkipSpace;
    var start := SkipSpace(s, off);
    if InValue(s, start, depth) {
      ValueNeedsComma(s, start, depth);
    } else {
      ItemsNeedComma(s, SkipSpace(s, ParseValue(s, start, depth).end) + 1, depth);
    }
  }

  /** Behind the last comma, or at a byte that is there. */
  lemma {:induction false} MembersNeedComma(s: Bytes, off: nat, depth: nat)
    requires off <= |s| && depth <= NESTING_LIMIT && InMembers(s, off, depth)
    requires off == |s| ==> LastIs(s, COMMA)
    ensures LastIs(s, COMMA) && ParseMembers(s, off, depth).Rejected?
    decreases |s| - off, 3
  {
    hide InMember, ParseMember;
    if SkipSpace(s, off) == |s| {
      assert off == |s|;
      NothingToRead(s, depth);
    } else if InMember(s, off, depth) {
      MemberNeedsComma(s, off, depth);
    } else {
      var next := SkipSpace(s, ParseMember(s, off, depth).end);
      MembersNeedComma(s, next + 1, depth);
    }
  }

  lemma NothingToRead(s: Bytes, depth: nat)
    requires depth <= NESTING_LIMIT
    ensures ParseMember(s, |s|, depth).Rejected?
  {
  }

  lemma {:induction false} MemberNeedsComma(s: Bytes, off: nat, depth: nat)
    requires off <= |s| && depth <= NESTING_LIMIT && InMember(s, off, depth)
    ensures LastIs(s, COMMA) && ParseMember(s, off, depth).Rejected?
    decreases |s| - off, 2
  {
    hide InValue;
    var colon := SkipSpace(s, ParseString(s, SkipSpace(s, off)).end);
    ValueNeedsComma(s, SkipSpace(s, colon + 1), depth);
  }

  /** Text that brings its terminator is never read behind it. */
  lemma TerminatedIsSafe(text: Bytes)
    ensures !ReadsBehind(text + [NUL])
  {
    if ReadsBehind(text + [NUL]) {
      ReadsBehindNeedsComma(text + [NUL]);
    }
  }

  /** The text {"":null, without a terminator. */
  const TRAILING: Bytes := [123, 34, 34, 58, 110, 117, 108, 108, 44]

  lemma TrailingCommaReadsBehind()
    ensures ReadsBehind(TRAILING)
  {
    var s := TRAILING;
    assert ClosingQuote(s, 2) == Some(2) && Unescape(s, 2, 2) == Some([]);
    assert ParseString(s, 1) == Parsed([], 3);
    assert s[4..8] == NULL_TEXT && ParseValue(s, 4, 1) == Parsed(Null, 8);
    assert SkipSpace(s, 1) == 1 && SkipSpace(s, 3) == 3 && SkipSpace(s, 4) == 4 && SkipSpace(s, 8) == 8;
    assert ParseMember(s, 1, 1) == Parsed(Member([], Null), 8);
    assert InMembers(s, 9, 1);
    assert InMembers(s, 1, 1);
  }
}
