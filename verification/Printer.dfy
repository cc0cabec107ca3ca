/** The printer: a growing (or preallocated) buffer that receives exactly the serialized text. */
module Printer {
  import opened Bytes
  import opened Utf8
  import opened Json
  import opened Nodes

  class PrintBuffer {
    var buffer: array<byte>
    var offset: nat
    var depth: nat
    const noalloc: bool
    const format: bool

    constructor (buffer: array<byte>, noalloc: bool, format: bool)
      requires buffer.Length <= INT_MAX
      ensures Valid() && this.buffer == buffer && offset == 0 && depth == 0
      ensures this.noalloc == noalloc && this.format == format
    {
      this.buffer, this.noalloc, this.format := buffer, noalloc, format;
      offset, depth := 0, 0;
    }

    /** Behind the offset sits at least one more byte, unless nothing was allocated yet. */
    ghost predicate Valid()
      reads this
    {
      buffer.Length <= INT_MAX && (if buffer.Length == 0 then offset == 0 else offset < buffer.Length)
    }

    /** The size the buffer can reach. */
    function Capacity(): nat
      reads this
    {
      if noalloc then buffer.Length else INT_MAX
    }

    /** What was printed before the offset. */
    ghost function Content(): Bytes
      requires Valid()
      reads this, buffer
    {
      buffer[..offset]
    }
  }

  /** The limit on the size stays; the printer may have grown its buffer. */
  ghost predicate Steady(p: PrintBuffer, capacity: nat)
    reads p
  {
    p.Valid() && p.Capacity() == capacity
  }

  /** The text t stands behind what was there before, ended by a NUL; the offset is at most at that NUL. */
  ghost predicate Holds(p: PrintBuffer, before: Bytes, t: Bytes)
    reads p`buffer, p`offset, p.buffer
  {
    && |before| + |t| < p.buffer.Length
    && p.buffer[..|before| + |t|] == before + t
    && p.buffer[|before| + |t|] == NUL
    && |before| <= p.offset <= |before| + |t|
  }

  /** The contract of every print function: it succeeds exactly when the text, its NUL and one more byte fit. */
  ghost predicate Printed(p: PrintBuffer, ok: bool, t: Bytes, before: Bytes, capacity: nat)
    reads p`buffer, p`offset, p.buffer
  {
    && ok == (|before| + |t| + 2 <= capacity)
    && (ok ==> Holds(p, before, t))
  }

  /** Like Printed, for a piece in the middle of a text: the offset has moved behind it. */
  ghost predicate Extended(p: PrintBuffer, ok: bool, t: Bytes, before: Bytes, capacity: nat)
    reads p, p.buffer
  {
    && ok == (|before| + |t| + 2 <= capacity)
    && (ok ==> p.Valid() && p.Content() == before + t)
  }

  /** ensure: room for needed bytes and one more behind the offset; nothing printed so far is lost. */
  method Ensure(p: PrintBuffer, needed: nat) returns (ok: bool)
    requires p.Valid()
    modifies p`buffer
    ensures Steady(p, old(p.Capacity())) && p.Content() == old(p.Content())
    ensures ok == (p.offset + needed + 1 <= p.Capacity())
    ensures ok ==> p.offset + needed + 1 <= p.buffer.Length
    ensures p.buffer == old(p.buffer) || (fresh(p.buffer) && !p.noalloc)
  {
    if p.buffer.Length > 0 && p.offset >= p.buffer.Length {
      return false;
    }
    if needed > INT_MAX {
      return false;
    }
    var total := needed + p.offset + 1;
    if total <= p.buffer.Length {
      return true;
    }
    if p.noalloc {
      return false;
    }
    var newsize: nat;
    if total > INT_MAX / 2 {
      if total <= INT_MAX {
        newsize := INT_MAX;
      } else {
        return false;
      }
    } else {
      newsize := total * 2;
    }
    var grown := new byte[newsize];
    Copy(p.buffer, grown);
    p.buffer := grown;
    ok := true;
  }

  /** realloc keeps the old bytes. */
  method Copy(source: array<byte>, target: array<byte>)
    requires source != target && source.Length <= target.Length
    modifies target
    ensures target[..source.Length] == source[..]
  {
    var i := 0;
    while i < source.Length
      invariant 0 <= i <= source.Length
      invariant target[..i] == source[..i]
    {
      target[i] := source[i];
      i := i + 1;
    }
  }

  /** Copies bytes behind what was printed (strcpy, memcpy, or stores through a pointer). */
  method Write(p: PrintBuffer, t: Bytes)
    requires p.Valid() && p.offset + |t| <= p.buffer.Length
    modifies p.buffer
    ensures p.buffer[..p.offset + |t|] == old(p.Content()) + t
  {
    var i := 0;
    while i < |t|
      invariant 0 <= i <= |t|
      invariant p.buffer[..p.offset + i] == old(p.Content()) + t[..i]
    {
      p.buffer[p.offset + i] := t[i];
      i := i + 1;
      assert t[..i] == t[..i - 1] + [t[i - 1]];
    }
    assert t[..|t|] == t;
  }

  /** update_offset: to the NUL that ends the text just printed. */
  method UpdateOffset(p: PrintBuffer, ghost before: Bytes, ghost t: Bytes)
    requires p.Valid() && Holds(p, before, t) && NulFree(t)
    modifies p`offset
    ensures p.Valid() && p.offset == |before| + |t| && p.Content() == before + t
  {
    ghost var start := |before|;
    forall k | start <= k < start + |t| ensures p.buffer[k] != NUL {
      assert p.buffer[..start + |t|][k] == (before + t)[k];
    }
    while p.buffer[p.offset] != NUL
      invariant start <= p.offset <= start + |t|
      decreases start + |t| - p.offset
    {
      p.offset := p.offset + 1;
    }
  }

  /** Room for needed bytes, then the bytes t without a NUL; the offset moves behind them. */
  method Emit(p: PrintBuffer, t: Bytes, needed: nat) returns (ok: bool)
    requires p.Valid() && |t| <= needed
    modifies p, p.buffer
    ensures Steady(p, old(p.Capacity())) && p.depth == old(p.depth)
    ensures ok == (old(p.offset) + needed + 1 <= old(p.Capacity()))
    ensures ok ==> p.Content() == old(p.Content()) + t
    ensures p.buffer == old(p.buffer) || (fresh(p.buffer) && !p.noalloc)
  {
    ok := Ensure(p, needed);
    if ok {
      Write(p, t);
      p.offset := p.offset + |t|;
    }
  }

  /** Room for t and its NUL, then both; the offset stays in front. */
  method EmitTerminated(p: PrintBuffer, t: Bytes) returns (ok: bool)
    requires p.Valid()
    modifies p, p.buffer
    ensures Steady(p, old(p.Capacity())) && p.depth == old(p.depth)
    ensures Printed(p, ok, t, old(p.Content()), old(p.Capacity())) && p.offset == old(p.offset)
    ensures p.buffer == old(p.buffer) || (fresh(p.buffer) && !p.noalloc)
  {
    ok := Ensure(p, |t| + 1);
    if ok {
      ghost var before := p.Content();
      Write(p, t + [NUL]);
      assert before + (t + [NUL]) == before + t + [NUL];
      assert p.buffer[..|before| + |t| + 1][|before| + |t|] == NUL;
      assert p.buffer[..|before| + |t|] == (before + t + [NUL])[..|before| + |t|];
    }
  }

  /** The text t and its NUL; the offset moves to the NUL. */
  method EmitAndAdvance(p: PrintBuffer, t: Bytes) returns (ok: bool)
    requires p.Valid()
    modifies p, p.buffer
    ensures Steady(p, old(p.Capacity())) && p.depth == old(p.depth)
    ensures Printed(p, ok, t, old(p.Content()), old(p.Capacity()))
    ensures Extended(p, ok, t, old(p.Content()), old(p.Capacity()))
    ensures p.buffer == old(p.buffer) || (fresh(p.buffer) && !p.noalloc)
  {
    ok := EmitTerminated(p, t);
    if ok {
      p.offset := p.offset + |t|;
    }
  }

  /** print_number for an integer: sprintf("%d"), then the copy. */
  method PrintNumber(item: Node, p: PrintBuffer) returns (ok: bool)
    requires p.Valid()
    modifies p, p.buffer
    ensures Steady(p, old(p.Capacity())) && p.depth == old(p.depth)
    ensures Printed(p, ok, IntText(item.number), old(p.Content()), old(p.Capacity()))
    ensures p.buffer == old(p.buffer) || (fresh(p.buffer) && !p.noalloc)
  {
    hide IntText;
    ok := EmitAndAdvance(p, IntText(item.number));
  }

  // ----- Strings -----

  /** The first pass of print_string_ptr: how many bytes escaping adds. */
  method CountEscapes(input: Bytes) returns (extra: nat)
    ensures |EscapeString(input)| == |input| + extra
    ensures extra == 0 ==> EscapeString(input) == input
  {
    extra := 0;
    var i := 0;
    assert input[0..] == input;
    while i < |input|
      invariant 0 <= i <= |input|
      invariant |EscapeString(input)| == i + extra + |EscapeString(input[i..])|
      invariant extra == 0 ==> EscapeString(input) == input[..i] + EscapeString(input[i..])
    {
      var c := input[i];
      EscapeStep(input, i);
      if c == QUOTE || c == BACKSLASH || c == 8 || c == 12 || c == NEWLINE || c == RETURN || c == TAB {
        extra := extra + 1;
      } else if c < 32 {
        extra := extra + 5;
      } else {
        assert input[..i] + ([c] + EscapeString(input[i + 1..])) == input[..i + 1] + EscapeString(input[i + 1..]);
      }
      i := i + 1;
    }
    assert input[|input|..] == [];
    assert input[..|input|] + [] == input;
  }

  lemma EscapeStep(input: Bytes, i: nat)
    requires i < |input|
    ensures EscapeString(input[i..]) == EscapeByte(input[i]) + EscapeString(input[i + 1..])
  {
    assert input[i..][1..] == input[i + 1..];
  }

  /** The second pass: escapes every byte into the room that was ensured. */
  method WriteEscaped(p: PrintBuffer, input: Bytes, ghost before: Bytes)
    requires p.Valid() && |before| == p.offset + 1
    requires p.offset + |EscapeString(input)| + 3 <= p.buffer.Length
    requires p.buffer[..p.offset + 1] == before
    modifies p.buffer
    ensures p.buffer[..p.offset + 1 + |EscapeString(input)|] == before + EscapeString(input)
  {
    hide EscapeByte;
    var i, out := 0, p.offset + 1;
    assert input[0..] == input;
    while i < |input|
      invariant 0 <= i <= |input| && p.offset < out
      invariant out + |EscapeString(input[i..])| == p.offset + 1 + |EscapeString(input)|
      invariant p.buffer[..out] + EscapeString(input[i..]) == before + EscapeString(input)
    {
      EscapeStep(input, i);
      var piece := EscapeByte(input[i]);
      var k := 0;
      ghost var done, rest := p.buffer[..out], EscapeString(input[i + 1..]);
      while k < |piece|
        invariant 0 <= k <= |piece|
        invariant p.buffer[..out + k] == done + piece[..k]
      {
        p.buffer[out + k] := piece[k];
        k := k + 1;
        assert piece[..k] == piece[..k - 1] + [piece[k - 1]];
      }
      assert piece[..|piece|] == piece;
      assert done + (piece + rest) == done + piece + rest;
      out := out + |piece|;
      i := i + 1;
    }
    assert input[|input|..] == [];
    assert p.buffer[..out] + [] == p.buffer[..out];
  }

  /** print_string_ptr. */
  method PrintString(input: Bytes, p: PrintBuffer) returns (ok: bool)
    requires p.Valid()
    modifies p, p.buffer
    ensures Steady(p, old(p.Capacity())) && p.depth == old(p.depth)
    ensures Printed(p, ok, StringText(input, false), old(p.Content()), old(p.Capacity()))
    ensures p.buffer == old(p.buffer) || (fresh(p.buffer) && !p.noalloc)
  {
    hide EscapeString;
    var extra := CountEscapes(input);
    var length := |input| + extra;
    ok := Ensure(p, length + 3);
    if !ok {
      return;
    }
    if extra == 0 {
      WritePlain(p, input);
    } else {
      WriteQuoted(p, input, length);
    }
  }

  method WritePlain(p: PrintBuffer, input: Bytes)
    requires p.Valid() && p.offset + |input| + 4 <= p.buffer.Length
    modifies p.buffer
    ensures Holds(p, old(p.Content()), [QUOTE] + input + [QUOTE])
  {
    ghost var before := p.Content();
    Write(p, [QUOTE] + input + [QUOTE] + [NUL]);
    QuotedText(p.buffer[..], before, input);
  }

  method WriteQuoted(p: PrintBuffer, input: Bytes, length: nat)
    requires p.Valid() && length == |EscapeString(input)| && p.offset + length + 4 <= p.buffer.Length
    modifies p.buffer
    ensures Holds(p, old(p.Content()), StringText(input, false))
  {
    hide EscapeString;
    ghost var before, body := p.Content(), EscapeString(input);
    Write(p, [QUOTE]);
    WriteEscaped(p, input, before + [QUOTE]);
    p.buffer[p.offset + length + 1] := QUOTE;
    p.buffer[p.offset + length + 2] := NUL;
    assert p.buffer[..p.offset + length + 3] == before + [QUOTE] + body + [QUOTE] + [NUL];
    QuotedText(p.buffer[..], before, body);
  }

  lemma QuotedText(buffer: Bytes, before: Bytes, body: Bytes)
    requires |before| + |body| + 3 <= |buffer|
    requires buffer[..|before| + |body| + 3] == before + ([QUOTE] + body + [QUOTE] + [NUL])
          || buffer[..|before| + |body| + 3] == before + [QUOTE] + body + [QUOTE] + [NUL]
    ensures buffer[..|before| + |body| + 2] == before + ([QUOTE] + body + [QUOTE])
    ensures buffer[|before| + |body| + 2] == NUL
  {
    var n := |before| + |body| + 2;
    assert before + ([QUOTE] + body + [QUOTE] + [NUL]) == before + [QUOTE] + body + [QUOTE] + [NUL];
    assert buffer[..n + 1][n] == NUL;
    assert buffer[..n] == buffer[..n + 1][..n];
    assert (before + [QUOTE] + body + [QUOTE] + [NUL])[..n] == before + ([QUOTE] + body + [QUOTE]);
  }

  // ----- Values -----

  /** Text that a C string can hold: no NUL anywhere. */
  lemma {:induction false} TextIsNulFree(j: Json, d: nat, st: Style)
    requires Printable(j, false) && !st.ascii
    ensures NulFree(Text(j, d, st))
    decreases j, 0
  {
    match j
    case Number(n) =>
    case String(s) => StringIsNulFree(s);
    case Array(items) => ItemsAreNulFree(items, d + 1, st);
    case Object(members) => MembersAreNulFree(members, d + 1, st);
    case _ =>
  }

  lemma {:induction false} EscapesAreNulFree(s: Bytes)
    requires NulFree(s)
    ensures NulFree(EscapeString(s))
  {
    if s != [] {
      EscapesAreNulFree(s[1..]);
      assert NulFree(EscapeByte(s[0]));
    }
  }

  lemma StringIsNulFree(s: Bytes)
    requires NulFree(s)
    ensures NulFree(StringText(s, false))
  {
    EscapesAreNulFree(s);
  }

  lemma {:induction false} ItemsAreNulFree(items: seq<Json>, d: nat, st: Style)
    requires (forall i :: 0 <= i < |items| ==> Printable(items[i], false)) && !st.ascii
    ensures NulFree(ItemsText(items, d, st))
    decreases items, 0
  {
    if items != [] {
      TextIsNulFree(items[0], d, st);
      ItemsAreNulFree(items[1..], d, st);
    }
  }

  lemma {:induction false} MembersAreNulFree(members: seq<Member>, d: nat, st: Style)
    requires forall i :: 0 <= i < |members| ==> NulFree(members[i].key) && Printable(members[i].value, false)
    requires !st.ascii
    ensures NulFree(MembersText(members, d, st))
    decreases members, 0
  {
    if members != [] {
      StringIsNulFree(members[0].key);
      TextIsNulFree(members[0].value, d, st);
      MembersAreNulFree(members[1..], d, st);
    }
  }

  function Layout(p: PrintBuffer): Style { Style(p.format, false) }

  method PrintValue(item: Node, p: PrintBuffer) returns (ok: bool)
    requires p.Valid() && item.Valid() && Printable(item.Tree, false)
    modifies p, p.buffer
    ensures Steady(p, old(p.Capacity())) && (ok ==> p.depth == old(p.depth))
    ensures Printed(p, ok, Text(item.Tree, old(p.depth), Layout(p)), old(p.Content()), old(p.Capacity()))
    ensures p.buffer == old(p.buffer) || (fresh(p.buffer) && !p.noalloc)
    decreases item.Repr, 2
  {
    hide Node.Valid, IntText, StringText, ItemsText, MembersText;
    var kind, text := Tag(item);
    match kind {
      case KNull => ok := EmitTerminated(p, NULL_TEXT);
      case KFalse => ok := EmitTerminated(p, FALSE_TEXT);
      case KTrue => ok := EmitTerminated(p, TRUE_TEXT);
      case KNumber => ok := PrintNumber(item, p);
      case KString => ok := PrintString(text, p);
      case KArray => ok := PrintArray(item, p);
      case KObject => ok := PrintObject(item, p);
    }
  }

  /** What the type tag says about the value. */
  method Tag(item: Node) returns (kind: Kind, text: Bytes)
    requires item.Valid()
    ensures kind == item.kind && text == item.text && !kind.KInvalid?
    ensures kind.KNull? ==> item.Tree == Null
    ensures kind.KFalse? ==> item.Tree == False
    ensures kind.KTrue? ==> item.Tree == True
    ensures kind.KNumber? ==> item.Tree == Number(item.number)
    ensures kind.KString? ==> item.Tree == String(text)
    ensures kind.KArray? ==> item.Tree.Array?
    ensures kind.KObject? ==> item.Tree.Object?
  {
    kind, text := item.kind, item.text;
  }

  /** One element and, unless it is the last, its separator. */
  function ItemPiece(j: Json, d: nat, st: Style, more: bool): Bytes {
    Text(j, d, st) + if more then ItemSeparator(st) else []
  }

  method PrintItem(current: Node, p: PrintBuffer) returns (ok: bool)
    requires p.Valid() && current.Valid() && Printable(current.Tree, false)
    modifies p, p.buffer
    ensures Steady(p, old(p.Capacity())) && (ok ==> p.depth == old(p.depth))
    ensures Extended(p, ok, ItemPiece(current.Tree, old(p.depth), Layout(p), current.next != null),
                     old(p.Content()), old(p.Capacity()))
    ensures p.buffer == old(p.buffer) || (fresh(p.buffer) && !p.noalloc)
    decreases current.Repr, 3
  {
    hide Node.Valid, Text, Printable;
    ghost var before, t := p.Content(), Text(current.Tree, p.depth, Layout(p));
    ok := PrintValue(current, p);
    if !ok {
      return;
    }
    TextIsNulFree(current.Tree, p.depth, Layout(p));
    UpdateOffset(p, before, t);
    if current.next != null {
      var separator := if p.format then [COMMA, SPACE] else [COMMA];
      ok := EmitAndAdvance(p, separator);
      assert before + t + separator == before + (t + separator);
    }
    assert t + [] == t;
  }

  method PrintArray(item: Node, p: PrintBuffer) returns (ok: bool)
    requires p.Valid() && item.Valid() && item.kind.KArray? && Printable(item.Tree, false)
    modifies p, p.buffer
    ensures Steady(p, old(p.Capacity())) && (ok ==> p.depth == old(p.depth))
    ensures Printed(p, ok, Text(item.Tree, old(p.depth), Layout(p)), old(p.Content()), old(p.Capacity()))
    ensures p.buffer == old(p.buffer) || (fresh(p.buffer) && !p.noalloc)
    decreases item.Repr, 1
  {
    hide Node.Valid, Text, ItemsText, Printable, Holds, Tabs;
    ghost var before, d, st := p.Content(), p.depth, Layout(p);
    FirstChild(item);
    ghost var items := item.Tree.items;
    ArrayText(items, d, st);
    ok := Emit(p, [OPEN_BRACKET], 1);
    if !ok {
      return;
    }
    p.depth := p.depth + 1;
    ok := PrintItems(item, p);
    if !ok {
      return;
    }
    ok := EmitTerminated(p, [CLOSE_BRACKET]);
    p.depth := p.depth - 1;
    if ok {
      Close(p, before, [OPEN_BRACKET], ItemsText(items, d + 1, st), [CLOSE_BRACKET]);
    }
  }

  /** The loop over the children. */
  method PrintItems(item: Node, p: PrintBuffer) returns (ok: bool)
    requires p.Valid() && item.Valid() && item.kind.KArray? && item.Tree.Array? && Printable(item.Tree, false)
    modifies p, p.buffer
    ensures Steady(p, old(p.Capacity())) && (ok ==> p.depth == old(p.depth))
    ensures ok ==> p.Content() == old(p.Content()) + ItemsText(item.Tree.items, p.depth, Layout(p))
    ensures !ok ==> |old(p.Content())| + |ItemsText(item.Tree.items, old(p.depth), Layout(p))| + 2 > old(p.Capacity())
    ensures p.buffer == old(p.buffer) || (fresh(p.buffer) && !p.noalloc)
    decreases item.Repr, 0
  {
    hide Node.Valid, Text, ItemsText, Printable, Holds, ItemPiece;
    ghost var before, d, capacity, st := p.Content(), p.depth, p.Capacity(), Layout(p);
    FirstChild(item);
    ghost var items := item.Tree.items;
    ghost var all := ItemsText(items, d, st);
    ghost var i, done := 0, [];
    assert items[0..] == items && before + done == before && done + all == all;
    var current := item.child;
    ok := true;
    while current != null
      invariant 0 <= i <= |item.Kids| && current == (if i < |item.Kids| then item.Kids[i] else null)
      invariant Steady(p, capacity) && p.depth == d && p.Content() == before + done
      invariant done + ItemsText(items[i..], d, st) == all
      invariant p.buffer == old(p.buffer) || (fresh(p.buffer) && !p.noalloc)
      decreases |item.Kids| - i
    {
      ChildAt(item, i);
      PrintableChild(item.Tree, i);
      ItemsTextStep(items, i, d, st);
      ghost var piece := ItemPiece(current.Tree, d, st, current.next != null);
      ok := PrintItem(current, p);
      Longer(done, piece, ItemsText(items[i + 1..], d, st), all, before);
      if !ok {
        return;
      }
      done := done + piece;
      i := i + 1;
      current := current.next;
    }
    NoItemsText(items, d, st);
    assert done + [] == done;
    ok := true;
  }

  lemma Longer(done: Bytes, piece: Bytes, rest: Bytes, all: Bytes, before: Bytes)
    requires done + (piece + rest) == all
    ensures done + piece + rest == all && before + done + piece == before + (done + piece)
    ensures |done| + |piece| <= |all|
  {
    assert done + piece + rest == done + (piece + rest);
  }

  lemma Close(p: PrintBuffer, before: Bytes, open: Bytes, body: Bytes, close: Bytes)
    requires Holds(p, before + open + body, close)
    ensures Holds(p, before, open + body + close)
  {
    assert before + open + body + close == before + (open + body + close);
  }

  lemma ArrayText(items: seq<Json>, d: nat, st: Style)
    ensures Text(Array(items), d, st) == [OPEN_BRACKET] + ItemsText(items, d + 1, st) + [CLOSE_BRACKET]
  {
  }

  lemma NoItemsText(items: seq<Json>, d: nat, st: Style)
    ensures items[|items|..] == [] && ItemsText(items[|items|..], d, st) == []
  {
  }

  lemma ItemsTextStep(items: seq<Json>, i: nat, d: nat, st: Style)
    requires i < |items|
    ensures ItemsText(items[i..], d, st) ==
      ItemPiece(items[i], d, st, i + 1 < |items|) + ItemsText(items[i + 1..], d, st)
  {
    hide Text;
    assert items[i..][1..] == items[i + 1..];
  }

  lemma PrintableChild(j: Json, i: nat)
    requires Printable(j, false)
    ensures j.Array? && i < |j.items| ==> Printable(j.items[i], false)
    ensures j.Object? && i < |j.members| ==> NulFree(j.members[i].key) && Printable(j.members[i].value, false)
  {
  }

  method PrintObject(item: Node, p: PrintBuffer) returns (ok: bool)
    requires p.Valid() && item.Valid() && item.kind.KObject? && Printable(item.Tree, false)
    modifies p, p.buffer
    ensures Steady(p, old(p.Capacity())) && (ok ==> p.depth == old(p.depth))
    ensures Printed(p, ok, Text(item.Tree, old(p.depth), Layout(p)), old(p.Content()), old(p.Capacity()))
    ensures p.buffer == old(p.buffer) || (fresh(p.buffer) && !p.noalloc)
    decreases item.Repr, 1
  {
    hide Node.Valid, Text, MembersText, Printable, Holds, Tabs;
    ghost var before, d, st := p.Content(), p.depth, Layout(p);
    FirstChild(item);
    ghost var members := item.Tree.members;
    ObjectText(members, d, st);
    var opening := if p.format then [OPEN_BRACE, NEWLINE] else [OPEN_BRACE];
    ok := Emit(p, opening, |opening| + 1);
    if !ok {
      return;
    }
    p.depth := p.depth + 1;
    ok := PrintMembers(item, p);
    if !ok {
      return;
    }
    ok := PrintClosing(p, before, opening, MembersText(members, d + 1, st));
  }

  /** The last line of an object: indentation and closing brace. */
  method PrintClosing(p: PrintBuffer, ghost before: Bytes, ghost opening: Bytes, ghost body: Bytes) returns (ok: bool)
    requires p.Valid() && p.depth > 0 && p.Content() == before + opening + body
    modifies p, p.buffer
    ensures Steady(p, old(p.Capacity())) && p.depth == old(p.depth) - 1
    ensures var closing := if p.format then Tabs(p.depth) + [CLOSE_BRACE] else [CLOSE_BRACE];
      Printed(p, ok, opening + body + closing, before, old(p.Capacity()))
    ensures p.buffer == old(p.buffer) || (fresh(p.buffer) && !p.noalloc)
  {
    hide Holds, Tabs;
    var closing := if p.format then Tabs(p.depth - 1) + [CLOSE_BRACE] else [CLOSE_BRACE];
    ok := EmitTerminated(p, closing);
    p.depth := p.depth - 1;
    if ok {
      Close(p, before, opening, body, closing);
    }
  }

  /** The loop over the children. */
  method PrintMembers(item: Node, p: PrintBuffer) returns (ok: bool)
    requires p.Valid() && item.Valid() && item.kind.KObject? && item.Tree.Object? && Printable(item.Tree, false)
    modifies p, p.buffer
    ensures Steady(p, old(p.Capacity())) && (ok ==> p.depth == old(p.depth))
    ensures ok ==> p.Content() == old(p.Content()) + MembersText(item.Tree.members, p.depth, Layout(p))
    ensures !ok ==>
      |old(p.Content())| + |MembersText(item.Tree.members, old(p.depth), Layout(p))| + 2 > old(p.Capacity())
    ensures p.buffer == old(p.buffer) || (fresh(p.buffer) && !p.noalloc)
    decreases item.Repr, 0
  {
    hide Node.Valid, Text, MembersText, Printable, Holds, MemberText;
    ghost var before, d, capacity, st := p.Content(), p.depth, p.Capacity(), Layout(p);
    FirstChild(item);
    ghost var members := item.Tree.members;
    ghost var all := MembersText(members, d, st);
    ghost var i, done := 0, [];
    assert members[0..] == members && before + done == before && done + all == all;
    var current := item.child;
    ok := true;
    while current != null
      invariant 0 <= i <= |item.Kids| && current == (if i < |item.Kids| then item.Kids[i] else null)
      invariant Steady(p, capacity) && p.depth == d && p.Content() == before + done
      invariant done + MembersText(members[i..], d, st) == all
      invariant p.buffer == old(p.buffer) || (fresh(p.buffer) && !p.noalloc)
      decreases |item.Kids| - i
    {
      ChildAt(item, i);
      PrintableChild(item.Tree, i);
      MembersTextStep(members, i, d, st);
      ghost var piece := MemberText(Member(current.key, current.Tree), d, st, current.next != null);
      ok := PrintMember(current, p);
      Longer(done, piece, MembersText(members[i + 1..], d, st), all, before);
      if !ok {
        return;
      }
      done := done + piece;
      i := i + 1;
      current := current.next;
    }
    NoMembersText(members, d, st);
    assert done + [] == done;
    ok := true;
  }

  lemma ObjectText(members: seq<Member>, d: nat, st: Style)
    ensures Text(Object(members), d, st) ==
      (if st.pretty then [OPEN_BRACE, NEWLINE] else [OPEN_BRACE]) + MembersText(members, d + 1, st) +
      (if st.pretty then Tabs(d) + [CLOSE_BRACE] else [CLOSE_BRACE])
  {
    var body := MembersText(members, d + 1, st);
    assert [OPEN_BRACE] + Newline(st) == if st.pretty then [OPEN_BRACE, NEWLINE] else [OPEN_BRACE];
    assert [OPEN_BRACE] + Newline(st) + body + Indent(st, d) + [CLOSE_BRACE] ==
      [OPEN_BRACE] + Newline(st) + body + (Indent(st, d) + [CLOSE_BRACE]);
    assert [] + [CLOSE_BRACE] == [CLOSE_BRACE];
  }

  lemma NoMembersText(members: seq<Member>, d: nat, st: Style)
    ensures members[|members|..] == [] && MembersText(members[|members|..], d, st) == []
  {
  }

  lemma MembersTextStep(members: seq<Member>, i: nat, d: nat, st: Style)
    requires i < |members|
    ensures MembersText(members[i..], d, st) ==
      MemberText(members[i], d, st, i + 1 < |members|) + MembersText(members[i + 1..], d, st)
  {
    hide MemberText;
    assert members[i..][1..] == members[i + 1..];
  }

  /** Indentation, key, colon, value, comma and newline of one member. */
  method PrintMember(current: Node, p: PrintBuffer) returns (ok: bool)
    requires p.Valid() && current.Valid() && NulFree(current.key) && Printable(current.Tree, false)
    modifies p, p.buffer
    ensures Steady(p, old(p.Capacity())) && (ok ==> p.depth == old(p.depth))
    ensures Extended(p, ok,
                     MemberText(Member(current.key, current.Tree), old(p.depth), Layout(p), current.next != null),
                     old(p.Content()), old(p.Capacity()))
    ensures p.buffer == old(p.buffer) || (fresh(p.buffer) && !p.noalloc)
    decreases current.Repr, 3
  {
    hide Node.Valid, Text, Printable, StringText, NulFree, Tabs, MemberText, MemberHead, MemberTail;
    ghost var st, d, before, more := Layout(p), p.depth, p.Content(), current.next != null;
    ghost var head, t := MemberHead(current.key, d, st), Text(current.Tree, d, st);
    MemberPieces(Member(current.key, current.Tree), d, st, more);
    ok := PrintKey(current.key, p);
    if !ok {
      return;
    }
    ok := PrintValue(current, p);
    if !ok {
      return;
    }
    TextIsNulFree(current.Tree, d, st);
    UpdateOffset(p, before + head, t);
    ok := PrintTail(p, current.next != null);
    assert before + head + t + MemberTail(st, more) == before + (head + t + MemberTail(st, more));
  }

  method PrintTail(p: PrintBuffer, more: bool) returns (ok: bool)
    requires p.Valid()
    modifies p, p.buffer
    ensures Steady(p, old(p.Capacity())) && p.depth == old(p.depth)
    ensures Extended(p, ok, MemberTail(Layout(p), more), old(p.Content()), old(p.Capacity()))
    ensures p.buffer == old(p.buffer) || (fresh(p.buffer) && !p.noalloc)
  {
    ok := EmitAndAdvance(p, (if more then [COMMA] else []) + (if p.format then [NEWLINE] else []));
  }

  function MemberTail(st: Style, more: bool): Bytes {
    (if more then [COMMA] else []) + (if st.pretty then [NEWLINE] else [])
  }

  function MemberHead(key: Bytes, d: nat, st: Style): Bytes {
    Indent(st, d) + StringText(key, st.ascii) + KeySeparator(st)
  }

  lemma MemberPieces(m: Member, d: nat, st: Style, more: bool)
    ensures MemberText(m, d, st, more) == MemberHead(m.key, d, st) + Text(m.value, d, st) + MemberTail(st, more)
  {
    hide Text, StringText, Indent, KeySeparator;
  }

  /** Indentation, key and colon; what follows needs more room than any of them. */
  method PrintKey(key: Bytes, p: PrintBuffer) returns (ok: bool)
    requires p.Valid() && NulFree(key)
    modifies p, p.buffer
    ensures Steady(p, old(p.Capacity())) && p.depth == old(p.depth)
    ensures ok ==> p.Content() == old(p.Content()) + MemberHead(key, old(p.depth), Layout(p))
    ensures !ok ==> |old(p.Content())| + |MemberHead(key, old(p.depth), Layout(p))| + 1 > p.Capacity()
    ensures p.buffer == old(p.buffer) || (fresh(p.buffer) && !p.noalloc)
  {
    hide StringText, Tabs;
    ghost var before := p.Content();
    ghost var indent := if p.format then Tabs(p.depth) else [];
    if p.format {
      ok := Emit(p, Tabs(p.depth), p.depth);
      if !ok {
        return;
      }
    }
    assert p.Content() == before + indent;
    ok := PrintString(key, p);
    if !ok {
      return;
    }
    StringIsNulFree(key);
    UpdateOffset(p, before + indent, StringText(key, false));
    var separator := if p.format then [COLON, TAB] else [COLON];
    ok := Emit(p, separator, |separator|);
    assert before + indent + StringText(key, false) + separator ==
      before + (indent + StringText(key, false) + separator);
  }

  // ----- Entry points -----

  /** cJSON_PrintPreallocated: succeeds exactly when the text, its NUL and one spare byte fit. */
  method PrintPreallocated(item: Node, buffer: array<byte>, format: bool) returns (ok: bool)
    requires item.Valid() && Printable(item.Tree, false) && buffer.Length <= INT_MAX
    modifies buffer
    ensures var t := Text(item.Tree, 0, Style(format, false));
      && ok == (|t| + 2 <= buffer.Length)
      && (ok ==> buffer[..|t|] == t && buffer[|t|] == NUL)
  {
    hide Node.Valid, Text, Printable;
    var p := new PrintBuffer(buffer, true, format);
    ok := PrintValue(item, p);
  }

  /** print, and cJSON_PrintBuffered with any initial size: only the INT_MAX limit can stop it. */
  method Print(item: Node, initial: nat, format: bool) returns (printed: Option<Bytes>)
    requires item.Valid() && Printable(item.Tree, false) && initial <= INT_MAX
    ensures var t := Text(item.Tree, 0, Style(format, false));
      printed == if |t| + 2 <= INT_MAX then Some(t) else None
  {
    hide Node.Valid, Text, Printable;
    var buffer := new byte[initial];
    var p := new PrintBuffer(buffer, false, format);
    ghost var t := Text(item.Tree, 0, Style(format, false));
    var ok := PrintValue(item, p);
    if !ok {
      return None;
    }
    TextIsNulFree(item.Tree, 0, Style(format, false));
    assert [] + t == t;
    UpdateOffset(p, [], t);
    printed := Some(p.buffer[..p.offset]);
  }
}
