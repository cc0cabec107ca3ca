/** The fact cards of a session: a bounded list without duplicates, kept in its own printed form. */
module Facts {
  import opened Bytes

  const FACTS_MAX_BYTES: nat := 4096
  const FACTS_MAX_LINES: nat := 12
  const FACTS_LINE_BYTES: nat := 256

  /** "## 会话事实卡片" and a newline, in UTF-8. */
  const HEADER: Bytes := HEADING + [NEWLINE]
  const HEADING: Bytes :=
    [35, 35, 32, 228, 188, 154, 232, 175, 157, 228, 186, 139, 229, 174, 158, 229, 141, 161, 231, 137, 135]

  const DASH: byte := 45

  // ----- Lines -----

  predicate Blank(c: byte) { c == SPACE || c == TAB || c == RETURN || c == NEWLINE }

  function TrimLeft(s: Bytes): (r: Bytes)
    ensures |r| <= |s| && (r != [] ==> !Blank(r[0]))
  {
    if s != [] && Blank(s[0]) then TrimLeft(s[1..]) else s
  }

  function TrimRight(s: Bytes): (r: Bytes)
    ensures |r| <= |s| && r == s[..|r|] && (r != [] ==> !Blank(r[|r| - 1]))
  {
    if s != [] && Blank(s[|s| - 1]) then TrimRight(s[..|s| - 1]) else s
  }

  function Trim(s: Bytes): (r: Bytes)
    ensures Trimmed(r)
  {
    TrimRight(TrimLeft(s))
  }

  predicate Trimmed(s: Bytes) {
    s != [] ==> !Blank(s[0]) && !Blank(s[|s| - 1])
  }

  /** normalize_fact_line: trimmed, and one list marker taken off. */
  function Normalized(line: Bytes): (r: Bytes)
    ensures Trimmed(r)
  {
    var t := Trim(line);
    if |t| >= 2 && (t[0] == DASH || t[0] == 42 || t[0] == 43) && (t[1] == SPACE || t[1] == TAB) then Trim(t[1..]) else t
  }

  /** Space, tab, return and newline. */
  predicate White(c: byte) {
    c == 32 || c == 9 || c == 13 || c == 10
  }

  predicate AllWhite(s: Bytes) {
    forall i :: 0 <= i < |s| ==> White(s[i])
  }

  /** Neither starts nor ends with white space. */
  predicate Bare(s: Bytes) {
    s != [] && !White(s[0]) && !White(s[|s| - 1])
  }

  lemma {:induction false} TrimIs(a: Bytes, s: Bytes, b: Bytes)
    requires AllWhite(a) && AllWhite(b) && Bare(s)
    ensures Trim(a + s + b) == s
  {
    TrimLeftIs(a, s + b);
    assert a + s + b == a + (s + b);
    TrimRightIs(s, b);
  }

  lemma {:induction false} TrimLeftIs(a: Bytes, s: Bytes)
    requires AllWhite(a) && s != [] && !White(s[0])
    ensures TrimLeft(a + s) == s
  {
    if a == [] {
      assert a + s == s;
    } else {
      assert (a + s)[1..] == a[1..] + s;
      TrimLeftIs(a[1..], s);
    }
  }

  lemma {:induction false} TrimRightIs(s: Bytes, b: Bytes)
    requires AllWhite(b) && s != [] && !White(s[|s| - 1])
    ensures TrimRight(s + b) == s
  {
    if b == [] {
      assert s + b == s;
    } else {
      var n := |s + b| - 1;
      assert (s + b)[..n] == s + b[..|b| - 1] && (s + b)[n] == b[|b| - 1];
      TrimRightIs(s, b[..|b| - 1]);
    }
  }

  /** A list marker, '-', '*' or '+' with a space or a tab behind it, is taken off, with all blanks around. */
  lemma MarkersAreTaken(a: Bytes, marker: byte, gap: Bytes, fact: Bytes, b: Bytes)
    requires AllWhite(a) && AllWhite(gap) && AllWhite(b) && Bare(fact) && gap != [] && (gap[0] == 32 || gap[0] == 9)
    requires marker == 45 || marker == 42 || marker == 43
    ensures Normalized(a + [marker] + gap + fact + b) == fact
  {
    var inner := [marker] + gap + fact;
    assert inner[|inner| - 1] == fact[|fact| - 1] && inner[0] == marker;
    assert a + [marker] + gap + fact + b == a + inner + b;
    TrimIs(a, inner, b);
    assert inner[1..] == gap + fact + [] && inner[1] == gap[0];
    TrimIs(gap, fact, []);
  }

  /** Only one marker is taken off, and any other line is just trimmed. */
  lemma OtherLinesAreTrimmed(a: Bytes, fact: Bytes, b: Bytes)
    requires AllWhite(a) && AllWhite(b) && Bare(fact)
    requires fact[0] !in {45, 42, 43} || |fact| == 1 || fact[1] !in {32, 9}
    ensures Normalized(a + fact + b) == fact
  {
    TrimIs(a, fact, b);
  }

  predicate LineText(s: Bytes) {
    forall i :: 0 <= i < |s| ==> s[i] != NEWLINE && s[i] != NUL
  }

  /** A line that is kept: trimmed, not empty, no heading, and short enough for its slot. */
  predicate Fact(s: Bytes) {
    s != [] && Trimmed(s) && !([35, 35] <= s) && LineText(s) && |s| < FACTS_LINE_BYTES
  }

  function LineLength(s: Bytes): (n: nat)
    ensures n <= |s| && (forall i :: 0 <= i < n ==> s[i] != NEWLINE) && (n < |s| ==> s[n] == NEWLINE)
  {
    if s == [] || s[0] == NEWLINE then 0 else 1 + LineLength(s[1..])
  }

  /** The pieces strtok_r gives for newlines: no piece is empty. */
  function Lines(text: Bytes): seq<Bytes>
    decreases |text|
  {
    if text == [] then []
    else
      var n := LineLength(text);
      if n == 0 then Lines(text[1..]) else [text[..n]] + Lines(text[n..])
  }

  lemma LinesOfLine(line: Bytes, rest: Bytes)
    requires line != [] && LineText(line)
    ensures Lines(line + [NEWLINE] + rest) == [line] + Lines(rest)
  {
    var text := line + [NEWLINE] + rest;
    var n := LineLength(text);
    assert text[|line|] == NEWLINE;
    assert n == |line| by { assert forall i :: 0 <= i < |line| ==> text[i] == line[i]; }
    assert text[..n] == line;
    var left := text[n..];
    assert left[0] == NEWLINE && left[1..] == rest;
    assert Lines(left) == Lines(rest);
  }

  /** Every normalized line of the text fits its slot. */
  predicate ShortLines(text: Bytes) {
    forall l <- Lines(text) :: |Normalized(l)| < FACTS_LINE_BYTES
  }

  // ----- The list -----

  function Skipped(norm: Bytes): bool {
    norm == [] || [35, 35] <= norm
  }

  /** strscpy into a slot, which cuts a long line. */
  function Stored(norm: Bytes): Bytes {
    if |norm| < FACTS_LINE_BYTES then norm else norm[..FACTS_LINE_BYTES - 1]
  }

  /** One line: skipped, already there, appended, or appended with the oldest one evicted. The whole line is looked
      up, and what fits the slot is stored. */
  function Add(facts: seq<Bytes>, norm: Bytes): seq<Bytes> {
    if Skipped(norm) || norm in facts then facts
    else if |facts| < FACTS_MAX_LINES then facts + [Stored(norm)]
    else facts[1..] + [Stored(norm)]
  }

  function AddAll(facts: seq<Bytes>, lines: seq<Bytes>): seq<Bytes> {
    if lines == [] then facts
    else Add(AddAll(facts, lines[..|lines| - 1]), Normalized(lines[|lines| - 1]))
  }

  /** append_unique_fact_lines. */
  function Collected(facts: seq<Bytes>, text: Bytes): seq<Bytes> {
    AddAll(facts, Lines(text))
  }

  /** What is kept: at most 12 distinct facts. */
  predicate Kept(facts: seq<Bytes>) {
    && |facts| <= FACTS_MAX_LINES && (forall f <- facts :: Fact(f))
    && (forall i, j :: 0 <= i < j < |facts| ==> facts[i] != facts[j])
  }

  lemma {:induction false} LinesAreLineText(text: Bytes)
    requires NulFree(text)
    ensures forall l <- Lines(text) :: LineText(l)
    decreases |text|
  {
    if text != [] {
      var n := LineLength(text);
      LinesAreLineText(text[if n == 0 then 1 else n..]);
    }
  }

  lemma {:induction false} TrimIsPart(s: Bytes)
    requires LineText(s)
    ensures LineText(TrimLeft(s)) && LineText(TrimRight(s))
    decreases |s|
  {
    if s != [] {
      TrimIsPart(s[1..]);
    }
  }

  lemma NormalizedIsLineText(line: Bytes)
    requires LineText(line)
    ensures LineText(Normalized(line))
  {
    TrimIsPart(line);
    TrimIsPart(TrimLeft(line));
    var t := Trim(line);
    if |t| >= 2 {
      TrimIsPart(t[1..]);
      TrimIsPart(TrimLeft(t[1..]));
    }
  }

  lemma AddKeeps(facts: seq<Bytes>, norm: Bytes)
    requires Kept(facts) && (Skipped(norm) || Fact(norm))
    ensures Kept(Add(facts, norm))
  {
    forall f | f in Add(facts, norm) ensures Fact(f) {
      assert f in facts || f == norm;
    }
  }

  lemma {:induction false} AddAllKeeps(facts: seq<Bytes>, lines: seq<Bytes>)
    requires Kept(facts) && forall l <- lines :: LineText(l) && |Normalized(l)| < FACTS_LINE_BYTES
    ensures Kept(AddAll(facts, lines))
  {
    if lines != [] {
      var n := |lines| - 1;
      AddAllKeeps(facts, lines[..n]);
      assert lines[n] in lines;
      NormalizedIsLineText(lines[n]);
      AddKeeps(AddAll(facts, lines[..n]), Normalized(lines[n]));
    }
  }

  /** Whatever is merged, the list stays a kept one. */
  lemma CollectedIsKept(facts: seq<Bytes>, text: Bytes)
    requires Kept(facts) && NulFree(text) && ShortLines(text)
    ensures Kept(Collected(facts, text))
  {
    LinesAreLineText(text);
    AddAllKeeps(facts, Lines(text));
  }

  // ----- First in, first out -----

  function LastOf(s: seq<Bytes>, n: nat): seq<Bytes> {
    if |s| <= n then s else s[|s| - n..]
  }

  /** The facts that get appended while the lines are added. */
  function Appended(facts: seq<Bytes>, lines: seq<Bytes>): seq<Bytes> {
    if lines == [] then []
    else
      var n := |lines| - 1;
      var norm := Normalized(lines[n]);
      Appended(facts, lines[..n]) + if Skipped(norm) || norm in AddAll(facts, lines[..n]) then [] else [Stored(norm)]
  }

  /** Eviction is first in, first out: the list is the last 12 of the old facts and the appended ones. */
  lemma {:induction false} FirstInFirstOut(facts: seq<Bytes>, lines: seq<Bytes>)
    requires |facts| <= FACTS_MAX_LINES
    ensures AddAll(facts, lines) == LastOf(facts + Appended(facts, lines), FACTS_MAX_LINES)
  {
    hide Normalized, Stored, Skipped;
    if lines == [] {
      assert facts + [] == facts;
    } else {
      var n := |lines| - 1;
      FirstInFirstOut(facts, lines[..n]);
      var before, norm := facts + Appended(facts, lines[..n]), Normalized(lines[n]);
      if !Skipped(norm) && norm !in AddAll(facts, lines[..n]) {
        assert facts + Appended(facts, lines) == before + [Stored(norm)];
        LastOfGrows(before, Stored(norm));
      }
    }
  }

  lemma LastOfGrows(s: seq<Bytes>, x: Bytes)
    ensures LastOf(s + [x], FACTS_MAX_LINES) ==
      var t := LastOf(s, FACTS_MAX_LINES); if |t| < FACTS_MAX_LINES then t + [x] else t[1..] + [x]
  {
  }

  // ----- The printed form -----

  function Bullet(fact: Bytes): Bytes {
    [DASH, SPACE] + fact + [NEWLINE]
  }

  function Bullets(facts: seq<Bytes>): Bytes {
    if facts == [] then [] else Bullet(facts[0]) + Bullets(facts[1..])
  }

  function Printed(facts: seq<Bytes>): Bytes {
    HEADER + Bullets(facts)
  }

  /** The heading line "## " and six Chinese characters, and for every fact a line "- " with it. */
  lemma PrintedMeans(facts: seq<Bytes>, fact: Bytes)
    ensures Printed([]) == [35, 35, 32, 228, 188, 154, 232, 175, 157, 228, 186, 139, 229, 174, 158, 229, 141, 161, 231,
                            137, 135, 10]
    ensures Printed(facts + [fact]) == Printed(facts) + [45, 32] + fact + [10]
  {
    assert HEADER + [] == HEADER;
    BulletsGrow(facts, fact);
    assert HEADER + (Bullets(facts) + Bullet(fact)) == (HEADER + Bullets(facts)) + Bullet(fact);
    assert Bullet(fact) == [45, 32] + fact + [10];
  }

  lemma {:induction false} BulletsGrow(facts: seq<Bytes>, fact: Bytes)
    ensures Bullets(facts + [fact]) == Bullets(facts) + Bullet(fact)
  {
    hide Bullet;
    if facts == [] {
      assert [] + [fact] == [fact] && Bullets([fact][1..]) == [] && Bullet(fact) + [] == Bullet(fact);
    } else {
      BulletsGrow(facts[1..], fact);
      assert (facts + [fact])[1..] == facts[1..] + [fact];
    }
  }

  /** What a reader with the 4096-byte buffer gets of a file. */
  function ReadBuffer(file: Bytes): Bytes {
    CString(if |file| < FACTS_MAX_BYTES then file else file[..FACTS_MAX_BYTES - 1])
  }

  /** A line as a slot holds it: the first bytes of a trimmed line that is no heading. */
  predicate SlotLine(s: Bytes) {
    s != [] && !Blank(s[0]) && !([35, 35] <= s) && LineText(s) && |s| < FACTS_LINE_BYTES
  }

  predicate SlotLines(lines: seq<Bytes>) {
    |lines| <= FACTS_MAX_LINES && forall l <- lines :: SlotLine(l)
  }

  lemma {:induction false} BulletsFit(facts: seq<Bytes>)
    requires forall f <- facts :: SlotLine(f)
    ensures |Bullets(facts)| <= 258 * |facts| && NulFree(Bullets(facts))
  {
    if facts != [] {
      assert facts[0] in facts;
      BulletsFit(facts[1..]);
    }
  }

  /** The printed file always fits the read buffer. */
  lemma PrintedFits(facts: seq<Bytes>)
    requires SlotLines(facts)
    ensures |Printed(facts)| < FACTS_MAX_BYTES && ReadBuffer(Printed(facts)) == Printed(facts)
  {
    BulletsFit(facts);
    assert NulFree(HEADER);
  }

  lemma BulletIsRead(fact: Bytes)
    requires Fact(fact)
    ensures LineText([DASH, SPACE] + fact) && Normalized([DASH, SPACE] + fact) == fact && !Skipped(fact)
    ensures Stored(fact) == fact
  {
    var line := [DASH, SPACE] + fact;
    assert line[|line| - 1] == fact[|fact| - 1];
    assert Trim(line) == line;
    assert line[1..] == [SPACE] + fact && line[1..][1..] == fact;
    assert TrimLeft(line[1..]) == fact;
  }

  lemma {:induction false} BulletsLines(facts: seq<Bytes>)
    requires forall f <- facts :: SlotLine(f)
    ensures |Lines(Bullets(facts))| == |facts|
    ensures forall i :: 0 <= i < |facts| ==> Lines(Bullets(facts))[i] == [DASH, SPACE] + facts[i]
  {
    if facts != [] {
      assert facts[0] in facts;
      LinesOfLine([DASH, SPACE] + facts[0], Bullets(facts[1..]));
      assert Bullets(facts) == ([DASH, SPACE] + facts[0]) + [NEWLINE] + Bullets(facts[1..]);
      BulletsLines(facts[1..]);
    }
  }

  /** Adding the lines of distinct facts one by one rebuilds the list. */
  lemma {:induction false} AddAllRebuilds(facts: seq<Bytes>, lines: seq<Bytes>)
    requires Kept(facts) && |lines| == |facts| + 1 && Skipped(Normalized(lines[0]))
    requires forall i :: 0 <= i < |facts| ==> lines[i + 1] == [DASH, SPACE] + facts[i]
    ensures AddAll([], lines) == facts
  {
    hide Normalized, Fact, Skipped;
    var n := |facts|;
    if n == 0 {
      assert AddAll([], lines[..0]) == [];
    } else {
      AddAllRebuilds(facts[..n - 1], lines[..n]);
      assert facts[n - 1] in facts;
      BulletIsRead(facts[n - 1]);
      assert facts[n - 1] !in facts[..n - 1];
    }
  }

  /** The file is a fixed point of its reader: reading it gives exactly the facts it was printed from. */
  lemma PrintedIsRead(facts: seq<Bytes>)
    requires Kept(facts)
    ensures Collected([], ReadBuffer(Printed(facts))) == facts
  {
    PrintedFits(facts);
    HeadingIsSkipped();
    hide Normalized, Bullets, LineText, ReadBuffer, Fact, Skipped;
    assert Printed(facts) == HEADING + [NEWLINE] + Bullets(facts);
    LinesOfLine(HEADING, Bullets(facts));
    BulletsLines(facts);
    AddAllRebuilds(facts, Lines(Printed(facts)));
  }

  lemma HeadingIsSkipped()
    ensures LineText(HEADING) && Skipped(Normalized(HEADING))
  {
    assert Trim(HEADING) == HEADING;
  }

  // ----- Long lines -----

  lemma {:induction false} StoredAreSlotLines(facts: seq<Bytes>, lines: seq<Bytes>)
    requires SlotLines(facts) && forall l <- lines :: LineText(l)
    ensures SlotLines(AddAll(facts, lines))
  {
    hide LineText, Normalized, Skipped;
    if lines != [] {
      var n := |lines| - 1;
      StoredAreSlotLines(facts, lines[..n]);
      assert lines[n] in lines;
      NormalizedIsLineText(lines[n]);
      StoredIsSlotLine(Normalized(lines[n]));
      hide SlotLine, Normalized, Skipped, Stored;
      var before, norm := AddAll(facts, lines[..n]), Normalized(lines[n]);
      forall l | l in Add(before, norm) ensures SlotLine(l) {
        assert l in before || l == Stored(norm);
      }
    }
  }

  lemma StoredIsSlotLine(norm: Bytes)
    requires LineText(norm) && Trimmed(norm)
    ensures !Skipped(norm) ==> SlotLine(Stored(norm))
  {
  }

  lemma BulletIsShort(line: Bytes)
    requires SlotLine(line)
    ensures LineText([DASH, SPACE] + line) && |Normalized([DASH, SPACE] + line)| < FACTS_LINE_BYTES
  {
    var bullet := [DASH, SPACE] + line;
    assert TrimLeft(bullet) == bullet;
    var t := TrimRight(bullet);
    if |t| >= 2 {
      assert TrimLeft(t[1..]) == TrimLeft(t[1..][1..]);
    }
  }

  /** Whatever has been written, long lines or not: what is read from it is a kept list. */
  lemma ReadIsKept(lines: seq<Bytes>)
    requires SlotLines(lines)
    ensures Kept(Collected([], ReadBuffer(Printed(lines))))
  {
    PrintedFits(lines);
    HeadingIsSkipped();
    var text := Printed(lines);
    assert text == HEADING + [NEWLINE] + Bullets(lines);
    LinesOfLine(HEADING, Bullets(lines));
    BulletsLines(lines);
    forall l | l in Lines(text) ensures LineText(l) && |Normalized(l)| < FACTS_LINE_BYTES {
      if l != HEADING {
        var i :| 0 <= i < |lines| && Lines(Bullets(lines))[i] == l;
        assert lines[i] in lines;
        BulletIsShort(lines[i]);
      }
    }
    hide Normalized, LineText, Lines, Printed, ReadBuffer;
    AddAllKeeps([], Lines(text));
  }

  /** The table is read back from its printed form if and only if it is a kept list: no line that is cut behind a
      blank, and none that is there twice. */
  lemma ReadBackExactly(lines: seq<Bytes>)
    requires SlotLines(lines)
    ensures Collected([], ReadBuffer(Printed(lines))) == lines <==> Kept(lines)
  {
    ReadIsKept(lines);
    if Kept(lines) {
      PrintedIsRead(lines);
    }
  }

  const LONG_LINE: Bytes := seq(FACTS_LINE_BYTES, _ => 97)

  /** A line of 256 bytes is cut, not recognised the next time, and stored again: the list is no longer distinct. */
  lemma LongLineIsStoredTwice()
    ensures var cut, once := LONG_LINE[..255], Collected([], LONG_LINE);
      once == [cut] && Collected(once, LONG_LINE) == [cut, cut] && !Kept(Collected(once, LONG_LINE))
  {
    var text, cut := LONG_LINE, LONG_LINE[..255];
    LastLine(text);
    assert Trim(text) == text;
    assert Normalized(text) == text && !Skipped(text);
    hide Normalized, Skipped, Lines;
    OneLine([], text);
    OneLine([cut], text);
    assert |text| == 256 && Stored(text) == cut && text != cut;
    var twice := [cut, cut];
    assert Add([], text) == [cut] && Add([cut], text) == twice;
    assert twice[0] == twice[1];
  }

  lemma OneLine(facts: seq<Bytes>, line: Bytes)
    requires Normalized(line) == line
    ensures AddAll(facts, [line]) == Add(facts, line)
  {
    assert [line][..0] == [];
  }

  // ----- Merging twice -----

  function SetOf(facts: seq<Bytes>): set<Bytes> {
    set f <- facts
  }

  /** The facts a text names. */
  function FactsOf(text: Bytes): set<Bytes> {
    set l <- Lines(text) | !Skipped(Normalized(l)) :: Normalized(l)
  }

  lemma {:induction false} DistinctCount(facts: seq<Bytes>)
    requires forall i, j :: 0 <= i < j < |facts| ==> facts[i] != facts[j]
    ensures |SetOf(facts)| == |facts|
  {
    if facts != [] {
      var n := |facts| - 1;
      DistinctCount(facts[..n]);
      assert facts == facts[..n] + [facts[n]];
      assert SetOf(facts) == SetOf(facts[..n]) + {facts[n]};
      assert facts[n] !in SetOf(facts[..n]);
    }
  }

  /** While all facts together number at most 12, nothing is evicted. */
  lemma {:induction false} NothingEvicted(facts: seq<Bytes>, lines: seq<Bytes>, all: set<Bytes>)
    requires Kept(facts) && SetOf(facts) <= all && |all| <= FACTS_MAX_LINES
    requires forall l <- lines :: LineText(l) && |Normalized(l)| < FACTS_LINE_BYTES
    requires forall l <- lines :: Skipped(Normalized(l)) || Normalized(l) in all
    ensures SetOf(facts) <= SetOf(AddAll(facts, lines)) <= all
    ensures forall l <- lines :: Skipped(Normalized(l)) || Normalized(l) in AddAll(facts, lines)
  {
    hide Normalized, Skipped, LineText;
    if lines != [] {
      var n := |lines| - 1;
      NothingEvicted(facts, lines[..n], all);
      AddAllKeeps(facts, lines[..n]);
      var before, norm := AddAll(facts, lines[..n]), Normalized(lines[n]);
      assert lines[n] in lines && lines == lines[..n] + [lines[n]];
      AddInside(before, norm, all);
      forall l | l in lines ensures Skipped(Normalized(l)) || Normalized(l) in AddAll(facts, lines) {
        if l in lines[..n] && !Skipped(Normalized(l)) {
          assert Normalized(l) in SetOf(before);
        }
      }
    }
  }

  lemma AddInside(before: seq<Bytes>, norm: Bytes, all: set<Bytes>)
    requires Kept(before) && SetOf(before) <= all && |all| <= FACTS_MAX_LINES && (Skipped(norm) || norm in all)
    requires |norm| < FACTS_LINE_BYTES
    ensures SetOf(before) <= SetOf(Add(before, norm)) <= all
    ensures Skipped(norm) || norm in Add(before, norm)
  {
    hide Skipped;
    if !Skipped(norm) && norm !in before {
      DistinctCount(before);
      SubsetCount(SetOf(before) + {norm}, all);
      assert |SetOf(before) + {norm}| == |before| + 1;
      assert SetOf(before + [norm]) == SetOf(before) + {norm};
    }
  }

  lemma {:induction false} NothingNew(facts: seq<Bytes>, lines: seq<Bytes>)
    requires forall l <- lines :: Skipped(Normalized(l)) || Normalized(l) in facts
    ensures AddAll(facts, lines) == facts
  {
    if lines != [] {
      var n := |lines| - 1;
      assert lines[n] in lines;
      NothingNew(facts, lines[..n]);
    }
  }

  /** Merging the same text again changes nothing when all its facts are still there. */
  lemma MergeAgain(facts: seq<Bytes>, text: Bytes)
    requires forall f <- FactsOf(text) :: f in Collected(facts, text)
    ensures Collected(Collected(facts, text), text) == Collected(facts, text)
  {
    forall l | l in Lines(text) ensures Skipped(Normalized(l)) || Normalized(l) in Collected(facts, text) {
      assert !Skipped(Normalized(l)) ==> Normalized(l) in FactsOf(text);
    }
    NothingNew(Collected(facts, text), Lines(text));
  }

  /** In particular when the old and the new facts together number at most 12. */
  lemma MergeTwice(facts: seq<Bytes>, text: Bytes)
    requires Kept(facts) && NulFree(text) && ShortLines(text)
    requires |SetOf(facts) + FactsOf(text)| <= FACTS_MAX_LINES
    ensures Collected(Collected(facts, text), text) == Collected(facts, text)
    ensures SetOf(Collected(facts, text)) == SetOf(facts) + FactsOf(text)
  {
    LinesAreLineText(text);
    var all := SetOf(facts) + FactsOf(text);
    forall l | l in Lines(text) ensures Skipped(Normalized(l)) || Normalized(l) in all {
      assert !Skipped(Normalized(l)) ==> Normalized(l) in FactsOf(text);
    }
    NothingEvicted(facts, Lines(text), all);
    MergeAgain(facts, text);
  }

  // ----- Exactly when a second merge changes nothing -----

  lemma {:induction false} AppendedNothing(facts: seq<Bytes>, lines: seq<Bytes>)
    ensures Appended(facts, lines) == [] <==> forall l <- lines :: Skipped(Normalized(l)) || Normalized(l) in facts
    ensures Appended(facts, lines) == [] ==> AddAll(facts, lines) == facts
  {
    hide Normalized, Skipped;
    if lines != [] {
      var n := |lines| - 1;
      AppendedNothing(facts, lines[..n]);
      assert lines == lines[..n] + [lines[n]];
    }
  }

  lemma {:induction false} AppendedAreNamed(facts: seq<Bytes>, lines: seq<Bytes>)
    requires forall l <- lines :: |Normalized(l)| < FACTS_LINE_BYTES
    ensures forall a <- Appended(facts, lines) :: exists l <- lines :: a == Normalized(l) && !Skipped(a)
  {
    hide Normalized, Skipped;
    if lines != [] {
      var n := |lines| - 1;
      AppendedAreNamed(facts, lines[..n]);
      assert lines == lines[..n] + [lines[n]];
      forall a | a in Appended(facts, lines) ensures exists l <- lines :: a == Normalized(l) && !Skipped(a) {
        if a in Appended(facts, lines[..n]) {
          var l :| l in lines[..n] && a == Normalized(l) && !Skipped(a);
          assert l in lines;
        } else {
          assert lines[n] in lines && a == Normalized(lines[n]);
        }
      }
    }
  }

  /** Distinct facts are the last 12 of themselves and more only if nothing, or at least 12 facts, come behind. */
  lemma LastOfIsSame(facts: seq<Bytes>, more: seq<Bytes>)
    requires |facts| <= FACTS_MAX_LINES && forall i, j :: 0 <= i < j < |facts| ==> facts[i] != facts[j]
    ensures LastOf(facts + more, FACTS_MAX_LINES) == facts <==>
      more == [] || (|more| >= FACTS_MAX_LINES && LastOf(more, FACTS_MAX_LINES) == facts)
  {
    var all, m := facts + more, |more|;
    if m >= FACTS_MAX_LINES {
      assert LastOf(all, FACTS_MAX_LINES) == LastOf(more, FACTS_MAX_LINES);
    } else if m > 0 && |all| > FACTS_MAX_LINES {
      var k := |all| - FACTS_MAX_LINES;
      assert LastOf(all, FACTS_MAX_LINES)[0] == all[k];
      assert k < |facts| ==> all[k] == facts[k] != facts[0];
    }
  }

  /** For every text: the second merge changes nothing if and only if all its facts are still there, or at
      least 12 facts are appended and the last 12 of them are the list. */
  lemma MergeTwiceExactly(facts: seq<Bytes>, text: Bytes)
    requires Kept(facts) && NulFree(text) && ShortLines(text)
    ensures var once := Collected(facts, text);
      var again := Appended(once, Lines(text));
      Collected(once, text) == once <==>
        FactsOf(text) <= SetOf(once) || (|again| >= FACTS_MAX_LINES && LastOf(again, FACTS_MAX_LINES) == once)
  {
    var once := Collected(facts, text);
    CollectedIsKept(facts, text);
    FirstInFirstOut(once, Lines(text));
    LastOfIsSame(once, Appended(once, Lines(text)));
    AppendedNothing(once, Lines(text));
    StillThere(once, text);
  }

  lemma StillThere(facts: seq<Bytes>, text: Bytes)
    ensures FactsOf(text) <= SetOf(facts) <==>
      forall l <- Lines(text) :: Skipped(Normalized(l)) || Normalized(l) in facts
  {
    hide Normalized, Skipped, Lines;
    if FactsOf(text) <= SetOf(facts) {
      forall l | l in Lines(text) ensures Skipped(Normalized(l)) || Normalized(l) in facts {
        assert !Skipped(Normalized(l)) ==> Normalized(l) in FactsOf(text) && Normalized(l) in SetOf(facts);
      }
    }
  }

  /** For a text with at most 12 different facts: the second merge changes nothing if and only if every fact
      of the text is still there after the first one. */
  lemma MergeTwiceUpToTwelve(facts: seq<Bytes>, text: Bytes)
    requires Kept(facts) && NulFree(text) && ShortLines(text) && |FactsOf(text)| <= FACTS_MAX_LINES
    ensures Collected(Collected(facts, text), text) == Collected(facts, text) <==>
      forall f <- FactsOf(text) :: f in Collected(facts, text)
  {
    var once := Collected(facts, text);
    var again := Appended(once, Lines(text));
    MergeTwiceExactly(facts, text);
    CollectedIsKept(facts, text);
    hide Collected, Lines, Kept, Appended, Normalized, Skipped;
    if |again| >= FACTS_MAX_LINES && LastOf(again, FACTS_MAX_LINES) == once {
      AppendedAreNamed(once, Lines(text));
      forall f | f in once ensures f in FactsOf(text) {
        assert f in again;
      }
      assert forall i, j :: 0 <= i < j < |once| ==> once[i] != once[j];
      DistinctCount(once);
      SameWhenAsMany(SetOf(once), FactsOf(text));
    }
    assert (forall f <- FactsOf(text) :: f in once) <==> FactsOf(text) <= SetOf(once);
  }

  lemma SameWhenAsMany(a: set<Bytes>, b: set<Bytes>)
    requires a <= b && |b| <= |a|
    ensures a == b
  {
    assert b == a + (b - a);
  }

  /** Beyond 12 facts the list can be the same again although a fact is missing from it: 13 facts merged into
      an empty list evict the first one, and do so again. */
  lemma ThirteenFacts(facts: seq<Bytes>)
    requires |facts| == 13 && (forall f <- facts :: Fact(f))
    requires forall i, j :: 0 <= i < j < |facts| ==> facts[i] != facts[j]
    ensures var text := Bullets(facts);
      && Collected([], text) == facts[1..] && Collected(facts[1..], text) == facts[1..]
      && facts[0] in FactsOf(text) && facts[0] !in facts[1..]
  {
    var lines := Lines(Bullets(facts));
    BulletsLines(facts);
    FirstIsNamed(facts);
    Rotated(facts, 13);
    hide Normalized, Bullets, Lines, Fact, FactsOf, LastOf;
    FillFrom(facts, lines, 13);
    RefillFrom(facts, lines, 13);
    assert lines[..13] == lines && facts[..13] == facts;
  }

  lemma Rotated(facts: seq<Bytes>, n: nat)
    requires |facts| == 13 && 0 < n <= 13 && forall i, j :: 0 <= i < j < |facts| ==> facts[i] != facts[j]
    ensures LastOf(facts, FACTS_MAX_LINES) == facts[1..] && facts[0] !in facts[1..]
    ensures LastOf(facts[1..] + facts[..n - 1], FACTS_MAX_LINES) == facts[n..] + facts[..n - 1]
    ensures LastOf(facts[1..] + facts, FACTS_MAX_LINES) == facts[1..]
    ensures facts[n - 1] !in facts[n..] + facts[..n - 1]
  {
  }

  lemma FirstIsNamed(facts: seq<Bytes>)
    requires facts != [] && forall f <- facts :: Fact(f)
    ensures facts[0] in FactsOf(Bullets(facts))
  {
    var lines := Lines(Bullets(facts));
    BulletsLines(facts);
    assert lines[0] in lines && facts[0] in facts;
    BulletIsRead(facts[0]);
    hide Normalized, Bullets, Lines, Fact;
  }

  lemma {:induction false} FillFrom(facts: seq<Bytes>, lines: seq<Bytes>, n: nat)
    requires |lines| == |facts| && n <= |facts| && (forall f <- facts :: Fact(f))
    requires forall i :: 0 <= i < |facts| ==> lines[i] == [DASH, SPACE] + facts[i]
    requires forall i, j :: 0 <= i < j < |facts| ==> facts[i] != facts[j]
    ensures AddAll([], lines[..n]) == LastOf(facts[..n], FACTS_MAX_LINES)
  {
    hide Normalized, Fact, Skipped;
    if n > 0 {
      FillFrom(facts, lines, n - 1);
      AddFact(facts, lines, n, []);
      assert facts[..n] == facts[..n - 1] + [facts[n - 1]];
      LastOfGrows(facts[..n - 1], facts[n - 1]);
      assert facts[n - 1] !in LastOf(facts[..n - 1], FACTS_MAX_LINES);
    }
  }

  lemma {:induction false} RefillFrom(facts: seq<Bytes>, lines: seq<Bytes>, n: nat)
    requires |lines| == |facts| == 13 && n <= |facts| && (forall f <- facts :: Fact(f))
    requires forall i :: 0 <= i < |facts| ==> lines[i] == [DASH, SPACE] + facts[i]
    requires forall i, j :: 0 <= i < j < |facts| ==> facts[i] != facts[j]
    ensures AddAll(facts[1..], lines[..n]) == LastOf(facts[1..] + facts[..n], FACTS_MAX_LINES)
  {
    hide Normalized, Fact, Skipped, Add;
    if n > 0 {
      RefillFrom(facts, lines, n - 1);
      AddFact(facts, lines, n, facts[1..]);
      RefillStep(facts, n);
    } else {
      assert AddAll(facts[1..], lines[..0]) == facts[1..] == facts[1..] + facts[..0];
    }
  }

  lemma RefillStep(facts: seq<Bytes>, n: nat)
    requires |facts| == 13 && 0 < n <= 13 && !Skipped(facts[n - 1]) && Stored(facts[n - 1]) == facts[n - 1]
    requires forall i, j :: 0 <= i < j < |facts| ==> facts[i] != facts[j]
    ensures Add(LastOf(facts[1..] + facts[..n - 1], FACTS_MAX_LINES), facts[n - 1]) ==
      LastOf(facts[1..] + facts[..n], FACTS_MAX_LINES)
  {
    Rotated(facts, n);
    var before := facts[1..] + facts[..n - 1];
    LastOfGrows(before, facts[n - 1]);
    hide Skipped, LastOf;
    assert facts[1..] + facts[..n] == before + [facts[n - 1]];
  }

  lemma AddFact(facts: seq<Bytes>, lines: seq<Bytes>, n: nat, start: seq<Bytes>)
    requires |lines| == |facts| && 0 < n <= |facts| && Fact(facts[n - 1])
    requires lines[n - 1] == [DASH, SPACE] + facts[n - 1]
    ensures AddAll(start, lines[..n]) == Add(AddAll(start, lines[..n - 1]), facts[n - 1])
    ensures !Skipped(facts[n - 1]) && Stored(facts[n - 1]) == facts[n - 1]
  {
    BulletIsRead(facts[n - 1]);
    assert lines[..n][..n - 1] == lines[..n - 1];
  }

  /** With 13 distinct facts a second merge of the same text can change the list: "a" is evicted by
      the new "m" in the first merge, and comes back for "b" in the second. */
  lemma MergeTwiceCanChange()
    ensures var facts, text := Letters(), [97, NEWLINE, 109];
      Kept(facts) && Collected(Collected(facts, text), text) != Collected(facts, text)
  {
    var facts := Letters();
    var text: Bytes := [97] + [NEWLINE] + [109];
    LinesOfLine([97], [109]);
    LastLine([109]);
    assert text == [97, NEWLINE, 109] && Lines(text) == [[97], [109]];
    OneLetter(97);
    OneLetter(109);
    LettersAreKept();
    hide Normalized, Skipped, AddAll, Lines, Kept;
    var once := facts[1..] + [[109]];
    TwoLines(facts, [97], [109]);
    TwoLines(once, [97], [109]);
    EvictedAndBack();
  }

  function Letters(): seq<Bytes> {
    seq(12, i => [97 + i])
  }

  lemma LettersAreKept()
    ensures Kept(Letters())
  {
    forall f | f in Letters() ensures Fact(f) {
      var i :| 0 <= i < 12 && Letters()[i] == f;
      OneLetter(97 + i);
    }
  }

  lemma EvictedAndBack()
    requires !Skipped([97]) && !Skipped([109])
    ensures var once := Letters()[1..] + [[109]];
      Add(Add(Letters(), [97]), [109]) == once && Add(Add(once, [97]), [109]) != once
  {
    hide Skipped;
    var facts := Letters();
    var once := facts[1..] + [[109]];
    var twice := once[1..] + [[97]];
    assert facts[0] == [97] && forall i :: 0 <= i < 12 ==> facts[i][0] < 109;
    assert forall i :: 0 <= i < 12 ==> once[i][0] > 97;
    assert Add(once, [97]) == twice;
    assert twice[10] == once[11] == [109];
    assert Add(twice, [109]) == twice;
    assert once[0] == [98] && twice[0] == once[1] == [99];
  }

  lemma TwoLines(facts: seq<Bytes>, a: Bytes, b: Bytes)
    requires Normalized(a) == a && Normalized(b) == b
    ensures AddAll(facts, [a, b]) == Add(Add(facts, a), b)
  {
    assert [a, b][..1] == [a] && [a][..0] == [];
    assert AddAll(facts, [a]) == Add(facts, a);
  }

  lemma LastLine(line: Bytes)
    requires line != [] && LineText(line)
    ensures Lines(line) == [line]
  {
    assert LineLength(line) == |line|;
    assert line[..|line|] == line && line[|line|..] == [];
    assert Lines([]) == [];
  }

  lemma OneLetter(c: byte)
    requires 97 <= c <= 122
    ensures Normalized([c]) == [c] && Fact([c]) && !Skipped([c])
  {
    assert Trim([c]) == [c];
  }

  // ----- The loops -----

  method TrimAscii(s: Bytes) returns (t: Bytes)
    ensures t == Trim(s)
  {
    var from := 0;
    while from < |s| && Blank(s[from])
      invariant 0 <= from <= |s| && TrimLeft(s[from..]) == TrimLeft(s)
    {
      from := from + 1;
    }
    t := TrimTrailing(s[from..]);
  }

  method TrimTrailing(s: Bytes) returns (t: Bytes)
    ensures t == TrimRight(s)
  {
    var len := |s|;
    assert s[..len] == s;
    while len > 0 && Blank(s[len - 1])
      invariant 0 <= len <= |s| && TrimRight(s[..len]) == TrimRight(s)
    {
      assert s[..len][..len - 1] == s[..len - 1];
      len := len - 1;
    }
    t := s[..len];
  }

  method NormalizeFactLine(line: Bytes) returns (s: Bytes)
    ensures s == Normalized(line)
  {
    s := TrimAscii(line);
    if |s| >= 2 && (s[0] == DASH || s[0] == 42 || s[0] == 43) && (s[1] == SPACE || s[1] == TAB) {
      s := TrimAscii(s[1..]);
    }
  }

  /** strtok_r: the next piece, or none. */
  method NextLine(text: Bytes, at: nat) returns (line: Option<Bytes>, next: nat)
    requires at <= |text|
    ensures at <= next <= |text| && (line.Some? ==> at < next)
    ensures Lines(text[at..]) == if line.Some? then [line.value] + Lines(text[next..]) else []
  {
    hide Lines, LineLength;
    next := at;
    while next < |text| && text[next] == NEWLINE
      invariant at <= next <= |text| && Lines(text[next..]) == Lines(text[at..])
    {
      LinesAfterNewline(text, next);
      next := next + 1;
    }
    if next == |text| {
      LinesAtEnd(text);
      return None, next;
    }
    var n := LengthOfLine(text, next);
    LinesFrom(text, next, n);
    line := Some(text[next..next + n]);
    next := next + n;
  }

  lemma LinesAtEnd(text: Bytes)
    ensures Lines(text[|text|..]) == []
  {
  }

  lemma LinesAfterNewline(text: Bytes, i: nat)
    requires i < |text| && text[i] == NEWLINE
    ensures Lines(text[i..]) == Lines(text[i + 1..])
  {
    assert text[i..][1..] == text[i + 1..];
  }

  lemma LinesFrom(text: Bytes, i: nat, n: nat)
    requires i < |text| && n == LineLength(text[i..]) && n > 0
    ensures i + n <= |text| && Lines(text[i..]) == [text[i..i + n]] + Lines(text[i + n..])
  {
    assert text[i..][..n] == text[i..i + n] && text[i..][n..] == text[i + n..];
  }

  method LengthOfLine(text: Bytes, at: nat) returns (n: nat)
    requires at < |text| && text[at] != NEWLINE
    ensures n == LineLength(text[at..]) && n > 0
  {
    ghost var rest := text[at..];
    n := 0;
    while at + n < |text| && text[at + n] != NEWLINE
      invariant at + n <= |text| && forall k :: 0 <= k < n ==> rest[k] != NEWLINE
    {
      assert rest[n] == text[at + n];
      n := n + 1;
    }
    assert at + n < |text| ==> rest[n] == text[at + n];
    LineLengthIs(rest, n);
  }

  lemma LineLengthIs(s: Bytes, n: nat)
    requires n <= |s| && (forall i :: 0 <= i < n ==> s[i] != NEWLINE) && (n < |s| ==> s[n] == NEWLINE)
    ensures LineLength(s) == n
  {
  }

  /** The body of the loop: looks the line up, appends it, or shifts the table by one. */
  method AddLine(lines: array<Bytes>, count: nat, norm: Bytes) returns (count': nat)
    requires lines.Length == FACTS_MAX_LINES && count <= FACTS_MAX_LINES
    modifies lines
    ensures count' <= FACTS_MAX_LINES && lines[..count'] == Add(old(lines[..count]), norm)
  {
    count' := count;
    if Skipped(norm) {
      return;
    }
    for i := 0 to count
      invariant lines[..] == old(lines[..]) && norm !in lines[..i]
    {
      if lines[i] == norm {
        assert lines[..count][i] == norm;
        return;
      }
    }
    if count < FACTS_MAX_LINES {
      lines[count] := Stored(norm);
      count' := count + 1;
    } else {
      for i := 1 to FACTS_MAX_LINES
        invariant forall k :: 0 <= k < i - 1 ==> lines[k] == old(lines[k + 1])
        invariant forall k :: i - 1 <= k < FACTS_MAX_LINES ==> lines[k] == old(lines[k])
      {
        lines[i - 1] := lines[i];
      }
      lines[FACTS_MAX_LINES - 1] := Stored(norm);
    }
  }

  lemma NoLines(facts: seq<Bytes>)
    ensures AddAll(facts, []) == facts
  {
  }

  lemma AddAllStep(facts: seq<Bytes>, done: seq<Bytes>, line: Bytes)
    ensures AddAll(facts, done + [line]) == Add(AddAll(facts, done), Normalized(line))
  {
    assert (done + [line])[..|done|] == done;
  }

  lemma {:induction false} AddAllGrows(facts: seq<Bytes>, lines: seq<Bytes>)
    requires |facts| <= FACTS_MAX_LINES
    ensures |facts| <= |AddAll(facts, lines)| <= FACTS_MAX_LINES
  {
    if lines != [] {
      AddAllGrows(facts, lines[..|lines| - 1]);
    }
  }

  /** append_unique_fact_lines on the table of lines. */
  method AppendUniqueFactLines(lines: array<Bytes>, count: nat, text: Bytes) returns (count': nat)
    requires lines.Length == FACTS_MAX_LINES && count <= FACTS_MAX_LINES
    modifies lines
    ensures count' <= FACTS_MAX_LINES && lines[..count'] == Collected(old(lines[..count]), text)
  {
    hide Lines, AddAll, Normalized, Add;
    count' := count;
    var at := 0;
    ghost var facts, done: seq<Bytes> := lines[..count], [];
    NoLines(facts);
    assert text[0..] == text;
    while true
      invariant 0 <= at <= |text| && count' <= FACTS_MAX_LINES
      invariant done + Lines(text[at..]) == Lines(text)
      invariant lines[..count'] == AddAll(facts, done)
      decreases |text| - at
    {
      var line, next := NextLine(text, at);
      if line.None? {
        assert done + [] == done;
        return;
      }
      var norm := NormalizeFactLine(line.value);
      AddAllStep(facts, done, line.value);
      assert done + ([line.value] + Lines(text[next..])) == (done + [line.value]) + Lines(text[next..]);
      count' := AddLine(lines, count', norm);
      done := done + [line.value];
      at := next;
    }
  }

  lemma NothingToRead()
    ensures Collected([], []) == []
  {
  }

  // ----- The file -----

  class FactFile {
    /** None while the file does not exist. */
    var file: Option<Bytes>

    function Facts(): seq<Bytes>
      reads this
    {
      if file.None? then [] else Collected([], ReadBuffer(file.value))
    }

    /** The file is absent or the printed form of some table; what is read from it is a kept list. */
    ghost predicate Valid()
      reads this
    {
      Kept(Facts()) && (file.Some? ==> exists lines :: SlotLines(lines) && file.value == Printed(lines))
    }

    /** The file is absent or the printed form of its own facts. */
    ghost predicate FixedPoint()
      reads this
    {
      file.Some? ==> file.value == Printed(Facts())
    }

    constructor ()
      ensures Valid() && FixedPoint() && file == None
    {
      file := None;
    }

    /** session_store_file_merge_facts: the facts of the file are the merged ones if and only if these are a kept
        list, which they are when every line of the text fits its slot. */
    method Merge(text: Bytes)
      requires Valid() && NulFree(text)
      modifies this
      ensures Valid()
      ensures var merged := Collected(old(Facts()), text);
        && file == (if merged == [] then old(file) else Some(Printed(merged)))
        && (Facts() == merged <==> Kept(merged)) && (ShortLines(text) ==> Kept(merged))
      ensures Kept(Collected(old(Facts()), text)) && old(FixedPoint()) ==> FixedPoint()
    {
      hide Kept, AddAll, Lines, Normalized, ShortLines, Printed, SlotLines;
      NothingToRead();
      var existing := if file.None? then [] else ReadBuffer(file.value);
      var lines := new Bytes[FACTS_MAX_LINES](_ => []);
      var count := AppendUniqueFactLines(lines, 0, existing);
      assert lines[..count] == Facts();
      count := AppendUniqueFactLines(lines, count, text);
      ghost var merged := Collected(Facts(), text);
      if ShortLines(text) {
        CollectedIsKept(Facts(), text);
      }
      MergedIsTable(Facts(), text);
      AddAllGrows([], Lines(existing));
      AddAllGrows(Facts(), Lines(text));
      if count <= 0 {
        return;
      }
      var content := PrintFacts(lines, count);
      ReadIsKept(merged);
      ReadBackExactly(merged);
      file := Some(content);
    }
  }

  lemma MergedIsTable(facts: seq<Bytes>, text: Bytes)
    requires Kept(facts) && NulFree(text)
    ensures SlotLines(Collected(facts, text))
  {
    LinesAreLineText(text);
    StoredAreSlotLines(facts, Lines(text));
  }

  /** The fprintf calls: the header, and one bullet for every line. */
  method PrintFacts(lines: array<Bytes>, count: nat) returns (content: Bytes)
    requires count <= lines.Length
    ensures content == Printed(lines[..count])
  {
    ghost var facts := lines[..count];
    content := HEADER;
    assert facts[0..] == facts;
    for i := 0 to count
      invariant lines[..count] == facts && content + Bullets(facts[i..]) == Printed(facts)
    {
      assert facts[i..][0] == lines[i] && facts[i..][1..] == facts[i + 1..];
      assert content + (Bullet(lines[i]) + Bullets(facts[i + 1..])) ==
        (content + Bullet(lines[i])) + Bullets(facts[i + 1..]);
      content := content + Bullet(lines[i]);
    }
    assert facts[count..] == [] && content + [] == content;
  }
}
