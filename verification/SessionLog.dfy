/** The session history: an append log, read through a ring window. */
module SessionLog {
  import opened Bytes
  import opened Queue

  const SESSION_MAX_MSGS: nat := 96

  /** "[上下文压缩摘要]" in UTF-8: the mark of a compaction summary. */
  const SUMMARY_MARK: Bytes :=
    [91, 228, 184, 138, 228, 184, 139, 230, 150, 135, 229, 142, 139, 231, 188, 169, 230, 145, 152, 232, 166, 129, 93]

  /** A record of the history; its number is 0 when it carries no seq. */
  datatype Record = Record(role: Bytes, content: Bytes, number: nat)

  /** A line of the file: empty, not JSON, or a record. */
  datatype Line = Empty | Garbled | Entry(record: Record)

  predicate IsSummary(content: Bytes) {
    SUMMARY_MARK <= content
  }

  // ----- What the file says -----

  /** The records a reader sees. */
  function Visible(file: seq<Line>): seq<Record> {
    if file == [] then []
    else Visible(file[..|file| - 1]) + Shown(file[|file| - 1])
  }

  function Shown(line: Line): (r: seq<Record>)
    ensures |r| <= 1
  {
    if line.Entry? && !IsSummary(line.record.content) then [line.record] else []
  }

  function ResolvedSeq(r: Record, ordinal: nat): nat {
    if r.number > 0 then r.number else ordinal
  }

  /** Sequence numbers are positive and strictly increasing. */
  predicate Numbered(records: seq<Record>) {
    && (forall i :: 0 <= i < |records| ==> records[i].number > 0)
    && (forall i, j :: 0 <= i < j < |records| ==> records[i].number < records[j].number)
  }

  function HighestSeq(records: seq<Record>): (m: nat)
    ensures forall i :: 0 <= i < |records| ==> ResolvedSeq(records[i], i + 1) <= m
    ensures records != [] ==> exists i :: 0 <= i < |records| && ResolvedSeq(records[i], i + 1) == m
    ensures records == [] ==> m == 0
  {
    if records == [] then 0
    else
      var n := |records| - 1;
      var m := HighestSeq(records[..n]);
      var last := ResolvedSeq(records[n], n + 1);
      if last > m then last
      else
        assert forall i :: 0 <= i < n ==> records[..n][i] == records[i];
        m
  }

  lemma NoHighest()
    ensures HighestSeq([]) == 0
  {
  }

  lemma HighestGrows(records: seq<Record>, r: Record)
    ensures HighestSeq(records + [r]) ==
      var last, m := ResolvedSeq(r, |records| + 1), HighestSeq(records); if last > m then last else m
  {
    assert (records + [r])[..|records|] == records;
  }

  /** What the next append writes. */
  function NextSeq(records: seq<Record>): nat {
    HighestSeq(records) + 1
  }

  /** The last n records. */
  function Window(records: seq<Record>, n: nat): seq<Record> {
    if |records| <= n then records else records[|records| - n..]
  }

  lemma VisibleAppended(file: seq<Line>, line: Line)
    ensures Visible(file + [line]) == Visible(file) + Shown(line)
  {
    assert (file + [line])[..|file|] == file;
  }

  lemma NextSeqOfNumbered(records: seq<Record>)
    requires Numbered(records)
    ensures NextSeq(records) == if records == [] then 1 else records[|records| - 1].number + 1
    ensures forall role, content :: Numbered(records + [Record(role, content, NextSeq(records))])
  {
    if records != [] {
      var last := |records| - 1;
      assert ResolvedSeq(records[last], last + 1) <= HighestSeq(records);
      var i :| 0 <= i < |records| && ResolvedSeq(records[i], i + 1) == HighestSeq(records);
      assert records[i].number <= records[last].number;
    }
  }

  /** A line shows its record unless the content starts with the mark, "[", seven Chinese characters and "]". */
  lemma ShownMeans(r: Record)
    ensures Shown(Empty) == Shown(Garbled) == []
    ensures var mark := [91, 228, 184, 138, 228, 184, 139, 230, 150, 135, 229, 142, 139, 231, 188, 169, 230, 145, 152,
                         232, 166, 129, 93];
      Shown(Entry(r)) == if mark <= r.content then [] else [r]
  {
  }

  lemma NothingVisible()
    ensures Visible([]) == []
  {
  }

  /** Records without numbers count by their position. */
  lemma NextSeqOfUnnumbered(records: seq<Record>)
    requires forall r <- records :: r.number == 0
    ensures NextSeq(records) == |records| + 1
  {
    if records != [] {
      var n := |records|;
      assert records[n - 1] in records && ResolvedSeq(records[n - 1], n) <= HighestSeq(records);
      var i :| 0 <= i < n && ResolvedSeq(records[i], i + 1) == HighestSeq(records);
      assert records[i] in records;
    }
  }

  lemma ShownAsIs(r: Record)
    requires r.number > 0 && !IsSummary(r.content)
    ensures Shown(Entry(r.(number := ResolvedSeq(r, 0)))) == [r]
  {
  }

  /** Some of the records, in the same order. */
  predicate Subsequence(a: seq<Record>, b: seq<Record>) {
    if a == [] then true
    else if b == [] then false
    else if a[0] == b[0] then Subsequence(a[1..], b[1..])
    else Subsequence(a, b[1..])
  }

  lemma {:induction false} SubsequenceIsNumbered(a: seq<Record>, b: seq<Record>)
    requires Subsequence(a, b) && Numbered(b)
    ensures Numbered(a) && forall r <- a :: r in b
  {
    if a != [] {
      if a[0] == b[0] {
        SubsequenceIsNumbered(a[1..], b[1..]);
        forall j | 1 <= j < |a| ensures a[0].number < a[j].number && a[j].number > 0 {
          assert a[j] == a[1..][j - 1] && a[j] in b[1..];
          var k :| 0 <= k < |b| - 1 && b[1..][k] == a[j];
          assert b[k + 1] == a[j];
        }
        assert forall i, j :: 1 <= i < j < |a| ==> a[i] == a[1..][i - 1] && a[j] == a[1..][j - 1];
        assert forall r <- a :: r == a[0] || r in a[1..];
      } else {
        SubsequenceIsNumbered(a, b[1..]);
      }
    }
  }

  // ----- The ring -----

  /** The records stand in consecutive slots from start on. */
  ghost predicate RingHolds(slots: seq<Record>, start: nat, records: seq<Record>) {
    && |records| <= |slots| && start < |slots|
    && forall k :: 0 <= k < |records| ==> slots[Wrap(start + k, |slots|)] == records[k]
  }

  /** A record goes behind the others, or over the oldest one when the ring is full. */
  lemma RingTakes(slots: seq<Record>, start: nat, records: seq<Record>, r: Record, at: nat)
    requires RingHolds(slots, start, records) && at == Wrap(start + |records|, |slots|)
    ensures |records| < |slots| ==> RingHolds(slots[at := r], start, records + [r])
    ensures |records| == |slots| ==>
      at == start && RingHolds(slots[at := r], Wrap(start + 1, |slots|), records[1..] + [r])
  {
    if |records| == |slots| {
      var after := records[1..] + [r];
      forall k | 0 <= k < |after|
        ensures slots[at := r][Wrap(Wrap(start + 1, |slots|) + k, |slots|)] == after[k]
      {
        if k < |after| - 1 {
          assert after[k] == records[k + 1];
          assert Wrap(Wrap(start + 1, |slots|) + k, |slots|) == Wrap(start + (k + 1), |slots|);
        }
      }
    }
  }

  lemma WindowGrows(records: seq<Record>, r: Record, n: nat)
    requires n > 0
    ensures Window(records + [r], n) ==
      if |Window(records, n)| < n then Window(records, n) + [r] else Window(records, n)[1..] + [r]
  {
  }

  lemma WrapIsMod(i: nat, n: nat)
    requires n > 0 && i < 2 * n
    ensures i % n == Wrap(i, n)
  {
    if i >= n {
      ModOne(i - n, n);
    }
  }

  lemma ModOne(r: nat, n: nat)
    requires r < n
    ensures (n + r) % n == r
  {
    var q := (n + r) / n;
    assert n + r == q * n + (n + r) % n;
    assert (q - 1) * n == q * n - n;
  }

  lemma RingAt(slots: seq<Record>, start: nat, records: seq<Record>, k: nat)
    requires RingHolds(slots, start, records) && k < |records|
    ensures slots[RingIndex(start + k, |slots|)] == records[k] && slots[start] == records[0]
  {
    WrapIsMod(start + k, |slots|);
    assert slots[Wrap(start + 0, |slots|)] == records[0];
  }

  /** A position in the ring of n slots. */
  function RingIndex(i: nat, n: nat): (r: nat)
    requires n > 0
    ensures r < n
  {
    i % n
  }

  /** The ring after the records seen: where the next one goes, and how many are held. */
  ghost predicate RingState(slots: seq<Record>, writeIdx: nat, count: nat, seen: seq<Record>) {
    && writeIdx < |slots| && count == |Window(seen, |slots|)| && (count < |slots| ==> writeIdx == count)
    && RingHolds(slots, if count < |slots| then 0 else writeIdx, Window(seen, |slots|))
  }

  lemma EmptyRing(slots: seq<Record>)
    requires slots != []
    ensures RingState(slots, 0, 0, [])
  {
  }

  lemma RingCount(slots: seq<Record>, writeIdx: nat, count: nat, seen: seq<Record>)
    requires RingState(slots, writeIdx, count, seen)
    ensures count == |Window(seen, |slots|)|
  {
  }

  lemma WindowEnds(records: seq<Record>, n: nat)
    requires n > 0
    ensures |Window(records, n)| <= n && (records == [] <==> Window(records, n) == [])
    ensures records != [] ==> Window(records, n)[|Window(records, n)| - 1] == records[|records| - 1]
    ensures Numbered(records) ==> Numbered(Window(records, n))
  {
  }

  // ----- The store -----

  datatype WindowMeta =
    WindowMeta(limit: nat, count: nat, total: nat, truncated: bool, firstSeq: nat, lastSeq: nat, nextSeq: nat)

  function EffectiveMax(wanted: int, configured: int): (n: nat)
    ensures 1 <= n <= SESSION_MAX_MSGS
  {
    var n := if wanted <= 0 || wanted > configured then configured else wanted;
    var m := if n > SESSION_MAX_MSGS then SESSION_MAX_MSGS else n;
    if m < 1 then 1 else m
  }

  class Store {
    var file: seq<Line>

    /** What every run keeps: the visible records are numbered. */
    ghost predicate Valid()
      reads this
    {
      Numbered(Visible(file))
    }

    constructor ()
      ensures Valid() && file == []
    {
      file := [];
    }

    /** session_history_next_seq. */
    method FindNextSeq() returns (n: nat)
      ensures n == NextSeq(Visible(file))
    {
      hide HighestSeq;
      var highest, ordinal := 0, 0;
      assert HighestSeq([]) == 0 by { NoHighest(); }
      for i := 0 to |file|
        invariant ordinal == |Visible(file[..i])| && highest == HighestSeq(Visible(file[..i]))
      {
        assert file[..i + 1][..i] == file[..i];
        var line := file[i];
        if !line.Entry? || IsSummary(line.record.content) {
          assert Visible(file[..i + 1]) == Visible(file[..i]);
          continue;
        }
        assert Visible(file[..i + 1]) == Visible(file[..i]) + [line.record];
        HighestGrows(Visible(file[..i]), line.record);
        ordinal := ordinal + 1;
        var value := ResolvedSeq(line.record, ordinal);
        if value > highest {
          highest := value;
        }
      }
      assert file[..|file|] == file;
      n := if highest > 0 then highest + 1 else 1;
    }

    /** file_append_ex: the new record gets the next number; a compaction summary stays invisible. */
    method Append(role: Bytes, content: Bytes)
      requires Valid()
      modifies this
      ensures Valid()
      ensures file == old(file) + [Entry(Record(role, content, NextSeq(old(Visible(file)))))]
      ensures Visible(file) == old(Visible(file)) +
        if IsSummary(content) then [] else [Record(role, content, NextSeq(old(Visible(file))))]
    {
      var next := FindNextSeq();
      NextSeqOfNumbered(Visible(file));
      var line := Entry(Record(role, content, next));
      VisibleAppended(file, line);
      file := file + [line];
    }

    /** file_rewrite_from_array: the file holds the given messages, less compaction summaries. */
    method Rewrite(messages: seq<Record>)
      requires Valid() && Subsequence(messages, Visible(file))
      modifies this
      ensures Valid() && Visible(file) == messages
    {
      SubsequenceIsNumbered(messages, Visible(file));
      VisibleIsNoSummary(file);
      assert forall i :: 0 <= i < |messages| ==> messages[i] in messages;
      hide Subsequence, Visible, Shown, IsSummary;
      file := [];
      NothingVisible();
      for i := 0 to |messages|
        invariant Visible(file) == messages[..i]
      {
        if !IsSummary(messages[i].content) {
          var line := Entry(messages[i].(number := ResolvedSeq(messages[i], 0)));
          VisibleAppended(file, line);
          ShownAsIs(messages[i]);
          file := file + [line];
        }
        assert messages[..i + 1] == messages[..i] + [messages[i]];
      }
      assert messages[..|messages|] == messages;
    }

    /** The ring the readers fill: write position and count, oldest records overwritten. */
    method FillRing(n: nat) returns (slots: array<Record>, writeIdx: nat, count: nat, total: nat)
      requires n > 0
      ensures fresh(slots) && slots.Length == n && total == |Visible(file)| && count == |Window(Visible(file), n)|
      ensures RingState(slots[..], writeIdx, count, Visible(file))
    {
      hide RingState, Window;
      slots := new Record[n](_ => Record([], [], 0));
      writeIdx, count, total := 0, 0, 0;
      EmptyRing(slots[..]);
      for i := 0 to |file|
        invariant total == |Visible(file[..i])| && RingState(slots[..], writeIdx, count, Visible(file[..i]))
      {
        assert file[..i + 1][..i] == file[..i];
        var line := file[i];
        if !line.Entry? || IsSummary(line.record.content) {
          assert Visible(file[..i + 1]) == Visible(file[..i]);
          continue;
        }
        total := total + 1;
        writeIdx, count := PutRecord(slots, writeIdx, count, line.record, Visible(file[..i]));
      }
      assert file[..|file|] == file;
      RingCount(slots[..], writeIdx, count, Visible(file));
    }

    method PutRecord(slots: array<Record>, writeIdx: nat, count: nat, r: Record, ghost seen: seq<Record>)
      returns (writeIdx': nat, count': nat)
      requires RingState(slots[..], writeIdx, count, seen)
      modifies slots
      ensures RingState(slots[..], writeIdx', count', seen + [r])
    {
      ghost var before := slots[..];
      WindowGrows(seen, r, slots.Length);
      RingTakes(before, if count < slots.Length then 0 else writeIdx, Window(seen, slots.Length), r, writeIdx);
      assert RingIndex(writeIdx + 1, slots.Length) == Wrap(writeIdx + 1, slots.Length) by {
        NextPosition(writeIdx, slots.Length);
      }
      hide RingHolds, Window, RingIndex, Wrap;
      slots[writeIdx] := r;
      assert slots[..] == before[writeIdx := r];
      writeIdx' := RingIndex(writeIdx + 1, slots.Length);
      count' := if count < slots.Length then count + 1 else count;
    }

    /** file_get_history_json: the last records, oldest first. */
    method History(wanted: int, configured: int) returns (records: seq<Record>)
      ensures records == Window(Visible(file), EffectiveMax(wanted, configured))
      ensures var all := Visible(file);
        && (1 <= wanted <= configured && wanted <= 96 ==>
              records == if |all| <= wanted then all else all[|all| - wanted..])
        && (1 <= configured <= 96 && (wanted <= 0 || wanted > configured) ==>
              records == if |all| <= configured then all else all[|all| - configured..])
        && (configured > 96 && (wanted <= 0 || wanted > 96) ==>
              records == if |all| <= 96 then all else all[|all| - 96..])
        && (configured < 1 ==> records == if |all| <= 1 then all else all[|all| - 1..])
    {
      var n := EffectiveMax(wanted, configured);
      LimitIs(wanted, configured);
      WindowIs(Visible(file), n);
      hide Visible, EffectiveMax, Window, RingHolds;
      var slots, writeIdx, count, total := FillRing(n);
      var start := if count < n then 0 else writeIdx;
      records := ReadRing(slots, start, count, Window(Visible(file), n));
    }

    method ReadRing(slots: array<Record>, start: nat, count: nat, ghost w: seq<Record>) returns (records: seq<Record>)
      requires RingHolds(slots[..], start, w) && count == |w|
      ensures records == w
    {
      hide RingIndex, RingHolds;
      records := [];
      for i := 0 to count
        invariant records == w[..i]
      {
        RingAt(slots[..], start, w, i);
        records := records + [slots[RingIndex(start + i, slots.Length)]];
      }
    }

    /** file_get_history_window_meta: it describes the window, and its nextSeq is what the next append writes. */
    method GetWindowMeta(wanted: int, configured: int) returns (meta: WindowMeta)
      requires Valid()
      ensures meta == Described(Visible(file), EffectiveMax(wanted, configured))
      ensures meta.limit == if configured < 1 then 1
                            else if 1 <= wanted <= configured then (if wanted <= 96 then wanted else 96)
                            else if configured <= 96 then configured else 96
      ensures var all := Visible(file);
        && meta.total == |all| && meta.count == (if |all| <= meta.limit then |all| else meta.limit)
        && meta.truncated == (meta.count < |all|)
        && meta.firstSeq == (if all == [] then 0 else all[|all| - meta.count].number)
        && meta.lastSeq == (if all == [] then 0 else all[|all| - 1].number) && meta.nextSeq == meta.lastSeq + 1
    {
      hide Visible, Window, RingState, Described, Numbered, EffectiveMax;
      var n := EffectiveMax(wanted, configured);
      var slots, writeIdx, count, total := FillRing(n);
      var firstSeq, lastSeq := 0, 0;
      if count > 0 {
        firstSeq, lastSeq := ReadEnds(slots, writeIdx, count, Visible(file));
      }
      DescribedEnds(Visible(file), n, firstSeq, lastSeq);
      meta := WindowMeta(n, count, total, total > count, firstSeq, lastSeq, if lastSeq > 0 then lastSeq + 1 else 1);
      LimitIs(wanted, configured);
      DescribedIs(Visible(file), n);
    }

    method ReadEnds(slots: array<Record>, writeIdx: nat, count: nat, ghost records: seq<Record>)
      returns (firstSeq: nat, lastSeq: nat)
      requires Numbered(records) && count > 0 && RingState(slots[..], writeIdx, count, records)
      ensures var w := Window(records, slots.Length);
        |w| == count && firstSeq == w[0].number && lastSeq == w[count - 1].number
    {
      hide Window, RingHolds, RingIndex, Numbered;
      ghost var w := Window(records, slots.Length);
      EndsAreNumbered(records, slots.Length);
      var start := if count < slots.Length then 0 else writeIdx;
      RingAt(slots[..], start, w, count - 1);
      var lastIdx := RingIndex(start + count - 1, slots.Length);
      firstSeq := ResolvedSeq(slots[start], start + 1);
      lastSeq := ResolvedSeq(slots[lastIdx], start + count);
    }
  }

  lemma EndsAreNumbered(records: seq<Record>, n: nat)
    requires Numbered(records) && n > 0
    ensures var w := Window(records, n); w != [] ==> w[0].number > 0 && w[|w| - 1].number > 0
  {
  }

  lemma WindowIs(records: seq<Record>, n: nat)
    ensures Window(records, n) == if |records| <= n then records else records[|records| - n..]
  {
  }

  lemma LimitIs(wanted: int, configured: int)
    ensures EffectiveMax(wanted, configured) ==
      if configured < 1 then 1
      else if 1 <= wanted <= configured then (if wanted <= 96 then wanted else 96)
      else if configured <= 96 then configured else 96
  {
  }

  lemma DescribedIs(records: seq<Record>, n: nat)
    requires Numbered(records) && n > 0
    ensures var meta := Described(records, n);
      && meta.limit == n && meta.total == |records| && meta.count == (if |records| <= n then |records| else n)
      && meta.truncated == (meta.count < |records|)
      && meta.firstSeq == (if records == [] then 0 else records[|records| - meta.count].number)
      && meta.lastSeq == (if records == [] then 0 else records[|records| - 1].number)
      && meta.nextSeq == meta.lastSeq + 1
  {
    NextSeqOfNumbered(records);
  }

  lemma DescribedEnds(records: seq<Record>, n: nat, firstSeq: nat, lastSeq: nat)
    requires Numbered(records) && n > 0
    requires var w := Window(records, n);
      if w == [] then firstSeq == lastSeq == 0 else firstSeq == w[0].number && lastSeq == w[|w| - 1].number
    ensures Described(records, n) ==
      WindowMeta(n, |Window(records, n)|, |records|, |records| > |Window(records, n)|, firstSeq, lastSeq,
                 if lastSeq > 0 then lastSeq + 1 else 1)
  {
    WindowEnds(records, n);
    NextSeqOfNumbered(records);
  }

  /** Limit, size and ends of the window, the number of all records, and the next sequence number. */
  function Described(records: seq<Record>, n: nat): WindowMeta {
    var w := Window(records, n);
    WindowMeta(n, |w|, |records|, |w| < |records|, if w == [] then 0 else w[0].number,
               if w == [] then 0 else w[|w| - 1].number, NextSeq(records))
  }

  lemma {:induction false} VisibleIsNoSummary(file: seq<Line>)
    ensures forall r <- Visible(file) :: !IsSummary(r.content)
  {
    if file != [] {
      VisibleIsNoSummary(file[..|file| - 1]);
    }
  }
}
