/** WAVE files: the writer of the wake-word recorder and the reader of the player. */
module Wav {
  import opened Bytes

  /** Size of the unsigned 32-bit range, and of size_t on 32-bit and 64-bit targets. */
  const WORD32: nat := 0x1_0000_0000
  const WORD64: nat := 0x1_0000_0000_0000_0000

  const RIFF: Bytes := [82, 73, 70, 70]
  const WAVE: Bytes := [87, 65, 86, 69]
  const FMT: Bytes := [102, 109, 116, 32]
  const DATA: Bytes := [100, 97, 116, 97]

  const HEADER_LEN: nat := 44

  /** A header with this chunk size has step 8 + 0xFFFFFFF8, which is 0 in 32 bits. */
  const ZERO_STEP: nat := 0xFFFF_FFF8

  datatype Config = Config(sampleRate: int, channels: int, bits: int)

  // ----- Little-endian fields -----

  function Le16(v: nat): (r: Bytes)
    ensures |r| == 2
  {
    [v % 256, v / 256 % 256]
  }

  function Le32(v: nat): (r: Bytes)
    ensures |r| == 4
  {
    [v % 256, v / 256 % 256, v / 65536 % 256, v / 16777216 % 256]
  }

  function Read16(s: Bytes, off: nat): (v: nat)
    requires off + 2 <= |s|
    ensures v < 65536
  {
    s[off] as int + 256 * s[off + 1] as int
  }

  function Read32(s: Bytes, off: nat): (v: nat)
    requires off + 4 <= |s|
    ensures v < WORD32
  {
    s[off] as int + 256 * s[off + 1] as int + 65536 * s[off + 2] as int + 16777216 * s[off + 3] as int
  }

  lemma Read16OfLe16(s: Bytes, off: nat, v: nat)
    requires v < 65536 && At(s, off, Le16(v))
    ensures Read16(s, off) == v
  {
    AtByte(s, off, Le16(v), 0);
    AtByte(s, off, Le16(v), 1);
  }

  lemma Read32OfLe32(s: Bytes, off: nat, v: nat)
    requires v < WORD32 && At(s, off, Le32(v))
    ensures Read32(s, off) == v
  {
    AtByte(s, off, Le32(v), 0);
    AtByte(s, off, Le32(v), 1);
    AtByte(s, off, Le32(v), 2);
    AtByte(s, off, Le32(v), 3);
    assert v / 65536 == v / 256 / 256 && v / 16777216 == v / 256 / 256 / 256;
  }

  /** An int stored in 32 bits, and back. */
  function Unsigned(n: int): nat {
    n % WORD32
  }

  function Signed(v: nat): int
    requires v < WORD32
  {
    if v < WORD32 / 2 then v else v - WORD32
  }

  // ----- The writer -----

  predicate InFieldRange(cfg: Config) {
    && -(WORD32 / 2) <= cfg.sampleRate < WORD32 / 2
    && 0 <= cfg.channels < 65536 && 0 <= cfg.bits < 65536
  }

  /** The int product wraps around, then it is divided. */
  function ByteRate(cfg: Config): nat {
    Unsigned(Quotient(Signed(Unsigned(cfg.sampleRate * cfg.channels * cfg.bits)), 8))
  }

  function BlockAlign(cfg: Config): nat {
    Quotient(Signed(Unsigned(cfg.channels * cfg.bits)), 8) % 65536
  }

  /** C's division, which truncates. */
  function Quotient(a: int, b: nat): int
    requires b > 0
  {
    if a >= 0 then a / b else -(-a / b)
  }

  function RiffHead(n: nat): (r: Bytes)
    ensures |r| == 12
  {
    RIFF + Le32((36 + n) % WORD32) + WAVE
  }

  function FmtChunk(cfg: Config): (r: Bytes)
    requires InFieldRange(cfg)
    ensures |r| == 24
  {
    FMT + Le32(16) + Le16(1) + Le16(cfg.channels) + Le32(Unsigned(cfg.sampleRate)) + Le32(ByteRate(cfg)) +
    Le16(BlockAlign(cfg)) + Le16(cfg.bits)
  }

  function DataHead(n: nat): (r: Bytes)
    ensures |r| == 8
  {
    DATA + Le32(n % WORD32)
  }

  /** The header in front of n payload bytes. */
  function Header(cfg: Config, n: nat): (r: Bytes)
    requires InFieldRange(cfg)
    ensures |r| == HEADER_LEN
  {
    RiffHead(n) + FmtChunk(cfg) + DataHead(n)
  }

  /** The n bytes from off on as a number, the lowest byte first. */
  function Little(s: Bytes, off: nat, n: nat): int
    requires off + n <= |s|
    decreases n
  {
    if n == 0 then 0 else s[off] as int + 256 * Little(s, off + 1, n - 1)
  }

  /** The header byte by byte: "RIFF", the size behind it, "WAVEfmt ", 16, format 1, and the fields. */
  lemma HeaderBytes(cfg: Config, n: nat)
    requires InFieldRange(cfg)
    ensures var h := Header(cfg, n);
      && h[..4] == [82, 73, 70, 70] && Little(h, 4, 4) == (36 + n) % 0x1_0000_0000
      && h[8..16] == [87, 65, 86, 69, 102, 109, 116, 32] && Little(h, 16, 4) == 16 && Little(h, 20, 2) == 1
      && Little(h, 22, 2) == cfg.channels && Little(h, 24, 4) == cfg.sampleRate % 0x1_0000_0000
      && Little(h, 34, 2) == cfg.bits && h[36..40] == [100, 97, 116, 97] && Little(h, 40, 4) == n % 0x1_0000_0000
    ensures var h := Header(cfg, n); var rate := cfg.sampleRate * cfg.channels * cfg.bits;
      0 <= rate < 0x8000_0000 ==> Little(h, 28, 4) == rate / 8
    ensures var h := Header(cfg, n); var frame := cfg.channels * cfg.bits;
      0 <= frame < 0x8000_0000 ==> Little(h, 32, 2) == frame / 8 % 65536
  {
    var h := Header(cfg, n);
    HeaderParts(h, cfg, n);
    LittleOf32((36 + n) % WORD32, h, 4);
    LittleOf32(16, h, 16);
    LittleOf16(1, h, 20);
    LittleOf16(cfg.channels, h, 22);
    LittleOf32(Unsigned(cfg.sampleRate), h, 24);
    LittleOf32(ByteRate(cfg), h, 28);
    LittleOf16(BlockAlign(cfg), h, 32);
    LittleOf16(cfg.bits, h, 34);
    LittleOf32(n % WORD32, h, 40);
    hide Header, Le16, Le32, Little;
    var rate := cfg.sampleRate * cfg.channels * cfg.bits;
    var frame := cfg.channels * cfg.bits;
    if 0 <= rate < 0x8000_0000 {
      SmallMod(rate, WORD32);
      SmallMod(rate / 8, WORD32);
    }
    if 0 <= frame < 0x8000_0000 {
      SmallMod(frame, WORD32);
    }
  }

  /** Where the pieces of the header stand. */
  lemma HeaderParts(h: Bytes, cfg: Config, n: nat)
    requires InFieldRange(cfg) && h == Header(cfg, n)
    ensures |h| == 44 && h[..4] == RIFF && h[8..16] == WAVE + FMT && h[36..40] == DATA
    ensures At(h, 4, Le32((36 + n) % WORD32)) && At(h, 16, Le32(16)) && At(h, 20, Le16(1))
    ensures At(h, 22, Le16(cfg.channels))
    ensures At(h, 24, Le32(Unsigned(cfg.sampleRate))) && At(h, 28, Le32(ByteRate(cfg)))
    ensures At(h, 32, Le16(BlockAlign(cfg))) && At(h, 34, Le16(cfg.bits)) && At(h, 40, Le32(n % WORD32))
    ensures Unsigned(cfg.sampleRate) < WORD32 && ByteRate(cfg) < WORD32 && BlockAlign(cfg) < 65536
  {
    UnsignedRange(cfg);
    hide Le16, Le32, Unsigned, ByteRate, BlockAlign;
  }

  lemma LittleOf16(v: nat, s: Bytes, off: nat)
    requires v < 65536 && At(s, off, Le16(v))
    ensures Little(s, off, 2) == v
  {
    AtByte(s, off, Le16(v), 0);
    AtByte(s, off, Le16(v), 1);
    assert Little(s, off + 2, 0) == 0;
  }

  lemma LittleOf32(v: nat, s: Bytes, off: nat)
    requires v < WORD32 && At(s, off, Le32(v))
    ensures Little(s, off, 4) == v
  {
    AtByte(s, off, Le32(v), 0);
    AtByte(s, off, Le32(v), 1);
    AtByte(s, off, Le32(v), 2);
    AtByte(s, off, Le32(v), 3);
    assert v / 65536 == v / 256 / 256 && v / 16777216 == v / 256 / 256 / 256;
    assert Little(s, off + 4, 0) == 0;
    assert Little(s, off + 3, 1) == s[off + 3] as int;
    assert Little(s, off + 2, 2) == s[off + 2] as int + 256 * s[off + 3] as int;
  }

  /** memcpy of a piece directly behind what has been written. */
  method Put(buf: array<byte>, at: nat, piece: Bytes)
    requires at + |piece| <= buf.Length
    modifies buf
    ensures buf[..at + |piece|] == old(buf[..at]) + piece
  {
    for i := 0 to |piece|
      invariant buf[..at + i] == old(buf[..at]) + piece[..i]
    {
      buf[at + i] := piece[i];
      assert buf[..at + i + 1] == buf[..at + i] + [piece[i]];
    }
  }

  method WriteLe16(buf: array<byte>, off: nat, v: nat, cap: nat) returns (ok: bool)
    requires cap <= buf.Length && v < 65536
    modifies buf
    ensures ok == (off + 2 <= cap)
    ensures ok ==> buf[..off + 2] == old(buf[..off]) + Le16(v)
    ensures !ok ==> buf[..] == old(buf[..])
  {
    if off + 2 > cap {
      return false;
    }
    buf[off] := v % 256;
    buf[off + 1] := v / 256 % 256;
    ok := true;
  }

  method WriteLe32(buf: array<byte>, off: nat, v: nat, cap: nat) returns (ok: bool)
    requires cap <= buf.Length && v < WORD32
    modifies buf
    ensures ok == (off + 4 <= cap)
    ensures ok ==> buf[..off + 4] == old(buf[..off]) + Le32(v)
    ensures !ok ==> buf[..] == old(buf[..])
  {
    if off + 4 > cap {
      return false;
    }
    buf[off] := v % 256;
    buf[off + 1] := v / 256 % 256;
    buf[off + 2] := v / 65536 % 256;
    buf[off + 3] := v / 16777216 % 256;
    ok := true;
  }

  /** build_wav: no file for an empty payload. */
  method BuildWav(pcm: Bytes, cfg: Config) returns (wav: Option<Bytes>)
    requires InFieldRange(cfg)
    ensures wav == if pcm == [] then None else Some(Header(cfg, |pcm|) + pcm)
  {
    if pcm == [] {
      return None;
    }
    var total := HEADER_LEN + |pcm|;
    var buf := new byte[total](_ => 0);
    WriteRiff(buf, |pcm|);
    WriteFmt(buf, cfg);
    Put(buf, 36, DATA);
    var ok := WriteLe32(buf, 40, |pcm| % WORD32, HEADER_LEN);
    hide Le32, FmtChunk, RiffHead;
    assert buf[..HEADER_LEN] == Header(cfg, |pcm|);
    Put(buf, HEADER_LEN, pcm);
    assert buf[..] == buf[..total];
    wav := Some(buf[..]);
  }

  method WriteRiff(buf: array<byte>, n: nat)
    requires HEADER_LEN <= buf.Length
    modifies buf
    ensures buf[..12] == RiffHead(n)
  {
    hide Le32;
    Put(buf, 0, RIFF);
    var ok := WriteLe32(buf, 4, (36 + n) % WORD32, HEADER_LEN);
    Put(buf, 8, WAVE);
  }

  method WriteFmt(buf: array<byte>, cfg: Config)
    requires HEADER_LEN <= buf.Length && InFieldRange(cfg)
    modifies buf
    ensures buf[..36] == old(buf[..12]) + FmtChunk(cfg)
  {
    hide Le16, Le32, Unsigned, ByteRate, BlockAlign;
    UnsignedRange(cfg);
    ghost var before := buf[..12];
    Put(buf, 12, FMT);
    var ok := WriteLe32(buf, 16, 16, HEADER_LEN);
    ok := WriteLe16(buf, 20, 1, HEADER_LEN);
    ok := WriteLe16(buf, 22, cfg.channels, HEADER_LEN);
    ghost var half := FMT + Le32(16) + Le16(1) + Le16(cfg.channels);
    assert buf[..24] == before + half;
    ok := WriteLe32(buf, 24, Unsigned(cfg.sampleRate), HEADER_LEN);
    ok := WriteLe32(buf, 28, ByteRate(cfg), HEADER_LEN);
    ok := WriteLe16(buf, 32, BlockAlign(cfg), HEADER_LEN);
    ok := WriteLe16(buf, 34, cfg.bits, HEADER_LEN);
  }

  lemma UnsignedRange(cfg: Config)
    ensures Unsigned(cfg.sampleRate) < WORD32 && ByteRate(cfg) < WORD32 && BlockAlign(cfg) < 65536
  {
  }

  // ----- The walk over the chunks -----

  function ChunkSize(s: Bytes, off: nat): (v: nat)
    requires off + 8 <= |s|
    ensures v < WORD32
  {
    Read32(s, off + 4)
  }

  /** The step is computed in 32 bits, rounded up to even, and added to a size_t. */
  function Next(off: nat, size: nat, word: nat): nat
    requires word > 0
  {
    var step := (8 + size) % WORD32;
    var even := if step % 2 == 1 then (step + 1) % word else step;
    (off + even) % word
  }

  /** The condition of the loop. */
  predicate Inside(off: nat, len: nat, word: nat)
    requires word > 0
  {
    (off + 8) % word <= len
  }

  /** The test for a chunk that is taken. */
  predicate EndsInside(off: nat, size: nat, len: nat, word: nat)
    requires word > 0
  {
    (off + 8 + size) % word <= len
  }

  /** The payload of a chunk that passes the test lies inside the buffer exactly when the sum does not wrap. */
  lemma TakenChunk(off: nat, size: nat, len: nat, word: nat)
    requires len < word && EndsInside(off, size, len, word)
    ensures off + 8 + size <= len <==> off + 8 + size < word
  {
    if off + 8 + size < word {
      assert (off + 8 + size) % word == off + 8 + size;
    }
  }

  datatype Found = Found(cfg: Option<Config>, data: Option<(nat, nat)>)

  /** The walk: on its way at an offset, at the end of the loop, returned early, or reading outside the buffer. */
  datatype State = Going(off: nat, found: Found) | Ended(found: Found) | Rejected | Astray

  predicate IsWave(s: Bytes) {
    |s| >= 12 && s[..4] == RIFF && s[8..12] == WAVE
  }

  /** What the branches of the loop make of the chunk at off. */
  function Visit(s: Bytes, off: nat, found: Found, word: nat): State
    requires word > 0 && off + 8 <= |s|
  {
    var size := ChunkSize(s, off);
    var id := s[off..off + 4];
    var next := Next(off, size, word);
    if id == FMT && size >= 16 && EndsInside(off, size, |s|, word) then
      if off + 24 > |s| then Astray
      else if Read16(s, off + 8) != 1 then Rejected
      else Going(next, found.(cfg := Some(ReadConfig(s, off))))
    else if id == DATA && EndsInside(off, size, |s|, word) then Going(next, found.(data := Some((off + 8, size))))
    else Going(next, found)
  }

  function ReadConfig(s: Bytes, off: nat): Config
    requires off + 24 <= |s|
  {
    Config(Signed(Read32(s, off + 12)), Read16(s, off + 10), Read16(s, off + 22))
  }

  /** One evaluation of the loop condition, and the round behind it. */
  function Round(s: Bytes, st: State, word: nat): State
    requires word > 0
  {
    match st
    case Going(off, found) =>
      if !Inside(off, |s|, word) then Ended(found)
      else if off + 8 > |s| then Astray
      else Visit(s, off, found, word)
    case _ => st
  }

  /** The state after n rounds; input that is no WAVE file is rejected at once. */
  function Walk(s: Bytes, n: nat, word: nat): State
    requires word > 0
  {
    if n > 0 then Round(s, Walk(s, n - 1, word), word)
    else if IsWave(s) then Going(12, Found(None, None))
    else Rejected
  }

  datatype Parsed = Parsed(cfg: Config, start: nat, length: nat)

  /** The result of wav_parse in a final state. */
  function Verdict(st: State): Option<Parsed> {
    match st
    case Ended(Found(Some(cfg), Some(data))) => Some(Parsed(cfg, data.0, data.1))
    case _ => None
  }

  lemma {:induction false} FinalStays(s: Bytes, n: nat, m: nat, word: nat)
    requires word > 0 && n <= m && !Walk(s, n, word).Going?
    ensures Walk(s, m, word) == Walk(s, n, word)
  {
    if n < m {
      FinalStays(s, n, m - 1, word);
    }
  }

  // ----- The payload -----

  /** What has been taken as payload passed the test, whose sum may wrap. */
  predicate Tested(f: Found, len: nat, word: nat)
    requires word > 0
  {
    f.data.Some? ==>
      f.data.value.0 <= len && f.data.value.1 < WORD32 && (f.data.value.0 + f.data.value.1) % word <= len
  }

  lemma {:induction false} TakenIsTested(s: Bytes, n: nat, word: nat)
    requires word > 0
    ensures var st := Walk(s, n, word); st.Going? || st.Ended? ==> Tested(st.found, |s|, word)
  {
    hide Round, Tested;
    if n > 0 {
      TakenIsTested(s, n - 1, word);
      TestedRound(s, Walk(s, n - 1, word), word);
    } else {
      assert Tested(Found(None, None), |s|, word) by { NothingTested(|s|, word); }
    }
  }

  lemma NothingTested(len: nat, word: nat)
    requires word > 0
    ensures Tested(Found(None, None), len, word)
  {
  }

  lemma TestedRound(s: Bytes, st: State, word: nat)
    requires word > 0 && (st.Going? || st.Ended? ==> Tested(st.found, |s|, word))
    ensures var next := Round(s, st, word); next.Going? || next.Ended? ==> Tested(next.found, |s|, word)
  {
    hide Next, ReadConfig;
  }

  /** For every walk that ends with a payload: it lies inside the buffer if and only if its end does not wrap,
      which it cannot with a 64-bit size_t. */
  lemma PayloadInside(s: Bytes, n: nat, word: nat)
    requires |s| < word && Verdict(Walk(s, n, word)).Some?
    ensures var p := Verdict(Walk(s, n, word)).value; p.start + p.length <= |s| <==> p.start + p.length < word
    ensures word == WORD64 && |s| < WORD64 / 2 ==>
      var p := Verdict(Walk(s, n, word)).value; p.start + p.length <= |s|
  {
    TakenIsTested(s, n, word);
    var p := Verdict(Walk(s, n, word)).value;
    if p.start + p.length < word {
      SmallMod(p.start + p.length, word);
    }
  }

  // ----- Termination -----

  ghost predicate Stops(s: Bytes, word: nat)
    requires word > 0
  {
    exists n: nat :: !Walk(s, n, word).Going?
  }

  /** The walk is on its way and at that offset after i rounds. */
  ghost predicate Passes(s: Bytes, i: nat, off: nat, word: nat)
    requires word > 0
  {
    Walk(s, i, word).Going? && Walk(s, i, word).off == off
  }

  /** The walk is at the same offset after two different numbers of rounds. */
  ghost predicate Returns(s: Bytes, i: nat, j: nat, word: nat)
    requires word > 0
  {
    i < j && Walk(s, j, word).Going? && Passes(s, i, Walk(s, j, word).off, word)
  }

  /** Both on their way at one offset, or both at their end. */
  predicate SameOffset(a: State, b: State) {
    a.Going? == b.Going? && (a.Going? ==> a.off == b.off)
  }

  ghost predicate NeverReturns(s: Bytes, word: nat)
    requires word > 0
  {
    forall i: nat, j: nat :: !Returns(s, i, j, word)
  }

  ghost predicate NeverAstray(s: Bytes, word: nat)
    requires word > 0
  {
    forall n: nat :: !Walk(s, n, word).Astray?
  }

  /** What comes next depends on the offset alone. */
  lemma SameRound(s: Bytes, a: State, b: State, word: nat)
    requires word > 0 && SameOffset(a, b)
    ensures SameOffset(Round(s, a, word), Round(s, b, word))
  {
  }

  lemma {:induction false} SameFate(s: Bytes, i: nat, j: nat, k: nat, word: nat)
    requires word > 0 && Returns(s, i, j, word)
    ensures SameOffset(Walk(s, i + k, word), Walk(s, j + k, word))
  {
    if k > 0 {
      SameFate(s, i, j, k - 1, word);
      SameRound(s, Walk(s, i + (k - 1), word), Walk(s, j + (k - 1), word), word);
      hide Round, SameOffset;
      NextState(s, i + k, word);
      NextState(s, j + k, word);
    }
  }

  lemma NextState(s: Bytes, n: nat, word: nat)
    requires word > 0 && n > 0
    ensures Walk(s, n, word) == Round(s, Walk(s, n - 1, word), word)
  {
  }

  lemma {:induction false} ReturningNeverStops(s: Bytes, i: nat, j: nat, n: nat, word: nat)
    requires word > 0 && Returns(s, i, j, word)
    ensures Walk(s, n, word).Going?
    decreases n
  {
    hide Round;
    if n <= j {
      if !Walk(s, n, word).Going? {
        FinalStays(s, n, j, word);
      }
    } else {
      SameFate(s, i, j, n - j, word);
      ReturningNeverStops(s, i, j, i + (n - j), word);
    }
  }

  /** The offsets of the first n rounds, all different and inside the buffer. */
  lemma {:induction false} Offsets(s: Bytes, n: nat, word: nat) returns (offs: set<nat>)
    requires word > 0 && Walk(s, n, word).Going? && NeverReturns(s, word)
    ensures |offs| == n && forall o <- offs :: o < |s|
    ensures forall o <- offs :: exists i: nat :: i < n && Passes(s, i, o, word)
  {
    if n == 0 {
      offs := {};
    } else {
      InsideBefore(s, n - 1, word);
      var front := Offsets(s, n - 1, word);
      var o := Walk(s, n - 1, word).off;
      assert Passes(s, n - 1, o, word);
      forall p | p in front ensures p != o {
        var i: nat :| i < n - 1 && Passes(s, i, p, word);
        assert !Returns(s, i, n - 1, word);
      }
      offs := front + {o};
    }
  }

  /** Where the walk goes on it has read a header inside the buffer. */
  lemma InsideBefore(s: Bytes, n: nat, word: nat)
    requires word > 0 && Walk(s, n + 1, word).Going?
    ensures Walk(s, n, word).Going? && Walk(s, n, word).off + 8 <= |s|
  {
  }

  lemma {:induction false} BelowCount(offs: set<nat>, n: nat)
    requires forall o <- offs :: o < n
    ensures |offs| <= n
  {
    if n > 0 {
      BelowCount(offs - {n - 1}, n - 1);
    } else {
      assert offs == {};
    }
  }

  /** On every target and every input: the walk stops if and only if it never returns to an offset. */
  lemma StopsWithoutReturn(s: Bytes, word: nat)
    requires word > 0
    ensures Stops(s, word) <==> NeverReturns(s, word)
  {
    if Stops(s, word) {
      var n: nat :| !Walk(s, n, word).Going?;
      forall i, j ensures !Returns(s, i, j, word) {
        if Returns(s, i, j, word) {
          ReturningNeverStops(s, i, j, n, word);
        }
      }
    } else {
      var n := |s| + 1;
      assert Walk(s, n, word).Going?;
      if NeverReturns(s, word) {
        var offs := Offsets(s, n, word);
        BelowCount(offs, |s|);
      }
    }
  }

  /** wav_parse ends, and all its reads are inside the buffer. */
  ghost predicate Ends(s: Bytes, word: nat)
    requires word > 0
  {
    exists n: nat :: Walk(s, n, word).Ended? || Walk(s, n, word).Rejected?
  }

  /** The inputs on which wav_parse ends properly: no return to an offset, and no read outside the buffer. */
  lemma EndsWithoutReturn(s: Bytes, word: nat)
    requires word > 0
    ensures Ends(s, word) <==> NeverReturns(s, word) && NeverAstray(s, word)
  {
    StopsWithoutReturn(s, word);
    if Ends(s, word) {
      var n: nat :| Walk(s, n, word).Ended? || Walk(s, n, word).Rejected?;
      forall m: nat ensures !Walk(s, m, word).Astray? {
        if Walk(s, m, word).Astray? {
          FinalStays(s, m, if m < n then n else m, word);
          FinalStays(s, n, if m < n then n else m, word);
        }
      }
      assert !Walk(s, n, word).Going?;
    }
    if Stops(s, word) && NeverAstray(s, word) {
      var n: nat :| !Walk(s, n, word).Going?;
      assert !Walk(s, n, word).Astray?;
      assert Walk(s, n, word).Ended? || Walk(s, n, word).Rejected?;
    }
  }

  /** The header at which the walk stands lets it stay where it is, and the walk does not end there. */
  ghost predicate ZeroStepAt(s: Bytes, n: nat, word: nat)
    requires word > 0
  {
    && Walk(s, n, word).Going? && Walk(s, n + 1, word).Going? && Walk(s, n, word).off + 8 <= |s|
    && ChunkSize(s, Walk(s, n, word).off) == ZERO_STEP
  }

  /** With a 64-bit size_t nothing but the zero step stops the walk from going forward. */
  lemma StepForward(off: nat, size: nat)
    requires off < WORD64 / 2 && size < WORD32
    ensures off <= Next(off, size, WORD64) <= off + WORD32
    ensures Next(off, size, WORD64) == off <==> size == ZERO_STEP
  {
    var step := (8 + size) % WORD32;
    assert step == if 8 + size < WORD32 then 8 + size else 8 + size - WORD32;
  }

  lemma {:induction false} GoesForward(s: Bytes, n: nat)
    requires |s| < WORD64 / 2 && forall m: nat :: !ZeroStepAt(s, m, WORD64)
    ensures var st := Walk(s, n, WORD64); st.Going? ==> 12 + n <= st.off <= |s| + WORD32 + 12
  {
    if n > 0 {
      GoesForward(s, n - 1);
      var before, after := Walk(s, n - 1, WORD64), Walk(s, n, WORD64);
      if after.Going? {
        assert before.Going?;
        SmallMod(before.off + 8, WORD64);
        assert before.off + 8 <= |s|;
        assert !ZeroStepAt(s, n - 1, WORD64);
        StepForward(before.off, ChunkSize(s, before.off));
      }
    }
  }

  lemma {:induction false} NotFar(s: Bytes, n: nat)
    requires |s| < WORD64 / 2
    ensures !Walk(s, n, WORD64).Astray?
    ensures var st := Walk(s, n, WORD64); st.Going? ==> st.off <= |s| + WORD32 + 12
  {
    if n > 0 {
      NotFar(s, n - 1);
      hide Round;
      NearRound(s, Walk(s, n - 1, WORD64));
    }
  }

  lemma NearRound(s: Bytes, st: State)
    requires |s| < WORD64 / 2 && !st.Astray? && (st.Going? ==> st.off <= |s| + WORD32 + 12)
    ensures var next := Round(s, st, WORD64); !next.Astray? && (next.Going? ==> next.off <= |s| + WORD32 + 12)
  {
    if st.Going? {
      SmallMod(st.off + 8, WORD64);
      if st.off + 8 <= |s| {
        var size := ChunkSize(s, st.off);
        SmallMod(st.off + 8 + size, WORD64);
        StepForward(st.off, size);
        hide Next, ChunkSize, ReadConfig;
      }
    }
  }

  /** With a 64-bit size_t wav_parse ends if and only if no header it goes on from has the size 0xFFFFFFF8,
      and it never reads outside the buffer. */
  lemma EndsWithoutZeroStep(s: Bytes)
    requires |s| < WORD64 / 2
    ensures Ends(s, WORD64) <==> forall n: nat :: !ZeroStepAt(s, n, WORD64)
    ensures NeverAstray(s, WORD64)
  {
    forall n: nat ensures !Walk(s, n, WORD64).Astray? {
      NotFar(s, n);
    }
    StopsWithoutReturn(s, WORD64);
    EndsWithoutReturn(s, WORD64);
    if forall n: nat :: !ZeroStepAt(s, n, WORD64) {
      GoesForward(s, |s|);
      if Walk(s, |s|, WORD64).Going? {
        SmallMod(Walk(s, |s|, WORD64).off + 8, WORD64);
        assert !Walk(s, |s| + 1, WORD64).Going?;
      }
    }
    if n: nat :| ZeroStepAt(s, n, WORD64) {
      StepForward(Walk(s, n, WORD64).off, ZERO_STEP);
      assert Returns(s, n, n + 1, WORD64);
    }
  }

  // ----- The reader inverts the writer -----

  lemma FmtFields(s: Bytes, off: nat, cfg: Config)
    requires InFieldRange(cfg) && At(s, off, FmtChunk(cfg))
    ensures s[off..off + 4] == FMT && Read32(s, off + 4) == 16 && Read16(s, off + 8) == 1
    ensures Read16(s, off + 10) == cfg.channels && Read32(s, off + 12) == Unsigned(cfg.sampleRate)
    ensures Read16(s, off + 22) == cfg.bits
    ensures At(s, off + 16, Le32(ByteRate(cfg))) && Read16(s, off + 20) == BlockAlign(cfg)
  {
    UnsignedRange(cfg);
    var a, b, c, d, e := FMT, Le32(16), Le16(1), Le16(cfg.channels), Le32(Unsigned(cfg.sampleRate));
    var f, g, h := Le32(ByteRate(cfg)), Le16(BlockAlign(cfg)), Le16(cfg.bits);
    hide Le16, Le32, Unsigned, ByteRate, BlockAlign, Read16, Read32;
    AtConcat(s, off, a + b + c + d + e + f + g, h);
    AtConcat(s, off, a + b + c + d + e + f, g);
    AtConcat(s, off, a + b + c + d + e, f);
    AtConcat(s, off, a + b + c + d, e);
    AtConcat(s, off, a + b + c, d);
    AtConcat3(s, off, a, b, c);
    Read32OfLe32(s, off + 4, 16);
    Read16OfLe16(s, off + 8, 1);
    Read16OfLe16(s, off + 10, cfg.channels);
    Read32OfLe32(s, off + 12, Unsigned(cfg.sampleRate));
    Read16OfLe16(s, off + 20, BlockAlign(cfg));
    Read16OfLe16(s, off + 22, cfg.bits);
  }

  lemma SignedOfUnsigned(n: int)
    requires -(WORD32 / 2) <= n < WORD32 / 2
    ensures Signed(Unsigned(n)) == n
  {
  }

  /** The pieces of a written file. */
  lemma Pieces(s: Bytes, cfg: Config, pcm: Bytes, n: nat)
    requires InFieldRange(cfg) && s == Header(cfg, n) + pcm && n < WORD32
    ensures IsWave(s) && At(s, 12, FmtChunk(cfg))
    ensures s[36..40] == DATA && Read32(s, 40) == n && s[44..] == pcm
  {
    var a, b, c := RiffHead(n), FmtChunk(cfg), DataHead(n);
    RiffPieces(n);
    hide FmtChunk, RiffHead, Read32, Le32;
    assert s[..44] == a + b + c;
    AtConcat3(s, 0, a, b, c);
    AtConcat(s, 36, DATA, Le32(n % WORD32));
    SmallMod(n, WORD32);
    Read32OfLe32(s, 40, n);
    assert s[..4] == s[..12][..4] && s[8..12] == s[..12][8..12];
  }

  lemma RiffPieces(n: nat)
    ensures RiffHead(n)[..4] == RIFF && RiffHead(n)[8..12] == WAVE
  {
    hide Le32;
  }

  lemma VisitFmt(s: Bytes, cfg: Config, found: Found, word: nat)
    requires InFieldRange(cfg) && 36 <= |s| < word && At(s, 12, FmtChunk(cfg)) && word >= WORD32
    ensures ChunkSize(s, 12) == 16 && Next(12, 16, word) == 36
    ensures Visit(s, 12, found, word) == Going(36, found.(cfg := Some(cfg)))
  {
    FmtFields(s, 12, cfg);
    SignedOfUnsigned(cfg.sampleRate);
    SmallStep(12, 16, word);
    hide FmtChunk, Read16, Read32, Unsigned, Signed, Next;
    SmallMod(36, word);
  }

  lemma VisitData(s: Bytes, size: nat, found: Found, word: nat)
    requires 44 <= |s| < word && s[36..40] == DATA && Read32(s, 40) == size && word > 0
    ensures ChunkSize(s, 36) == size
    ensures Visit(s, 36, found, word) ==
      var next := Next(36, size, word);
      if EndsInside(36, size, |s|, word) then Going(next, found.(data := Some((HEADER_LEN, size))))
      else Going(next, found)
  {
    hide Read32, Next, EndsInside;
    assert s[36..40] != FMT;
  }

  /** The walk over a written header: the format, then the data chunk. */
  lemma HeaderWalk(s: Bytes, cfg: Config, size: nat, word: nat)
    requires IsWave(s) && InFieldRange(cfg) && HEADER_LEN <= |s| < WORD32 / 2 && size < WORD32
    requires At(s, 12, FmtChunk(cfg)) && s[36..40] == DATA && Read32(s, 40) == size
    requires word == WORD32 || word == WORD64
    ensures Walk(s, 0, word) == Going(12, Found(None, None)) && Walk(s, 1, word) == Going(36, Found(Some(cfg), None))
    ensures Walk(s, 2, word) ==
      Going(Next(36, size, word),
            Found(Some(cfg), if EndsInside(36, size, |s|, word) then Some((HEADER_LEN, size)) else None))
  {
    var none := Found(None, None);
    var half := Found(Some(cfg), None);
    VisitFmt(s, cfg, none, word);
    VisitData(s, size, half, word);
    SmallMod(20, word);
    SmallMod(44, word);
    hide Visit, FmtChunk, Read32, Next, EndsInside;
    assert Walk(s, 0, word) == Going(12, none);
    assert Walk(s, 1, word) == Round(s, Going(12, none), word) == Going(36, half);
    assert Walk(s, 2, word) == Round(s, Going(36, half), word);
  }

  /** wav_parse gives back the configuration and the payload of every file build_wav writes, odd lengths included. */
  lemma ParseInvertsBuild(pcm: Bytes, cfg: Config, word: nat)
    requires InFieldRange(cfg) && pcm != [] && HEADER_LEN + |pcm| < WORD32 / 2 && (word == WORD32 || word == WORD64)
    ensures var s := Header(cfg, |pcm|) + pcm;
      && Walk(s, 3, word).Ended? && Verdict(Walk(s, 3, word)) == Some(Parsed(cfg, HEADER_LEN, |pcm|))
      && s[HEADER_LEN..] == pcm
  {
    var s := Header(cfg, |pcm|) + pcm;
    Pieces(s, cfg, pcm, |pcm|);
    HeaderWalk(s, cfg, |pcm|, word);
    SmallStep(36, |pcm|, word);
    SmallMod(44 + |pcm|, word);
    hide FmtChunk, Header, Read32, Visit, InFieldRange, IsWave;
    EndOfWalk(s, Walk(s, 2, word), word);
    assert Walk(s, 3, word) == Round(s, Walk(s, 2, word), word);
  }

  lemma EndOfWalk(s: Bytes, st: State, word: nat)
    requires st.Going? && |s| < st.off + 8 < word
    ensures Round(s, st, word) == Ended(st.found)
  {
    SmallMod(st.off + 8, word);
  }

  /** What the loop makes of a chunk, by its bytes: "fmt " of at least 16 bytes gives the configuration or, with a
      format other than 1, ends the parse; "data" is the payload; others, and those that do not fit, are skipped. The
      next chunk starts behind it at an even distance. */
  lemma ChunkMeans(s: Bytes, off: nat, found: Found, word: nat)
    requires off + 8 <= |s| < WORD32 / 2 && (word == WORD32 || word == WORD64)
    requires off + 8 + Little(s, off + 4, 4) + 1 < WORD32
    ensures var id, size := s[off..off + 4], Little(s, off + 4, 4); var end := off + 8 + size;
      Visit(s, off, found, word) ==
        var next := if size % 2 == 1 then end + 1 else end;
        if id == [102, 109, 116, 32] && size >= 16 && end <= |s| then
          if Little(s, off + 8, 2) != 1 then Rejected
          else
            var rate := Little(s, off + 12, 4);
            var cfg := Config(if rate < 0x8000_0000 then rate else rate - 0x1_0000_0000, Little(s, off + 10, 2),
                              Little(s, off + 22, 2));
            Going(next, found.(cfg := Some(cfg)))
        else if id == [100, 97, 116, 97] && end <= |s| then Going(next, found.(data := Some((off + 8, size))))
        else Going(next, found)
  {
    LittleIsRead32(s, off + 4);
    var size := ChunkSize(s, off);
    SmallStep(off, size, word);
    SmallMod(off + 8 + size, word);
    if off + 24 <= |s| {
      LittleIsRead16(s, off + 8);
      LittleIsRead16(s, off + 10);
      LittleIsRead32(s, off + 12);
      LittleIsRead16(s, off + 22);
    }
    hide Little, Read16, Read32, Next;
  }

  lemma LittleIsRead16(s: Bytes, off: nat)
    requires off + 2 <= |s|
    ensures Little(s, off, 2) == Read16(s, off)
  {
    assert Little(s, off + 2, 0) == 0;
  }

  lemma LittleIsRead32(s: Bytes, off: nat)
    requires off + 4 <= |s|
    ensures Little(s, off, 4) == Read32(s, off)
  {
    assert Little(s, off + 4, 0) == 0;
    assert Little(s, off + 3, 1) == s[off + 3] as int;
    assert Little(s, off + 2, 2) == s[off + 2] as int + 256 * s[off + 3] as int;
  }

  // ----- Files on which wav_parse fails -----

  /** Only a chunk whose header has the size 0xFFFFFFF8. */
  function LoopingFile(): Bytes {
    RIFF + Le32(12) + WAVE + [74, 85, 78, 75] + Le32(ZERO_STEP)
  }

  /** wav_parse never leaves its loop on this file, on either target. */
  lemma LoopingFileNeverStops(word: nat)
    requires word == WORD32 || word == WORD64
    ensures !Stops(LoopingFile(), word)
  {
    var s := LoopingFile();
    assert At(s, 16, Le32(ZERO_STEP));
    Read32OfLe32(s, 16, ZERO_STEP);
    ZeroStepStays(12, word);
    SmallMod(20, word);
    hide Next, Read32;
    assert s[12..16] == [74, 85, 78, 75] && s[..4] == RIFF && s[8..12] == WAVE;
    assert Walk(s, 0, word) == Going(12, Found(None, None));
    assert Walk(s, 1, word) == Round(s, Walk(s, 0, word), word);
    assert Passes(s, 0, 12, word) && Returns(s, 0, 1, word);
    StopsWithoutReturn(s, word);
  }

  lemma ZeroStepStays(off: nat, word: nat)
    requires off < word && (word == WORD32 || word == WORD64)
    ensures Next(off, ZERO_STEP, word) == off
  {
  }

  /** A written header that announces 0xFFFFFFF0 bytes, with 16 bytes of payload. */
  function EscapingFile(): Bytes {
    Header(SPEECH, 0xFFFF_FFF0) + seq(16, _ => 0)
  }

  const SPEECH := Config(16000, 1, 16)

  /** On a 32-bit target the result for this file of 60 bytes is a payload of 0xFFFFFFF0 bytes; on a 64-bit
      target the chunk is not taken. */
  lemma EscapingFileIsAccepted()
    ensures |EscapingFile()| == 60
    ensures Verdict(Walk(EscapingFile(), 4, WORD32)) == Some(Parsed(SPEECH, HEADER_LEN, 0xFFFF_FFF0))
    ensures Walk(EscapingFile(), 3, WORD64) == Ended(Found(Some(SPEECH), None))
  {
    var s := EscapingFile();
    var n := 0xFFFF_FFF0;
    Pieces(s, SPEECH, seq(16, _ => 0), n);
    HeaderWalk(s, SPEECH, n, WORD32);
    HeaderWalk(s, SPEECH, n, WORD64);
    assert Next(36, n, WORD32) == 28 && Next(36, n, WORD64) == 4294967324;
    assert Walk(s, 3, WORD64) == Round(s, Walk(s, 2, WORD64), WORD64);
    SecondHeader(s);
    assert Walk(s, 3, WORD32) == Round(s, Walk(s, 2, WORD32), WORD32);
    assert Walk(s, 4, WORD32) == Round(s, Walk(s, 3, WORD32), WORD32);
  }

  /** At offset 28 the byte rate and the fields behind it are read as a chunk header. */
  lemma SecondHeader(s: Bytes)
    requires |s| == 60 && At(s, 12, FmtChunk(SPEECH))
    ensures s[28..32] != FMT && s[28..32] != DATA && ChunkSize(s, 28) == 1048578
    ensures Next(28, 1048578, WORD32) == 1048614
  {
    FmtFields(s, 12, SPEECH);
    SpeechFields();
    TwoHalves(s, 32);
    hide FmtChunk, ByteRate, BlockAlign, Unsigned, Signed, Read16, Read32, Next;
    AtByte(s, 28, Le32(32000), 0);
    assert s[28..32][0] == s[28] == 0;
    SmallStep(28, 1048578, WORD32);
  }

  lemma SpeechFields()
    ensures ByteRate(SPEECH) == 32000 && BlockAlign(SPEECH) == 2
  {
  }

  lemma TwoHalves(s: Bytes, off: nat)
    requires off + 4 <= |s|
    ensures Read32(s, off) == Read16(s, off) + 65536 * Read16(s, off + 2)
  {
  }

  /** On a 32-bit target this chunk leads the walk in front of the buffer. */
  function StrayFile(): Bytes {
    RIFF + Le32(12) + WAVE + [74, 85, 78, 75] + Le32(0xFFFF_FFE4)
  }

  lemma StrayFileGoesAstray()
    ensures Walk(StrayFile(), 2, WORD32).Astray?
  {
    var s := StrayFile();
    assert At(s, 16, Le32(0xFFFF_FFE4));
    Read32OfLe32(s, 16, 0xFFFF_FFE4);
    hide Read32;
    assert s[12..16] == [74, 85, 78, 75] && s[..4] == RIFF && s[8..12] == WAVE;
    assert Walk(s, 0, WORD32) == Going(12, Found(None, None));
    assert Walk(s, 1, WORD32) == Round(s, Walk(s, 0, WORD32), WORD32) == Going(0xFFFF_FFF8, Found(None, None));
    assert Walk(s, 2, WORD32) == Round(s, Walk(s, 1, WORD32), WORD32);
  }

  lemma SmallMod(x: nat, m: nat)
    requires x < m
    ensures x % m == x
  {
  }

  lemma SmallStep(off: nat, size: nat, word: nat)
    requires word >= WORD32 && off + 8 + size + 1 < WORD32
    ensures Next(off, size, word) == off + 8 + size + if size % 2 == 1 then 1 else 0
  {
    SmallMod(8 + size, WORD32);
    SmallMod(8 + size + 1, word);
    SmallMod(off + 8 + size, word);
    SmallMod(off + 8 + size + 1, word);
    assert (8 + size) % 2 == size % 2;
  }

  // ----- The loops -----

  /** wav_parse with the arithmetic of a size_t of the given range, on every input on which it ends without
      leaving the buffer: rounds is the number of rounds it takes. */
  method WavParse(s: Bytes, word: nat, ghost rounds: nat) returns (r: Option<Parsed>)
    requires (word == WORD32 || word == WORD64) && |s| < word
    requires Walk(s, rounds, word).Ended? || Walk(s, rounds, word).Rejected?
    ensures r == Verdict(Walk(s, rounds, word))
    ensures r.Some? ==> (r.value.start + r.value.length <= |s| <==> r.value.start + r.value.length < word)
  {
    hide Visit, Verdict, Round;
    if Verdict(Walk(s, rounds, word)).Some? {
      PayloadInside(s, rounds, word);
    }
    if |s| < 12 || s[..4] != RIFF || s[8..12] != WAVE {
      FinalStays(s, 0, rounds, word);
      RejectedIsNone();
      return None;
    }
    hide Walk, Inside;
    WaveStarts(s, word);
    r := ReadChunks(s, word, rounds);
  }

  lemma RejectedIsNone()
    ensures Verdict(Rejected) == None
  {
  }

  lemma WaveStarts(s: Bytes, word: nat)
    requires word > 0 && IsWave(s)
    ensures Walk(s, 0, word) == Going(12, Found(None, None))
  {
  }

  /** The loop, and the tests behind it. */
  method ReadChunks(s: Bytes, word: nat, ghost rounds: nat) returns (r: Option<Parsed>)
    requires word > 0 && |s| < word && Walk(s, 0, word) == Going(12, Found(None, None))
    requires Walk(s, rounds, word).Ended? || Walk(s, rounds, word).Rejected?
    ensures r == Verdict(Walk(s, rounds, word))
  {
    var off: nat := 12;
    var found := Found(None, None);
    ghost var n: nat := 0;
    hide Visit, Verdict, Walk;
    RejectedIsNone();
    while (off + 8) % word <= |s|
      invariant n <= rounds && Walk(s, n, word) == Going(off, found)
      decreases rounds - n
    {
      OneMoreRound(s, n, rounds, word);
      var pcm;
      pcm, off, found := VisitChunk(s, off, found, word);
      n := n + 1;
      if !pcm {
        FinalStays(s, n, rounds, word);
        return None;
      }
    }
    OneMoreRound(s, n, rounds, word);
    FinalStays(s, n + 1, rounds, word);
    r := Accept(found);
  }

  /** The tests behind the loop. */
  method Accept(found: Found) returns (r: Option<Parsed>)
    ensures r == Verdict(Ended(found))
  {
    if found.cfg.None? || found.data.None? {
      return None;
    }
    r := Some(Parsed(found.cfg.value, found.data.value.0, found.data.value.1));
  }

  /** The body of the loop; a format other than PCM makes wav_parse return. */
  method VisitChunk(s: Bytes, off: nat, found: Found, word: nat) returns (pcm: bool, off': nat, found': Found)
    requires word > 0 && off + 8 <= |s| && !Visit(s, off, found, word).Astray?
    ensures Visit(s, off, found, word) == if pcm then Going(off', found') else Rejected
  {
    pcm, off', found' := true, off, found;
    var chunkSize := ChunkSize(s, off);
    var id := s[off..off + 4];
    if id == FMT && chunkSize >= 16 && (off + 8 + chunkSize) % word <= |s| {
      if Read16(s, off + 8) != 1 {
        return false, off, found;
      }
      found' := found.(cfg := Some(ReadConfig(s, off)));
    } else if id == DATA && (off + 8 + chunkSize) % word <= |s| {
      found' := found.(data := Some((off + 8, chunkSize)));
    }
    off' := Next(off, chunkSize, word);
  }

  /** A walk that ends properly later does not leave the buffer in the next round. */
  lemma OneMoreRound(s: Bytes, n: nat, rounds: nat, word: nat)
    requires word > 0 && n <= rounds && Walk(s, n, word).Going?
    requires Walk(s, rounds, word).Ended? || Walk(s, rounds, word).Rejected?
    ensures n < rounds && Walk(s, n + 1, word) == Round(s, Walk(s, n, word), word) && !Walk(s, n + 1, word).Astray?
  {
    if !Walk(s, n + 1, word).Going? {
      FinalStays(s, n + 1, rounds, word);
    }
  }

  /** The audio device: it takes a block or reports an error. */
  class Output {
    var written: Bytes

    method Write(block: Bytes) returns (ok: bool)
      modifies this
      ensures written == if ok then old(written) + block else old(written)
    {
      ok := *;
      if ok {
        written := written + block;
      }
    }
  }

  /** The loop of audio_output_play_wav: the payload in blocks of at most one frame, up to the first error. */
  method PlayPayload(data: Bytes, frameBytes: nat, output: Output) returns (ok: bool)
    modifies output
    ensures ok ==> output.written == old(output.written) + data
    ensures exists n :: 0 <= n <= |data| && output.written == old(output.written) + data[..n]
  {
    ok := true;
    var offset := 0;
    var chunk := if frameBytes > 0 then frameBytes else |data|;
    while offset < |data|
      invariant ok && 0 <= offset <= |data| && output.written == old(output.written) + data[..offset]
    {
      var n := if |data| - offset < chunk then |data| - offset else chunk;
      ok := output.Write(data[offset..offset + n]);
      if !ok {
        break;
      }
      assert data[..offset] + data[offset..offset + n] == data[..offset + n];
      offset := offset + n;
    }
    assert ok ==> data[..offset] == data;
  }
}
