/** Bytes, C strings and positions inside a text. */
module Bytes {

  type byte = x: int | 0 <= x < 256
  type Bytes = seq<byte>

  datatype Option<+T> = None | Some(value: T)

  const NUL: byte := 0
  const TAB: byte := 9
  const NEWLINE: byte := 10
  const RETURN: byte := 13
  const SPACE: byte := 32
  const QUOTE: byte := 34
  const COMMA: byte := 44
  const COLON: byte := 58
  const BACKSLASH: byte := 92

  /** The low bits of a byte: c & (m - 1) for a power of two m. */
  function LowBits(c: byte, m: nat): (r: nat)
    requires m > 0
    ensures r < m
  {
    c as int % m
  }

  /** The text t stands in s at offset off. */
  predicate At(s: Bytes, off: nat, t: Bytes) {
    off + |t| <= |s| && s[off..off + |t|] == t
  }

  lemma AtConcat(s: Bytes, off: nat, a: Bytes, b: Bytes)
    requires At(s, off, a + b)
    ensures At(s, off, a) && At(s, off + |a|, b)
  {
    assert s[off..off + |a|] == s[off..off + |a + b|][..|a|];
    assert s[off + |a|..off + |a| + |b|] == s[off..off + |a + b|][|a|..];
  }

  lemma AtConcat3(s: Bytes, off: nat, a: Bytes, b: Bytes, c: Bytes)
    requires At(s, off, a + b + c)
    ensures At(s, off, a) && At(s, off + |a|, b) && At(s, off + |a| + |b|, c)
  {
    AtConcat(s, off, a + b, c);
    AtConcat(s, off, a, b);
  }

  lemma AtByte(s: Bytes, off: nat, t: Bytes, i: nat)
    requires At(s, off, t) && i < |t|
    ensures s[off + i] == t[i]
  {
    assert s[off..off + |t|][i] == t[i];
  }

  /** Regrouping: a piece moves from the rest of a text to what has been written. */
  lemma Longer(done: Bytes, piece: Bytes, rest: Bytes, whole: Bytes)
    requires done + (piece + rest) == whole
    ensures (done + piece) + rest == whole && |done| + |piece| <= |whole|
    ensures piece == [] ==> done + rest == whole
  {
    assert (done + piece) + rest == done + (piece + rest);
    assert [] + rest == rest;
  }

  /** tolower in the C locale. */
  function Lower(c: byte): byte {
    if 65 <= c <= 90 then c + 32 else c
  }

  predicate NulFree(s: Bytes) {
    forall i :: 0 <= i < |s| ==> s[i] != NUL
  }

  predicate AllAscii(s: Bytes) {
    forall i :: 0 <= i < |s| ==> s[i] < 128
  }

  /** What a C caller sees of a byte array: everything before the first NUL. */
  function CString(s: Bytes): (r: Bytes)
    ensures NulFree(r)
    ensures |r| <= |s| && r == s[..|r|]
    ensures |r| < |s| ==> s[|r|] == NUL
    ensures NulFree(s) ==> r == s
  {
    if s == [] || s[0] == NUL then [] else [s[0]] + CString(s[1..])
  }

  /** The bytes strlen stops in front of: a NUL ends the text t. */
  lemma CStringOfTerminated(t: Bytes, rest: Bytes)
    requires NulFree(t)
    ensures CString(t + [NUL] + rest) == t
  {
    var s := t + [NUL] + rest;
    var r := CString(s);
    assert forall i :: 0 <= i < |t| ==> s[i] == t[i];
    assert s[|t|] == NUL;
    assert |r| <= |t| ==> |r| == |t|;
  }

  lemma Terminated(s: Bytes, t: Bytes)
    requires |t| < |s| && s[..|t|] == t && s[|t|] == NUL && NulFree(t)
    ensures CString(s) == t
  {
    hide CString, NulFree;
    CStringOfTerminated(t, s[|t| + 1..]);
    assert s == t + [NUL] + s[|t| + 1..];
  }

  lemma SubsetCount<T>(a: set<T>, b: set<T>)
    requires a <= b
    ensures |a| <= |b|
  {
    assert b == a + (b - a);
  }
}
