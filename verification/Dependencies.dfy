/** Dependency lists of delegated tasks: comma-separated keys in a fixed buffer. */
module Dependencies {
  import opened Bytes

  const KEY_LEN: nat := 48
  const DEPENDS_ON_LEN: nat := 192

  // ----- Task keys -----

  predicate KeyByte(c: byte) {
    48 <= c <= 57 || 65 <= c <= 90 || 97 <= c <= 122 || c == 95 || c == 45 || c == 46
  }

  function Filtered(s: Bytes): (r: Bytes)
    ensures forall i :: 0 <= i < |r| ==> KeyByte(r[i])
  {
    if s == [] then []
    else if KeyByte(s[0]) then [Lower(s[0])] + Filtered(s[1..])
    else Filtered(s[1..])
  }

  function Prefix(s: Bytes, n: nat): (r: Bytes)
    ensures |r| <= n && |r| <= |s| && r == s[..|r|] && (|r| < |s| ==> |r| == n)
  {
    if |s| <= n then s else s[..n]
  }

  /** A name as a task key: letters in lower case, digits, '_', '-' and '.', at most 47 of them. */
  function TaskKey(name: Bytes): (r: Bytes)
    ensures |r| < KEY_LEN && forall i :: 0 <= i < |r| ==> KeyByte(r[i])
  {
    Prefix(Filtered(name), KEY_LEN - 1)
  }

  lemma FilteredStep(s: Bytes, i: nat)
    requires i < |s|
    ensures Filtered(s[..i + 1]) == Filtered(s[..i]) + if KeyByte(s[i]) then [Lower(s[i])] else []
  {
    FilteredConcat(s[..i], [s[i]]);
    assert s[..i + 1] == s[..i] + [s[i]];
    assert Filtered([s[i]]) == if KeyByte(s[i]) then [Lower(s[i])] else [];
  }

  lemma {:induction false} FilteredConcat(a: Bytes, b: Bytes)
    ensures Filtered(a + b) == Filtered(a) + Filtered(b)
  {
    if a == [] {
      assert a + b == b;
    } else {
      assert (a + b)[1..] == a[1..] + b;
      FilteredConcat(a[1..], b);
    }
  }

  // ----- What a key is -----

  /** A digit, a letter, '_', '-' or '.'. */
  predicate Plain(c: byte) {
    48 <= c <= 57 || 65 <= c <= 90 || 97 <= c <= 122 || c == 95 || c == 45 || c == 46
  }

  /** A capital letter becomes the small one, 32 above it. */
  function Small(c: byte): byte {
    if 65 <= c <= 90 then c + 32 else c
  }

  lemma {:induction false} FilteredPlain(name: Bytes)
    requires forall i :: 0 <= i < |name| ==> Plain(name[i])
    ensures |Filtered(name)| == |name| && forall i :: 0 <= i < |name| ==> Filtered(name)[i] == Small(name[i])
  {
    if name != [] {
      FilteredPlain(name[1..]);
    }
  }

  /** The key of a name of such bytes is the name itself in small letters, up to 47 of them. */
  lemma KeyOfPlainName(name: Bytes)
    requires forall i :: 0 <= i < |name| ==> Plain(name[i])
    ensures |TaskKey(name)| == if |name| <= 47 then |name| else 47
    ensures forall i :: 0 <= i < |TaskKey(name)| ==> TaskKey(name)[i] == Small(name[i])
  {
    FilteredPlain(name);
  }

  /** Any other byte, wherever it stands, leaves the key as it is. */
  lemma OtherBytesAreDropped(before: Bytes, c: byte, after: Bytes)
    requires !Plain(c)
    ensures TaskKey(before + [c] + after) == TaskKey(before + after)
  {
    assert before + [c] + after == before + ([c] + after);
    FilteredConcat(before, [c] + after);
    FilteredConcat([c], after);
    FilteredConcat(before, after);
    assert Filtered([c]) == [] && [] + Filtered(after) == Filtered(after);
  }

  /** tool_delegate_sanitize_task_key for a buffer of the given size. */
  method SanitizeTaskKey(src: Bytes, size: nat) returns (dst: Bytes)
    requires size > 0
    ensures dst == Prefix(Filtered(src), size - 1)
  {
    dst := [];
    var i := 0;
    while i < |src| && |dst| + 1 < size
      invariant 0 <= i <= |src| && |dst| < size && dst == Filtered(src[..i])
    {
      FilteredStep(src, i);
      var ch := src[i];
      if KeyByte(ch) {
        dst := dst + [Lower(ch)];
      }
      i := i + 1;
    }
    FilteredConcat(src[..i], src[i..]);
    assert src[..i] + src[i..] == src;
  }

  // ----- Building the list -----

  /** strlcat into a buffer of the given size. */
  function Cat(dst: Bytes, src: Bytes, size: nat): (r: Bytes)
    requires |dst| < size
    ensures |r| < size
  {
    dst + Prefix(src, size - 1 - |dst|)
  }

  function Append(dst: Bytes, name: Bytes, size: nat): (r: Bytes)
    requires |dst| < size
    ensures |r| < size
  {
    if TaskKey(name) == [] then dst
    else Cat(if dst == [] then dst else Cat(dst, [COMMA], size), TaskKey(name), size)
  }

  /** The list after appending all names in order. */
  function Built(names: seq<Bytes>, size: nat): (r: Bytes)
    requires size > 0
    ensures |r| < size
  {
    if names == [] then [] else Append(Built(names[..|names| - 1], size), names[|names| - 1], size)
  }

  /** The keys the names stand for: sanitized, the empty ones dropped. */
  function Keys(names: seq<Bytes>): (r: seq<Bytes>)
    ensures forall k <- r :: IsKey(k)
  {
    if names == [] then []
    else
      var last := TaskKey(names[|names| - 1]);
      Keys(names[..|names| - 1]) + if last == [] then [] else [last]
  }

  predicate IsKey(k: Bytes) {
    1 <= |k| < KEY_LEN && forall i :: 0 <= i < |k| ==> KeyByte(k[i])
  }

  /** The keys with commas between them. */
  function Joined(keys: seq<Bytes>): Bytes {
    if keys == [] then []
    else if |keys| == 1 then keys[0]
    else Joined(keys[..|keys| - 1]) + [COMMA] + keys[|keys| - 1]
  }

  lemma PrefixOfConcat(a: Bytes, b: Bytes, size: nat)
    requires size > 0
    ensures Prefix(a + b, size - 1) == Cat(Prefix(a, size - 1), b, size)
  {
  }

  /** The buffer holds the joined keys, cut at its size. */
  lemma {:induction false} BuiltIsJoined(names: seq<Bytes>, size: nat)
    requires size > 1
    ensures Built(names, size) == Prefix(Joined(Keys(names)), size - 1)
  {
    hide TaskKey, Prefix, Cat, Joined;
    if names != [] {
      var front, last := names[..|names| - 1], names[|names| - 1];
      BuiltIsJoined(front, size);
      var keys, key := Keys(front), TaskKey(last);
      JoinedGrows(keys, key);
      if key != [] {
        if keys == [] {
          AppendToEmpty(key, size);
        } else {
          assert keys[0] in keys;
          JoinedIsNotEmpty(keys);
          AppendToPrefix(Joined(keys), key, size);
        }
      } else {
        assert Keys(names) == keys;
      }
    } else {
      JoinedGrows([], []);
    }
  }

  lemma JoinedGrows(keys: seq<Bytes>, key: Bytes)
    ensures Joined(keys + [key]) == if keys == [] then key else Joined(keys) + [COMMA] + key
    ensures Joined([]) == []
  {
    assert (keys + [key])[..|keys|] == keys;
  }

  lemma AppendToEmpty(key: Bytes, size: nat)
    requires size > 1
    ensures Cat([], key, size) == Prefix(key, size - 1) && Prefix([], size - 1) == []
  {
  }

  lemma AppendToPrefix(joined: Bytes, key: Bytes, size: nat)
    requires size > 1 && joined != []
    ensures Prefix(joined, size - 1) != []
    ensures Cat(Cat(Prefix(joined, size - 1), [COMMA], size), key, size) == Prefix(joined + [COMMA] + key, size - 1)
  {
    hide Prefix, Cat;
    PrefixOfConcat(joined, [COMMA], size);
    PrefixOfConcat(joined + [COMMA], key, size);
  }

  lemma JoinedIsNotEmpty(keys: seq<Bytes>)
    requires keys != [] && keys[0] != []
    ensures Joined(keys) != []
  {
  }

  /** tool_delegate_append_dependency_csv on the characters in front of the NUL. */
  method AppendDependency(dst: array<byte>, src: Bytes)
    requires |CString(dst[..])| < dst.Length
    modifies dst
    ensures |CString(dst[..])| < dst.Length
    ensures CString(dst[..]) == Append(CString(old(dst[..])), src, dst.Length)
  {
    var clean := SanitizeTaskKey(src, KEY_LEN);
    if clean == [] {
      return;
    }
    if dst[0] != NUL {
      Concatenate(dst, [COMMA]);
    }
    Concatenate(dst, clean);
  }

  /** The loop over the names of a depends_on array, into a zeroed buffer. */
  method BuildList(names: seq<Bytes>, dst: array<byte>)
    requires dst.Length > 1 && dst[0] == NUL
    modifies dst
    ensures |CString(dst[..])| < dst.Length && CString(dst[..]) == Built(names, dst.Length)
  {
    var i := 0;
    while i < |names|
      invariant 0 <= i <= |names|
      invariant |CString(dst[..])| < dst.Length && CString(dst[..]) == Built(names[..i], dst.Length)
    {
      AppendDependency(dst, names[i]);
      i := i + 1;
      assert names[..i][..i - 1] == names[..i - 1] && names[..i][i - 1] == names[i - 1];
    }
    assert names[..i] == names;
  }

  /** strlcat. */
  method Concatenate(dst: array<byte>, src: Bytes)
    requires |CString(dst[..])| < dst.Length && NulFree(src)
    modifies dst
    ensures |CString(dst[..])| < dst.Length
    ensures CString(dst[..]) == Cat(CString(old(dst[..])), src, dst.Length)
  {
    ghost var before := CString(dst[..]);
    hide CString, NulFree;
    var at := Length(dst);
    var i := 0;
    while i < |src| && at + i + 1 < dst.Length
      invariant 0 <= i <= |src| && at + i < dst.Length
      invariant dst[..at + i] == before + src[..i]
    {
      dst[at + i] := src[i];
      assert dst[..at + i + 1] == dst[..at + i] + [src[i]];
      i := i + 1;
    }
    dst[at + i] := NUL;
    assert dst[..at + i] == before + src[..i];
    JoinedNulFree(before, src[..i]);
    Terminated(dst[..], before + src[..i]);
  }

  lemma JoinedNulFree(a: Bytes, b: Bytes)
    requires NulFree(a) && NulFree(b)
    ensures NulFree(a + b)
  {
  }

  /** strlen. */
  method Length(s: array<byte>) returns (n: nat)
    requires |CString(s[..])| < s.Length
    ensures n == |CString(s[..])|
  {
    n := 0;
    while s[n] != NUL
      invariant 0 <= n <= |CString(s[..])|
      decreases s.Length - n
    {
      assert n < |CString(s[..])|;
      n := n + 1;
    }
    FirstNul(s[..], n);
  }

  lemma FirstNul(s: Bytes, n: nat)
    requires n <= |CString(s)| && n < |s| && s[n] == NUL
    ensures n == |CString(s)|
  {
    var t := CString(s);
    assert forall i :: 0 <= i < |t| ==> t[i] == s[i];
  }

  // ----- Reading the list back -----

  predicate Separator(c: byte) { c == SPACE || c == COMMA }

  function SkipSeparators(s: Bytes): (r: Bytes)
    ensures |r| <= |s| && (r != [] ==> !Separator(r[0]))
  {
    if s != [] && Separator(s[0]) then SkipSeparators(s[1..]) else s
  }

  /** Characters up to a comma, at most 47. */
  function TokenLength(s: Bytes, max: nat): (n: nat)
    ensures n <= |s| && n <= max
    ensures forall i :: 0 <= i < n ==> s[i] != COMMA
    ensures n < |s| && n < max ==> s[n] == COMMA
  {
    if s == [] || max == 0 || s[0] == COMMA then 0 else 1 + TokenLength(s[1..], max - 1)
  }

  /** One round of the scanner: the token and what is left. */
  function Token(s: Bytes): Bytes {
    var t := SkipSeparators(s);
    t[..TokenLength(t, KEY_LEN - 1)]
  }

  function AfterToken(s: Bytes): (r: Bytes)
    ensures s != [] ==> |r| < |s|
  {
    var t := SkipSeparators(s);
    var n := TokenLength(t, KEY_LEN - 1);
    if n < |t| && t[n] == COMMA then t[n + 1..] else t[n..]
  }

  /** The keys the scanner sees. */
  function Scanned(s: Bytes): seq<Bytes>
    decreases |s|
  {
    if s == [] then []
    else (if Token(s) == [] then [] else [Token(s)]) + Scanned(AfterToken(s))
  }

  /** Blanks and commas in front are skipped. */
  lemma SeparatorsAreSkipped(c: byte, s: Bytes)
    requires c == 32 || c == 44
    ensures Scanned([c] + s) == Scanned(s)
  {
    var t := [c] + s;
    assert t[1..] == s && SkipSeparators(t) == SkipSeparators(s);
    assert Token(t) == Token(s) && AfterToken(t) == AfterToken(s);
    hide Token, AfterToken;
    ScannedStep(t);
    if s != [] {
      ScannedStep(s);
    } else {
      NothingScanned(c);
    }
  }

  lemma ScannedStep(s: Bytes)
    requires s != []
    ensures Scanned(s) == (if Token(s) == [] then [] else [Token(s)]) + Scanned(AfterToken(s))
  {
    hide Token, AfterToken;
  }

  lemma NothingScanned(c: byte)
    requires c == 32 || c == 44
    ensures Token([c]) == [] && AfterToken([c]) == [] && Scanned([]) == []
  {
    assert [c][1..] == [];
  }

  /** Else the first key reaches to the next comma or the end, but not beyond 47 bytes, and what is behind it or behind
      the comma is scanned in the same way. */
  lemma FirstToken(s: Bytes)
    requires s != [] && s[0] != 32 && s[0] != 44
    ensures var keys := Scanned(s);
      && keys != [] && 1 <= |keys[0]| <= 47 && |keys[0]| <= |s| && keys[0] == s[..|keys[0]|]
      && var n := |keys[0]|;
         && (forall i :: 0 <= i < n ==> s[i] != 44) && (n == 47 || n == |s| || s[n] == 44)
         && keys[1..] == Scanned(if n < |s| && s[n] == 44 then s[n + 1..] else s[n..])
  {
    assert SkipSeparators(s) == s;
    var n := TokenLength(s, KEY_LEN - 1);
    assert n > 0 && Token(s) == s[..n];
    assert Scanned(s) == [Token(s)] + Scanned(AfterToken(s));
  }

  // ----- Reading back what was built -----

  lemma TokenLengthIs(s: Bytes, n: nat, max: nat)
    requires n <= |s| && n <= max && (forall i :: 0 <= i < n ==> s[i] != COMMA)
    requires n < |s| && n < max ==> s[n] == COMMA
    ensures n == max || n == |s| || s[n] == COMMA ==> TokenLength(s, max) == n
  {
  }

  lemma FirstKey(key: Bytes, rest: Bytes)
    requires IsKey(key)
    ensures Token(key + [COMMA] + rest) == key && AfterToken(key + [COMMA] + rest) == rest
    ensures Token(key) == key && AfterToken(key) == []
  {
    var s := key + [COMMA] + rest;
    assert s[0] == key[0] && !Separator(s[0]);
    assert forall i :: 0 <= i < |key| ==> s[i] == key[i] && KeyByte(key[i]);
    TokenLengthIs(s, |key|, KEY_LEN - 1);
    TokenLengthIs(key, |key|, KEY_LEN - 1);
  }

  lemma {:induction false} JoinedFromFront(keys: seq<Bytes>)
    requires |keys| > 1
    ensures Joined(keys) == keys[0] + [COMMA] + Joined(keys[1..])
  {
    var front, last := keys[..|keys| - 1], keys[|keys| - 1];
    if |keys| > 2 {
      JoinedFromFront(front);
      assert front[1..] == keys[1..][..|keys| - 2];
    }
  }

  lemma {:induction false} ScannedJoined(keys: seq<Bytes>)
    requires forall k <- keys :: IsKey(k)
    ensures Scanned(Joined(keys)) == keys
  {
    if keys != [] {
      if |keys| == 1 {
        FirstKey(keys[0], []);
      } else {
        JoinedFromFront(keys);
        FirstKey(keys[0], Joined(keys[1..]));
        ScannedJoined(keys[1..]);
      }
    }
  }

  /** A cut list is scanned as keys that need no more room than it has. */
  lemma {:induction false} ScannedCut(keys: seq<Bytes>, m: nat)
    requires (forall k <- keys :: IsKey(k)) && m <= |Joined(keys)|
    ensures |Joined(Scanned(Joined(keys)[..m]))| <= m
  {
    hide Token, AfterToken, IsKey;
    assert m == 0 ==> Joined(keys)[..m] == [];
    if m > 0 {
      var key := keys[0];
      assert key in keys;
      if |keys| > 1 {
        JoinedFromFront(keys);
      }
      if m <= |key| {
        assert Joined(keys)[..m] == key[..m];
        KeyPrefix(key, m);
        ScannedOne(key[..m]);
      } else {
        var rest := Joined(keys[1..])[..m - |key| - 1];
        assert Joined(keys)[..m] == key + [COMMA] + rest;
        ScannedFront(key, rest);
        ScannedCut(keys[1..], m - |key| - 1);
      }
    }
  }

  lemma ScannedOne(key: Bytes)
    requires IsKey(key)
    ensures Joined(Scanned(key)) == key
  {
    FirstKey(key, []);
    assert Scanned([]) == [];
    assert Scanned(key) == [key];
  }

  lemma KeyPrefix(key: Bytes, m: nat)
    requires IsKey(key) && 0 < m <= |key|
    ensures IsKey(key[..m])
  {
  }

  lemma ScannedFront(key: Bytes, rest: Bytes)
    requires IsKey(key)
    ensures |Joined(Scanned(key + [COMMA] + rest))| <= |key| + 1 + |Joined(Scanned(rest))|
  {
    FirstKey(key, rest);
    hide Token, AfterToken, IsKey;
    var tokens := Scanned(rest);
    assert Scanned(key + [COMMA] + rest) == [key] + tokens;
    if tokens != [] {
      JoinedFromFront([key] + tokens);
      assert ([key] + tokens)[1..] == tokens;
    }
  }

  /** The list is scanned back as exactly the keys it was built from if and only if they fit the buffer. */
  lemma ScannedBuilt(names: seq<Bytes>, size: nat)
    requires size > 1
    ensures Scanned(Built(names, size)) == Keys(names) <==> |Joined(Keys(names))| < size
  {
    var keys := Keys(names);
    BuiltIsJoined(names, size);
    if |Joined(keys)| < size {
      ScannedJoined(keys);
    } else {
      ScannedCut(keys, size - 1);
    }
  }

  /** Five names of 47 letters: four keys fill the buffer, and the fifth is lost. */
  function LongNames(): (names: seq<Bytes>)
    ensures |names| == 5 && forall i :: 0 <= i < 5 ==> names[i] == seq(47, _ => (97 + i) as byte)
  {
    seq(5, i requires 0 <= i < 5 => seq(47, _ => (97 + i) as byte))
  }

  lemma LongNamesAreCut()
    ensures Scanned(Built(LongNames(), DEPENDS_ON_LEN)) != Keys(LongNames())
  {
    var names := LongNames();
    forall i | 0 <= i < 5 ensures TaskKey(names[i]) == names[i] {
      LettersStay(names[i]);
    }
    KeysStay(names, 5);
    assert names[..5] == names;
    ScannedBuilt(names, DEPENDS_ON_LEN);
  }

  lemma {:induction false} LettersStay(s: Bytes)
    requires forall i :: 0 <= i < |s| ==> 97 <= s[i] <= 122
    ensures Filtered(s) == s && (|s| < KEY_LEN ==> TaskKey(s) == s)
  {
    if s != [] {
      LettersStay(s[1..]);
      assert s == [s[0]] + s[1..];
    }
  }

  lemma {:induction false} KeysStay(names: seq<Bytes>, n: nat)
    requires n <= |names| && forall i :: 0 <= i < |names| ==> |names[i]| == 47 && TaskKey(names[i]) == names[i]
    ensures Keys(names[..n]) == names[..n] && |Joined(names[..n])| == if n == 0 then 0 else 48 * n - 1
  {
    hide TaskKey, Joined, Keys;
    if n == 0 {
      JoinedGrows([], []);
      KeysOfNone();
    } else {
      KeysStay(names, n - 1);
      assert names[..n] == names[..n - 1] + [names[n - 1]];
      KeysGrow(names[..n - 1], names[n - 1]);
      JoinedGrows(names[..n - 1], names[n - 1]);
    }
  }

  lemma KeysOfNone()
    ensures Keys([]) == []
  {
  }

  lemma KeysGrow(names: seq<Bytes>, name: Bytes)
    ensures Keys(names + [name]) == Keys(names) + if TaskKey(name) == [] then [] else [TaskKey(name)]
  {
    hide TaskKey;
    assert (names + [name])[..|names|] == names;
  }

  // ----- The check -----

  datatype Agent = Agent(key: Bytes, done: bool)

  /** Some task with this key is done. */
  predicate KeyDone(agents: seq<Agent>, key: Bytes) {
    exists i :: 0 <= i < |agents| && agents[i].key == key && agents[i].done
  }

  predicate Satisfied(agents: seq<Agent>, list: Bytes) {
    forall k <- Scanned(list) :: KeyDone(agents, k)
  }

  /** A list that fits is satisfied exactly when every named dependency is done. */
  lemma BuiltListMeansItsNames(agents: seq<Agent>, names: seq<Bytes>, size: nat)
    requires size > 1 && |Joined(Keys(names))| < size
    ensures Satisfied(agents, Built(names, size)) <==>
      forall n <- names :: TaskKey(n) != [] ==> KeyDone(agents, TaskKey(n))
  {
    ScannedBuilt(names, size);
    hide Built, Scanned, Joined, TaskKey, KeyDone;
    KeysAreTaskKeys(names);
  }

  lemma {:induction false} KeysAreTaskKeys(names: seq<Bytes>)
    ensures forall n <- names :: TaskKey(n) != [] ==> TaskKey(n) in Keys(names)
    ensures forall k <- Keys(names) :: exists n <- names :: k == TaskKey(n) && k != []
  {
    if names != [] {
      var front, last := names[..|names| - 1], names[|names| - 1];
      KeysAreTaskKeys(front);
      assert names == front + [last];
      forall k | k in Keys(names) ensures exists n <- names :: k == TaskKey(n) && k != [] {
        if k in Keys(front) {
          var n :| n in front && k == TaskKey(n) && k != [];
          assert n in names;
        } else {
          assert last in names && k == TaskKey(last);
        }
      }
    }
  }

  lemma SatisfiedStep(agents: seq<Agent>, rest: Bytes, key: Bytes, after: Bytes)
    requires rest != [] && key == Token(rest) && after == AfterToken(rest)
    ensures Satisfied(agents, rest) <==> (key == [] || KeyDone(agents, key)) && Satisfied(agents, after)
  {
    hide Token, AfterToken, KeyDone;
    assert Scanned(rest) == (if key == [] then [] else [key]) + Scanned(after);
    assert key != [] ==> Scanned(rest)[0] == key;
  }

  /** tool_delegate_coordinator_dependencies_satisfied. */
  method DependenciesSatisfied(agents: seq<Agent>, list: Bytes) returns (r: bool)
    ensures r == Satisfied(agents, list)
  {
    hide Satisfied, Token, AfterToken;
    var cursor := 0;
    assert list[0..] == list;
    while cursor < |list|
      invariant 0 <= cursor <= |list|
      invariant Satisfied(agents, list) <==> Satisfied(agents, list[cursor..])
    {
      var key, next := NextToken(list, cursor);
      SatisfiedStep(agents, list[cursor..], key, list[next..]);
      cursor := next;
      if key == [] {
        continue;
      }
      var foundDone := false;
      for i := 0 to |agents|
        invariant !foundDone ==> forall j :: 0 <= j < i ==> !(agents[j].key == key && agents[j].done)
        invariant foundDone ==> KeyDone(agents, key)
      {
        if agents[i].key == key && agents[i].done {
          foundDone := true;
          break;
        }
      }
      if !foundDone {
        return false;
      }
    }
    assert Satisfied(agents, []) by { NothingToSatisfy(agents); }
    assert list[cursor..] == [];
    r := true;
  }

  lemma NothingToSatisfy(agents: seq<Agent>)
    ensures Satisfied(agents, [])
  {
  }

  /** The cursor work of one round. */
  method NextToken(list: Bytes, start: nat) returns (key: Bytes, next: nat)
    requires start < |list|
    ensures start < next <= |list|
    ensures key == Token(list[start..]) && list[next..] == AfterToken(list[start..])
  {
    var cursor := PastSeparators(list, start);
    var len := LengthOfToken(list, cursor);
    ghost var t := list[cursor..];
    hide SkipSeparators, TokenLength;
    assert len < |t| ==> t[len] == list[cursor + len];
    key := list[cursor..cursor + len];
    assert key == t[..len];
    if cursor + len < |list| && list[cursor + len] == COMMA {
      next := cursor + len + 1;
      assert list[next..] == t[len + 1..];
    } else {
      next := cursor + len;
      assert list[next..] == t[len..];
    }
    assert next == start ==> t == [];
  }

  method LengthOfToken(list: Bytes, cursor: nat) returns (len: nat)
    requires cursor <= |list|
    ensures len == TokenLength(list[cursor..], KEY_LEN - 1)
  {
    ghost var t := list[cursor..];
    hide TokenLength;
    len := 0;
    while cursor + len < |list| && list[cursor + len] != COMMA && len + 1 < KEY_LEN
      invariant cursor + len <= |list| && len < KEY_LEN
      invariant forall i :: 0 <= i < len ==> t[i] != COMMA
    {
      assert t[len] == list[cursor + len];
      len := len + 1;
    }
    assert len < |t| ==> t[len] == list[cursor + len];
    TokenLengthIs(t, len, KEY_LEN - 1);
  }

  method PastSeparators(list: Bytes, start: nat) returns (cursor: nat)
    requires start <= |list|
    ensures start <= cursor <= |list| && list[cursor..] == SkipSeparators(list[start..])
  {
    cursor := start;
    while cursor < |list| && Separator(list[cursor])
      invariant start <= cursor <= |list|
      invariant SkipSeparators(list[start..]) == SkipSeparators(list[cursor..])
    {
      assert list[cursor..][1..] == list[cursor + 1..];
      cursor := cursor + 1;
    }
    assert cursor < |list| ==> list[cursor..][0] == list[cursor];
  }
}
