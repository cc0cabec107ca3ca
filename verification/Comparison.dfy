/** Comparing trees: what the pairwise search of cJSON_Compare decides. */
module Comparison {
  import opened Bytes
  import opened Json

  // ----- Key lookup -----

  function Fold(s: Bytes): (r: Bytes) {
    seq(|s|, i requires 0 <= i < |s| => Lower(s[i]))
  }

  /** Keys are equal when their names are: case folded unless the comparison is case sensitive. */
  function Name(key: Bytes, exact: bool): Bytes {
    if exact then key else Fold(key)
  }

  /** get_object_item: the first member with that name, or the number of members. */
  function First(members: seq<Member>, key: Bytes, exact: bool): (i: nat)
    ensures i <= |members|
    ensures i < |members| ==> Name(members[i].key, exact) == Name(key, exact)
    ensures forall j :: 0 <= j < i ==> Name(members[j].key, exact) != Name(key, exact)
  {
    if members == [] then 0
    else if Name(members[0].key, exact) == Name(key, exact) then 0
    else
      assert forall j :: 1 <= j < |members| ==> members[j] == members[1..][j - 1];
      1 + First(members[1..], key, exact)
  }

  /** Equal but for the case of ASCII letters, whose small form is 32 above the capital one. */
  predicate SameLetters(a: Bytes, b: Bytes) {
    |a| == |b| && forall i :: 0 <= i < |a| ==>
      a[i] == b[i] || (65 <= a[i] <= 90 && b[i] == a[i] + 32) || (65 <= b[i] <= 90 && a[i] == b[i] + 32)
  }

  lemma FoldMeans(a: Bytes, b: Bytes)
    ensures Fold(a) == Fold(b) <==> SameLetters(a, b)
  {
    if Fold(a) == Fold(b) {
      forall i | 0 <= i < |a|
        ensures a[i] == b[i] || (65 <= a[i] <= 90 && b[i] == a[i] + 32) || (65 <= b[i] <= 90 && a[i] == b[i] + 32)
      {
        assert Fold(a)[i] == Lower(a[i]) && Fold(b)[i] == Lower(b[i]);
      }
    }
  }

  /** One key for another: the same bytes, or the same letters. */
  predicate SameKey(a: Bytes, b: Bytes, exact: bool) {
    if exact then a == b else SameLetters(a, b)
  }

  lemma NameMeans(a: Bytes, b: Bytes, exact: bool)
    ensures Name(a, exact) == Name(b, exact) <==> SameKey(a, b, exact)
  {
    FoldMeans(a, b);
  }

  /** The look-up finds the first member with that key. */
  lemma FirstMeans(members: seq<Member>, key: Bytes, exact: bool)
    ensures var k := First(members, key, exact);
      && k <= |members| && (k < |members| ==> SameKey(members[k].key, key, exact))
      && forall j :: 0 <= j < k ==> !SameKey(members[j].key, key, exact)
  {
    var k := First(members, key, exact);
    forall j | 0 <= j < |members|
      ensures Name(members[j].key, exact) == Name(key, exact) <==> SameKey(members[j].key, key, exact)
    {
      NameMeans(members[j].key, key, exact);
    }
    hide SameKey, Name;
  }

  lemma FirstOfSameName(members: seq<Member>, key: Bytes, other: Bytes, exact: bool)
    requires Name(key, exact) == Name(other, exact)
    ensures First(members, key, exact) == First(members, other, exact)
  {
  }

  lemma FirstIs(members: seq<Member>, key: Bytes, exact: bool, i: nat)
    requires i <= |members| && (i < |members| ==> Name(members[i].key, exact) == Name(key, exact))
    requires forall j :: 0 <= j < i ==> Name(members[j].key, exact) != Name(key, exact)
    ensures First(members, key, exact) == i
  {
  }

  lemma Found(members: seq<Member>, i: nat, exact: bool)
    requires i < |members|
    ensures First(members, members[i].key, exact) <= i
  {
  }

  // ----- The comparison -----

  lemma ItemDepth(items: seq<Json>, i: nat)
    requires i < |items|
    ensures Depth(items[i]) <= ItemsDepth(items)
  {
    if i > 0 { ItemDepth(items[1..], i - 1); }
  }

  lemma MemberDepth(members: seq<Member>, i: nat)
    requires i < |members|
    ensures Depth(members[i].value) <= MembersDepth(members)
  {
    if i > 0 { MemberDepth(members[1..], i - 1); }
  }

  /** cJSON_Compare on values. */
  predicate Same(a: Json, b: Json, exact: bool)
    decreases Depth(a) + Depth(b), 1
  {
    match (a, b)
    case (Null, Null) => true
    case (False, False) => true
    case (True, True) => true
    case (Number(m), Number(n)) => m == n
    case (String(s), String(t)) => s == t
    case (Array(s), Array(t)) =>
      |s| == |t| && forall i :: 0 <= i < |s| ==> (ItemDepth(s, i); ItemDepth(t, i); Same(s[i], t[i], exact))
    case (Object(s), Object(t)) => Within(s, t, exact) && Within(t, s, exact)
    case _ => false
  }

  lemma SameArrays(s: seq<Json>, t: seq<Json>, exact: bool)
    ensures Same(Array(s), Array(t), exact) <==> |s| == |t| && forall i :: 0 <= i < |s| ==> Same(s[i], t[i], exact)
  {
  }

  /** Every member of s has a partner in t: the first one of the same name, with the same value. */
  predicate Within(s: seq<Member>, t: seq<Member>, exact: bool)
    decreases MembersDepth(s) + MembersDepth(t) + 1, 1
  {
    forall i :: 0 <= i < |s| ==> Partner(s, i, t, exact)
  }

  predicate Partner(s: seq<Member>, i: nat, t: seq<Member>, exact: bool)
    requires i < |s|
    decreases MembersDepth(s) + MembersDepth(t) + 1, 0
  {
    var k := First(t, s[i].key, exact);
    k < |t| && (MemberDepth(s, i); MemberDepth(t, k); Same(s[i].value, t[k].value, exact))
  }

  // ----- What a tree means when objects are maps -----

  datatype Meaning =
    | NullMeaning
    | Boolean(b: bool)
    | Integer(n: int)
    | Characters(s: Bytes)
    | Sequence(items: seq<Meaning>)
    | Mapping(members: map<Bytes, Meaning>)

  /** The value read as data: an object maps each name to its first value. */
  function Meant(j: Json, exact: bool): (r: Meaning)
    decreases j
  {
    match j
    case Null => NullMeaning
    case False => Boolean(false)
    case True => Boolean(true)
    case Number(n) => Integer(n)
    case String(s) => Characters(s)
    case Array(items) => Sequence(seq(|items|, i requires 0 <= i < |items| => Meant(items[i], exact)))
    case Object(members) =>
      Mapping(Entries(members, exact))
  }

  /** The first member of a name wins. */
  function Entries(members: seq<Member>, exact: bool): (r: map<Bytes, Meaning>)
    decreases members
  {
    if members == [] then map[]
    else Entries(members[1..], exact)[Name(members[0].key, exact) := Meant(members[0].value, exact)]
  }

  /** Members of the same name agree, at every level. */
  predicate Coherent(j: Json, exact: bool) {
    match j
    case Array(items) => forall i :: 0 <= i < |items| ==> Coherent(items[i], exact)
    case Object(members) =>
      forall i :: 0 <= i < |members| ==>
        Coherent(members[i].value, exact) &&
        var k := First(members, members[i].key, exact);
        k < |members| && Meant(members[i].value, exact) == Meant(members[k].value, exact)
    case _ => true
  }

  /** Names of the members are pairwise distinct, at every level. */
  predicate DistinctKeys(j: Json, exact: bool) {
    match j
    case Array(items) => forall i :: 0 <= i < |items| ==> DistinctKeys(items[i], exact)
    case Object(members) =>
      && (forall i :: 0 <= i < |members| ==> DistinctKeys(members[i].value, exact))
      && (forall i, k :: 0 <= i < k < |members| ==> Name(members[i].key, exact) != Name(members[k].key, exact))
    case _ => true
  }

  lemma {:induction false} DistinctKeysAreCoherent(j: Json, exact: bool)
    requires DistinctKeys(j, exact)
    ensures Coherent(j, exact)
  {
    match j
    case Array(items) =>
      forall i | 0 <= i < |items| ensures Coherent(items[i], exact) {
        DistinctKeysAreCoherent(items[i], exact);
      }
    case Object(members) =>
      forall i | 0 <= i < |members|
        ensures Coherent(members[i].value, exact) && First(members, members[i].key, exact) == i
      {
        DistinctKeysAreCoherent(members[i].value, exact);
        Found(members, i, exact);
      }
    case _ =>
  }

  /** The map of an object at a name: there when a member has the name, with the first such value. */
  lemma {:induction false} MeantAt(members: seq<Member>, key: Bytes, exact: bool)
    ensures var m, k := Entries(members, exact), First(members, key, exact);
      if k < |members| then Name(key, exact) in m && m[Name(key, exact)] == Meant(members[k].value, exact)
      else Name(key, exact) !in m
  {
    hide Meant, Name;
    if members != [] {
      MeantAt(members[1..], key, exact);
    }
  }

  lemma {:induction false} NameIsSomeones(members: seq<Member>, name: Bytes, exact: bool) returns (i: nat)
    requires name in Entries(members, exact)
    ensures i < |members| && name == Name(members[i].key, exact)
  {
    hide Meant, Name;
    if name == Name(members[0].key, exact) {
      i := 0;
    } else {
      var k := NameIsSomeones(members[1..], name, exact);
      i := k + 1;
    }
  }

  // ----- The comparison decides equality of meaning -----

  /** For all trees: the comparison succeeds exactly when both trees are coherent and mean the same. */
  lemma {:induction false} SameMeansEqual(a: Json, b: Json, exact: bool)
    ensures Same(a, b, exact) <==> Coherent(a, exact) && Coherent(b, exact) && Meant(a, exact) == Meant(b, exact)
    decreases Depth(a) + Depth(b), 1
  {
    match (a, b)
    case (Array(s), Array(t)) => SameItems(s, t, exact);
    case (Object(s), Object(t)) => SameMembers(s, t, exact);
    case _ =>
  }

  lemma {:induction false} SameItems(s: seq<Json>, t: seq<Json>, exact: bool)
    ensures var a, b := Array(s), Array(t);
      Same(a, b, exact) <==> Coherent(a, exact) && Coherent(b, exact) && Meant(a, exact) == Meant(b, exact)
    decreases ItemsDepth(s) + ItemsDepth(t) + 2, 0
  {
    var a, b := Array(s), Array(t);
    if |s| == |t| {
      forall i | 0 <= i < |s|
        ensures Same(s[i], t[i], exact) <==>
          Coherent(s[i], exact) && Coherent(t[i], exact) && Meant(s[i], exact) == Meant(t[i], exact)
      {
        ItemDepth(s, i);
        ItemDepth(t, i);
        SameMeansEqual(s[i], t[i], exact);
      }
      if Meant(a, exact) == Meant(b, exact) {
        forall i | 0 <= i < |s| ensures Meant(s[i], exact) == Meant(t[i], exact) {
          assert Meant(a, exact).items[i] == Meant(b, exact).items[i];
        }
      }
    } else {
      assert |Meant(a, exact).items| == |s|;
    }
  }

  /** Visiting the pairs, by the induction hypothesis. */
  lemma {:induction false} WithinIsMatched(s: seq<Member>, t: seq<Member>, exact: bool)
    ensures Within(s, t, exact) <==> Matched(s, t, exact)
    decreases MembersDepth(s) + MembersDepth(t) + 1, 0
  {
    forall i | 0 <= i < |s| ensures Partner(s, i, t, exact) <==> PartnerMeans(s[i], t, exact) {
      var k := First(t, s[i].key, exact);
      if k < |t| {
        MemberDepth(s, i);
        MemberDepth(t, k);
        SameMeansEqual(s[i].value, t[k].value, exact);
      }
    }
  }

  lemma {:induction false} SameMembers(s: seq<Member>, t: seq<Member>, exact: bool)
    ensures var a, b := Object(s), Object(t);
      Same(a, b, exact) <==> Coherent(a, exact) && Coherent(b, exact) && Meant(a, exact) == Meant(b, exact)
    decreases MembersDepth(s) + MembersDepth(t) + 2, 0
  {
    WithinIsMatched(s, t, exact);
    WithinIsMatched(t, s, exact);
    if Matched(s, t, exact) && Matched(t, s, exact) {
      MatchedIsCoherent(s, t, exact);
      MatchedIsCoherent(t, s, exact);
      MatchedIsEqual(s, t, exact);
    }
    if Coherent(Object(s), exact) && Coherent(Object(t), exact) && Meant(Object(s), exact) == Meant(Object(t), exact) {
      CoherentIsMatched(s, t, exact);
      CoherentIsMatched(t, s, exact);
    }
  }

  /** What the partners of s in t say, in terms of meanings. */
  ghost predicate Matched(s: seq<Member>, t: seq<Member>, exact: bool) {
    forall i :: 0 <= i < |s| ==> PartnerMeans(s[i], t, exact)
  }

  ghost predicate PartnerMeans(m: Member, t: seq<Member>, exact: bool) {
    var k := First(t, m.key, exact);
    && k < |t| && Coherent(m.value, exact) && Coherent(t[k].value, exact)
    && Meant(m.value, exact) == Meant(t[k].value, exact)
  }

  lemma MatchedIsCoherent(s: seq<Member>, t: seq<Member>, exact: bool)
    requires Matched(s, t, exact)
    ensures Coherent(Object(s), exact)
  {
    forall i | 0 <= i < |s|
      ensures Coherent(s[i].value, exact)
      ensures var k := First(s, s[i].key, exact); k < |s| && Meant(s[i].value, exact) == Meant(s[k].value, exact)
    {
      Found(s, i, exact);
      var k := First(s, s[i].key, exact);
      FirstOfSameName(t, s[i].key, s[k].key, exact);
      assert PartnerMeans(s[i], t, exact) && PartnerMeans(s[k], t, exact);
    }
  }

  lemma MatchedIsEqual(s: seq<Member>, t: seq<Member>, exact: bool)
    requires Matched(s, t, exact) && Matched(t, s, exact)
    ensures Meant(Object(s), exact) == Meant(Object(t), exact)
  {
    MatchedIsContained(s, t, exact);
    MatchedIsContained(t, s, exact);
    EqualMaps(Entries(s, exact), Entries(t, exact));
  }

  lemma EqualMaps(m: map<Bytes, Meaning>, n: map<Bytes, Meaning>)
    requires Contained(m, n) && Contained(n, m)
    ensures m == n
  {
  }

  lemma MatchedIsContained(s: seq<Member>, t: seq<Member>, exact: bool)
    requires Matched(s, t, exact)
    ensures Contained(Entries(s, exact), Entries(t, exact))
  {
    var m, n := Entries(s, exact), Entries(t, exact);
    forall name | name in m ensures name in n && m[name] == n[name] {
      var i := NameIsSomeones(s, name, exact);
      Found(s, i, exact);
      var k := First(s, s[i].key, exact);
      assert PartnerMeans(s[k], t, exact);
      FirstOfSameName(t, s[i].key, s[k].key, exact);
      MeantAt(s, s[i].key, exact);
      MeantAt(t, s[i].key, exact);
    }
  }

  ghost predicate Contained(m: map<Bytes, Meaning>, n: map<Bytes, Meaning>) {
    forall name <- m :: name in n && m[name] == n[name]
  }

  lemma CoherentIsMatched(s: seq<Member>, t: seq<Member>, exact: bool)
    requires Coherent(Object(s), exact) && Coherent(Object(t), exact)
    requires Meant(Object(s), exact) == Meant(Object(t), exact)
    ensures Matched(s, t, exact)
  {
    forall i | 0 <= i < |s| ensures PartnerMeans(s[i], t, exact) {
      Found(s, i, exact);
      MeantAt(s, s[i].key, exact);
      MeantAt(t, s[i].key, exact);
    }
  }

  // ----- Consequences -----

  /** Symmetric and transitive on all trees; reflexive exactly on the coherent ones. */
  lemma SameIsAnEquivalence(a: Json, b: Json, c: Json, exact: bool)
    ensures Same(a, b, exact) ==> Same(b, a, exact)
    ensures Same(a, b, exact) && Same(b, c, exact) ==> Same(a, c, exact)
    ensures Same(a, a, exact) <==> Coherent(a, exact)
  {
    SameMeansEqual(a, b, exact);
    SameMeansEqual(b, a, exact);
    SameMeansEqual(b, c, exact);
    SameMeansEqual(a, c, exact);
    SameMeansEqual(a, a, exact);
  }

  /** With distinct keys the comparison is equality of objects read as maps. */
  lemma DistinctKeysCompareAsMaps(a: Json, b: Json, exact: bool)
    requires DistinctKeys(a, exact) && DistinctKeys(b, exact)
    ensures Same(a, b, exact) <==> Meant(a, exact) == Meant(b, exact)
  {
    DistinctKeysAreCoherent(a, exact);
    DistinctKeysAreCoherent(b, exact);
    SameMeansEqual(a, b, exact);
  }

  // ----- The same value up to the order of members -----

  /** Equal scalars, arrays item by item, objects whose members have a counterpart of the same key in each other. */
  ghost predicate Alike(a: Json, b: Json, exact: bool)
    decreases a
  {
    match (a, b)
    case (Array(s), Array(t)) => |s| == |t| && forall i :: 0 <= i < |s| ==> Alike(s[i], t[i], exact)
    case (Object(s), Object(t)) =>
      && (forall i :: 0 <= i < |s| ==> Counterpart(s, i, t, exact))
      && (forall k :: 0 <= k < |t| ==> CounterpartBack(s, t, k, exact))
    case _ => a == b
  }

  /** Some member of t is the i-th one of s up to order. */
  ghost predicate Counterpart(s: seq<Member>, i: nat, t: seq<Member>, exact: bool)
    requires i < |s|
    decreases s
  {
    exists k :: 0 <= k < |t| && SameKey(s[i].key, t[k].key, exact) && Alike(s[i].value, t[k].value, exact)
  }

  /** Some member of s is the k-th one of t up to order. */
  ghost predicate CounterpartBack(s: seq<Member>, t: seq<Member>, k: nat, exact: bool)
    requires k < |t|
    decreases s
  {
    exists i :: 0 <= i < |s| && SameKey(s[i].key, t[k].key, exact) && Alike(s[i].value, t[k].value, exact)
  }

  /** With distinct keys at every level the comparison succeeds exactly for trees that are alike. */
  lemma {:induction false} DistinctKeysCompareAlike(a: Json, b: Json, exact: bool)
    requires DistinctKeys(a, exact) && DistinctKeys(b, exact)
    ensures Same(a, b, exact) <==> Alike(a, b, exact)
    decreases a
  {
    match (a, b)
    case (Array(s), Array(t)) =>
      SameArrays(s, t, exact);
      if |s| == |t| {
        forall i | 0 <= i < |s| ensures Same(s[i], t[i], exact) <==> Alike(s[i], t[i], exact) {
          DistinctKeysCompareAlike(s[i], t[i], exact);
        }
      }
    case (Object(s), Object(t)) =>
      forall i, k | 0 <= i < |s| && 0 <= k < |t|
        ensures Same(s[i].value, t[k].value, exact) <==> Alike(s[i].value, t[k].value, exact)
      {
        DistinctKeysCompareAlike(s[i].value, t[k].value, exact);
      }
      ObjectsAlike(s, t, exact);
    case _ =>
  }

  /** The partner of a member, for keys that are distinct in t. */
  lemma PartnerOfKey(s: seq<Member>, i: nat, t: seq<Member>, exact: bool)
    requires i < |s| && DistinctKeys(Object(t), exact)
    ensures Partner(s, i, t, exact) <==>
      exists k :: 0 <= k < |t| && SameKey(s[i].key, t[k].key, exact) && Same(s[i].value, t[k].value, exact)
  {
    hide Same, SameKey;
    forall k | 0 <= k < |t|
      ensures SameKey(s[i].key, t[k].key, exact) <==> Name(s[i].key, exact) == Name(t[k].key, exact)
    {
      NameMeans(s[i].key, t[k].key, exact);
    }
    if k :| 0 <= k < |t| && SameKey(s[i].key, t[k].key, exact) && Same(s[i].value, t[k].value, exact) {
      FirstIs(t, s[i].key, exact, k);
    }
  }

  lemma SameIsSymmetric(a: Json, b: Json, exact: bool)
    ensures Same(a, b, exact) <==> Same(b, a, exact)
  {
    SameIsAnEquivalence(a, b, a, exact);
    SameIsAnEquivalence(b, a, b, exact);
  }

  lemma SameKeyIsSymmetric(a: Bytes, b: Bytes, exact: bool)
    ensures SameKey(a, b, exact) <==> SameKey(b, a, exact)
  {
  }

  lemma CounterpartOf(s: seq<Member>, i: nat, t: seq<Member>, exact: bool)
    requires i < |s| && DistinctKeys(Object(t), exact)
    requires forall k :: 0 <= k < |t| ==>
      (Same(s[i].value, t[k].value, exact) <==> Alike(s[i].value, t[k].value, exact))
    ensures Partner(s, i, t, exact) <==> Counterpart(s, i, t, exact)
  {
    PartnerOfKey(s, i, t, exact);
    hide Same, Alike, SameKey, Partner;
  }

  lemma CounterpartBackOf(s: seq<Member>, t: seq<Member>, k: nat, exact: bool)
    requires k < |t| && DistinctKeys(Object(s), exact)
    requires forall i :: 0 <= i < |s| ==>
      (Same(s[i].value, t[k].value, exact) <==> Alike(s[i].value, t[k].value, exact))
    ensures Partner(t, k, s, exact) <==> CounterpartBack(s, t, k, exact)
  {
    PartnerOfKey(t, k, s, exact);
    forall i | 0 <= i < |s|
      ensures SameKey(t[k].key, s[i].key, exact) <==> SameKey(s[i].key, t[k].key, exact)
      ensures Same(t[k].value, s[i].value, exact) <==> Same(s[i].value, t[k].value, exact)
    {
      SameKeyIsSymmetric(s[i].key, t[k].key, exact);
      SameIsSymmetric(s[i].value, t[k].value, exact);
    }
    hide Same, Alike, SameKey, Partner;
  }

  lemma {:induction false} ObjectsAlike(s: seq<Member>, t: seq<Member>, exact: bool)
    requires DistinctKeys(Object(s), exact) && DistinctKeys(Object(t), exact)
    requires forall i, k :: 0 <= i < |s| && 0 <= k < |t| ==>
      (Same(s[i].value, t[k].value, exact) <==> Alike(s[i].value, t[k].value, exact))
    ensures Same(Object(s), Object(t), exact) <==> Alike(Object(s), Object(t), exact)
  {
    hide *;
    forall i | 0 <= i < |s| ensures Partner(s, i, t, exact) <==> Counterpart(s, i, t, exact) {
      CounterpartOf(s, i, t, exact);
    }
    forall k | 0 <= k < |t| ensures Partner(t, k, s, exact) <==> CounterpartBack(s, t, k, exact) {
      CounterpartBackOf(s, t, k, exact);
    }
    if Same(Object(s), Object(t), exact) {
      SameObjects(s, t, exact);
      ObjectsAreAlike(s, t, exact);
    }
    if Alike(Object(s), Object(t), exact) {
      AlikeObjects(s, t, exact);
      ObjectsAreSame(s, t, exact);
    }
  }

  lemma {:induction false} SameObjects(s: seq<Member>, t: seq<Member>, exact: bool)
    requires Same(Object(s), Object(t), exact)
    ensures forall i :: 0 <= i < |s| ==> Partner(s, i, t, exact)
    ensures forall k :: 0 <= k < |t| ==> Partner(t, k, s, exact)
  {
    assert Within(s, t, exact) && Within(t, s, exact);
    hide Partner;
  }

  lemma {:induction false} ObjectsAreSame(s: seq<Member>, t: seq<Member>, exact: bool)
    requires forall i :: 0 <= i < |s| ==> Partner(s, i, t, exact)
    requires forall k :: 0 <= k < |t| ==> Partner(t, k, s, exact)
    ensures Same(Object(s), Object(t), exact)
  {
    hide Partner;
    assert Within(s, t, exact);
    assert Within(t, s, exact);
  }

  lemma {:induction false} AlikeObjects(s: seq<Member>, t: seq<Member>, exact: bool)
    requires Alike(Object(s), Object(t), exact)
    ensures forall i :: 0 <= i < |s| ==> Counterpart(s, i, t, exact)
    ensures forall k :: 0 <= k < |t| ==> CounterpartBack(s, t, k, exact)
  {
    hide Counterpart, CounterpartBack;
  }

  lemma {:induction false} ObjectsAreAlike(s: seq<Member>, t: seq<Member>, exact: bool)
    requires forall i :: 0 <= i < |s| ==> Counterpart(s, i, t, exact)
    requires forall k :: 0 <= k < |t| ==> CounterpartBack(s, t, k, exact)
    ensures Alike(Object(s), Object(t), exact)
  {
    hide Counterpart, CounterpartBack;
  }

  /** A repeated key with different values: the tree does not even compare equal to an exact copy. */
  lemma RepeatedKeyIsNotItself(key: Bytes, exact: bool)
    ensures var tree := Object([Member(key, Number(1)), Member(key, Number(2))]);
      !Same(tree, tree, exact)
  {
    var members := [Member(key, Number(1)), Member(key, Number(2))];
    assert First(members, members[1].key, exact) == 0;
    assert Meant(members[1].value, exact) != Meant(members[0].value, exact);
    SameMeansEqual(Object(members), Object(members), exact);
  }

  /** compare_double, whose tolerance is 2^-52 of the larger magnitude. */
  predicate CompareDouble(a: real, b: real) {
    Abs(a - b) <= Larger(Abs(a), Abs(b)) * (1.0 / 4503599627370496.0)
  }

  function Abs(a: real): real { if a < 0.0 then -a else a }

  function Larger(a: real, b: real): real { if a > b then a else b }

  /** On int values the tolerant comparison is equality. */
  lemma TolerantComparisonOfInts(m: int, n: int)
    requires INT_MIN <= m <= INT_MAX && INT_MIN <= n <= INT_MAX
    ensures CompareDouble(m as real, n as real) <==> m == n
  {
    if m != n {
      assert Abs(m as real - n as real) >= 1.0;
      assert Larger(Abs(m as real), Abs(n as real)) <= 2147483648.0;
    }
  }
}
