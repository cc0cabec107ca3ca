/** Whole-tree operations on nodes: look-up by key, comparison and duplication. */
module Trees {
  import opened Bytes
  import opened Json
  import opened Nodes
  import Comparison

  // ----- Look-up -----

  /** case_insensitive_strcmp of two C strings, each followed by its NUL. */
  method CompareFolded(a: Bytes, b: Bytes) returns (difference: int)
    requires NulFree(a) && NulFree(b)
    ensures difference == 0 <==> Comparison.Fold(a) == Comparison.Fold(b)
    ensures difference == 0 <==> Comparison.SameLetters(a, b)
  {
    Comparison.FoldMeans(a, b);
    var i := 0;
    while Lower(CharAt(a, i)) == Lower(CharAt(b, i))
      invariant 0 <= i <= |a| && i <= |b|
      invariant forall k :: 0 <= k < i ==> Lower(a[k]) == Lower(b[k])
      decreases |a| - i
    {
      if CharAt(a, i) == NUL {
        return 0;
      }
      i := i + 1;
    }
    difference := Lower(CharAt(a, i)) - Lower(CharAt(b, i));
    if i < |a| && i < |b| {
      assert Comparison.Fold(a)[i] != Comparison.Fold(b)[i];
    }
  }

  function CharAt(s: Bytes, i: nat): byte
    requires i <= |s|
  {
    if i < |s| then s[i] else NUL
  }

  /** get_object_item. */
  method GetObjectItem(parent: Node?, name: Bytes, exact: bool) returns (r: Node?)
    requires parent != null ==> Sound(parent) && parent.kind.KObject? && parent.Tree.Object? && NulFree(name)
    ensures parent == null ==> r == null
    ensures parent != null ==> var k := Comparison.First(parent.Tree.members, name, exact);
      k <= |parent.Kids| && r == if k < |parent.Kids| then parent.Kids[k] else null
  {
    if parent == null {
      return null;
    }
    hide Sound, NulFree, Comparison.Fold, Comparison.First;
    SoundParts(parent);
    ghost var members, i := parent.Tree.members, 0;
    r := parent.child;
    while r != null
      invariant 0 <= i <= |parent.Kids| && r == (if i < |parent.Kids| then parent.Kids[i] else null)
      invariant forall k :: 0 <= k < i ==> Comparison.Name(members[k].key, exact) != Comparison.Name(name, exact)
      decreases |parent.Kids| - i
    {
      SoundChild(parent, i);
      var same := SameName(name, r.key, exact);
      if same {
        Comparison.FirstIs(members, name, exact, i);
        return;
      }
      r := r.next;
      i := i + 1;
    }
    Comparison.FirstIs(members, name, exact, i);
  }

  method SameName(a: Bytes, b: Bytes, exact: bool) returns (same: bool)
    requires NulFree(a) && NulFree(b)
    ensures same <==> Comparison.Name(b, exact) == Comparison.Name(a, exact)
  {
    if exact {
      return a == b;
    }
    var difference := CompareFolded(a, b);
    same := difference == 0;
  }

  // ----- Comparison -----

  /** A tree as the rest of the engine builds it: C strings and int numbers. */
  ghost predicate Sound(node: Node)
    reads node, node.Repr
  {
    hide Node.Valid, Printable;
    node.Valid() && Printable(node.Tree, false)
  }

  /** A tree a caller may pass: null, not filled in yet, or sound. */
  ghost predicate Known(node: Node?)
    reads node
    reads if node == null then {} else node.Repr
  {
    node != null && !node.kind.KInvalid? ==> Sound(node)
  }

  ghost function Owned(node: Node?): set<Node>
    reads node
  {
    if node == null then {} else node.Repr
  }

  lemma SoundParts(node: Node)
    requires Sound(node)
    ensures node.child == if node.Kids == [] then null else node.Kids[0]
    ensures node.kind.KArray? ==> node.Tree.Array? && |node.Tree.items| == |node.Kids|
    ensures node.kind.KObject? ==> node.Tree.Object? && |node.Tree.members| == |node.Kids|
  {
    FirstChild(node);
  }

  lemma SoundChild(node: Node, i: nat)
    requires Sound(node) && i < |node.Kids|
    ensures var k := node.Kids[i];
      && Sound(k) && k.Repr < node.Repr
      && k.next == (if i + 1 < |node.Kids| then node.Kids[i + 1] else null)
      && (node.kind.KArray? ==> |node.Tree.items| == |node.Kids| && node.Tree.items[i] == k.Tree)
      && (node.kind.KObject? ==>
            |node.Tree.members| == |node.Kids| && node.Tree.members[i] == Member(k.key, k.Tree) && NulFree(k.key))
  {
    ChildAt(node, i);
    hide Node.Valid;
  }

  /** The node b is a or hangs below it. */
  ghost predicate Holds(a: Node, b: Node)
    requires a.Valid()
    reads a, a.Repr
    decreases a.Repr
  {
    a == b || exists k :: k in a.Kids && Holds(k, b)
  }

  /** Nodes of trees that share no node, or different nodes of one tree. */
  ghost predicate Comparable(a: Node, b: Node)
    reads a, a.Repr, b, b.Repr
  {
    && a.Valid() && b.Valid()
    && (a.Repr !! b.Repr || (a != b && (Holds(a, b) || Holds(b, a))))
  }

  lemma {:induction false} HeldInside(a: Node, b: Node)
    requires a.Valid() && Holds(a, b)
    ensures b.Valid() && b.Repr <= a.Repr
    ensures forall k <- b.Kids :: Holds(a, k)
    decreases a.Repr
  {
    if a == b {
      forall k | k in b.Kids ensures Holds(a, k) {
        assert Holds(k, k);
      }
    } else {
      var z :| z in a.Kids && Holds(z, b);
      HeldInside(z, b);
    }
  }

  /** A node below a and not a itself: it is below one child, and apart from the others. */
  lemma BelowOneChild(a: Node, b: Node, x: Node, y: Node)
    requires a.Valid() && a != b && Holds(a, b) && x in a.Kids && y in b.Kids
    ensures Comparable(x, y) && x.Repr + y.Repr <= a.Repr - {a}
  {
    var z :| z in a.Kids && Holds(z, b);
    HeldInside(z, b);
    HeldInside(z, y);
    if x != z {
      assert x.Repr !! z.Repr;
    } else {
      assert b !in y.Repr;
    }
  }

  lemma ChildrenComparable(a: Node, b: Node, x: Node, y: Node)
    requires Comparable(a, b) && x in a.Kids && y in b.Kids
    ensures Comparable(x, y) && x.Repr + y.Repr < a.Repr + b.Repr
  {
    if a.Repr !! b.Repr {
      assert x.Valid() && y.Valid();
    } else if Holds(a, b) {
      BelowOneChild(a, b, x, y);
    } else {
      BelowOneChild(b, a, y, x);
    }
  }

  /** cJSON_Compare: the same node, or different nodes that are the same value. */
  method Compare(a: Node?, b: Node?, exact: bool) returns (r: bool)
    requires Known(a) && Known(b)
    requires a != null && b != null && a != b && !a.kind.KInvalid? && !b.kind.KInvalid? ==> Comparable(a, b)
    ensures r <==> (
      && a != null && b != null && a.kind == b.kind && !a.kind.KInvalid?
      && (a == b || Comparison.Same(a.Tree, b.Tree, exact)))
    decreases Owned(a) + Owned(b), 3
  {
    if a == null || b == null || a.kind != b.kind {
      return false;
    }
    if a.kind.KInvalid? {
      return false;
    }
    if a == b {
      return true;
    }
    hide Sound, Comparison.Same, Comparable;
    r := CompareValues(a, b, exact);
  }

  /** Different nodes of the same kind. */
  method CompareValues(a: Node, b: Node, exact: bool) returns (r: bool)
    requires Sound(a) && Sound(b) && a.kind == b.kind && Comparable(a, b)
    ensures r == Comparison.Same(a.Tree, b.Tree, exact)
    decreases a.Repr + b.Repr, 2
  {
    SoundParts(a);
    SoundParts(b);
    match a.kind
    case KNumber => r := a.number == b.number;
    case KString => r := a.text == b.text;
    case KArray =>
      hide Sound, Comparable;
      r := CompareItems(a, b, exact);
    case KObject =>
      hide Sound, Comparison.Within, Comparable;
      ComparableSwap(a, b);
      r := ComparePartners(a, b, exact);
      if r {
        r := ComparePartners(b, a, exact);
      }
    case _ => r := true;
  }

  /** The recursive call on two children. */
  method CompareChildren(a: Node, b: Node, exact: bool) returns (r: bool)
    requires Sound(a) && Sound(b) && Comparable(a, b)
    ensures r == Comparison.Same(a.Tree, b.Tree, exact)
    decreases a.Repr + b.Repr, 4
  {
    SameKinds(a, b, exact);
    hide Sound, Comparison.Same, Comparable;
    r := Compare(a, b, exact);
  }

  lemma ComparableSwap(a: Node, b: Node)
    requires Comparable(a, b)
    ensures Comparable(b, a)
  {
  }

  lemma SameKinds(a: Node, b: Node, exact: bool)
    requires Sound(a) && Sound(b) && Comparable(a, b)
    ensures a != b && !a.kind.KInvalid? && (Comparison.Same(a.Tree, b.Tree, exact) ==> a.kind == b.kind)
  {
  }

  method CompareItems(a: Node, b: Node, exact: bool) returns (r: bool)
    requires Sound(a) && Sound(b) && a.kind.KArray? && b.kind.KArray? && Comparable(a, b)
    ensures r == Comparison.Same(a.Tree, b.Tree, exact)
    decreases a.Repr + b.Repr, 1
  {
    hide Sound, Comparison.Same, Comparable;
    SoundParts(a);
    SoundParts(b);
    ghost var s, t, i := a.Tree.items, b.Tree.items, 0;
    Comparison.SameArrays(s, t, exact);
    var el, other := a.child, b.child;
    while el != null && other != null
      invariant 0 <= i <= |s| && i <= |t|
      invariant el == (if i < |s| then a.Kids[i] else null) && other == (if i < |t| then b.Kids[i] else null)
      invariant forall k :: 0 <= k < i ==> Comparison.Same(s[k], t[k], exact)
      decreases |s| - i
    {
      SoundChild(a, i);
      SoundChild(b, i);
      ChildrenComparable(a, b, el, other);
      var same := CompareChildren(el, other, exact);
      if !same {
        return false;
      }
      el := el.next;
      other := other.next;
      i := i + 1;
    }
    r := el == other;
  }

  /** One of the two loops over members: every member of a has its partner in b. */
  method ComparePartners(a: Node, b: Node, exact: bool) returns (r: bool)
    requires Sound(a) && Sound(b) && a.kind.KObject? && b.kind.KObject? && Comparable(a, b)
    requires a.Tree.Object? && b.Tree.Object?
    ensures r == Comparison.Within(a.Tree.members, b.Tree.members, exact)
    decreases a.Repr + b.Repr, 1
  {
    hide Sound, Comparison.Partner, Comparable;
    SoundParts(a);
    ghost var s, t, i := a.Tree.members, b.Tree.members, 0;
    var el := a.child;
    while el != null
      invariant 0 <= i <= |s| && el == (if i < |s| then a.Kids[i] else null)
      invariant forall k :: 0 <= k < i ==> Comparison.Partner(s, k, t, exact)
      decreases |s| - i
    {
      SoundChild(a, i);
      var found := ComparePartner(a, el, b, exact, i);
      if !found {
        return false;
      }
      el := el.next;
      i := i + 1;
    }
    r := true;
  }

  method ComparePartner(a: Node, el: Node, b: Node, exact: bool, ghost i: nat) returns (r: bool)
    requires Sound(el) && Sound(b) && b.kind.KObject? && b.Tree.Object? && NulFree(el.key)
    requires a.Tree.Object? && i < |a.Tree.members| && a.Tree.members[i] == Member(el.key, el.Tree)
    requires el in a.Kids && Comparable(a, b)
    ensures r == Comparison.Partner(a.Tree.members, i, b.Tree.members, exact)
    decreases a.Repr + b.Repr, 0
  {
    hide Sound, Comparison.Same, Comparison.First, Comparable;
    SoundParts(b);
    var other := GetObjectItem(b, el.key, exact);
    if other == null {
      return false;
    }
    SoundChild(b, Comparison.First(b.Tree.members, el.key, exact));
    ChildrenComparable(a, b, el, other);
    r := CompareChildren(el, other, exact);
  }

  // ----- Duplication -----

  /** A copy without the children: a container is empty then. */
  function Shallow(tree: Json): Json {
    match tree
    case Array(_) => Array([])
    case Object(_) => Object([])
    case _ => tree
  }

  /** cJSON_Duplicate: a fresh, detached tree of the same value. */
  method Duplicate(item: Node?, recurse: bool) returns (r: Node?)
    requires item != null ==> item.Valid()
    ensures (r == null) == (item == null)
    ensures r != null ==> fresh(r) && fresh(r.Repr) && r.Valid() && r.key == item.key && r.next == null
    ensures r != null ==> r.kind == item.kind && r.Tree == if recurse then item.Tree else Shallow(item.Tree)
    decreases Owned(item), 3
  {
    if item == null {
      return null;
    }
    hide Node.Valid;
    var copy := CopyNode(item);
    if !recurse {
      copy.Tree := Shallow(item.Tree);
      ShallowCarries(item);
      LeafValid(copy);
      return copy;
    }
    DuplicateTree(item, copy);
    r := copy;
  }

  /** A new node with the fields of the item and without children. */
  method CopyNode(item: Node) returns (copy: Node)
    ensures fresh(copy) && copy.Blank() && copy.next == null
    ensures copy.kind == item.kind && copy.text == item.text && copy.number == item.number && copy.key == item.key
  {
    copy := new Node();
    copy.kind, copy.text, copy.number, copy.key := item.kind, item.text, item.number, item.key;
  }

  lemma ShallowCarries(item: Node)
    requires item.Valid()
    ensures Carries(item.kind, item.text, item.number, [], Shallow(item.Tree))
  {
  }

  /** The recursive part: copies of the children, hung below the copy. */
  method DuplicateTree(item: Node, copy: Node)
    requires item.Valid() && copy.Blank() && copy.kind == item.kind
    requires copy.text == item.text && copy.number == item.number && copy !in item.Repr
    modifies copy`kind, copy`child, copy`Kids, copy`Tree, copy`Repr
    ensures copy.Valid() && copy.Tree == item.Tree && copy.kind == item.kind && fresh(copy.Repr - {copy})
    decreases item.Repr, 2
  {
    hide Node.Valid, Chain, Copies, Carries, Reprs;
    var head, last;
    ghost var kids;
    head, last, kids := DuplicateChildren(item);
    CopiesCarry(item, kids);
    Complete(copy, item.kind, head, last, kids, item.Tree);
  }

  /** The list of copies becomes the children. */
  method Complete(copy: Node, kind: Kind, head: Node?, last: Node?, ghost kids: seq<Node>, ghost tree: Json)
    requires Chain(head, last, kids, null) && copy.Blank() && copy !in Reprs(kids) && copy.kind == kind
    requires Carries(kind, copy.text, copy.number, kids, tree) && (kids != [] ==> kind.KArray? || kind.KObject?)
    modifies (if head == null then {} else {head})`prev
    modifies copy`kind, copy`child, copy`Kids, copy`Tree, copy`Repr
    ensures copy.Valid() && copy.Tree == tree && copy.kind == kind && copy.Repr == {copy} + old(Reprs(kids))
  {
    hide Separate, Node.Valid, Chained, Reprs, Below;
    if head != null {
      Finish(copy, kind, head, last, kids, tree);
    } else {
      NoneHung(copy);
      copy.Tree := tree;
      LeafValid(copy);
    }
  }

  lemma LeafValid(node: Node)
    requires node.Blank() && Carries(node.kind, node.text, node.number, [], node.Tree)
    ensures node.Valid()
  {
  }

  lemma CopiesCarry(item: Node, kids: seq<Node>)
    requires item.Valid() && Copies(item, kids) && |kids| == |item.Kids|
    ensures Carries(item.kind, item.text, item.number, kids, item.Tree)
    ensures kids != [] ==> item.kind.KArray? || item.kind.KObject?
  {
  }

  /** The copies made so far carry what the first children carry. */
  ghost predicate Copies(item: Node, kids: seq<Node>)
    reads item`Kids, item.Kids`key, item.Kids`Tree, kids`key, kids`Tree
  {
    |kids| <= |item.Kids| &&
    forall i :: 0 <= i < |kids| ==> kids[i].key == item.Kids[i].key && kids[i].Tree == item.Kids[i].Tree
  }

  /** The loop over the children. */
  method DuplicateChildren(item: Node) returns (head: Node?, last: Node?, ghost kids: seq<Node>)
    requires item.Valid()
    ensures Chain(head, last, kids, null) && fresh(Reprs(kids)) && (head != null ==> fresh(head))
    ensures |kids| == |item.Kids| && Copies(item, kids)
    decreases item.Repr, 1
  {
    hide Node.Valid, Chain, Reprs, Copies;
    head, last, kids := null, null, [];
    NoCopies(item);
    CopyPoint(item, 0);
    var child := item.child;
    while child != null
      invariant |kids| <= |item.Kids| && child == ChildOf(item, |kids|)
      invariant Chain(head, last, kids, null) && Copies(item, kids)
      invariant fresh(Reprs(kids)) && (head != null ==> fresh(head)) && (last != null ==> fresh(last))
      decreases |item.Kids| - |kids|
    {
      CopyPoint(item, |kids|);
      ghost var before := Reprs(kids);
      head, last, kids := DuplicateChild(item, child, head, last, kids);
      ghost var after := Reprs(kids);
      assert fresh(after - before);
      forall o | o in after ensures fresh(o) {
        assert o in before || o in after - before;
      }
      child := child.next;
    }
  }

  ghost function ChildOf(item: Node, i: nat): Node?
    reads item`Kids
  {
    if i < |item.Kids| then item.Kids[i] else null
  }

  lemma CopyPoint(item: Node, i: nat)
    requires item.Valid() && i <= |item.Kids|
    ensures i == 0 ==> item.child == ChildOf(item, i)
    ensures var k := ChildOf(item, i);
      k != null ==> i < |item.Kids| && k.Valid() && k.Repr < item.Repr && k.next == ChildOf(item, i + 1)
  {
    if i < |item.Kids| {
      ChildAt(item, i);
    }
  }

  /** One round: copy the child and link the copy behind the others. */
  method DuplicateChild(item: Node, child: Node, head: Node?, last: Node?, ghost kids: seq<Node>)
    returns (head': Node, last': Node, ghost kids': seq<Node>)
    requires child.Valid() && child.Repr < item.Repr && |kids| < |item.Kids| && child == item.Kids[|kids|]
    requires Chain(head, last, kids, null) && Copies(item, kids)
    modifies (if last == null then {} else {last})`next
    ensures Chain(head', last', kids', null) && |kids'| == |kids| + 1 && Copies(item, kids')
    ensures fresh(last') && fresh(Reprs(kids') - old(Reprs(kids)))
    ensures if head == null then fresh(head') else head' == head
    decreases item.Repr, 0
  {
    hide Chain, Node.Valid, Copies, Reprs, Below;
    BelowAllocated(kids);
    var copy := Duplicate(child, true);
    head', last', kids' := Link(head, last, kids, copy);
    OneMoreCopy(item, kids, copy);
  }

  lemma NoCopies(item: Node)
    ensures Chain(null, null, [], null) && Copies(item, []) && Reprs([]) == {}
  {
  }

  lemma BelowAllocated(kids: seq<Node>)
    ensures forall o :: o in Reprs(kids) ==> allocated(o)
    ensures forall o :: o in Below(kids) ==> allocated(o)
  {
  }

  lemma OneMoreCopy(item: Node, kids: seq<Node>, copy: Node)
    requires Copies(item, kids) && |kids| < |item.Kids|
    requires copy.key == item.Kids[|kids|].key && copy.Tree == item.Kids[|kids|].Tree
    ensures Copies(item, kids + [copy])
  {
  }

  /** The links made for one more copy. */
  method Link(head: Node?, last: Node?, ghost kids: seq<Node>, copy: Node)
    returns (head': Node, last': Node, ghost kids': seq<Node>)
    requires Chain(head, last, kids, null) && copy.Valid() && copy.Repr !! Reprs(kids) && copy.next == null
    modifies (if last == null then {} else {last})`next, copy`prev
    ensures Chain(head', last', kids', null) && kids' == kids + [copy] && last' == copy
    ensures head' == if head == null then copy else head
    ensures Reprs(kids') == old(Reprs(kids)) + old(copy.Repr)
  {
    hide Separate, Node.Valid, Chained, Reprs;
    head', last', kids' := if head == null then copy else head, copy, kids + [copy];
    if last != null {
      RootsAreNotBelow(kids);
      assert last !in copy.Repr;
      Hang(last, copy, kids);
    } else {
      NoneHung(copy);
    }
    Grow(kids, copy);
  }

  /** A recursive copy compares equal to its source exactly when no repeated key disagrees with itself. */
  method CompareWithCopy(item: Node, exact: bool) returns (same: bool)
    requires Sound(item)
    ensures same <==> Comparison.Coherent(item.Tree, exact)
  {
    var copy := Duplicate(item, true);
    Comparison.SameIsAnEquivalence(item.Tree, item.Tree, item.Tree, exact);
    CopySound(item, copy);
    hide Sound, Comparison.Same, Comparison.Coherent;
    same := Compare(copy, item, exact);
  }

  lemma CopySound(item: Node, copy: Node)
    requires Sound(item) && copy.Valid() && copy.Tree == item.Tree && copy.kind == item.kind
    ensures Known(item) && Known(copy) && !item.kind.KInvalid? && (item.Repr !! copy.Repr ==> Comparable(copy, item))
  {
  }
}
