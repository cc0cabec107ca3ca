/** Editing the children of a node: every pointer operation is a sequence operation. */
module Lists {
  import opened Bytes
  import opened Json
  import opened Nodes

  // ----- The sequence operations -----

  function Inserted<T>(s: seq<T>, i: nat, x: T): (r: seq<T>)
    requires i <= |s|
    ensures |r| == |s| + 1
  {
    s[..i] + [x] + s[i..]
  }

  function Removed<T>(s: seq<T>, i: nat): (r: seq<T>)
    requires i < |s|
    ensures |r| == |s| - 1
  {
    s[..i] + s[i + 1..]
  }

  /** The item is at the index, the items in front of it stay, and the others move up by one. */
  lemma InsertedMeans<T>(s: seq<T>, i: nat, x: T, k: nat)
    requires i <= |s| && k <= |s|
    ensures |Inserted(s, i, x)| == |s| + 1
    ensures Inserted(s, i, x)[k] == if k < i then s[k] else if k == i then x else s[k - 1]
  {
  }

  lemma RemoveInserted<T>(s: seq<T>, i: nat, x: T)
    requires i <= |s|
    ensures Removed(Inserted(s, i, x), i) == s
  {
  }

  lemma ReplacedIsRemoved<T>(s: seq<T>, i: nat, x: T)
    requires i < |s|
    ensures s[i := x] == Removed(Inserted(s, i, x), i + 1)
  {
  }

  lemma InsertRemoved<T>(s: seq<T>, i: nat)
    requires i < |s|
    ensures Inserted(Removed(s, i), i, s[i]) == s
  {
  }

  // ----- Siblings -----

  lemma SeparateWhen(kids: seq<Node>)
    requires Apart(kids) && forall k :: k in kids ==> k.Valid()
    ensures Separate(kids)
  {
    hide Node.Valid, Apart;
  }

  lemma ApartInserted(kids: seq<Node>, i: nat, x: Node)
    requires i <= |kids| && Apart(kids) && x.Repr !! Reprs(kids)
    ensures Apart(Inserted(kids, i, x))
  {
    var all := Inserted(kids, i, x);
    InsertedAt(kids, i, x);
    hide Inserted;
    forall a, b | 0 <= a < b < |all| ensures all[a].Repr !! all[b].Repr {
      if a == i {
        assert all[b] in kids;
      } else if b == i {
        assert all[a] in kids;
      }
    }
  }

  lemma SeparateInserted(kids: seq<Node>, i: nat, x: Node)
    requires i <= |kids| && Separate(kids) && x.Valid() && x.Repr !! Reprs(kids)
    ensures Separate(Inserted(kids, i, x))
    ensures Reprs(Inserted(kids, i, x)) == Reprs(kids) + x.Repr
  {
    hide Node.Valid, Apart;
    ApartInserted(kids, i, x);
    MembersInserted(kids, i, x);
    hide Inserted;
    SeparateWhen(Inserted(kids, i, x));
  }

  lemma MembersInserted(kids: seq<Node>, i: nat, x: Node)
    requires i <= |kids|
    ensures forall k :: k in Inserted(kids, i, x) <==> k in kids || k == x
  {
  }

  lemma ApartRemoved(kids: seq<Node>, i: nat)
    requires i < |kids| && Apart(kids)
    ensures Apart(Removed(kids, i)) && kids[i].Repr !! Reprs(Removed(kids, i))
  {
    var rest := Removed(kids, i);
    RemovedAt(kids, i);
    hide Removed;
    forall k | k in rest ensures k.Repr !! kids[i].Repr {
      var a :| 0 <= a < |rest| && rest[a] == k;
      assert if a < i then kids[a].Repr !! kids[i].Repr else kids[i].Repr !! kids[a + 1].Repr;
    }
  }

  lemma SeparateRemoved(kids: seq<Node>, i: nat)
    requires i < |kids| && Separate(kids)
    ensures Separate(Removed(kids, i)) && kids[i].Repr !! Reprs(Removed(kids, i))
    ensures Reprs(kids) == Reprs(Removed(kids, i)) + kids[i].Repr
  {
    hide Node.Valid, Apart;
    ApartRemoved(kids, i);
    assert forall k :: k in kids <==> k in Removed(kids, i) || k == kids[i];
    SeparateWhen(Removed(kids, i));
  }

  lemma InsertedAt<T>(s: seq<T>, i: nat, x: T)
    requires i <= |s|
    ensures forall a {:trigger Inserted(s, i, x)[a]} :: 0 <= a <= |s| ==>
      Inserted(s, i, x)[a] == if a < i then s[a] else if a == i then x else s[a - 1]
  {
  }

  lemma RemovedAt<T>(s: seq<T>, i: nat)
    requires i < |s|
    ensures forall a {:trigger Removed(s, i)[a]} :: 0 <= a < |s| - 1 ==>
      Removed(s, i)[a] == if a < i then s[a] else s[a + 1]
  {
  }

  // ----- Pointer work: only links change -----

  /** add_item_to_array on the links. */
  method LinkLast(parent: Node, item: Node, ghost kids: seq<Node>, ghost all: seq<Node>)
    requires forall i, j :: 0 <= i < j < |kids| ==> kids[i] != kids[j]
    requires Linked(parent.child, kids) && item !in kids && item.next == null && all == Inserted(kids, |kids|, item)
    modifies parent`child, item`next, item`prev, kids`next, kids`prev
    ensures Linked(parent.child, all)
  {
    InsertedAt(kids, |kids|, item);
    MembersInserted(kids, |kids|, item);
    hide Inserted;
    var child := parent.child;
    if child == null {
      parent.child := item;
      item.prev := item;
      item.next := null;
    } else if child.prev != null {
      child.prev.next := item;
      item.prev := child.prev;
      parent.child.prev := item;
    }
  }

  /** The pointer part of cJSON_InsertItemInArray, in front of kids[i]. */
  method LinkBefore(parent: Node, after: Node, item: Node, ghost kids: seq<Node>, ghost i: nat, ghost all: seq<Node>)
    requires forall i, j :: 0 <= i < j < |kids| ==> kids[i] != kids[j]
    requires Linked(parent.child, kids) && item !in kids && i < |kids| && after == kids[i]
    requires all == Inserted(kids, i, item)
    modifies parent`child, item`next, item`prev, kids`next, kids`prev
    ensures Linked(parent.child, all)
  {
    InsertedAt(kids, i, item);
    MembersInserted(kids, i, item);
    hide Inserted;
    item.next := after;
    item.prev := after.prev;
    after.prev := item;
    if after == parent.child {
      parent.child := item;
    } else {
      item.prev.next := item;
    }
    ghost var n := |kids|;
    assert all[n].next == null && all[0].prev == all[n] && parent.child == all[0];
    forall a {:trigger all[a].next} | 0 <= a < n ensures all[a].next == all[a + 1] {
    }
    forall a {:trigger all[a].prev} | 0 < a <= n ensures all[a].prev == all[a - 1] {
    }
  }

  /** cJSON_DetachItemViaPointer on the links. */
  method Unlink(parent: Node, item: Node, ghost kids: seq<Node>, ghost i: nat)
    requires Linked(parent.child, kids) && i < |kids| && item == kids[i]
    requires forall i, j :: 0 <= i < j < |kids| ==> kids[i] != kids[j]
    modifies parent`child, kids`next, kids`prev
    ensures Linked(parent.child, Removed(kids, i))
    ensures item.next == null && item.prev == null
  {
    hide Removed;
    if item != parent.child {
      item.prev.next := item.next;
    }
    if item.next != null {
      item.next.prev := item.prev;
    }
    if item == parent.child {
      parent.child := item.next;
    } else if item.next == null {
      parent.child.prev := item.prev;
    }
    item.prev := null;
    item.next := null;
    RemovedAt(kids, i);
  }

  /** cJSON_ReplaceItemViaPointer on the links; the old item is no longer needed. */
  method Relink(parent: Node, item: Node, replacement: Node, ghost kids: seq<Node>, ghost i: nat)
    requires forall i, j :: 0 <= i < j < |kids| ==> kids[i] != kids[j]
    requires Linked(parent.child, kids) && i < |kids| && item == kids[i] && replacement !in kids
    modifies parent`child, replacement`next, replacement`prev, kids`next, kids`prev
    ensures Linked(parent.child, kids[i := replacement])
    ensures item.next == null && item.prev == null
  {
    ghost var all, n := kids[i := replacement], |kids|;
    replacement.next := item.next;
    replacement.prev := item.prev;
    if replacement.next != null {
      replacement.next.prev := replacement;
    }
    if parent.child == item {
      if parent.child.prev == parent.child {
        replacement.prev := replacement;
      }
      parent.child := replacement;
    } else {
      if replacement.prev != null {
        replacement.prev.next := replacement;
      }
      if replacement.next == null {
        parent.child.prev := replacement;
      }
    }
    item.next := null;
    item.prev := null;
    assert all[n - 1].next == null && all[0].prev == all[n - 1] && parent.child == all[0];
    forall a {:trigger all[a].next} | 0 <= a < n - 1 ensures all[a].next == all[a + 1] {
      assert a != i && a + 1 != i ==> kids[a].next == kids[a + 1];
    }
    forall a {:trigger all[a].prev} | 0 < a < n ensures all[a].prev == all[a - 1] {
      assert a != i && a - 1 != i ==> kids[a].prev == kids[a - 1];
    }
  }

  // ----- Whole trees -----

  /** The values along a list of children. */
  ghost function ItemsOf(kids: seq<Node>): (items: seq<Json>)
    reads kids`Tree
    ensures CarriesItems(kids, items)
  {
    if kids == [] then [] else ItemsOf(kids[..|kids| - 1]) + [kids[|kids| - 1].Tree]
  }

  ghost function MembersOf(kids: seq<Node>): (members: seq<Member>)
    reads kids`Tree, kids`key
    ensures CarriesMembers(kids, members)
  {
    if kids == [] then []
    else MembersOf(kids[..|kids| - 1]) + [Member(kids[|kids| - 1].key, kids[|kids| - 1].Tree)]
  }

  ghost predicate Container(node: Node)
    reads node`kind
  {
    node.kind.KArray? || node.kind.KObject?
  }

  ghost function TreeOf(kind: Kind, kids: seq<Node>): Json
    reads kids`Tree, kids`key
  {
    if kind.KArray? then Array(ItemsOf(kids)) else Object(MembersOf(kids))
  }

  lemma TreeOfValid(node: Node)
    requires node.Valid() && Container(node)
    ensures node.Tree == TreeOf(node.kind, node.Kids)
  {
    if node.kind.KArray? {
      assert node.Tree.items == ItemsOf(node.Kids);
    } else {
      assert node.Tree.members == MembersOf(node.Kids);
    }
  }

  /** The parts of a valid container. */
  lemma Parts(node: Node)
    requires node.Valid() && Container(node)
    ensures Separate(node.Kids) && Linked(node.child, node.Kids)
    ensures Reprs(node.Kids) <= node.Repr - {node} && node !in node.Kids && node !in Below(node.Kids)
  {
    assert forall k :: k in node.Kids ==> k.Valid();
    hide Node.Valid;
    SeparateWhen(node.Kids);
    RootsAreNotBelow(node.Kids);
  }

  ghost function KidsOf(node: Node?): seq<Node>
    reads node
  {
    if node == null then [] else node.Kids
  }

  ghost function Self(node: Node?): set<Node> {
    if node == null then {} else {node}
  }

  /** What an edit needs: a container, and a valid tree that is not part of it yet. */
  ghost predicate Attachable(parent: Node, item: Node)
    reads parent, parent.Repr, item, item.Repr
  {
    parent.Valid() && Container(parent) && item.Valid() && item.Repr !! parent.Repr
  }

  lemma CarriesTree(kind: Kind, text: Bytes, number: int, kids: seq<Node>)
    requires kind.KArray? || kind.KObject?
    ensures Carries(kind, text, number, kids, TreeOf(kind, kids))
  {
  }

  /** The node is a valid container again, with these children. */
  ghost method Adopt(parent: Node, kids: seq<Node>, touched: seq<Node>)
    requires Container(parent) && Separate(kids) && Linked(parent.child, kids) && Clear(parent, touched, kids)
    modifies parent`Kids, parent`Repr, parent`Tree
    ensures parent.Valid() && parent.Kids == kids && parent.Repr == {parent} + old(Reprs(kids))
    ensures parent.Tree == old(TreeOf(parent.kind, kids))
  {
    hide Separate, Node.Valid, Carries, Linked, Below, TreeOf;
    ghost var tree := TreeOf(parent.kind, kids);
    CarriesTree(parent.kind, parent.text, parent.number, kids);
    parent.Kids, parent.Repr, parent.Tree := kids, {parent} + Reprs(kids), tree;
    SeparateKids(parent);
  }

  /** The node and the nodes whose links may change are not below the siblings. */
  ghost predicate Clear(parent: Node, touched: seq<Node>, kids: seq<Node>)
    reads kids`Repr
  {
    && parent !in kids && parent !in Below(kids) && parent !in Reprs(kids)
    && (forall k :: k in touched ==> k !in Below(kids))
  }

  // ----- The edits as operations on values -----

  /** The container with one more child at position i. */
  function InsertedTree(tree: Json, i: nat, member: Member): (r: Json)
  {
    match tree
    case Array(items) => if i <= |items| then Array(Inserted(items, i, member.value)) else tree
    case Object(members) => if i <= |members| then Object(Inserted(members, i, member)) else tree
    case _ => tree
  }

  /** The container without its child at position i. */
  function RemovedTree(tree: Json, i: nat): (r: Json)
  {
    match tree
    case Array(items) => if i < |items| then Array(Removed(items, i)) else tree
    case Object(members) => if i < |members| then Object(Removed(members, i)) else tree
    case _ => tree
  }

  /** The container with another child at position i. */
  function ReplacedTree(tree: Json, i: nat, member: Member): (r: Json)
  {
    match tree
    case Array(items) => if i < |items| then Array(items[i := member.value]) else tree
    case Object(members) => if i < |members| then Object(members[i := member]) else tree
    case _ => tree
  }

  /** Detaching what was inserted gives the container back, and inserting what was detached does too. */
  lemma DetachUndoesInsert(tree: Json, i: nat, member: Member)
    requires (tree.Array? && i <= |tree.items|) || (tree.Object? && i <= |tree.members|)
    ensures RemovedTree(InsertedTree(tree, i, member), i) == tree
    ensures tree.Array? && i < |tree.items| ==>
      InsertedTree(RemovedTree(tree, i), i, Member([], tree.items[i])) == tree
    ensures tree.Object? && i < |tree.members| ==> InsertedTree(RemovedTree(tree, i), i, tree.members[i]) == tree
  {
    hide Inserted, Removed;
    if tree.Array? {
      RemoveInserted(tree.items, i, member.value);
      if i < |tree.items| { InsertRemoved(tree.items, i); }
    } else {
      RemoveInserted(tree.members, i, member);
      if i < |tree.members| { InsertRemoved(tree.members, i); }
    }
  }

  lemma TreeOfInserted(kind: Kind, kids: seq<Node>, i: nat, item: Node)
    requires (kind.KArray? || kind.KObject?) && i <= |kids|
    ensures TreeOf(kind, Inserted(kids, i, item)) == InsertedTree(TreeOf(kind, kids), i, Member(item.key, item.Tree))
  {
    var all := Inserted(kids, i, item);
    InsertedAt(kids, i, item);
    InsertedAt(ItemsOf(kids), i, item.Tree);
    InsertedAt(MembersOf(kids), i, Member(item.key, item.Tree));
    hide Inserted;
    if kind.KArray? {
      assert ItemsOf(all) == Inserted(ItemsOf(kids), i, item.Tree);
    } else {
      assert MembersOf(all) == Inserted(MembersOf(kids), i, Member(item.key, item.Tree));
    }
  }

  lemma TreeOfRemoved(kind: Kind, kids: seq<Node>, i: nat)
    requires (kind.KArray? || kind.KObject?) && i < |kids|
    ensures TreeOf(kind, Removed(kids, i)) == RemovedTree(TreeOf(kind, kids), i)
  {
    if kind.KArray? {
      assert ItemsOf(Removed(kids, i)) == Removed(ItemsOf(kids), i);
    } else {
      assert MembersOf(Removed(kids, i)) == Removed(MembersOf(kids), i);
    }
  }

  lemma TreeOfReplaced(kind: Kind, kids: seq<Node>, i: nat, item: Node)
    requires (kind.KArray? || kind.KObject?) && i < |kids|
    ensures TreeOf(kind, kids[i := item]) == ReplacedTree(TreeOf(kind, kids), i, Member(item.key, item.Tree))
  {
    if kind.KArray? {
      assert ItemsOf(kids[i := item]) == ItemsOf(kids)[i := item.Tree];
    } else {
      assert MembersOf(kids[i := item]) == MembersOf(kids)[i := Member(item.key, item.Tree)];
    }
  }

  // ----- Adding and inserting -----

  lemma InsertFacts(parent: Node, item: Node, i: nat, all: seq<Node>)
    requires Attachable(parent, item) && i <= |parent.Kids| && all == Inserted(parent.Kids, i, item)
    ensures var kids := parent.Kids;
      && Container(parent) && Linked(parent.child, kids) && item !in kids
      && (forall i, j :: 0 <= i < j < |kids| ==> kids[i] != kids[j])
      && Separate(all) && Clear(parent, kids, all) && Clear(parent, [item], all)
      && Reprs(all) == Reprs(kids) + item.Repr
    ensures forall o :: o in all ==> allocated(o)
    ensures forall o :: o in Reprs(all) ==> allocated(o)
    ensures forall o :: o in Below(all) ==> allocated(o)
    ensures TreeOf(parent.kind, all) == InsertedTree(parent.Tree, i, Member(item.key, item.Tree))
  {
    var kids := parent.Kids;
    Parts(parent);
    TreeOfValid(parent);
    TreeOfInserted(parent.kind, kids, i, item);
    hide Node.Valid, Inserted, InsertedTree, TreeOf;
    RootsAreNotBelow(kids);
    SeparateInserted(kids, i, item);
    MembersInserted(kids, i, item);
    RootsAreNotBelow(all);
    OutsideSiblings(parent, all);
  }

  method AppendLinked(parent: Node, item: Node, ghost kids: seq<Node>, ghost all: seq<Node>)
    requires forall i, j :: 0 <= i < j < |kids| ==> kids[i] != kids[j]
    requires Linked(parent.child, kids) && item !in kids && item.next == null
    requires all == Inserted(kids, |kids|, item)
    requires forall o :: o in Reprs(all) ==> allocated(o)
    requires forall o :: o in Below(all) ==> allocated(o)
    requires Container(parent) && Separate(all) && Clear(parent, kids, all) && Clear(parent, [item], all)
    modifies parent`child, parent`Kids, parent`Repr, parent`Tree
    modifies item`next, item`prev, kids`next, kids`prev
    ensures parent.Valid() && parent.Kids == all
    ensures parent.Repr == {parent} + old(Reprs(all)) && parent.Tree == old(TreeOf(parent.kind, all))
  {
    hide TreeOf, Node.Valid, Container, Separate, Below, Reprs, Linked, Inserted;
    LinkLast(parent, item, kids, all);
    Adopt(parent, all, kids);
  }

  method InsertLinked(parent: Node, after: Node, item: Node, ghost kids: seq<Node>, ghost i: nat, ghost all: seq<Node>)
    requires forall i, j :: 0 <= i < j < |kids| ==> kids[i] != kids[j]
    requires Linked(parent.child, kids) && item !in kids && i < |kids| && after == kids[i]
    requires all == Inserted(kids, i, item)
    requires forall o :: o in Reprs(all) ==> allocated(o)
    requires forall o :: o in Below(all) ==> allocated(o)
    requires Container(parent) && Separate(all) && Clear(parent, kids, all) && Clear(parent, [item], all)
    modifies parent`child, parent`Kids, parent`Repr, parent`Tree
    modifies item`next, item`prev, kids`next, kids`prev
    ensures parent.Valid() && parent.Kids == all
    ensures parent.Repr == {parent} + old(Reprs(all)) && parent.Tree == old(TreeOf(parent.kind, all))
  {
    hide TreeOf, Node.Valid, Container, Separate, Below, Reprs, Linked, Inserted;
    LinkBefore(parent, after, item, kids, i, all);
    Adopt(parent, all, kids);
  }

  method AppendNode(parent: Node, item: Node)
    requires Attachable(parent, item) && item.next == null
    modifies parent`child, parent`Kids, parent`Repr, parent`Tree
    modifies parent.Kids`next, parent.Kids`prev, item`next, item`prev
    ensures parent.Valid() && parent.Kids == Inserted(old(parent.Kids), |old(parent.Kids)|, item)
    ensures parent.Repr == {parent} + old(Reprs(parent.Kids)) + old(item.Repr)
    ensures parent.Tree == InsertedTree(old(parent.Tree), |old(parent.Kids)|, old(Member(item.key, item.Tree)))
  {
    ghost var kids, all := parent.Kids, Inserted(parent.Kids, |parent.Kids|, item);
    InsertFacts(parent, item, |kids|, all);
    hide *;
    AppendLinked(parent, item, kids, all);
  }

  method InsertNode(parent: Node, after: Node, item: Node, ghost i: nat)
    requires Attachable(parent, item) && i < |parent.Kids| && after == parent.Kids[i]
    modifies parent`child, parent`Kids, parent`Repr, parent`Tree
    modifies parent.Kids`next, parent.Kids`prev, item`next, item`prev
    ensures parent.Valid() && parent.Kids == Inserted(old(parent.Kids), i, item)
    ensures parent.Repr == {parent} + old(Reprs(parent.Kids)) + old(item.Repr)
    ensures parent.Tree == InsertedTree(old(parent.Tree), i, old(Member(item.key, item.Tree)))
  {
    ghost var kids, all := parent.Kids, Inserted(parent.Kids, i, item);
    InsertFacts(parent, item, i, all);
    hide *;
    InsertLinked(parent, after, item, kids, i, all);
  }

  // ----- Detaching -----

  lemma RemoveFacts(parent: Node, item: Node, i: nat, rest: seq<Node>)
    requires parent.Valid() && Container(parent) && i < |parent.Kids| && item == parent.Kids[i]
    requires rest == Removed(parent.Kids, i)
    ensures var kids := parent.Kids;
      && Linked(parent.child, kids) && (forall i, j :: 0 <= i < j < |kids| ==> kids[i] != kids[j])
      && Separate(kids) && Clear(parent, kids, kids) && Clear(parent, [], rest)
      && Reprs(kids) == Reprs(rest) + item.Repr && item.Repr !! Reprs(rest) && parent !in item.Repr
    ensures forall o :: o in item.Repr ==> allocated(o)
    ensures forall o :: o in Reprs(parent.Kids) ==> allocated(o)
    ensures forall o :: o in Below(parent.Kids) ==> allocated(o)
    ensures TreeOf(parent.kind, rest) == RemovedTree(parent.Tree, i)
  {
    var kids := parent.Kids;
    Parts(parent);
    TreeOfValid(parent);
    TreeOfRemoved(parent.kind, kids, i);
    hide Node.Valid, Removed, RemovedTree, TreeOf;
    RootsAreNotBelow(kids);
    OutsideSiblings(parent, kids);
    SeparateRemoved(kids, i);
    OutsideSiblings(parent, rest);
  }

  method UnlinkValid(parent: Node, item: Node, ghost kids: seq<Node>, ghost i: nat, ghost rest: seq<Node>)
    requires forall i, j :: 0 <= i < j < |kids| ==> kids[i] != kids[j]
    requires Linked(parent.child, kids) && i < |kids| && item == kids[i] && rest == Removed(kids, i)
    requires forall o :: o in Reprs(kids) ==> allocated(o)
    requires forall o :: o in Below(kids) ==> allocated(o)
    requires Separate(kids) && Clear(parent, kids, kids)
    modifies parent`child, kids`next, kids`prev
    ensures Linked(parent.child, rest) && Separate(rest) && item.Valid()
    ensures item.next == null && item.prev == null
  {
    hide Node.Valid, Separate, Below, Reprs, Linked, Removed;
    Unlink(parent, item, kids, i);
    SiblingValid(kids, i);
    SeparateRemoved(kids, i);
  }

  method RemoveLinked(parent: Node, item: Node, ghost kids: seq<Node>, ghost i: nat, ghost rest: seq<Node>)
    requires forall i, j :: 0 <= i < j < |kids| ==> kids[i] != kids[j]
    requires Linked(parent.child, kids) && i < |kids| && item == kids[i] && rest == Removed(kids, i)
    requires forall o :: o in Reprs(kids) ==> allocated(o)
    requires forall o :: o in Below(kids) ==> allocated(o)
    requires forall o :: o in item.Repr ==> allocated(o)
    requires Container(parent) && Separate(kids) && Clear(parent, kids, kids) && Clear(parent, [], rest)
    requires parent !in item.Repr
    modifies parent`child, parent`Kids, parent`Repr, parent`Tree, kids`next, kids`prev
    ensures parent.Valid() && parent.Kids == rest && item.Valid()
    ensures parent.Repr == {parent} + old(Reprs(rest)) && parent.Tree == old(TreeOf(parent.kind, rest))
    ensures item.next == null && item.prev == null
  {
    hide *;
    UnlinkValid(parent, item, kids, i, rest);
    Adopt(parent, rest, []);
  }

  lemma SiblingValid(kids: seq<Node>, i: nat)
    requires i < |kids| && Separate(kids)
    ensures kids[i].Valid()
  {
  }

  method RemoveNode(parent: Node, item: Node, ghost i: nat)
    requires parent.Valid() && Container(parent) && i < |parent.Kids| && item == parent.Kids[i]
    modifies parent`child, parent`Kids, parent`Repr, parent`Tree, parent.Kids`next, parent.Kids`prev
    ensures parent.Valid() && parent.Kids == Removed(old(parent.Kids), i)
    ensures item.Valid() && item.next == null && item.prev == null && item.Repr !! parent.Repr
    ensures parent.Tree == RemovedTree(old(parent.Tree), i)
  {
    ghost var kids, rest := parent.Kids, Removed(parent.Kids, i);
    RemoveFacts(parent, item, i, rest);
    hide *;
    RemoveLinked(parent, item, kids, i, rest);
  }

  // ----- Replacing -----

  lemma ReplaceFacts(parent: Node, item: Node, replacement: Node, i: nat, both: seq<Node>, all: seq<Node>)
    requires Attachable(parent, replacement) && i < |parent.Kids| && item == parent.Kids[i]
    requires both == Inserted(parent.Kids, i, replacement) && all == parent.Kids[i := replacement]
    ensures var kids := parent.Kids;
      && Container(parent) && Linked(parent.child, kids) && replacement !in kids
      && (forall i, j :: 0 <= i < j < |kids| ==> kids[i] != kids[j])
      && Separate(both) && Clear(parent, kids, both) && Clear(parent, [replacement], both) && Clear(parent, [], all)
      && all == Removed(both, i + 1)
    ensures forall o :: o in Reprs(both) ==> allocated(o)
    ensures forall o :: o in Below(both) ==> allocated(o)
    ensures TreeOf(parent.kind, all) == ReplacedTree(parent.Tree, i, Member(replacement.key, replacement.Tree))
  {
    var kids := parent.Kids;
    InsertFacts(parent, replacement, i, both);
    ReplacedIsRemoved(kids, i, replacement);
    TreeOfValid(parent);
    TreeOfReplaced(parent.kind, kids, i, replacement);
    hide Node.Valid, Inserted, Removed, TreeOf, ReplacedTree, InsertedTree;
    SeparateRemoved(both, i + 1);
    OutsideSiblings(parent, all);
  }

  method ReplaceLinked(parent: Node, item: Node, replacement: Node, ghost kids: seq<Node>, ghost i: nat,
                       ghost both: seq<Node>, ghost all: seq<Node>)
    requires forall i, j :: 0 <= i < j < |kids| ==> kids[i] != kids[j]
    requires Linked(parent.child, kids) && i < |kids| && item == kids[i] && replacement !in kids
    requires |both| == |kids| + 1 && all == kids[i := replacement] == Removed(both, i + 1)
    requires forall o :: o in Reprs(both) ==> allocated(o)
    requires forall o :: o in Below(both) ==> allocated(o)
    requires Container(parent) && Separate(both)
    requires Clear(parent, kids, both) && Clear(parent, [replacement], both) && Clear(parent, [], all)
    modifies parent`child, parent`Kids, parent`Repr, parent`Tree
    modifies replacement`next, replacement`prev, kids`next, kids`prev
    ensures parent.Valid() && parent.Kids == all
    ensures parent.Repr == {parent} + old(Reprs(all)) && parent.Tree == old(TreeOf(parent.kind, all))
    ensures item.next == null && item.prev == null
  {
    hide TreeOf, Node.Valid, Container, Separate, Below, Reprs, Linked, Removed;
    Relink(parent, item, replacement, kids, i);
    SeparateRemoved(both, i + 1);
    Adopt(parent, all, []);
  }

  method ReplaceNode(parent: Node, item: Node, replacement: Node, ghost i: nat)
    requires Attachable(parent, replacement) && i < |parent.Kids| && item == parent.Kids[i]
    modifies parent`child, parent`Kids, parent`Repr, parent`Tree
    modifies replacement`next, replacement`prev, parent.Kids`next, parent.Kids`prev
    ensures parent.Valid() && parent.Kids == old(parent.Kids)[i := replacement]
    ensures parent.Tree == ReplacedTree(old(parent.Tree), i, old(Member(replacement.key, replacement.Tree)))
    ensures item.next == null && item.prev == null
  {
    ghost var kids, both, all := parent.Kids, Inserted(parent.Kids, i, replacement), parent.Kids[i := replacement];
    ReplaceFacts(parent, item, replacement, i, both, all);
    hide *;
    ReplaceLinked(parent, item, replacement, kids, i, both, all);
  }

  // ----- The operations -----

  /** get_array_item: walks the children. */
  method GetArrayItem(parent: Node?, index: nat) returns (r: Node?)
    requires parent != null ==> parent.Valid()
    ensures r == if index < |KidsOf(parent)| then KidsOf(parent)[index] else null
  {
    if parent == null {
      return null;
    }
    var left := index;
    r := parent.child;
    ghost var at := 0;
    while r != null && left > 0
      invariant 0 <= at <= |parent.Kids| && at + left == index
      invariant r == if at < |parent.Kids| then parent.Kids[at] else null
      decreases left
    {
      left := left - 1;
      r := r.next;
      at := at + 1;
    }
  }

  /** cJSON_AddItemToArray. A node that hung in a list before must have been detached. */
  method AddItemToArray(parent: Node?, item: Node?) returns (ok: bool)
    requires parent != null && item != null && parent != item ==> Attachable(parent, item) && item.next == null
    modifies Self(parent)`child, Self(parent)`Kids, Self(parent)`Repr, Self(parent)`Tree
    modifies KidsOf(parent)`next, KidsOf(parent)`prev, Self(item)`next, Self(item)`prev
    ensures ok == (parent != null && item != null && parent != item)
    ensures ok ==> parent.Valid() && parent.Kids == Inserted(old(parent.Kids), |old(parent.Kids)|, item)
    ensures ok ==>
      parent.Tree == InsertedTree(old(parent.Tree), |old(parent.Kids)|, old(Member(item.key, item.Tree)))
    ensures !ok && parent != null ==> parent.Kids == old(parent.Kids) && parent.Tree == old(parent.Tree)
  {
    if item == null || parent == null || parent == item {
      return false;
    }
    AppendNode(parent, item);
    ok := true;
  }

  /** cJSON_InsertItemInArray: in front of a child, or at the end when there is none at that index. */
  method InsertItemInArray(parent: Node?, which: int, item: Node?) returns (ok: bool)
    requires which >= 0 && parent != null ==>
      parent.Valid() && (which < |parent.Kids| ==> item != null && item != parent)
    requires which >= 0 && parent != null && item != null && item != parent ==>
      Attachable(parent, item) && (which >= |parent.Kids| ==> item.next == null)
    modifies Self(parent)`child, Self(parent)`Kids, Self(parent)`Repr, Self(parent)`Tree
    modifies KidsOf(parent)`next, KidsOf(parent)`prev, Self(item)`next, Self(item)`prev
    ensures ok == (which >= 0 && parent != null && item != null && item != parent)
    ensures ok ==> parent.Valid() && var at := if which < |old(parent.Kids)| then which else |old(parent.Kids)|;
      parent.Kids == Inserted(old(parent.Kids), at, item) &&
      parent.Tree == InsertedTree(old(parent.Tree), at, old(Member(item.key, item.Tree)))
    ensures !ok && parent != null ==> parent.Kids == old(parent.Kids) && parent.Tree == old(parent.Tree)
  {
    if which < 0 {
      return false;
    }
    var after := GetArrayItem(parent, which);
    if after == null {
      hide *;
      ok := AddItemToArray(parent, item);
    } else {
      InsertNode(parent, after, item, which);
      ok := true;
    }
  }

  /** cJSON_DetachItemViaPointer. */
  method DetachItemViaPointer(parent: Node?, item: Node?) returns (r: Node?)
    requires parent != null && item != null ==> parent.Valid() && Container(parent) && item in parent.Kids
    modifies Self(parent)`child, Self(parent)`Kids, Self(parent)`Repr, Self(parent)`Tree
    modifies KidsOf(parent)`next, KidsOf(parent)`prev
    ensures r == if parent == null then null else item
    ensures r != null ==> r.Valid() && parent.Valid() && r.Repr !! parent.Repr && r.next == null && r.prev == null
    ensures r != null ==> exists i: nat :: (
      && i < |old(parent.Kids)| && old(parent.Kids)[i] == item
      && parent.Kids == Removed(old(parent.Kids), i) && parent.Tree == RemovedTree(old(parent.Tree), i))
  {
    if parent == null || item == null {
      return null;
    }
    ghost var i: nat :| i < |parent.Kids| && parent.Kids[i] == item;
    hide *;
    RemoveNode(parent, item, i);
    r := item;
  }

  /** cJSON_DetachItemFromArray. */
  method DetachItemFromArray(parent: Node?, which: int) returns (r: Node?)
    requires parent != null ==> parent.Valid() && Container(parent)
    modifies Self(parent)`child, Self(parent)`Kids, Self(parent)`Repr, Self(parent)`Tree
    modifies KidsOf(parent)`next, KidsOf(parent)`prev
    ensures r == if 0 <= which < |old(KidsOf(parent))| then old(KidsOf(parent))[which] else null
    ensures r != null ==> r.Valid() && parent.Valid() && r.Repr !! parent.Repr && r.next == null && r.prev == null
    ensures r != null ==>
      parent.Kids == Removed(old(parent.Kids), which) && parent.Tree == RemovedTree(old(parent.Tree), which)
    ensures r == null && parent != null ==> parent.Kids == old(parent.Kids) && parent.Tree == old(parent.Tree)
  {
    if which < 0 {
      return null;
    }
    r := GetArrayItem(parent, which);
    if r != null {
      hide *;
      RemoveNode(parent, r, which);
    }
  }

  /** cJSON_ReplaceItemViaPointer for the child at position i; the replaced node loses its links. */
  method ReplaceItemViaPointer(parent: Node?, item: Node?, replacement: Node?, ghost i: nat) returns (ok: bool)
    requires parent != null ==> parent.Valid() && Container(parent)
    requires parent != null && item != null ==> i < |parent.Kids| && item == parent.Kids[i]
    requires parent != null && item != null && replacement != null && item != replacement ==>
      Attachable(parent, replacement)
    modifies Self(parent)`child, Self(parent)`Kids, Self(parent)`Repr, Self(parent)`Tree
    modifies Self(replacement)`next, Self(replacement)`prev, KidsOf(parent)`next, KidsOf(parent)`prev
    ensures ok == (parent != null && item != null && replacement != null)
    ensures ok ==>
      parent.Valid() && parent.Kids == old(parent.Kids)[i := replacement] &&
      parent.Tree == ReplacedTree(old(parent.Tree), i, old(Member(replacement.key, replacement.Tree)))
    ensures !ok && parent != null ==> parent.Kids == old(parent.Kids) && parent.Tree == old(parent.Tree)
  {
    if parent == null || parent.child == null || replacement == null || item == null {
      return false;
    }
    if replacement == item {
      return true;
    }
    ReplaceNode(parent, item, replacement, i);
    ok := true;
  }
}
