/** The heap form of a JSON value: nodes with next, prev and child pointers. */
module Nodes {
  import opened Bytes
  import opened Json

  /** The type tag of a node; a zeroed node is invalid. */
  datatype Kind = KInvalid | KFalse | KTrue | KNull | KNumber | KString | KArray | KObject

  class Node {
    var next: Node?
    var prev: Node?
    var child: Node?
    var kind: Kind
    var text: Bytes
    var number: int
    var key: Bytes

    /** The children in order, every node below and including this one, and the value. */
    ghost var Kids: seq<Node>
    ghost var Repr: set<Node>
    ghost var Tree: Json

    /** A freshly allocated, zeroed node. */
    constructor ()
      ensures Blank() && kind == KInvalid && key == [] && next == null && prev == null
    {
      next, prev, child := null, null, null;
      kind, text, number, key := KInvalid, [], 0, [];
      Kids, Repr, Tree := [], {this}, Null;
    }

    /** No children and no other node: a node that can be filled. */
    ghost predicate Blank()
      reads this
    {
      child == null && Kids == [] && Repr == {this}
    }

    /** The value, and the shape of the list of children; next, prev and key belong to the parent. */
    ghost predicate Valid()
      reads this`child, this`kind, this`text, this`number, this`Kids, this`Repr, this`Tree
      reads Repr`child, Repr`kind, Repr`text, Repr`number, Repr`Kids, Repr`Repr, Repr`Tree
      reads (Repr - {this})`next, (Repr - {this})`prev, (Repr - {this})`key
      ensures Valid() ==> this in Repr
      decreases Repr
    {
      && this in Repr
      && (forall k <- Kids :: k in Repr && k.Repr <= Repr && this !in k.Repr && k.Valid())
      && Apart(Kids)
      && Linked(child, Kids)
      && Carries(kind, text, number, Kids, Tree)
    }
  }

  /** Different children own different nodes. */
  ghost predicate Apart(kids: seq<Node>)
    reads kids`Repr
  {
    forall i, j :: 0 <= i < j < |kids| ==> kids[i].Repr !! kids[j].Repr
  }

  /** next and prev are mutual inverses along the children; the last next is after. */
  ghost predicate Chained(kids: seq<Node>, after: Node?)
    reads kids`next, kids`prev
  {
    && (forall i {:trigger kids[i].next} :: 0 <= i < |kids| - 1 ==> kids[i].next == kids[i + 1])
    && (forall i {:trigger kids[i].prev} :: 0 < i < |kids| ==> kids[i].prev == kids[i - 1])
    && (kids != [] ==> kids[|kids| - 1].next == after)
  }

  /** The chain hangs off head, and the head's prev is the last child. */
  ghost predicate Linked(head: Node?, kids: seq<Node>)
    reads kids`next, kids`prev
  {
    && Chained(kids, null)
    && if kids == [] then head == null else head == kids[0] && kids[0].prev == kids[|kids| - 1]
  }

  ghost predicate Carries(kind: Kind, text: Bytes, number: int, kids: seq<Node>, tree: Json)
    reads kids`key, kids`Tree
  {
    match kind
    case KInvalid => false
    case KFalse => kids == [] && tree == False
    case KTrue => kids == [] && tree == True
    case KNull => kids == [] && tree == Null
    case KNumber => kids == [] && tree == Number(number)
    case KString => kids == [] && tree == String(text)
    case KArray => tree.Array? && CarriesItems(kids, tree.items)
    case KObject => tree.Object? && CarriesMembers(kids, tree.members)
  }

  ghost predicate CarriesItems(kids: seq<Node>, items: seq<Json>)
    reads kids`Tree
  {
    |items| == |kids| && forall i :: 0 <= i < |kids| ==> items[i] == kids[i].Tree
  }

  ghost predicate CarriesMembers(kids: seq<Node>, members: seq<Member>)
    reads kids`key, kids`Tree
  {
    |members| == |kids| && forall i :: 0 <= i < |kids| ==> members[i] == Member(kids[i].key, kids[i].Tree)
  }

  ghost function Reprs(kids: seq<Node>): set<Node>
    reads kids`Repr
  {
    set k, o | k in kids && o in k.Repr :: o
  }

  /** The i-th child as the print loops reach it. */
  lemma ChildAt(item: Node, i: nat)
    requires item.Valid() && i < |item.Kids|
    ensures var k := item.Kids[i];
      && k in item.Repr && k.Valid() && k.Repr < item.Repr
      && k.next == (if i + 1 < |item.Kids| then item.Kids[i + 1] else null)
      && (item.kind.KArray? ==> |item.Tree.items| == |item.Kids| && item.Tree.items[i] == k.Tree)
      && (item.kind.KObject? ==> |item.Tree.members| == |item.Kids| && item.Tree.members[i] == Member(k.key, k.Tree))
  {
  }

  lemma FirstChild(item: Node)
    requires item.Valid()
    ensures item.child == if item.Kids == [] then null else item.Kids[0]
    ensures item.kind.KArray? ==> item.Tree.Array? && |item.Tree.items| == |item.Kids|
    ensures item.kind.KObject? ==> item.Tree.Object? && |item.Tree.members| == |item.Kids|
  {
  }

  /** Siblings: valid trees that own different nodes. */
  ghost predicate Separate(kids: seq<Node>)
    reads kids`child, kids`kind, kids`text, kids`number, kids`Kids, kids`Repr, kids`Tree
    reads Reprs(kids)`child, Reprs(kids)`kind, Reprs(kids)`text, Reprs(kids)`number
    reads Reprs(kids)`Kids, Reprs(kids)`Repr, Reprs(kids)`Tree
    reads Below(kids)`next, Below(kids)`prev, Below(kids)`key
  {
    && (forall k :: k in kids ==>
          k in k.Repr && k.Repr <= Reprs(kids) && k.Repr - {k} <= Below(kids) && k.Valid())
    && Apart(kids)
  }

  /** The nodes below the siblings. */
  ghost function Below(kids: seq<Node>): set<Node>
    reads kids`Repr
  {
    set k, o | k in kids && o in k.Repr && o != k :: o
  }

  lemma RootsAreNotBelow(kids: seq<Node>)
    requires Separate(kids)
    ensures forall k :: k in kids ==> k !in Below(kids)
    ensures forall k :: k in kids ==> k in Reprs(kids)
    ensures forall i, j :: 0 <= i < j < |kids| ==> kids[i] != kids[j]
  {
    hide Node.Valid;
    forall i, j | 0 <= i < |kids| && 0 <= j < |kids| && i != j
      ensures kids[i] !in kids[j].Repr
    {
      assert if i < j then kids[i].Repr !! kids[j].Repr else kids[j].Repr !! kids[i].Repr;
    }
  }

  /** The end of parse_array, parse_object and cJSON_Duplicate: the list becomes the children. */
  method Finish(item: Node, kind: Kind, head: Node?, last: Node?, ghost kids: seq<Node>, ghost tree: Json)
    requires Separate(kids) && Chained(kids, null)
    requires item !in Reprs(kids)
    requires if kids == [] then head == null else head == kids[0] && last == kids[|kids| - 1]
    requires kind.KArray? || kind.KObject?
    requires Carries(kind, item.text, item.number, kids, tree)
    modifies (if head == null then {} else {head})`prev
    modifies item`kind, item`child, item`Kids, item`Tree, item`Repr
    ensures item.Valid() && item.Tree == tree && item.kind == kind && item.Kids == kids
    ensures item.Repr == {item} + old(Reprs(kids))
  {
    hide Separate, Node.Valid, Carries, Chained, Reprs, Below;
    RootsAreNotBelow(kids);
    if head != null {
      Close(head, last, kids);
    }
    OutsideSiblings(item, kids);
    Install(item, kind, head, kids, tree);
  }

  /** head->prev = the last child. */
  method Close(head: Node, last: Node?, ghost kids: seq<Node>)
    requires Separate(kids) && Chained(kids, null)
    requires kids != [] && head == kids[0] && last == kids[|kids| - 1]
    requires head !in Below(kids) && forall i :: 0 < i < |kids| ==> kids[i] != head
    modifies head`prev
    ensures Separate(kids) && Linked(head, kids)
  {
    hide Separate, Node.Valid, Below, Reprs, Apart;
    head.prev := last;
  }

  lemma OutsideSiblings(item: Node, kids: seq<Node>)
    requires Separate(kids) && item !in Reprs(kids)
    ensures item !in kids && item !in Below(kids)
  {
    hide Node.Valid;
  }

  method Install(item: Node, kind: Kind, head: Node?, ghost kids: seq<Node>, ghost tree: Json)
    requires Separate(kids) && Linked(head, kids) && item !in Reprs(kids) && item !in kids && item !in Below(kids)
    requires Carries(kind, item.text, item.number, kids, tree)
    modifies item`kind, item`child, item`Kids, item`Tree, item`Repr
    ensures item.Valid() && item.Tree == tree && item.kind == kind && item.Kids == kids
    ensures item.Repr == {item} + old(Reprs(kids))
  {
    hide Separate, Node.Valid, Carries, Linked, Below;
    item.kind := kind;
    item.child := head;
    item.Kids, item.Tree, item.Repr := kids, tree, {item} + Reprs(kids);
    SeparateKids(item);
  }

  lemma SeparateKids(item: Node)
    requires Separate(item.Kids) && Linked(item.child, item.Kids) && item !in Reprs(item.Kids)
    requires item.Repr == {item} + Reprs(item.Kids)
    requires Carries(item.kind, item.text, item.number, item.Kids, item.Tree)
    ensures item.Valid()
  {
    hide Carries, Linked;
  }

  /** Hanging a new node behind the last sibling. */
  method Hang(last: Node, node: Node, ghost kids: seq<Node>)
    requires Separate(kids) && Chained(kids, null) && kids != [] && last == kids[|kids| - 1]
    requires node !in Reprs(kids)
    modifies last`next, node`prev
    ensures Separate(kids) && Chained(kids, node) && node.prev == last
  {
    hide Node.Valid;
    RootsAreNotBelow(kids);
    hide Separate;
    last.next := node;
    node.prev := last;
  }

  lemma NoneHung(node: Node)
    ensures Separate([]) && Chained([], node) && Reprs([]) == {}
  {
  }

  /** A list under construction: its first and last node, and what the last one points to. */
  ghost predicate Chain(head: Node?, last: Node?, kids: seq<Node>, after: Node?)
    reads kids`child, kids`kind, kids`text, kids`number, kids`Kids, kids`Repr, kids`Tree
    reads Reprs(kids)`child, Reprs(kids)`kind, Reprs(kids)`text, Reprs(kids)`number
    reads Reprs(kids)`Kids, Reprs(kids)`Repr, Reprs(kids)`Tree
    reads Below(kids)`next, Below(kids)`prev, Below(kids)`key
    reads kids`next, kids`prev
  {
    hide Reprs, Below, Separate, Chained;
    Ends(head, last, kids) && Chained(kids, after) && Separate(kids)
  }

  ghost predicate Ends(head: Node?, last: Node?, kids: seq<Node>) {
    if kids == [] then head == null && last == null else head == kids[0] && last == kids[|kids| - 1]
  }

  /** One more sibling: the hung node carries a value now. */
  lemma Grow(kids: seq<Node>, node: Node)
    requires Separate(kids) && Chained(kids, node)
    requires node.Valid() && node.Repr !! Reprs(kids)
    requires node.next == null && (kids != [] ==> node.prev == kids[|kids| - 1])
    ensures Separate(kids + [node]) && Chained(kids + [node], null)
    ensures Reprs(kids + [node]) == Reprs(kids) + node.Repr
  {
    hide Node.Valid, Separate, Chained;
    var all := kids + [node];
    assert Chained(all, null) by { ChainGrows(kids, node); }
    assert Separate(all) && Reprs(all) == Reprs(kids) + node.Repr by { SeparateGrows(kids, node); }
  }

  lemma ChainGrows(kids: seq<Node>, node: Node)
    requires Chained(kids, node)
    requires node.next == null && (kids != [] ==> node.prev == kids[|kids| - 1])
    ensures Chained(kids + [node], null)
  {
  }

  lemma ReprsGrow(kids: seq<Node>, node: Node)
    ensures Reprs(kids + [node]) == Reprs(kids) + node.Repr
    ensures Below(kids + [node]) == Below(kids) + (node.Repr - {node})
  {
    assert forall k :: k in kids + [node] <==> k in kids || k == node;
  }

  lemma ApartGrows(kids: seq<Node>, node: Node)
    requires Apart(kids) && Reprs(kids) !! node.Repr
    ensures Apart(kids + [node])
  {
    var all := kids + [node];
    forall i, j | 0 <= i < j < |all| ensures all[i].Repr !! all[j].Repr {
      assert all[i] in kids;
      assert forall o :: o in all[i].Repr ==> o in Reprs(kids);
    }
  }

  lemma SeparateGrows(kids: seq<Node>, node: Node)
    requires Separate(kids) && node.Valid() && node.Repr !! Reprs(kids)
    ensures Separate(kids + [node]) && Reprs(kids + [node]) == Reprs(kids) + node.Repr
  {
    hide Node.Valid, Apart, Below, Reprs;
    ReprsGrow(kids, node);
    ApartGrows(kids, node);
    assert forall k :: k in kids + [node] <==> k in kids || k == node;
  }
}
