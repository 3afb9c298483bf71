/** The min heap of heap-inl.h: a complete binary tree of linked nodes. The node at index j of the ghost
    sequence has its children at 2j + 1 and 2j + 2 and its parent at (j - 1) / 2. */
module BinaryHeap {
  import opened Basics

  class Node {
    const key: int
    var left: Node?
    var right: Node?
    var parent: Node?

    constructor (key: int)
      ensures this.key == key
    {
      this.key := key;
      left, right, parent := null, null, null;
    }
  }

  /** A pointer to a pointer: the head's min field or a child field of a node. */
  datatype Slot = MinSlot | LeftSlot(n: Node) | RightSlot(n: Node)

  predicate LessThan(a: Node, b: Node) {
    a.key < b.key
  }

  ghost function Par(j: int): int {
    (j - 1) / 2
  }

  ghost function At(s: seq<Node>, j: int): Node? {
    if 0 <= j < |s| then s[j] else null
  }

  ghost predicate Distinct(s: seq<Node>) {
    forall i, j :: 0 <= i < j < |s| ==> s[i] != s[j]
  }

  ghost predicate Linked(s: seq<Node>)
    reads s
  {
    && (forall j {:trigger s[j].left} :: 0 <= j < |s| ==> s[j].left == At(s, 2 * j + 1))
    && (forall j {:trigger s[j].right} :: 0 <= j < |s| ==> s[j].right == At(s, 2 * j + 2))
    && (forall j {:trigger s[j].parent} :: 0 <= j < |s| ==> s[j].parent == if j == 0 then null else At(s, Par(j)))
  }

  /** The heap order. */
  ghost predicate Ordered(s: seq<Node>) {
    forall j {:trigger s[j]} :: 0 < j < |s| ==> s[Par(j)].key <= s[j].key
  }

  ghost function Swapped(s: seq<Node>, i: int, j: int): seq<Node>
    requires 0 <= i < |s| && 0 <= j < |s|
  {
    s[i := s[j]][j := s[i]]
  }

  lemma Children(i: int, k: int)
    requires 0 <= i && 0 < k
    ensures Par(k) == i <==> k == 2 * i + 1 || k == 2 * i + 2
    ensures 0 <= Par(k) < k
  {
  }

  lemma SwappedElements(s: seq<Node>, i: int, j: int)
    requires 0 <= i < |s| && 0 <= j < |s|
    ensures multiset(Swapped(s, i, j)) == multiset(s)
  {
  }

  /** The exchange of the names a and b. */
  ghost function Ren(a: Node, b: Node, o: Node?): Node? {
    if o == a then b else if o == b then a else o
  }

  /** The position reached from pos by k turns, read off path from its lowest bit on. */
  ghost function Follow(pos: nat, k: nat, path: nat): nat
    decreases k
  {
    if k == 0 then pos else Follow(2 * pos + path % 2, k - 1, path / 2)
  }

  lemma {:induction false} FollowGrows(pos: nat, k: nat, path: nat)
    ensures pos <= Follow(pos, k, path)
    ensures k == 0 ==> Follow(pos, k, path) == pos
    ensures k > 0 ==> 2 * pos <= 2 * pos + path % 2 <= Follow(pos, k, path) == Follow(2 * pos + path % 2, k - 1, path / 2)
    decreases k
  {
    if k > 0 {
      FollowGrows(2 * pos + path % 2, k - 1, path / 2);
    }
  }

  /** The path loop: the bits of target below the highest, lowest last, so that following them from the
      root arrives at target. The path stays below target: it fits the type of the element count. */
  method PathTo(target: nat) returns (path: nat, k: nat)
    requires target >= 1
    ensures Follow(1, k, path) == target && path < target
  {
    hide PathFrom;
    path, k := 0, 0;
    var n := target;
    PathStart(target);
    while n >= 2
      invariant n >= 1 && PathFrom(n, k, path, target)
      decreases n
    {
      PathStep(n, k, path, target);
      path := 2 * path + n % 2;
      k, n := k + 1, n / 2;
    }
    PathEnd(k, path, target);
  }

  /** What the loop has collected leads from n to the target, and is small. */
  ghost predicate PathFrom(n: nat, k: nat, path: nat, target: nat) {
    Follow(n, k, path) == target && path < Pow2(k) && n * Pow2(k) <= target
  }

  lemma PathStart(target: nat)
    ensures PathFrom(target, 0, 0, target)
  {
  }

  lemma PathStep(n: nat, k: nat, path: nat, target: nat)
    requires n >= 2 && PathFrom(n, k, path, target)
    ensures PathFrom(n / 2, k + 1, 2 * path + n % 2, target)
  {
    hide Follow;
    HalveBound(n, Pow2(k));
    FollowOne(n / 2, k, 2 * path + n % 2);
  }

  lemma FollowOne(pos: nat, k: nat, path: nat)
    ensures Follow(pos, k + 1, path) == Follow(2 * pos + path % 2, k, path / 2)
  {
  }

  lemma PathEnd(k: nat, path: nat, target: nat)
    requires PathFrom(1, k, path, target)
    ensures Follow(1, k, path) == target && path < target
  {
  }

  lemma HalveBound(n: nat, w: nat)
    ensures n / 2 * (2 * w) <= n * w
  {
    assert n / 2 * (2 * w) == (n / 2 * 2) * w;
  }

  class Heap {
    var min: Node?
    var nelts: nat
    ghost var s: seq<Node>
    ghost var nodes: set<Node>  // the nodes in the heap; inside heap_remove also those on their way

    ghost predicate Shape()
      reads this, s
    {
      Inside(s, nodes) && Distinct(s) && Linked(s) && min == At(s, 0) && nelts == |s|
    }

    /** The two nodes exchange their records, and parent becomes a child of child. */
    method SwapRecords(parent: Node, child: Node) returns (sibling: Node?)
      requires parent != child && (parent.left == child || parent.right == child)
      modifies parent, child
      ensures parent.left == old(child.left) && parent.right == old(child.right) && parent.parent == child
      ensures child.left == if old(parent.left) == child then parent else old(parent.left)
      ensures child.right == if old(parent.left) == child then old(parent.right) else parent
      ensures child.parent == old(parent.parent)
      ensures sibling == if old(parent.left) == child then old(parent.right) else old(parent.left)
    {
      var pl, pr, pp := parent.left, parent.right, parent.parent;
      parent.left, parent.right, parent.parent := child.left, child.right, child.parent;
      child.left, child.right, child.parent := pl, pr, pp;
      parent.parent := child;
      if child.left == child {
        child.left := parent;
        sibling := child.right;
      } else {
        child.right := parent;
        sibling := child.left;
      }
    }

    /** The writes of heap_node_swap: left and right are child's fields, sibling is parent's other child. */
    method SwapLinks(parent: Node, child: Node, sibling0: Node?, up: Node?)
      requires parent != child && child.parent == parent && parent.parent == up
      requires (parent.left == child && parent.right == sibling0) || (parent.right == child && parent.left == sibling0)
      requires sibling0 != child && sibling0 != parent && up != parent && up != child
      requires child.left != child && child.right != child && child.left != parent && child.right != parent
      requires child.left != null ==> child.left != child.right && child.left != sibling0 && child.left != up
      requires child.right != null ==> child.right != sibling0 && child.right != up
      requires up != null ==> up != sibling0 && (up.left == parent || up.right == parent)
      modifies this`min, parent, child
      modifies if sibling0 == null then {} else {sibling0}
      modifies if up == null then {} else {up}
      modifies if child.left == null then {} else {child.left}
      modifies if child.right == null then {} else {child.right}
      ensures parent.left == old(child.left) && parent.right == old(child.right) && parent.parent == child
      ensures child.left == if old(parent.left) == child then parent else old(parent.left)
      ensures child.right == if old(parent.left) == child then old(parent.right) else parent
      ensures child.parent == up
      ensures sibling0 != null ==>
                sibling0.parent == child && sibling0.left == old(sibling0.left) && sibling0.right == old(sibling0.right)
      ensures var x := old(child.left);
        x != null ==> x.parent == parent && x.left == old(child.left.left) && x.right == old(child.left.right)
      ensures var x := old(child.right);
        x != null ==> x.parent == parent && x.left == old(child.right.left) && x.right == old(child.right.right)
      ensures up != null ==>
        && up.parent == old(up.parent) && min == old(min)
        && up.left == (if old(up.left) == parent then child else old(up.left))
        && up.right == (if old(up.left) == parent then old(up.right) else child)
      ensures up == null ==> min == child
    {
      var sibling := SwapRecords(parent, child);
      if sibling != null {
        sibling.parent := child;
      }
      if parent.left != null {
        parent.left.parent := parent;
      }
      if parent.right != null {
        parent.right.parent := parent;
      }
      if child.parent == null {
        min := child;
      } else if child.parent.left == parent {
        child.parent.left := child;
      } else {
        child.parent.right := child;
      }
    }

    /** No node but up links down to parent, none but parent to child, and so on. */
    ghost predicate Isolated(parent: Node, child: Node)
      reads this`s, s, parent, child
    {
      && (forall o {:trigger o.left} {:trigger o.right} :: o in s ==>
          && (o.left == parent || o.right == parent ==> o == parent.parent)
          && (o.left == child || o.right == child ==> o == parent)
          && (o.left == parent ==> o.right != parent) && (o.left == child ==> o.right != child))
      && (forall o {:trigger o.parent} :: o in s ==>
          && (o.parent == parent ==> o == parent.left || o == parent.right)
          && (o.parent == child ==> o == child.left || o == child.right))
    }

    /** What the links say about a parent and its child. */
    ghost predicate Swappable(parent: Node, child: Node)
      reads this`s, s, parent, child
    {
      var sib := if parent.left == child then parent.right else parent.left;
      var up := parent.parent;
      && parent in s && child in s && parent != child && Isolated(parent, child)
      && child.parent == parent && (parent.left == child || parent.right == child)
      && sib != child && sib != parent && (sib != null ==> sib in s && sib.parent == parent && sib != up)
      && (child.left != null ==>
            child.left in s && child.left != sib && child.left != child.right && child.left != up && child.left.parent == child)
      && (child.right != null ==>
            child.right in s && child.right != sib && child.right != up && child.right.parent == child)
      && up != parent && up != child && (up != null ==> up in s && (up.left == parent || up.right == parent))
      && child.left != child && child.right != child && child.left != parent && child.right != parent
    }

    /** Every link is the old link with parent and child exchanged on both ends. */
    method SwapNames(parent: Node, child: Node)
      requires Swappable(parent, child)
      modifies this`min, s
      ensures forall o {:trigger o.left} :: o in s ==>
                o.left == Ren(parent, child, if o == parent then old(child.left)
                                             else if o == child then old(parent.left) else old(o.left))
      ensures forall o {:trigger o.right} :: o in s ==>
                o.right == Ren(parent, child, if o == parent then old(child.right)
                                              else if o == child then old(parent.right) else old(o.right))
      ensures forall o {:trigger o.parent} :: o in s ==>
                o.parent == Ren(parent, child, if o == parent then old(child.parent)
                                               else if o == child then old(parent.parent) else old(o.parent))
      ensures min == if old(parent.parent) == null then child else old(min)
    {
      SwapLinks(parent, child, if parent.left == child then parent.right else parent.left, parent.parent);
    }

    lemma AroundDown(i: int, j: int)
      requires Shape() && 0 < j < |s| && i == Par(j)
      ensures forall o {:trigger o.left} {:trigger o.right} :: o in s ==>
        && (o.left == s[i] || o.right == s[i] ==> o == s[i].parent)
        && (o.left == s[j] || o.right == s[j] ==> o == s[i])
        && (o.left == s[i] ==> o.right != s[i]) && (o.left == s[j] ==> o.right != s[j])
    {
      forall o {:trigger o.left} | o in s
        ensures o.left == s[i] || o.right == s[i] ==> o == s[i].parent
        ensures o.left == s[j] || o.right == s[j] ==> o == s[i]
        ensures (o.left == s[i] ==> o.right != s[i]) && (o.left == s[j] ==> o.right != s[j])
      {
        var k :| 0 <= k < |s| && s[k] == o;
        assert o.left == At(s, 2 * k + 1) && o.right == At(s, 2 * k + 2);
        assert s[i].parent == if i == 0 then null else At(s, Par(i));
      }
    }

    lemma UpLink(i: int, j: int, k: int)
      requires Shape() && 0 <= i < |s| && 0 <= k < |s| && s[k].parent == s[i]
      ensures s[k] == s[i].left || s[k] == s[i].right
    {
      assert k > 0 && Par(k) == i;
    }

    lemma AroundUp(i: int, j: int)
      requires Shape() && 0 < j < |s| && i == Par(j)
      ensures forall o {:trigger o.parent} :: o in s ==>
        && (o.parent == s[i] ==> o == s[i].left || o == s[i].right)
        && (o.parent == s[j] ==> o == s[j].left || o == s[j].right)
    {
      forall o {:trigger o.parent} | o in s
        ensures o.parent == s[i] ==> o == s[i].left || o == s[i].right
        ensures o.parent == s[j] ==> o == s[j].left || o == s[j].right
      {
        hide Shape;
        var k :| 0 <= k < |s| && s[k] == o;
        if o.parent == s[i] {
          UpLink(i, j, k);
        }
        if o.parent == s[j] {
          UpLink(j, j, k);
        }
      }
    }

    lemma PairFacts(i: int, j: int)
      requires Shape() && 0 < j < |s| && i == Par(j)
      ensures 0 <= i < |s| && s[i] != s[j] && s[j].parent == s[i] && (s[i].left == s[j] || s[i].right == s[j])
    {
    }

    lemma SiblingFacts(i: int, j: int)
      requires Shape() && 0 < j < |s| && i == Par(j)
      ensures var sib := if s[i].left == s[j] then s[i].right else s[i].left;
        && sib != s[j] && sib != s[i] && (sib != null ==> sib in s && sib.parent == s[i] && sib != s[i].parent)
        && (s[j].left != null ==> s[j].left != sib) && (s[j].right != null ==> s[j].right != sib)
    {
      NoSelf(i);
    }

    lemma NoSelf(i: int)
      requires Shape() && 0 <= i < |s|
      ensures s[i].left != s[i] && s[i].right != s[i] && s[i].parent != s[i]
    {
      assert s[i].left == At(s, 2 * i + 1) && s[i].right == At(s, 2 * i + 2);
      assert s[i].parent == if i == 0 then null else At(s, Par(i));
    }

    lemma ChildFacts(i: int, j: int)
      requires Shape() && 0 < j < |s| && i == Par(j)
      ensures s[j].left != null ==> s[j].left in s && s[j].left.parent == s[j] && s[j].left != s[j].right
      ensures s[j].right != null ==> s[j].right in s && s[j].right.parent == s[j]
      ensures s[j].left != s[j] && s[j].right != s[j] && s[j].left != s[i] && s[j].right != s[i]
    {
    }

    lemma UpFacts(i: int, j: int)
      requires Shape() && 0 < j < |s| && i == Par(j)
      ensures var up := s[i].parent;
        && up != s[i] && up != s[j]
        && (up != null ==> up in s && up != s[j].left && up != s[j].right && (up.left == s[i] || up.right == s[i]))
    {
    }

    lemma SwappableHere(i: int, j: int)
      requires Shape() && 0 < j < |s| && i == Par(j)
      ensures Swappable(s[i], s[j])
    {
      AroundDown(i, j);
      AroundUp(i, j);
      PairFacts(i, j);
      SiblingFacts(i, j);
      ChildFacts(i, j);
      UpFacts(i, j);
    }

    /** The same, position by position: what stands at k links to what k linked to, renamed. */
    method SwapPositions(parent: Node, child: Node, ghost i: int, ghost j: int)
      requires Distinct(s) && 0 <= i < |s| && 0 <= j < |s| && i != j && s[i] == parent && s[j] == child
      requires Swappable(parent, child)
      modifies this`min, s
      ensures var s' := Swapped(s, i, j);
        && Renames(parent, child, old(Lefts(s)), Lefts(s'))
        && Renames(parent, child, old(Rights(s)), Rights(s'))
        && Renames(parent, child, old(Parents(s)), Parents(s'))
      ensures min == if old(parent.parent) == null then child else old(min)
    {
      hide Swappable, Isolated;
      SwapNames(parent, child);
    }

    method SwapInShape(parent: Node, child: Node, ghost i: int, ghost j: int)
      requires Shape() && 0 < j < |s| && i == Par(j) && s[i] == parent && s[j] == child
      modifies this`min, s
      ensures var s' := Swapped(s, i, j);
        && Renames(parent, child, old(Lefts(s)), Lefts(s'))
        && Renames(parent, child, old(Rights(s)), Rights(s'))
        && Renames(parent, child, old(Parents(s)), Parents(s'))
      ensures min == if old(parent.parent) == null then child else old(min)
    {
      hide Swappable, Linked, Isolated, At;
      SwappableHere(i, j);
      PairFacts(i, j);
      SwapPositions(parent, child, i, j);
    }

    /** heap_node_swap: child moves up to parent's place and parent down to child's. */
    method Swap(parent: Node, child: Node, ghost i: int, ghost j: int)
      requires Shape() && 0 < j < |s| && i == Par(j) && s[i] == parent && s[j] == child
      modifies this`min, this`s, nodes
      ensures s == Swapped(old(s), i, j) && Shape()
    {
      hide Linked, At, Ren, Par, Swapped, LinkedAs, Distinct, Inside;
      PairFacts(i, j);
      ghost var s0, s' := s, Swapped(s, i, j);
      ghost var l, r, p := Lefts(s), Rights(s), Parents(s);
      LinkedFields(s);
      SameMembers(s, i, j);
      TopSwapped(s, i, j, l, r, p);
      InsideMembers(s, nodes);
      InsideSwapped(s, i, j, nodes);
      SwapInShape(parent, child, i, j);
      RenamedLinks(s0, i, j, l, r, p, Lefts(s'), Rights(s'), Parents(s'));
      LinkedFields(s');
      s := s';
    }

    // ---------- the path to a position ----------

    ghost predicate SlotOk(slot: Slot)
      reads this`s
    {
      slot.MinSlot? || slot.n in s
    }

    function Load(slot: Slot): Node?
      reads this, if slot.MinSlot? then {} else {slot.n}
    {
      match slot
      case MinSlot => min
      case LeftSlot(n) => n.left
      case RightSlot(n) => n.right
    }

    /** The field that holds, or would hold, the node at a position counted from 1. */
    ghost function SlotAt(pos: int): Slot
      requires 1 <= pos && pos / 2 <= |s|
      reads this`s
    {
      if pos == 1 then MinSlot
      else if pos % 2 == 0 then LeftSlot(s[pos / 2 - 1])
      else RightSlot(s[pos / 2 - 1])
    }

    lemma LoadAt(pos: int)
      requires Shape() && 1 <= pos && pos / 2 <= |s|
      ensures SlotOk(SlotAt(pos)) && Load(SlotAt(pos)) == At(s, pos - 1)
    {
      if pos > 1 {
        assert pos == 2 * (pos / 2) + pos % 2;
      }
    }

    lemma Turn(pos: nat, bit: nat)
      requires Shape() && 1 <= pos && bit < 2 && 2 * pos + bit <= |s| + 1
      ensures SlotOk(SlotAt(pos)) && Load(SlotAt(pos)) != null && (2 * pos + bit) / 2 == pos
      ensures SlotAt(2 * pos + bit) == if bit == 1 then RightSlot(Load(SlotAt(pos))) else LeftSlot(Load(SlotAt(pos)))
    {
      LoadAt(pos);
    }

    /** The descent along a path: the slot of the target position and the slot above it. */
    method Descend(path0: nat, k0: nat, ghost target: nat) returns (parent: Slot, child: Slot)
      requires Shape() && 1 <= target <= |s| + 1 && Follow(1, k0, path0) == target
      ensures child == SlotAt(target)
      ensures parent == if target == 1 then MinSlot else SlotAt(target / 2)
    {
      hide Shape, Follow, SlotAt, Load;
      SlotOne();
      parent, child := MinSlot, MinSlot;
      var path, k := path0, k0;
      ghost var pos: nat := 1;
      while k > 0
        invariant Follow(pos, k, path) == target && 1 <= pos <= target
        invariant child == SlotAt(pos) && parent == if pos == 1 then MinSlot else SlotAt(pos / 2)
        decreases k
      {
        FollowGrows(pos, k, path);
        Turn(pos, path % 2);
        parent := child;
        if path % 2 == 1 {
          child := RightSlot(Load(child));
        } else {
          child := LeftSlot(Load(child));
        }
        pos := 2 * pos + path % 2;
        path := path / 2;
        k := k - 1;
      }
      FollowGrows(pos, k, path);
    }

    lemma SlotOne()
      ensures SlotAt(1) == MinSlot
    {
    }

    /** Writes through a slot. */
    method Store(slot: Slot, v: Node?)
      modifies if slot.MinSlot? then {} else {slot.n}, this`min
      ensures slot.MinSlot? ==> min == v
      ensures !slot.MinSlot? ==> min == old(min) && slot.n.parent == old(slot.n.parent)
      ensures slot.LeftSlot? ==> slot.n.left == v && slot.n.right == old(slot.n.right)
      ensures slot.RightSlot? ==> slot.n.right == v && slot.n.left == old(slot.n.left)
    {
      match slot
      case MinSlot => min := v;
      case LeftSlot(n) => n.left := v;
      case RightSlot(n) => n.right := v;
    }

    /** The new node's record, and the link that makes it the child through slot; i is where slot's node stands. */
    method Hang(newnode: Node, up: Node?, slot: Slot, ghost i: int)
      requires Distinct(s) && newnode !in s
      requires !slot.MinSlot? ==> 0 <= i < |s| && slot.n == s[i]
      modifies this`min, s, newnode
      ensures Lefts(s + [newnode]) == (if slot.LeftSlot? then old(Lefts(s))[i := newnode] else old(Lefts(s))) + [null]
      ensures Rights(s + [newnode]) == (if slot.RightSlot? then old(Rights(s))[i := newnode] else old(Rights(s))) + [null]
      ensures Parents(s + [newnode]) == old(Parents(s)) + [up]
      ensures min == if slot.MinSlot? then newnode else old(min)
    {
      newnode.left := null;
      newnode.right := null;
      newnode.parent := up;
      Store(slot, newnode);
    }

    /** The new node at the leftmost free place of the bottom row. */
    method Append(newnode: Node, parent: Slot, child: Slot)
      requires Shape() && newnode !in s && child == SlotAt(|s| + 1)
      requires parent == if |s| == 0 then MinSlot else SlotAt((|s| + 1) / 2)
      modifies this`min, this`s, this`nelts, this`nodes, s, newnode
      ensures s == old(s) + [newnode] && Shape() && nodes == old(nodes) + {newnode}
    {
      hide Linked, LinkedAs, Distinct, At, Par;
      ghost var n, s0, s' := |s|, s, s + [newnode];
      ghost var l, r, p := Lefts(s), Rights(s), Parents(s);
      LinkedFields(s);
      LoadAt(if n == 0 then 1 else (n + 1) / 2);
      DistinctAppend(s, newnode);
      AtAppend(s, newnode);
      Hang(newnode, Load(parent), child, (n + 1) / 2 - 1);
      AppendedLinks(s0, newnode, l, r, p);
      LinkedFields(s');
      nelts := nelts + 1;
      nodes := nodes + {newnode};
      s := s';
    }

    /** Unlinks the last node, the one slot holds. */
    method Cut(slot: Slot, ghost i: int)
      requires Distinct(s) && (!slot.MinSlot? ==> 0 <= i < |s| && slot.n == s[i])
      modifies this`min, s
      ensures Lefts(s) == if slot.LeftSlot? then old(Lefts(s))[i := null] else old(Lefts(s))
      ensures Rights(s) == if slot.RightSlot? then old(Rights(s))[i := null] else old(Rights(s))
      ensures Parents(s) == old(Parents(s))
      ensures min == if slot.MinSlot? then null else old(min)
    {
      Store(slot, null);
    }

    method TakeLast(max: Slot)
      requires Shape() && |s| > 0 && max == SlotAt(|s|)
      modifies this`min, this`s, this`nelts, s
      ensures s == old(s)[..|old(s)| - 1] && Shape()
    {
      hide Linked, LinkedAs, At, Par;
      ghost var n, s0, s' := |s|, s, s[..|s| - 1];
      ghost var l, r, p := Lefts(s), Rights(s), Parents(s);
      LinkedFields(s);
      AtFront(s);
      nelts := nelts - 1;
      Cut(max, n / 2 - 1);
      assert Lefts(s') == Lefts(s)[..n - 1] && Rights(s') == Rights(s)[..n - 1] && Parents(s') == Parents(s)[..n - 1];
      ShrunkLinks(s0, l, r, p);
      LinkedFields(s');
      s := s';
    }

    /** What a node's neighbours know of it. */
    ghost predicate Replaceable(node: Node)
      reads this`s, s, node
    {
      && node in s
      && (forall o {:trigger o.left} {:trigger o.right} :: o in s ==>
          && (o.left == node || o.right == node ==> o == node.parent)
          && (o.left == node ==> o.right != node))
      && (forall o {:trigger o.parent} :: o in s ==> (o.parent == node ==> o == node.left || o == node.right))
      && (node.left != null ==> node.left in s && node.left.parent == node && node.left != node.right)
      && (node.right != null ==> node.right in s && node.right.parent == node)
      && node.left != node && node.right != node && node.parent != node
      && (node.parent != null ==>
            && node.parent in s && node.parent != node.left && node.parent != node.right
            && (node.parent.left == node || node.parent.right == node))
    }

    lemma DownLink(j: int, k: int)
      requires Shape() && 0 <= j < |s| && 0 <= k < |s| && (s[k].left == s[j] || s[k].right == s[j])
      ensures s[k] == s[j].parent && (s[k].left == s[j] ==> s[k].right != s[j])
    {
      assert j > 0 && Par(j) == k;
    }

    lemma NodeFacts(j: int)
      requires Shape() && 0 <= j < |s|
      ensures var node := s[j];
        && (node.left != null ==> node.left in s && node.left.parent == node && node.left != node.right)
        && (node.right != null ==> node.right in s && node.right.parent == node)
        && node.left != node && node.right != node && node.parent != node
    {
      hide Shape;
      if s[j].left != null {
        LeftFacts(j);
      }
      if s[j].right != null {
        RightFacts(j);
      }
      NoSelf(j);
    }

    lemma LeftFacts(j: int)
      requires Shape() && 0 <= j < |s| && s[j].left != null
      ensures s[j].left in s && s[j].left.parent == s[j] && s[j].left != s[j].right
    {
      Children(j, 2 * j + 1);
    }

    lemma RightFacts(j: int)
      requires Shape() && 0 <= j < |s| && s[j].right != null
      ensures s[j].right in s && s[j].right.parent == s[j]
    {
      Children(j, 2 * j + 2);
    }

    lemma ParentFacts(j: int)
      requires Shape() && 0 <= j < |s| && s[j].parent != null
      ensures var node := s[j];
        && node.parent in s && node.parent != node.left && node.parent != node.right
        && (node.parent.left == node || node.parent.right == node)
    {
    }

    lemma LinksDownTo(j: int, o: Node)
      requires Shape() && 0 <= j < |s| && o in s && (o.left == s[j] || o.right == s[j])
      ensures o == s[j].parent && (o.left == s[j] ==> o.right != s[j])
    {
      hide Shape;
      var k :| 0 <= k < |s| && s[k] == o;
      DownLink(j, k);
    }

    lemma LinksUpTo(j: int, o: Node)
      requires Shape() && 0 <= j < |s| && o in s && o.parent == s[j]
      ensures o == s[j].left || o == s[j].right
    {
      hide Shape;
      var k :| 0 <= k < |s| && s[k] == o;
      UpLink(j, j, k);
    }

    lemma LinksTo(j: int)
      requires Shape() && 0 <= j < |s|
      ensures forall o {:trigger o.left} {:trigger o.right} :: o in s && (o.left == s[j] || o.right == s[j]) ==>
                o == s[j].parent && (o.left == s[j] ==> o.right != s[j])
      ensures forall o {:trigger o.parent} :: o in s && o.parent == s[j] ==> o == s[j].left || o == s[j].right
    {
      hide Shape;
      forall o {:trigger o.left} {:trigger o.right} | o in s && (o.left == s[j] || o.right == s[j])
        ensures o == s[j].parent && (o.left == s[j] ==> o.right != s[j])
      {
        LinksDownTo(j, o);
      }
      forall o {:trigger o.parent} | o in s && o.parent == s[j]
        ensures o == s[j].left || o == s[j].right
      {
        LinksUpTo(j, o);
      }
    }

    lemma ReplaceableHere(j: int)
      requires Shape() && 0 <= j < |s|
      ensures Replaceable(s[j])
    {
      hide Shape;
      LinksTo(j);
      NodeFacts(j);
      if s[j].parent != null {
        ParentFacts(j);
      }
    }

    /** The writes that put child, until now unlinked, into node's place. */
    method ReplaceLinks(node: Node, child: Node)
      requires Replaceable(node) && child !in s
      modifies this`min, s, child
      ensures child.left == old(node.left) && child.right == old(node.right) && child.parent == old(node.parent)
      ensures forall o {:trigger o.left} :: o in s && o != node ==>
                o.left == if old(o.left) == node then child else old(o.left)
      ensures forall o {:trigger o.right} :: o in s && o != node ==>
                o.right == if old(o.right) == node then child else old(o.right)
      ensures forall o {:trigger o.parent} :: o in s && o != node ==>
                o.parent == if old(o.parent) == node then child else old(o.parent)
      ensures min == if old(node.parent) == null then child else old(min)
    {
      child.left := node.left;
      child.right := node.right;
      child.parent := node.parent;
      if child.left != null {
        child.left.parent := child;
      }
      if child.right != null {
        child.right.parent := child;
      }
      if node.parent == null {
        min := child;
      } else if node.parent.left == node {
        node.parent.left := child;
      } else {
        node.parent.right := child;
      }
    }

    method ReplacePositions(node: Node, child: Node, ghost j: int)
      requires Distinct(s) && 0 <= j < |s| && s[j] == node && Replaceable(node) && child !in s
      requires child !in Lefts(s) && child !in Rights(s) && child !in Parents(s)
      modifies this`min, s, child
      ensures var s' := s[j := child];
        && Renames(node, child, old(Lefts(s)), Lefts(s'))
        && Renames(node, child, old(Rights(s)), Rights(s'))
        && Renames(node, child, old(Parents(s)), Parents(s'))
      ensures min == if old(node.parent) == null then child else old(min)
    {
      ReplaceLinks(node, child);
    }

    /** The last node, already unlinked, takes the place of the node to be removed. */
    method Replace(node: Node, child: Node, ghost j: int)
      requires Shape() && 0 <= j < |s| && s[j] == node && child !in s && child in nodes
      modifies this`min, this`s, nodes
      ensures s == old(s)[j := child] && Shape()
    {
      hide Linked, LinkedAs, At, Par, Replaceable, Distinct;
      ghost var s0, s' := s, s[j := child];
      ghost var l, r, p := Lefts(s), Rights(s), Parents(s);
      LinkedFields(s);
      ReplaceableHere(j);
      InsideMembers(s, nodes);
      LinksInside(s, l, r, p, child);
      TopReplaced(s, j, child, l, r, p);
      ReplacePositions(node, child, j);
      ReplacedLinks(s0, j, child, l, r, p, Lefts(s'), Rights(s'), Parents(s'));
      LinkedFields(s');
      s := s';
    }

    // ---------- sifting ----------

    lemma Neighbour(j: int)
      requires Shape() && 0 <= j < |s|
      ensures s[j].left == At(s, 2 * j + 1) && s[j].right == At(s, 2 * j + 2)
      ensures s[j].parent == if j == 0 then null else At(s, Par(j))
      ensures j > 0 ==> 0 <= Par(j) < j && s[j].parent == s[Par(j)]
    {
    }

    /** The walk up: x, at position j, may be smaller than its parent. */
    method SiftUp(x: Node, ghost j0: int)
      requires Shape() && UpInv(s, j0) && s[j0] == x
      modifies this`min, this`s, nodes
      ensures Shape() && Ordered(s) && multiset(s) == multiset(old(s))
    {
      hide Shape, UpInv, Swapped, Par, At, Ordered;
      ghost var j := j0;
      UpIndex(s, j);
      Neighbour(j);
      while x.parent != null && LessThan(x, x.parent)
        invariant Shape() && 0 <= j < |s| && UpInv(s, j) && s[j] == x
        invariant x.parent == if j == 0 then null else At(s, Par(j))
        invariant multiset(s) == multiset(old(s))
        decreases j
      {
        Neighbour(j);
        SwappedElements(s, Par(j), j);
        PairAt(s, Par(j), j);
        UpStep(s, j);
        Swap(x.parent, x, Par(j), j);
        j := Par(j);
        UpIndex(s, j);
        Neighbour(j);
      }
      Neighbour(j);
      UpDone(s, j);
    }

    /** The walk down: x, at position j, may be bigger than its children. */
    method SiftDown(x: Node, ghost j0: int) returns (ghost j: int)
      requires Shape() && DownInv(s, j0) && s[j0] == x
      modifies this`min, this`s, nodes
      ensures Shape() && UpInv(s, j) && 0 <= j < |s| && s[j] == x && multiset(s) == multiset(old(s))
    {
      hide Shape, DownInv, UpInv, Swapped, Par;
      j := j0;
      DownIndex(s, j);
      while true
        invariant Shape() && 0 <= j < |s| && DownInv(s, j) && s[j] == x
        invariant multiset(s) == multiset(old(s))
        decreases |s| - j
      {
        Neighbour(j);
        var smallest := x;
        if x.left != null && LessThan(x.left, smallest) {
          smallest := x.left;
        }
        if x.right != null && LessThan(x.right, smallest) {
          smallest := x.right;
        }
        if smallest == x {
          BothChildren(s, j, x.key);
          break;
        }
        ghost var m := if smallest == At(s, 2 * j + 1) then 2 * j + 1 else 2 * j + 2;
        Children(j, m);
        SwappedElements(s, j, m);
        PairAt(s, j, m);
        BothChildren(s, j, smallest.key);
        DownStep(s, j, m);
        Swap(x, smallest, j, m);
        j := m;
        DownIndex(s, j);
      }
      DownDone(s, j);
    }

    // ---------- the operations ----------

    ghost predicate Valid()
      reads this, s
    {
      Shape() && Ordered(s) && Covers(s, nodes)
    }

    /** heap_init */
    constructor ()
      ensures Valid() && s == [] && nodes == {}
    {
      min, nelts, s, nodes := null, 0, [], {};
    }

    /** heap_min: an element that no other is less than. */
    method Min() returns (r: Node?)
      requires Valid()
      ensures r == null <==> s == []
      ensures r != null ==> r in s && forall x :: x in s ==> !LessThan(x, r)
    {
      FirstIsLeast(s);
      return min;
    }

    /** heap_insert */
    method Insert(newnode: Node)
      requires Valid() && newnode !in s
      modifies this, nodes, newnode
      ensures nodes == old(nodes) + {newnode}
      ensures Valid() && multiset(s) == multiset(old(s)) + multiset{newnode}
    {
      hide Shape, Ordered, UpInv, Follow, SlotAt, Covers;
      Count();
      var path, k := PathTo(1 + nelts);
      var parent, child := Descend(path, k, 1 + nelts);
      AppendedOrder(s, newnode);
      Append(newnode, parent, child);
      SiftUp(newnode, |s| - 1);
      CoversMore(old(s), s, newnode, old(nodes));
    }

    lemma Count()
      requires Shape()
      ensures nelts == |s| && min == At(s, 0) && forall o :: o in s ==> o in nodes
    {
    }

    lemma NoRepeats()
      requires Shape()
      ensures Distinct(s)
    {
    }

    lemma LastSlot(n: int)
      requires Shape() && 1 <= n == |s|
      ensures SlotOk(SlotAt(n)) && Load(SlotAt(n)) == s[n - 1] && s[n - 1] !in s[..n - 1] && s[n - 1] in nodes
    {
      LoadAt(n);
    }

    /** The descent to the last node of the bottom row, and the node itself. */
    method FindLast() returns (max: Slot, child: Node)
      requires Shape() && |s| > 0
      ensures max == SlotAt(|s|) && child == s[|s| - 1] && child !in s[..|s| - 1] && child in nodes
    {
      hide Shape, Follow, SlotAt;
      Count();
      var path, k := PathTo(nelts);
      var parent;
      parent, max := Descend(path, k, nelts);
      LastSlot(nelts);
      child := Load(max);
    }

    /** heap_remove: takes node out of a heap it is in; an empty heap stays as it is. */
    method Remove(node: Node?)
      requires Valid() && (s != [] ==> node != null && node in s)
      modifies this, nodes
      ensures Valid()
      ensures old(s) == [] ==> s == [] && nodes == old(nodes)
      ensures old(s) != [] ==> multiset(s) == multiset(old(s)) - multiset{node} && nodes == old(nodes) - {node}
    {
      hide Shape, Ordered, Distinct, Covers;
      Count();
      if nelts == 0 {
        return;
      }
      NoRepeats();
      ghost var j :| 0 <= j < |s| && s[j] == node;
      TakeOut(node, j);
      Forget(old(s), node);
    }

    /** The body of heap_remove for a heap that is not empty. */
    method TakeOut(node: Node, ghost j: int)
      requires Shape() && Ordered(s) && 0 <= j < |s| && s[j] == node
      modifies this`min, this`s, this`nelts, nodes
      ensures Shape() && Ordered(s) && multiset(s) == multiset(old(s)) - multiset{node}
    {
      hide Shape, Ordered, SlotAt, Distinct;
      Count();
      var max, child := FindLast();
      ghost var s0 := s;
      FrontOrder(s);
      TakeLast(max);
      Count();
      RemovedElements(s0, j);
      if child == node {
        if child == min {
          assert false;  // clears min in the source, but unlinking the last node has already done so
        }
        return;
      }
      Refill(node, child, j);
    }

    /** The node taken out is no longer this heap's. */
    ghost method Forget(s0: seq<Node>, node: Node)
      requires Shape() && Ordered(s) && Covers(s0, nodes) && Distinct(s0) && node in s0
      requires multiset(s) == multiset(s0) - multiset{node}
      modifies this`nodes
      ensures Valid() && nodes == old(nodes) - {node}
    {
      hide Distinct, Ordered, Linked, At;
      CoversFewer(s0, s, node, nodes);
      nodes := nodes - {node};
    }

    /** The last node, already unlinked, fills the gap and moves to where the order wants it. */
    method Refill(node: Node, child: Node, ghost j: int)
      requires Shape() && Ordered(s) && 0 <= j < |s| && s[j] == node && child !in s && child in nodes
      modifies this`min, this`s, nodes
      ensures Shape() && Ordered(s) && multiset(s) == multiset(old(s)[j := child])
    {
      hide Shape, Ordered, UpInv, DownInv;
      ReplacedOrder(s, j, child);
      Replace(node, child, j);
      ghost var j' := SiftDown(child, j);
      SiftUp(child, j');
    }

    /** heap_dequeue: takes out an element that no other is less than. */
    method Dequeue()
      requires Valid()
      modifies this, nodes
      ensures Valid()
      ensures old(s) == [] ==> s == [] && nodes == old(nodes)
      ensures old(s) != [] ==>
                && old(min) != null && nodes == old(nodes) - {old(min)}
                && multiset(s) == multiset(old(s)) - multiset{old(min)}
                && forall x :: x in old(s) ==> !LessThan(x, old(min))
    {
      FirstIsLeast(s);
      Remove(min);
    }

    /** Dequeueing to the end meets every element once, in non-decreasing order. */
    method Drain() returns (out: seq<Node>)
      requires Valid()
      modifies this, nodes
      ensures Valid() && s == [] && nodes == {} && multiset(out) == multiset(old(s))
      ensures Ascending(out)
    {
      hide Shape, Ordered, Covers, Ascending, NotBelow;
      out := [];
      Count();
      NothingOut(s);
      while min != null
        invariant Valid() && min == At(s, 0) && nodes <= old(nodes)
        invariant multiset(out) + multiset(s) == multiset(old(s))
        invariant Ascending(out) && NotBelow(out, s)
        decreases |s|
      {
        ghost var s0 := s;
        var next := min;
        Dequeue();
        Count();
        Fewer(s0, s, next);
        OneMore(out, s0, s, next);
        out := out + [next];
      }
      CoversNone(nodes);
    }
  }

  /** The keys do not decrease. */
  ghost predicate Ascending(out: seq<Node>) {
    forall a, b :: 0 <= a < b < |out| ==> out[a].key <= out[b].key
  }

  /** No key of out is greater than one of s. */
  ghost predicate NotBelow(out: seq<Node>, s: seq<Node>) {
    forall a, o :: 0 <= a < |out| && o in s ==> out[a].key <= o.key
  }

  lemma NothingOut(s: seq<Node>)
    ensures Ascending([]) && NotBelow([], s)
  {
  }

  lemma OneMore(out: seq<Node>, s: seq<Node>, s': seq<Node>, x: Node)
    requires Ascending(out) && NotBelow(out, s) && x in s
    requires forall o :: o in s ==> !LessThan(o, x)
    requires forall o :: o in s' ==> o in s
    ensures Ascending(out + [x]) && NotBelow(out + [x], s')
  {
  }

  /** All nodes are among the elements. */
  ghost predicate Covers(s: seq<Node>, nodes: set<Node>) {
    forall o :: o in nodes ==> o in s
  }

  lemma CoversNone(nodes: set<Node>)
    ensures Covers([], nodes) ==> nodes == {}
  {
  }

  lemma CoversMore(s: seq<Node>, s': seq<Node>, x: Node, nodes: set<Node>)
    requires Covers(s, nodes) && multiset(s') == multiset(s) + multiset{x}
    ensures Covers(s', nodes + {x})
  {
    forall o | o in nodes + {x}
      ensures o in s'
    {
      assert o in multiset(s) || o == x;
      assert o in multiset(s');
    }
  }

  lemma Once(s: seq<Node>, x: Node)
    requires Distinct(s) && x in s
    ensures multiset(s)[x] == 1
  {
    var k :| 0 <= k < |s| && s[k] == x;
    assert s == s[..k] + [x] + s[k + 1..];
    assert x !in s[..k] && x !in s[k + 1..];
    assert multiset(s)[x] == multiset(s[..k])[x] + 1 + multiset(s[k + 1..])[x];
  }

  lemma CoversFewer(s: seq<Node>, s': seq<Node>, x: Node, nodes: set<Node>)
    requires Covers(s, nodes) && Inside(s', nodes) && Distinct(s) && x in s && multiset(s') == multiset(s) - multiset{x}
    ensures Covers(s', nodes - {x}) && Inside(s', nodes - {x})
  {
    Once(s, x);
    forall o | o in nodes - {x}
      ensures o in s'
    {
      assert o in multiset(s);
      assert o in multiset(s');
    }
    forall k | 0 <= k < |s'|
      ensures s'[k] in nodes - {x}
    {
      assert s'[k] in multiset(s');
    }
  }

  ghost predicate Inside(s: seq<Node>, nodes: set<Node>) {
    forall k {:trigger s[k]} :: 0 <= k < |s| ==> s[k] in nodes
  }

  lemma InsideMembers(s: seq<Node>, nodes: set<Node>)
    requires Inside(s, nodes)
    ensures forall o :: o in s ==> o in nodes
  {
  }

  lemma InsideSwapped(s: seq<Node>, i: int, j: int, nodes: set<Node>)
    requires Inside(s, nodes) && 0 <= i < |s| && 0 <= j < |s|
    ensures Inside(Swapped(s, i, j), nodes)
  {
  }

  lemma DistinctAppend(s: seq<Node>, x: Node)
    requires Distinct(s) && x !in s
    ensures Distinct(s + [x])
  {
  }

  lemma AtAppend(s: seq<Node>, x: Node)
    ensures At(s + [x], 0) == if s == [] then x else At(s, 0)
    ensures |s| > 0 ==> At(s, (|s| + 1) / 2 - 1) == At(s, Par(|s|)) && 0 <= (|s| + 1) / 2 - 1 < |s|
    ensures At(s, 0) == null <==> s == []
  {
  }

  lemma AtFront(s: seq<Node>)
    requires |s| > 0
    ensures Distinct(s) ==> Distinct(s[..|s| - 1])
    ensures At(s[..|s| - 1], 0) == if |s| == 1 then null else At(s, 0)
    ensures |s| > 1 ==> 0 <= |s| / 2 - 1 < |s|
  {
  }

  lemma ShrunkLinks(s: seq<Node>, l: seq<Node?>, r: seq<Node?>, p: seq<Node?>)
    requires LinkedAs(s, l, r, p) && |s| > 0
    ensures var n, i := |s|, |s| / 2 - 1;
      && (n > 1 && n % 2 == 0 ==> LinkedAs(s[..n - 1], l[i := null][..n - 1], r[..n - 1], p[..n - 1]))
      && (n > 1 && n % 2 == 1 ==> LinkedAs(s[..n - 1], l[..n - 1], r[i := null][..n - 1], p[..n - 1]))
      && (n == 1 ==> LinkedAs(s[..n - 1], l[..n - 1], r[..n - 1], p[..n - 1]))
  {
  }

  lemma LinksInside(s: seq<Node>, l: seq<Node?>, r: seq<Node?>, p: seq<Node?>, x: Node)
    requires LinkedAs(s, l, r, p) && x !in s
    ensures x !in l && x !in r && x !in p
  {
  }

  lemma AtReplaced(s: seq<Node>, j: int, x: Node, m: int)
    requires Distinct(s) && 0 <= j < |s| && x !in s
    ensures At(s[j := x], m) == Ren(s[j], x, At(s, m))
  {
  }

  lemma TopReplaced(s: seq<Node>, j: int, x: Node, l: seq<Node?>, r: seq<Node?>, p: seq<Node?>)
    requires Distinct(s) && 0 <= j < |s| && x !in s && LinkedAs(s, l, r, p)
    ensures Distinct(s[j := x])
    ensures At(s[j := x], 0) == if p[j] == null then x else At(s, 0)
  {
  }

  lemma ReplacedLinks(s: seq<Node>, j: int, x: Node, l: seq<Node?>, r: seq<Node?>, p: seq<Node?>,
                      l': seq<Node?>, r': seq<Node?>, p': seq<Node?>)
    requires Distinct(s) && 0 <= j < |s| && x !in s && LinkedAs(s, l, r, p)
    requires Renames(s[j], x, l, l') && Renames(s[j], x, r, r') && Renames(s[j], x, p, p')
    ensures LinkedAs(s[j := x], l', r', p')
  {
    hide Ren, At, Par;
    var s' := s[j := x];
    forall k {:trigger l'[k]} | 0 <= k < |s|
      ensures l'[k] == At(s', 2 * k + 1)
    {
      AtReplaced(s, j, x, 2 * k + 1);
    }
    forall k {:trigger r'[k]} | 0 <= k < |s|
      ensures r'[k] == At(s', 2 * k + 2)
    {
      AtReplaced(s, j, x, 2 * k + 2);
    }
    forall k {:trigger p'[k]} | 0 <= k < |s|
      ensures p'[k] == if k == 0 then null else At(s', Par(k))
    {
      AtReplaced(s, j, x, Par(k));
      RenNull(s[j], x);
    }
  }

  // ---------- the order while one element is out of place ----------

  /** Only the element at j may be smaller than its parent. */
  ghost predicate UpInv(s: seq<Node>, j: int) {
    && 0 <= j < |s|
    && (forall k {:trigger s[k]} :: 0 < k < |s| && k != j ==> s[Par(k)].key <= s[k].key)
    && (forall k {:trigger s[k]} :: 0 < k < |s| && Par(k) == j && j > 0 ==> s[Par(j)].key <= s[k].key)
  }

  /** Only the element at j may be smaller than its parent or bigger than a child. */
  ghost predicate DownInv(s: seq<Node>, j: int) {
    && 0 <= j < |s|
    && (forall k {:trigger s[k]} :: 0 < k < |s| && k != j && Par(k) != j ==> s[Par(k)].key <= s[k].key)
    && (forall k {:trigger s[k]} :: 0 < k < |s| && Par(k) == j && j > 0 ==> s[Par(j)].key <= s[k].key)
  }

  lemma PairAt(s: seq<Node>, i: int, j: int)
    requires 0 <= i < |s| && 0 <= j < |s|
    ensures |Swapped(s, i, j)| == |s| && Swapped(s, i, j)[j] == s[i] && (i != j ==> Swapped(s, i, j)[i] == s[j])
  {
  }

  lemma BothChildren(s: seq<Node>, j: int, b: int)
    requires 0 <= j
    requires 2 * j + 1 < |s| ==> b <= s[2 * j + 1].key
    requires 2 * j + 2 < |s| ==> b <= s[2 * j + 2].key
    ensures forall k {:trigger s[k]} :: 0 < k < |s| && Par(k) == j ==> b <= s[k].key
  {
    forall k {:trigger s[k]} | 0 < k < |s| && Par(k) == j
      ensures b <= s[k].key
    {
      Children(j, k);
    }
  }

  lemma UpIndex(s: seq<Node>, j: int)
    requires UpInv(s, j)
    ensures 0 <= j < |s|
  {
  }

  lemma DownIndex(s: seq<Node>, j: int)
    requires DownInv(s, j)
    ensures 0 <= j < |s|
  {
  }

  lemma UpStep(s: seq<Node>, j: int)
    requires UpInv(s, j) && j > 0 && 0 <= Par(j) < j && s[j].key < s[Par(j)].key
    ensures UpInv(Swapped(s, Par(j), j), Par(j))
  {
    var i, s' := Par(j), Swapped(s, Par(j), j);
    forall k {:trigger s'[k]} | 0 < k < |s|
      ensures k != i ==> s'[Par(k)].key <= s'[k].key
      ensures Par(k) == i && i > 0 ==> s'[Par(i)].key <= s'[k].key
    {
      assert 0 <= Par(k) < k;
      assert s[k] == s[k] && s[i] == s[i];
    }
  }

  lemma UpDone(s: seq<Node>, j: int)
    requires UpInv(s, j) && (j > 0 ==> s[Par(j)].key <= s[j].key)
    ensures Ordered(s)
  {
  }

  lemma DownStep(s: seq<Node>, j: int, m: int)
    requires DownInv(s, j) && 0 < m < |s| && Par(m) == j && s[m].key < s[j].key
    requires forall k {:trigger s[k]} :: 0 < k < |s| && Par(k) == j ==> s[m].key <= s[k].key
    ensures DownInv(Swapped(s, j, m), m)
  {
    var s' := Swapped(s, j, m);
    forall k {:trigger s'[k]} | 0 < k < |s|
      ensures k != m && Par(k) != m ==> s'[Par(k)].key <= s'[k].key
      ensures Par(k) == m ==> s'[Par(m)].key <= s'[k].key
    {
      assert 0 <= Par(k) < k;
      assert s[k] == s[k] && s[m] == s[m] && s[j] == s[j];
    }
  }

  lemma DownDone(s: seq<Node>, j: int)
    requires DownInv(s, j)
    requires forall k {:trigger s[k]} :: 0 < k < |s| && Par(k) == j ==> s[j].key <= s[k].key
    ensures UpInv(s, j)
  {
  }

  lemma AppendedOrder(s: seq<Node>, x: Node)
    requires Ordered(s)
    ensures UpInv(s + [x], |s|)
  {
    var s' := s + [x];
    forall k {:trigger s'[k]} | 0 < k < |s'|
      ensures k != |s| ==> s'[Par(k)].key <= s'[k].key
      ensures Par(k) != |s|
    {
      assert k < |s| ==> s[k] == s'[k];
      assert 0 <= Par(k) < k;
    }
  }

  lemma FrontOrder(s: seq<Node>)
    requires Ordered(s) && |s| > 0
    ensures Ordered(s[..|s| - 1])
  {
    var s' := s[..|s| - 1];
    forall k {:trigger s'[k]} | 0 < k < |s'|
      ensures s'[Par(k)].key <= s'[k].key
    {
      assert s[k] == s'[k];
      assert 0 <= Par(k) < k;
    }
  }

  lemma ReplacedOrder(s: seq<Node>, j: int, x: Node)
    requires Ordered(s) && 0 <= j < |s|
    ensures DownInv(s[j := x], j)
  {
    var s' := s[j := x];
    forall k {:trigger s'[k]} | 0 < k < |s'|
      ensures k != j && Par(k) != j ==> s'[Par(k)].key <= s'[k].key
      ensures Par(k) == j && j > 0 ==> s'[Par(j)].key <= s'[k].key
    {
      assert 0 <= Par(k) < k;
      assert s[k] == s[k] && s[j] == s[j];
    }
  }

  lemma {:induction false} LeastBelow(s: seq<Node>, k: int)
    requires Ordered(s) && 0 <= k < |s|
    ensures s[0].key <= s[k].key
  {
    if k > 0 {
      LeastBelow(s, Par(k));
    }
  }

  lemma FirstIsLeast(s: seq<Node>)
    requires Ordered(s)
    ensures forall x :: x in s ==> !LessThan(x, s[0])
  {
    forall x | x in s
      ensures !LessThan(x, s[0])
    {
      var k :| 0 <= k < |s| && s[k] == x;
      LeastBelow(s, k);
    }
  }

  lemma RemovedElements(s: seq<Node>, j: int)
    requires 0 <= j < |s|
    ensures var f, x := s[..|s| - 1], s[|s| - 1];
      && (j == |s| - 1 ==> multiset(f) == multiset(s) - multiset{x})
      && (j < |s| - 1 ==> f[j] == s[j] && multiset(f[j := x]) == multiset(s) - multiset{s[j]})
  {
    var f, x := s[..|s| - 1], s[|s| - 1];
    assert s == f + [x];
  }

  lemma Fewer(s: seq<Node>, s': seq<Node>, m: Node)
    requires m in s && multiset(s') == multiset(s) - multiset{m}
    ensures |s'| == |s| - 1 && forall o :: o in s' ==> o in s
  {
    assert |multiset(s')| == |s'| && |multiset(s)| == |s|;
    forall o | o in s'
      ensures o in s
    {
      assert o in multiset(s');
    }
  }

  /** A link to the new last place, from the place above it, keeps the shape of the enlarged sequence. */
  lemma AppendedLinks(s: seq<Node>, x: Node, l: seq<Node?>, r: seq<Node?>, p: seq<Node?>)
    requires LinkedAs(s, l, r, p)
    ensures var n, i := |s|, (|s| + 1) / 2 - 1;
      && (n > 0 && (n + 1) % 2 == 0 ==> LinkedAs(s + [x], l[i := x] + [null], r + [null], p + [At(s, Par(n))]))
      && (n > 0 && (n + 1) % 2 == 1 ==> LinkedAs(s + [x], l + [null], r[i := x] + [null], p + [At(s, Par(n))]))
      && (n == 0 ==> LinkedAs(s + [x], l + [null], r + [null], p + [null]))
  {
  }

  lemma SameMembers(s: seq<Node>, i: int, j: int)
    requires 0 <= i < |s| && 0 <= j < |s|
    ensures |Swapped(s, i, j)| == |s| && Swapped(s, i, j)[i] == s[j] && Swapped(s, i, j)[j] == s[i]
    ensures forall o :: o in Swapped(s, i, j) <==> o in s
  {
    SwappedElements(s, i, j);
    assert forall o :: o in s <==> o in multiset(s);
    assert forall o :: o in Swapped(s, i, j) <==> o in multiset(Swapped(s, i, j));
  }

  // The link fields as sequences, so that what a swap does to the shape is a fact about sequences.

  ghost function Lefts(s: seq<Node>): (r: seq<Node?>)
    reads s
    ensures |r| == |s| && forall k {:trigger r[k]} {:trigger s[k].left} :: 0 <= k < |s| ==> r[k] == s[k].left
  {
    seq(|s|, k requires 0 <= k < |s| reads s => s[k].left)
  }

  ghost function Rights(s: seq<Node>): (r: seq<Node?>)
    reads s
    ensures |r| == |s| && forall k {:trigger r[k]} {:trigger s[k].right} :: 0 <= k < |s| ==> r[k] == s[k].right
  {
    seq(|s|, k requires 0 <= k < |s| reads s => s[k].right)
  }

  ghost function Parents(s: seq<Node>): (r: seq<Node?>)
    reads s
    ensures |r| == |s| && forall k {:trigger r[k]} {:trigger s[k].parent} :: 0 <= k < |s| ==> r[k] == s[k].parent
  {
    seq(|s|, k requires 0 <= k < |s| reads s => s[k].parent)
  }

  ghost predicate LinkedAs(s: seq<Node>, l: seq<Node?>, r: seq<Node?>, p: seq<Node?>) {
    && |l| == |r| == |p| == |s|
    && (forall k {:trigger l[k]} :: 0 <= k < |s| ==> l[k] == At(s, 2 * k + 1))
    && (forall k {:trigger r[k]} :: 0 <= k < |s| ==> r[k] == At(s, 2 * k + 2))
    && (forall k {:trigger p[k]} :: 0 <= k < |s| ==> p[k] == if k == 0 then null else At(s, Par(k)))
  }

  lemma LinkedFields(s: seq<Node>)
    ensures Linked(s) <==> LinkedAs(s, Lefts(s), Rights(s), Parents(s))
  {
  }

  ghost predicate Renames(a: Node, b: Node, l: seq<Node?>, l': seq<Node?>) {
    |l'| == |l| && forall k {:trigger l'[k]} :: 0 <= k < |l| ==> l'[k] == Ren(a, b, l[k])
  }

  lemma AtSwapped(s: seq<Node>, i: int, j: int, m: int)
    requires Distinct(s) && 0 <= i < |s| && 0 <= j < |s| && i != j
    ensures At(Swapped(s, i, j), m) == Ren(s[i], s[j], At(s, m))
  {
  }

  lemma TopSwapped(s: seq<Node>, i: int, j: int, l: seq<Node?>, r: seq<Node?>, p: seq<Node?>)
    requires Distinct(s) && 0 < j < |s| && i == Par(j) && LinkedAs(s, l, r, p)
    ensures 0 <= i < |s| && i != j && s[i] != s[j] && Distinct(Swapped(s, i, j))
    ensures At(Swapped(s, i, j), 0) == if p[i] == null then s[j] else At(s, 0)
  {
  }

  lemma RenamedLinks(s: seq<Node>, i: int, j: int, l: seq<Node?>, r: seq<Node?>, p: seq<Node?>,
                     l': seq<Node?>, r': seq<Node?>, p': seq<Node?>)
    requires Distinct(s) && 0 <= i < |s| && 0 <= j < |s| && i != j && LinkedAs(s, l, r, p)
    requires Renames(s[i], s[j], l, l') && Renames(s[i], s[j], r, r') && Renames(s[i], s[j], p, p')
    ensures LinkedAs(Swapped(s, i, j), l', r', p')
  {
    hide Ren, Swapped, At, Par;
    SameMembers(s, i, j);
    var s' := Swapped(s, i, j);
    forall k {:trigger l'[k]} | 0 <= k < |s|
      ensures l'[k] == At(s', 2 * k + 1)
    {
      AtSwapped(s, i, j, 2 * k + 1);
    }
    forall k {:trigger r'[k]} | 0 <= k < |s|
      ensures r'[k] == At(s', 2 * k + 2)
    {
      AtSwapped(s, i, j, 2 * k + 2);
    }
    forall k {:trigger p'[k]} | 0 <= k < |s|
      ensures p'[k] == if k == 0 then null else At(s', Par(k))
    {
      AtSwapped(s, i, j, Par(k));
      RenNull(s[i], s[j]);
    }
  }

  lemma RenNull(a: Node, b: Node)
    ensures Ren(a, b, null) == null
  {
  }
}
