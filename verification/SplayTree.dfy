/** SPLAY_HEAD and the SPLAY_* macros over linked nodes without parent fields. */
module SplayTree {
  import opened Basics
  import opened SplayShapes
  import opened SplayCost

  // ---------- memory ----------

  ghost predicate Linked(t: Tree)
    reads Nodes(t)
  {
    match t
    case Leaf => true
    case Fork(l, n, r) => n.left == Top(l) && n.right == Top(r) && Linked(l) && Linked(r)
  }

  /** The chain of a left side tree hangs off the dummy's right field. */
  ghost predicate OpenLeft(s: Spine, dummy: Node)
    reads SpineNodes(s), dummy`right
  {
    match s
    case Nil => true
    case Snoc(up, t, n) =>
      && n.left == Top(t) && Linked(t) && OpenLeft(up, dummy)
      && Last(up, dummy).right == n
  }

  /** The chain of a right side tree hangs off the dummy's left field. */
  ghost predicate OpenRight(s: Spine, dummy: Node)
    reads SpineNodes(s), dummy`left
  {
    match s
    case Nil => true
    case Snoc(up, t, n) =>
      && n.right == Top(t) && Linked(t) && OpenRight(up, dummy)
      && Last(up, dummy).left == n
  }

  lemma {:induction false} CloseLeft(s: Spine, dummy: Node, t: Tree)
    requires OpenLeft(s, dummy) && Last(s, dummy).right == Top(t) && Linked(t)
    ensures Linked(PlugLeft(s, t)) && dummy.right == Top(PlugLeft(s, t))
  {
    if s.Snoc? {
      CloseLeft(s.up, dummy, Fork(s.t, s.n, t));
    }
  }

  lemma {:induction false} CloseRight(s: Spine, dummy: Node, t: Tree)
    requires OpenRight(s, dummy) && Last(s, dummy).left == Top(t) && Linked(t)
    ensures Linked(PlugRight(s, t)) && dummy.left == Top(PlugRight(s, t))
  {
    if s.Snoc? {
      CloseRight(s.up, dummy, Fork(t, s.n, s.t));
    }
  }

  class Splay {
    var root: Node?
    ghost var nodes: set<Node>
    ghost var shape: Tree
    ghost var rounds: nat  // of all splaying loops so far
    ghost var ops: nat     // operations so far
    ghost var peak: nat    // the greatest number of elements so far, at least 1

    /** The state inside SPLAY: the tree still at the head and the two side trees. */
    ghost predicate Parts(t: Tree, left: Spine, right: Spine, dummy: Node)
      reads this`root, this`nodes, nodes, dummy
    {
      && root == Top(t) && Separate(t, left, right)
      && nodes == Nodes(t) + SpineNodes(left) + SpineNodes(right) == AllNodes(t, left, right) && dummy !in nodes
      && Linked(t) && OpenLeft(left, dummy) && OpenRight(right, dummy)
    }

    /** The tree at the head is t and there is nothing else. */
    ghost predicate Holds(t: Tree)
      reads this`root, this`nodes, nodes
    {
      root == Top(t) && Distinct(t) && Nodes(t) == nodes && Linked(t)
    }

    /** SPLAY_ROTATE_RIGHT */
    method RotateRight(tmp: Node, ghost t: Tree, ghost left: Spine, ghost right: Spine, ghost dummy: Node)
      requires Parts(t, left, right, dummy) && t.Fork? && t.l.Fork? && t.l.n == tmp
      modifies this`root, nodes
      ensures Parts(Fork(t.l.l, tmp, Fork(t.l.r, t.n, t.r)), left, right, dummy)
    {
      hide Separate, Nodes, SpineNodes, Distinct, DistinctSpine;
      RotateSeparate(t, t.l, left, right);
      assert Linked(t.l);
      root.left := tmp.right;
      tmp.right := root;
      root := tmp;
      assert Linked(t.l.r) && Linked(t.r) && Linked(Fork(t.l.r, t.n, t.r));
    }

    /** SPLAY_LINKLEFT: the root and its right subtree go to the right side tree. */
    method LinkLeft(last: Node, ghost t: Tree, ghost left: Spine, ghost right: Spine, ghost dummy: Node)
      returns (last': Node)
      requires Parts(t, left, right, dummy) && t.Fork? && last == Last(right, dummy)
      modifies this`root, nodes, dummy
      ensures Parts(t.l, left, Snoc(right, t.r, t.n), dummy) && last' == t.n
    {
      hide Separate, Nodes, SpineNodes, Distinct, DistinctSpine;
      LinkLeftSeparate(t, left, right);
      LastApart(t, right, left);
      assert right.Snoc? ==> right.n != dummy;
      assert right.Snoc? ==> Linked(right.t) && OpenRight(right.up, dummy);
      last.left := root;
      assert right.Snoc? ==> Linked(right.t) && OpenRight(right.up, dummy);
      assert OpenRight(right, dummy);
      last' := root;
      root := root.left;
      assert Linked(t.l);
      assert Linked(t.r);
      assert OpenLeft(left, dummy);
      assert OpenRight(Snoc(right, t.r, t.n), dummy);
    }

    /** SPLAY_ROTATE_LEFT */
    method RotateLeft(tmp: Node, ghost t: Tree, ghost left: Spine, ghost right: Spine, ghost dummy: Node)
      requires Parts(t, left, right, dummy) && t.Fork? && t.r.Fork? && t.r.n == tmp
      modifies this`root, nodes
      ensures Parts(Fork(Fork(t.l, t.n, t.r.l), tmp, t.r.r), left, right, dummy)
    {
      hide Separate, Nodes, SpineNodes, Distinct, DistinctSpine;
      RotateSeparate(t, t.r, left, right);
      assert Linked(t.r);
      root.right := tmp.left;
      tmp.left := root;
      root := tmp;
      assert Linked(t.r.l) && Linked(t.l) && Linked(Fork(t.l, t.n, t.r.l));
    }

    /** SPLAY_LINKRIGHT: the root and its left subtree go to the left side tree. */
    method LinkRight(last: Node, ghost t: Tree, ghost left: Spine, ghost right: Spine, ghost dummy: Node)
      returns (last': Node)
      requires Parts(t, left, right, dummy) && t.Fork? && last == Last(left, dummy)
      modifies this`root, nodes, dummy
      ensures Parts(t.r, Snoc(left, t.l, t.n), right, dummy) && last' == t.n
    {
      hide Separate, Nodes, SpineNodes, Distinct, DistinctSpine;
      LinkRightSeparate(t, left, right);
      LastApart(t, left, right);
      assert left.Snoc? ==> left.n != dummy;
      assert left.Snoc? ==> Linked(left.t) && OpenLeft(left.up, dummy);
      last.right := root;
      assert left.Snoc? ==> Linked(left.t) && OpenLeft(left.up, dummy);
      assert OpenLeft(left, dummy);
      last' := root;
      root := root.right;
      assert Linked(t.l);
      assert Linked(t.r);
      assert OpenRight(right, dummy);
      assert OpenLeft(Snoc(left, t.l, t.n), dummy);
    }

    /** SPLAY_ASSEMBLE */
    method Assemble(dummy: Node, lastLeft: Node, lastRight: Node, ghost t: Tree, ghost left: Spine, ghost right: Spine)
      requires Parts(t, left, right, dummy) && t.Fork?
      requires lastLeft == Last(left, dummy) && lastRight == Last(right, dummy)
      modifies this`root, nodes, dummy
      ensures Holds(Assembled(t, left, right))
    {
      hide Separate, Nodes, SpineNodes, Distinct, DistinctSpine;
      AssembleSeparate(t, left, right);
      LastApart(t, left, right);
      LastApart(t, right, left);
      assert (left.Snoc? ==> left.n != dummy) && (right.Snoc? ==> right.n != dummy);
      assert t.n != dummy;
      assert left.Snoc? ==> Linked(left.t) && OpenLeft(left.up, dummy);
      assert right.Snoc? ==> Linked(right.t) && OpenRight(right.up, dummy);
      lastLeft.right := root.left;
      assert left.Snoc? ==> Linked(left.t) && OpenLeft(left.up, dummy);
      assert OpenLeft(left, dummy) && OpenRight(right, dummy) && Linked(t.l) && Linked(t.r);
      lastRight.left := root.right;
      assert right.Snoc? ==> Linked(right.t) && OpenRight(right.up, dummy);
      assert OpenLeft(left, dummy) && OpenRight(right, dummy) && Linked(t.l) && Linked(t.r);
      CloseLeft(left, dummy, t.l);
      CloseRight(right, dummy, t.r);
      root.left := dummy.right;
      root.right := dummy.left;
    }

    lemma Look(t: Tree, left: Spine, right: Spine, dummy: Node)
      requires Parts(t, left, right, dummy)
      ensures root == Top(t)
      ensures t.Fork? ==> t.n in nodes && t.n.left == Top(t.l) && t.n.right == Top(t.r)
    {
    }

    /** One round of SPLAY's loop to the left; stop is its break. */
    method RoundLeft(elm: Node, lastRight: Node, ghost t: Tree, ghost left: Spine, ghost right: Spine, ghost dummy: Node)
      returns (stop: bool, lastRight': Node, ghost t': Tree, ghost right': Spine)
      requires Parts(t, left, right, dummy) && t.Fork? && elm.key < t.n.key && lastRight == Last(right, dummy)
      modifies this`root, nodes, dummy
      ensures Parts(t', left, right', dummy) && t'.Fork? && lastRight' == Last(right', dummy)
      ensures if stop then
                Joined(t, left, right, elm.key) == Assembled(t', left, right') && Rounds(t, elm.key) == 1
              else
                && Joined(t, left, right, elm.key) == Joined(t', left, right', elm.key)
                && Rounds(t, elm.key) == 1 + Rounds(t', elm.key) && Size(t') < Size(t)
    {
      hide Parts, Splayed, Rounds, Joined, Assembled;
      Look(t, left, right, dummy);
      stop, lastRight', t', right' := true, lastRight, t, right;
      var tmp := root.left;
      if tmp == null {
        StopJoined(t, left, right, elm.key);
        return;
      }
      SizeParts(t);
      SizeParts(t.l);
      if Cmp(elm, tmp) < 0 {
        TurnedLeft(t, left, right, elm.key);
        RotateRight(tmp, t, left, right, dummy);
        t' := Fork(t.l.l, tmp, Fork(t.l.r, t.n, t.r));
        Look(t', left, right, dummy);
        if root.left == null {
          return;
        }
      } else {
        PassedLeft(t, left, right, elm.key);
      }
      stop := false;
      lastRight' := LinkLeft(lastRight, t', left, right, dummy);
      t', right' := t'.l, Snoc(right, t'.r, t'.n);
    }

    /** One round to the right. */
    method RoundRight(elm: Node, lastLeft: Node, ghost t: Tree, ghost left: Spine, ghost right: Spine, ghost dummy: Node)
      returns (stop: bool, lastLeft': Node, ghost t': Tree, ghost left': Spine)
      requires Parts(t, left, right, dummy) && t.Fork? && elm.key > t.n.key && lastLeft == Last(left, dummy)
      modifies this`root, nodes, dummy
      ensures Parts(t', left', right, dummy) && t'.Fork? && lastLeft' == Last(left', dummy)
      ensures if stop then
                Joined(t, left, right, elm.key) == Assembled(t', left', right) && Rounds(t, elm.key) == 1
              else
                && Joined(t, left, right, elm.key) == Joined(t', left', right, elm.key)
                && Rounds(t, elm.key) == 1 + Rounds(t', elm.key) && Size(t') < Size(t)
    {
      hide Parts, Splayed, Rounds, Joined, Assembled;
      Look(t, left, right, dummy);
      stop, lastLeft', t', left' := true, lastLeft, t, left;
      var tmp := root.right;
      if tmp == null {
        StopJoined(t, left, right, elm.key);
        return;
      }
      SizeParts(t);
      SizeParts(t.r);
      if Cmp(elm, tmp) > 0 {
        TurnedRight(t, left, right, elm.key);
        RotateLeft(tmp, t, left, right, dummy);
        t' := Fork(Fork(t.l, t.n, t.r.l), tmp, t.r.r);
        Look(t', left, right, dummy);
        if root.right == null {
          return;
        }
      } else {
        PassedRight(t, left, right, elm.key);
      }
      stop := false;
      lastLeft' := LinkRight(lastLeft, t', left, right, dummy);
      t', left' := t'.r, Snoc(left, t'.l, t'.n);
    }

    /** SPLAY: the loop leaves what the function Splayed says, after as many rounds as Rounds says. */
    method Splay(elm: Node, ghost t0: Tree) returns (ghost t': Tree)
      requires Holds(t0) && t0.Fork?
      modifies this`root, this`rounds, nodes
      ensures Holds(t') && t' == Splayed(t0, elm.key)
      ensures rounds == old(rounds) + Rounds(t0, elm.key)
    {
      hide Parts, Splayed, Rounds, Joined, Assembled;
      var dummy := new Node(0);
      var lastLeft, lastRight := dummy, dummy;
      ghost var t, left, right := t0, Nil, Nil;
      StartParts(t0, dummy);
      Look(t, left, right, dummy);
      StartJoined(t, elm.key);
      var comp := Cmp(elm, root);
      while comp != 0
        invariant Parts(t, left, right, dummy) && t.Fork? && fresh(dummy) && nodes == old(nodes)
        invariant root == t.n
        invariant lastLeft == Last(left, dummy) && lastRight == Last(right, dummy)
        invariant Joined(t, left, right, elm.key) == Splayed(t0, elm.key)
        invariant rounds + Rounds(t, elm.key) == old(rounds) + Rounds(t0, elm.key)
        invariant comp == Cmp(elm, root)
        decreases Size(t)
      {
        rounds := rounds + 1;
        var stop;
        if comp < 0 {
          stop, lastRight, t, right := RoundLeft(elm, lastRight, t, left, right, dummy);
        } else {
          stop, lastLeft, t, left := RoundRight(elm, lastLeft, t, left, right, dummy);
        }
        if stop {
          break;
        }
        Look(t, left, right, dummy);
        comp := Cmp(elm, root);
      }
      if comp == 0 {
        StopJoined(t, left, right, elm.key);
      }
      Assemble(dummy, lastLeft, lastRight, t, left, right);
      t' := Assembled(t, left, right);
    }

    lemma StartParts(t: Tree, dummy: Node)
      requires Holds(t) && dummy !in nodes
      ensures Parts(t, Nil, Nil, dummy)
    {
    }

    /** One round of SPLAY_MINMAX's loop towards the first element. */
    method RoundFirst(lastRight: Node, ghost t: Tree, ghost left: Spine, ghost right: Spine, ghost dummy: Node,
                      ghost key: int)
      returns (stop: bool, lastRight': Node, ghost t': Tree, ghost right': Spine)
      requires Parts(t, left, right, dummy) && t.Fork? && Beyond(t, key, -1) && lastRight == Last(right, dummy)
      modifies this`root, nodes, dummy
      ensures Parts(t', left, right', dummy) && t'.Fork? && lastRight' == Last(right', dummy)
      ensures if stop then
                Joined(t, left, right, key) == Assembled(t', left, right') && Rounds(t, key) == 1
              else
                && Joined(t, left, right, key) == Joined(t', left, right', key) && Beyond(t', key, -1)
                && Rounds(t, key) == 1 + Rounds(t', key) && Size(t') < Size(t)
    {
      hide Parts, Splayed, Rounds, Joined, Assembled, Beyond;
      Look(t, left, right, dummy);
      BeyondParts(t, key, -1);
      stop, lastRight', t', right' := true, lastRight, t, right;
      var tmp := root.left;
      if tmp == null {
        StopJoined(t, left, right, key);
        return;
      }
      SizeParts(t);
      SizeParts(t.l);
      BeyondParts(t.l, key, -1);
      TurnedLeft(t, left, right, key);
      RotateRight(tmp, t, left, right, dummy);
      t' := Fork(t.l.l, tmp, Fork(t.l.r, t.n, t.r));
      Look(t', left, right, dummy);
      if root.left == null {
        return;
      }
      stop := false;
      lastRight' := LinkLeft(lastRight, t', left, right, dummy);
      t', right' := t'.l, Snoc(right, t'.r, t'.n);
    }

    /** One round towards the last element. */
    method RoundLast(lastLeft: Node, ghost t: Tree, ghost left: Spine, ghost right: Spine, ghost dummy: Node,
                     ghost key: int)
      returns (stop: bool, lastLeft': Node, ghost t': Tree, ghost left': Spine)
      requires Parts(t, left, right, dummy) && t.Fork? && Beyond(t, key, 1) && lastLeft == Last(left, dummy)
      modifies this`root, nodes, dummy
      ensures Parts(t', left', right, dummy) && t'.Fork? && lastLeft' == Last(left', dummy)
      ensures if stop then
                Joined(t, left, right, key) == Assembled(t', left', right) && Rounds(t, key) == 1
              else
                && Joined(t, left, right, key) == Joined(t', left', right, key) && Beyond(t', key, 1)
                && Rounds(t, key) == 1 + Rounds(t', key) && Size(t') < Size(t)
    {
      hide Parts, Splayed, Rounds, Joined, Assembled, Beyond;
      Look(t, left, right, dummy);
      BeyondParts(t, key, 1);
      stop, lastLeft', t', left' := true, lastLeft, t, left;
      var tmp := root.right;
      if tmp == null {
        StopJoined(t, left, right, key);
        return;
      }
      SizeParts(t);
      SizeParts(t.r);
      BeyondParts(t.r, key, 1);
      TurnedRight(t, left, right, key);
      RotateLeft(tmp, t, left, right, dummy);
      t' := Fork(Fork(t.l, t.n, t.r.l), tmp, t.r.r);
      Look(t', left, right, dummy);
      if root.right == null {
        return;
      }
      stop := false;
      lastLeft' := LinkRight(lastLeft, t', left, right, dummy);
      t', left' := t'.r, Snoc(left, t'.l, t'.n);
    }

    /** SPLAY_MINMAX: splays at a key beyond all elements, the first ones when comp is negative. */
    method SplayMinMax(comp: int, ghost t0: Tree, ghost key: int) returns (ghost t': Tree)
      requires Holds(t0) && t0.Fork? && comp != 0 && Beyond(t0, key, comp)
      modifies this`root, this`rounds, nodes
      ensures Holds(t') && t' == Splayed(t0, key)
      ensures rounds == old(rounds) + Rounds(t0, key)
    {
      hide Parts, Splayed, Rounds, Joined, Assembled, Beyond;
      var dummy := new Node(0);
      var lastLeft, lastRight := dummy, dummy;
      ghost var t, left, right := t0, Nil, Nil;
      StartParts(t0, dummy);
      Look(t, left, right, dummy);
      StartJoined(t, key);
      while true
        invariant Parts(t, left, right, dummy) && t.Fork? && fresh(dummy) && nodes == old(nodes)
        invariant root == t.n
        invariant lastLeft == Last(left, dummy) && lastRight == Last(right, dummy)
        invariant Joined(t, left, right, key) == Splayed(t0, key) && Beyond(t, key, comp)
        invariant rounds + Rounds(t, key) == old(rounds) + Rounds(t0, key)
        decreases Size(t)
      {
        rounds := rounds + 1;
        BeyondSign(t, key, comp);
        var stop;
        if comp < 0 {
          stop, lastRight, t, right := RoundFirst(lastRight, t, left, right, dummy, key);
        } else {
          stop, lastLeft, t, left := RoundLast(lastLeft, t, left, right, dummy, key);
        }
        if stop {
          break;
        }
        BeyondSign(t, key, comp);
        Look(t, left, right, dummy);
      }
      Assemble(dummy, lastLeft, lastRight, t, left, right);
      t' := Assembled(t, left, right);
    }

    ghost predicate Valid()
      reads this, nodes
    {
      Holds(shape) && Sorted(Inorder(shape)) && Paid(shape, rounds, ops, peak)
    }

    constructor ()
      ensures Valid() && nodes == {} && rounds == 0 && ops == 0 && peak == 1
    {
      root, nodes, shape, rounds, ops, peak := null, {}, Leaf, 0, 0, 1;
      PaidAtStart();
    }

    /** One operation more, that has left the tree as it is now. */
    ghost predicate Billed(ops0: nat, peak0: nat)
      reads this
    {
      ops == ops0 + 1 && peak == if Size(shape) > peak0 then Size(shape) else peak0
    }

    ghost method Bill(t0: Tree, rounds0: nat)
      requires Paid(t0, rounds0, ops, peak) && rounds0 <= rounds
      requires Affordable(t0, shape, rounds - rounds0, if Size(shape) > peak then Size(shape) else peak)
      modifies this`ops, this`peak
      ensures Paid(shape, rounds, ops, peak) && Billed(old(ops), old(peak))
    {
      var peak' := if Size(shape) > peak then Size(shape) else peak;
      Pay(t0, shape, rounds0, rounds - rounds0, ops, peak, peak');
      ops, peak := ops + 1, peak';
    }

    lemma AtMostPeak()
      requires Paid(shape, rounds, ops, peak)
      ensures Size(shape) <= peak && 1 <= peak
    {
    }

    /** The Balance Theorem of tree.h: the splaying loops of m operations on an initially empty tree that never held
        more than 2^L elements have gone round at most m (5 L + 2) times. */
    lemma BalanceTheorem(L: nat)
      requires Valid() && peak <= Pow2(L)
      ensures rounds <= ops * (5 * L + 2)
    {
      hide Holds, Sorted, Paid;
      Balance(shape, rounds, ops, peak, L);
    }

    /** SPLAY for an operation, with all that is known of its outcome. */
    method SplayAt(elm: Node)
      requires Holds(shape) && shape.Fork? && Sorted(Inorder(shape))
      modifies this`root, this`rounds, this`shape, nodes
      ensures Holds(shape) && shape == Splayed(old(shape), elm.key) && rounds == old(rounds) + Rounds(old(shape), elm.key)
      ensures Sorted(Inorder(shape)) && Inorder(shape) == Inorder(old(shape)) && SplitAt(shape, elm.key)
      ensures root == shape.n && root in nodes && root.left == Top(shape.l) && root.right == Top(shape.r)
    {
      hide Holds, Sorted, SplitAt;
      SplayedOrder(shape, elm.key);
      SplayedSplits(shape, elm.key);
      shape := Splay(elm, shape);
      AtRoot(shape);
    }

    /** elm becomes the root; the old root keeps its right subtree. */
    method PutBefore(elm: Node, ghost t: Tree)
      requires Holds(t) && t.Fork? && elm !in nodes
      modifies this`root, this`nodes, nodes, elm
      ensures nodes == old(nodes) + {elm}
      ensures Holds(Fork(t.l, elm, Fork(Leaf, t.n, t.r))) && Size(Fork(t.l, elm, Fork(Leaf, t.n, t.r))) == Size(t) + 1
    {
      hide Distinct, Nodes;
      BeforeShape(t, elm);
      AtRoot(t);
      Halves(t);
      elm.left := root.left;
      elm.right := root;
      root.left := null;
      root := elm;
      nodes := nodes + {elm};
      assert Linked(t.l) && Linked(t.r) && Linked(Fork(Leaf, t.n, t.r));
    }

    /** elm becomes the root; the old root keeps its left subtree. */
    method PutAfter(elm: Node, ghost t: Tree)
      requires Holds(t) && t.Fork? && elm !in nodes
      modifies this`root, this`nodes, nodes, elm
      ensures nodes == old(nodes) + {elm}
      ensures Holds(Fork(Fork(t.l, t.n, Leaf), elm, t.r)) && Size(Fork(Fork(t.l, t.n, Leaf), elm, t.r)) == Size(t) + 1
    {
      hide Distinct, Nodes;
      AfterShape(t, elm);
      AtRoot(t);
      Halves(t);
      elm.right := root.right;
      elm.left := root;
      root.right := null;
      root := elm;
      nodes := nodes + {elm};
      assert Linked(t.l) && Linked(t.r) && Linked(Fork(t.l, t.n, Leaf));
    }

    /** SPLAY_INSERT */
    method Insert(elm: Node) returns (r: Node?)
      requires Valid() && elm !in nodes
      modifies this, nodes, elm
      ensures Valid() && Billed(old(ops), old(peak))
      ensures r == null ==> nodes == old(nodes) + {elm} && forall x :: x in old(nodes) ==> x.key != elm.key
      ensures r != null ==>
                r in nodes && r.key == elm.key && nodes == old(nodes) && Inorder(shape) == old(Inorder(shape))
    {
      hide Holds, Inorder, Sorted, SplitAt, Paid, Affordable, Splayed, Rounds;
      ghost var t0, rounds0 := shape, rounds;
      AtMostPeak();
      RootIs();
      if root == null {
        FirstAffordable(elm, peak);
        InsertFirst(elm);
      } else {
        SplayAt(elm);
        ghost var t, n := shape, if Size(shape) + 1 > peak then Size(shape) + 1 else peak;
        NodesOf(t);
        InsertOrder(t, elm);
        var comp := Cmp(elm, root);
        if comp < 0 {
          PutBefore(elm, t);
          shape := Fork(t.l, elm, Fork(Leaf, t.n, t.r));
          BeforeAffordable(t0, elm.key, elm, n);
        } else if comp > 0 {
          PutAfter(elm, t);
          shape := Fork(Fork(t.l, t.n, Leaf), elm, t.r);
          AfterAffordable(t0, elm.key, elm, n);
        } else {
          FindAffordable(t0, elm.key, peak);
          Bill(t0, rounds0);
          return root;
        }
      }
      Bill(t0, rounds0);
      return null;
    }

    /** The first element of an empty tree. */
    method InsertFirst(elm: Node)
      requires Holds(shape) && root == null
      modifies this`root, this`nodes, this`shape, elm
      ensures old(nodes) == {} && nodes == {elm} && shape == Fork(Leaf, elm, Leaf) && old(shape) == Leaf
      ensures Holds(shape) && Sorted(Inorder(shape))
    {
      elm.left, elm.right := null, null;
      root := elm;
      nodes := nodes + {elm};
      shape := Fork(Leaf, elm, Leaf);
    }

    lemma RootIs()
      requires Holds(shape)
      ensures root == null <==> shape.Leaf?
      ensures nodes == Nodes(shape)
    {
    }

    lemma NodesOf(t: Tree)
      requires Holds(t)
      ensures nodes == Nodes(t) && forall x :: x in nodes <==> x in Inorder(t)
    {
      NodesInorder(t);
    }

    lemma AtRoot(t: Tree)
      requires Holds(t)
      ensures t.Fork? ==> root == t.n && t.n in nodes && t.n.left == Top(t.l) && t.n.right == Top(t.r)
    {
    }

    /** The root goes, when it has no left subtree. */
    method DropRoot(ghost t: Tree)
      requires Holds(t) && t.Fork? && t.l.Leaf?
      modifies this`root, this`nodes
      ensures nodes == old(nodes) - {t.n} && Holds(t.r)
    {
      root := root.right;
      nodes := nodes - {t.n};
    }

    /** The root goes: its left subtree is splayed at the same key, so that its last element comes up with nothing to its
        right, and the right subtree is hung there. */
    method MergeRoot(elm: Node, ghost t: Tree) returns (ghost t': Tree)
      requires Holds(t) && t.Fork? && t.l.Fork? && Sorted(Inorder(t)) && t.n.key == elm.key
      modifies this`root, this`nodes, this`rounds, nodes
      ensures nodes == old(nodes) - {t.n} && rounds == old(rounds) + Rounds(t.l, elm.key)
      ensures var u := Splayed(t.l, elm.key); u.r.Leaf? && t' == Fork(u.l, u.n, t.r)
      ensures Holds(t') && Inorder(t') == Inorder(t.l) + Inorder(t.r)
    {
      hide Distinct, Linked, Inorder, Sorted, SplitAt, Below, Splayed, Rounds;
      AtRoot(t);
      Halves(t);
      HalvesOrder(t);
      SplayedOrder(t.l, elm.key);
      SplayedSplits(t.l, elm.key);
      var tmp := root.right;
      root := root.left;
      nodes := Nodes(t.l);
      t' := Splay(elm, t.l);
      LastHasNoRight(t.l, t', elm.key);
      SameNodes(t.l, t');
      Rehang(tmp, t', t.r);
      ghost var u := t';
      t' := Fork(u.l, u.n, t.r);
      MergeOrder(t.l, u, t');
    }

    lemma Halves(t: Tree)
      requires Holds(t) && t.Fork?
      ensures Distinct(t.l) && Distinct(t.r) && Linked(t.l) && Linked(t.r) && Nodes(t.l) !! Nodes(t.r)
      ensures nodes == Nodes(t.l) + {t.n} + Nodes(t.r) && t.n !in Nodes(t.l) && t.n !in Nodes(t.r)
    {
    }

    /** The right subtree r goes below the top of t. */
    method Rehang(tmp: Node?, ghost t: Tree, ghost r: Tree)
      requires Holds(t) && t.Fork? && t.r.Leaf? && tmp == Top(r) && Linked(r) && Distinct(r) && Nodes(r) !! nodes
      modifies this`nodes, nodes
      ensures nodes == old(nodes) + Nodes(r)
      ensures Holds(Fork(t.l, t.n, r)) && root == old(root)
    {
      root.right := tmp;
      nodes := nodes + Nodes(r);
      assert Linked(t.l) && Linked(r);
    }

    /** SPLAY_REMOVE: takes out the element with elm's key, if there is one, and returns elm, which is that element
        exactly when elm is in the tree. */
    method Remove(elm: Node) returns (r: Node?)
      requires Valid()
      modifies this, nodes
      ensures Valid() && Billed(old(ops), old(peak))
      ensures r == null ==> nodes == old(nodes) && forall x :: x in nodes ==> x.key != elm.key
      ensures r == null ==> Inorder(shape) == old(Inorder(shape))
      ensures r != null ==>
                && r == elm
                && exists x :: x in old(nodes) && x.key == elm.key && nodes == old(nodes) - {x}
                               && (x == elm <==> elm in old(nodes))
    {
      hide Holds, Inorder, Sorted, SplitAt, Paid, Affordable, Splayed, Rounds;
      ghost var t0, rounds0 := shape, rounds;
      AtMostPeak();
      RootIs();
      if root == null {
        NothingAffordable(shape, peak);
        Bill(t0, rounds0);
        return null;
      }
      SplayAt(elm);
      ghost var t := shape;
      NodesOf(t);
      KeyAtTop(t, elm.key);
      if Cmp(elm, root) == 0 {
        RemoveOrder(t);
        RemoveRoot(elm, t);
        if t.l.Leaf? {
          DropAffordable(t0, elm.key, peak);
        } else {
          MergeAffordable(t0, elm.key, peak);
        }
        Bill(t0, rounds0);
        return elm;
      }
      FindAffordable(t0, elm.key, peak);
      Bill(t0, rounds0);
      return null;
    }

    /** The removal once the element is at the root. */
    method RemoveRoot(elm: Node, ghost t: Tree)
      requires Holds(t) && t.Fork? && Sorted(Inorder(t)) && t.n.key == elm.key
      requires Sorted(Inorder(t.r)) && Sorted(Inorder(t.l) + Inorder(t.r))
      modifies this`root, this`nodes, this`rounds, this`shape, nodes
      ensures Holds(shape) && Sorted(Inorder(shape)) && nodes == old(nodes) - {t.n} && Size(shape) < Size(t)
      ensures t.l.Leaf? ==> shape == t.r && rounds == old(rounds)
      ensures t.l.Fork? ==>
                && rounds == old(rounds) + Rounds(t.l, elm.key)
                && var u := Splayed(t.l, elm.key); u.r.Leaf? && shape == Fork(u.l, u.n, t.r)
    {
      hide Distinct, Linked, Sorted, Splayed, Rounds;
      AtRoot(t);
      if root.left == null {
        DropRoot(t);
        shape := t.r;
      } else {
        shape := MergeRoot(elm, t);
      }
    }

    /** SPLAY_NEXT: the element after elm in key order, or NULL. */
    method Next(elm: Node) returns (r: Node?)
      requires Valid() && elm in nodes
      modifies this, nodes
      ensures Valid() && nodes == old(nodes) && Inorder(shape) == old(Inorder(shape)) && Billed(old(ops), old(peak))
      ensures IsNext(Inorder(shape), elm, r)
    {
      hide Holds, Inorder, Sorted, SplitAt, Paid, Affordable, Splayed, Rounds, IsNext;
      ghost var t0, rounds0 := shape, rounds;
      AtMostPeak();
      RootIs();
      SplayAt(elm);
      NodesOf(shape);
      KeyAtTop(shape, elm.key);
      FindAffordable(t0, elm.key, peak);
      Bill(t0, rounds0);
      r := AfterRoot(elm);
    }

    /** SPLAY_NEXT once elm is at the root. */
    method AfterRoot(elm: Node) returns (r: Node?)
      requires Holds(shape) && shape.Fork? && shape.n == elm && Sorted(Inorder(shape))
      ensures IsNext(Inorder(shape), elm, r)
    {
      hide Distinct, Linked, Inorder, Sorted, IsNext;
      AtRoot(shape);
      NextOfTop(shape);
      r := null;
      if elm.right != null {
        Halves(shape);
        r := Leftmost(elm.right, shape.r);
      }
    }

    method Leftmost(elm: Node, ghost t0: Tree) returns (r: Node)
      requires Linked(t0) && t0.Fork? && t0.n == elm
      ensures Inorder(t0) != [] && r == Inorder(t0)[0]
    {
      r := elm;
      ghost var t := t0;
      while r.left != null
        invariant Linked(t) && t.Fork? && t.n == r && Inorder(t)[0] == Inorder(t0)[0]
        decreases t
      {
        r := r.left;
        t := t.l;
      }
    }

    /** SPLAY_MIN and SPLAY_MAX: NULL for an empty tree, else the first or the last element. */
    method MinMax(val: int) returns (r: Node?)
      requires Valid() && val != 0
      modifies this, nodes
      ensures Valid() && nodes == old(nodes) && Inorder(shape) == old(Inorder(shape)) && Billed(old(ops), old(peak))
      ensures var s := Inorder(shape);
        r == if s == [] then null else if val < 0 then s[0] else s[|s| - 1]
    {
      hide Holds, Sorted, Paid, Affordable, Splayed, Rounds, SplitAt;
      ghost var t0, rounds0 := shape, rounds;
      AtMostPeak();
      RootIs();
      if root == null {
        NothingAffordable(shape, peak);
        r := null;
      } else {
        ghost var key := SomeBeyond(shape, val);
        SplayedOrder(shape, key);
        SplayedSplits(shape, key);
        SameNodes(t0, Splayed(t0, key));
        BeyondSame(t0, Splayed(t0, key), key, val);
        shape := SplayMinMax(val, shape, key);
        BeyondSplit(shape, key, val);
        AtRoot(shape);
        FindAffordable(t0, key, peak);
        r := root;
      }
      Bill(t0, rounds0);
    }

    /** SPLAY_FIND */
    method Find(elm: Node) returns (r: Node?)
      requires Valid()
      modifies this, nodes
      ensures Valid() && nodes == old(nodes) && Inorder(shape) == old(Inorder(shape)) && Billed(old(ops), old(peak))
      ensures r == null ==> forall x :: x in nodes ==> x.key != elm.key
      ensures r != null ==> r in nodes && r.key == elm.key
    {
      hide Holds, Inorder, Sorted, SplitAt, Paid, Affordable, Splayed, Rounds;
      ghost var t0, rounds0 := shape, rounds;
      AtMostPeak();
      RootIs();
      r := null;
      if root == null {
        NothingAffordable(shape, peak);
      } else {
        SplayAt(elm);
        NodesOf(shape);
        KeyAtTop(shape, elm.key);
        if Cmp(elm, root) == 0 {
          r := root;
        }
        FindAffordable(t0, elm.key, peak);
      }
      Bill(t0, rounds0);
    }
  }
}
