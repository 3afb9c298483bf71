/** RB_HEAD and the RB_* macros over linked nodes. */
module RedBlackTree {
  import opened Basics
  import opened RedBlackShapes

  /** Memory represents t below the parent p. */
  ghost predicate Linked(t: Tree, p: Node?)
    reads Nodes(t)
  {
    match t
    case Leaf => true
    case Fork(l, n, c, r) =>
      && n.left == Top(l) && n.right == Top(r) && n.parent == p && n.color == c
      && Linked(l, n) && Linked(r, n)
  }

  /** Memory represents path above a subtree whose top is hole, up to the tree's root. */
  ghost predicate LinkedPath(path: Path, hole: Node?, root: Node?)
    reads PathNodes(path)
  {
    match path
    case Root => root == hole
    case InLeft(n, c, r, up) =>
      && n.left == hole && n.right == Top(r) && n.parent == Parent(up) && n.color == c
      && Linked(r, n) && LinkedPath(up, n, root)
    case InRight(l, n, c, up) =>
      && n.left == Top(l) && n.right == hole && n.parent == Parent(up) && n.color == c
      && Linked(l, n) && LinkedPath(up, n, root)
  }

  class RbTree {
    var root: Node?
    ghost var nodes: set<Node>
    ghost var shape: Tree

    /** The tree in memory is Plug(path, t), seen from the position (path, t). */
    ghost predicate Zip(t: Tree, path: Path)
      reads this`root, this`nodes, nodes
    {
      && Nodes(t) + PathNodes(path) == nodes
      && Distinct(t) && Apart(path, Nodes(t))
      && Linked(t, Parent(path)) && LinkedPath(path, Top(t), root)
    }

    // ---------- moving the point of view ----------

    lemma Up(t: Tree, path: Path)
      requires Zip(t, path) && !path.Root?
      ensures path.InLeft? ==> Zip(Fork(t, path.n, path.c, path.r), path.up)
      ensures path.InRight? ==> Zip(Fork(path.l, path.n, path.c, t), path.up)
    {
    }

    lemma Down(t: Tree, path: Path)
      requires Zip(t, path) && t.Fork?
      ensures Zip(t.l, InLeft(t.n, t.c, t.r, path))
      ensures Zip(t.r, InRight(t.l, t.n, t.c, path))
    {
    }

    lemma {:induction false} DownAlong(inner: Path, t: Tree, path: Path)
      requires Zip(Plug(inner, t), path)
      ensures Zip(t, Compose(inner, path))
    {
      match inner
      case Root =>
      case InLeft(n, c, r, up) =>
        DownAlong(up, Fork(t, n, c, r), path);
        Down(Fork(t, n, c, r), Compose(up, path));
      case InRight(l, n, c, up) =>
        DownAlong(up, Fork(l, n, c, t), path);
        Down(Fork(l, n, c, t), Compose(up, path));
    }

    lemma {:induction false} UpAll(t: Tree, path: Path)
      requires Zip(t, path)
      ensures Zip(Plug(path, t), Root)
      decreases path
    {
      match path
      case Root =>
      case InLeft(n, c, r, up) => Up(t, path); UpAll(Fork(t, n, c, r), up);
      case InRight(l, n, c, up) => Up(t, path); UpAll(Fork(l, n, c, t), up);
    }

    /** What the pointers show at a position. */
    lemma Look(t: Tree, path: Path)
      requires Zip(t, path)
      ensures t.Fork? ==>
        && t.n in nodes && t.n.left == Top(t.l) && t.n.right == Top(t.r)
        && t.n.parent == Parent(path) && t.n.color == t.c
      ensures path.Root? ==> root == Top(t)
      ensures !path.Root? ==> path.n in nodes && path.n.color == path.c && path.n.parent == Parent(path.up)
      ensures path.InLeft? ==> path.n.left == Top(t) && path.n.right == Top(path.r)
      ensures path.InRight? ==> path.n.right == Top(t) && path.n.left == Top(path.l)
      ensures t.Fork? && path.InRight? ==> path.n.left != t.n
      ensures t.Fork? && path.InLeft? ==> path.n.right != t.n
    {
      if !path.Root? {
        Up(t, path);
      }
      ApartDisjoint(path, Nodes(t));
    }

    // ---------- the memory writes ----------

    method SetColor(n: Node, c: Color, ghost t: Tree, ghost path: Path)
      requires Zip(t, path) && t.Fork? && t.n == n
      modifies nodes
      ensures Zip(t.(c := c), path)
    {
      ApartDisjoint(path, Nodes(t));
      n.color := c;
    }

    /** The parent p, or the head, points to b where it pointed to a; p is otherwise as before. */
    twostate predicate Redirected(p: Node?, a: Node?, b: Node?)
      reads this, if p == null then {} else {p}
    {
      if p == null then
        root == b
      else
        && root == old(root) && p.parent == old(p.parent) && p.color == old(p.color)
        && p.left == (if old(p.left) == a then b else old(p.left))
        && p.right == (if old(p.left) == a then old(p.right) else b)
    }

    /** The writes of RB_ROTATE_LEFT, field by field. */
    method TurnLeft(elm: Node, tmp: Node, b: Node?, p: Node?)
      requires elm.right == tmp && tmp.left == b && elm.parent == p
      requires elm != tmp && b != elm && b != tmp && p != elm && p != tmp && (p != null ==> p != b)
      modifies this`root, elm, tmp, if b == null then {} else {b}, if p == null then {} else {p}
      ensures elm.right == b && elm.parent == tmp && elm.left == old(elm.left) && elm.color == old(elm.color)
      ensures tmp.left == elm && tmp.parent == p && tmp.right == old(tmp.right) && tmp.color == old(tmp.color)
      ensures b != null ==>
                b.parent == elm && b.left == old(b.left) && b.right == old(b.right) && b.color == old(b.color)
      ensures Redirected(p, elm, tmp)
    {
      elm.right := tmp.left;
      if tmp.left != null {
        tmp.left.parent := elm;
      }
      tmp.parent := elm.parent;
      if elm.parent != null {
        if elm == elm.parent.left {
          elm.parent.left := tmp;
        } else {
          elm.parent.right := tmp;
        }
      } else {
        root := tmp;
      }
      tmp.left := elm;
      elm.parent := tmp;
    }

    /** RB_ROTATE_LEFT */
    method RotateLeft(elm: Node, ghost t: Tree, ghost path: Path)
      requires Zip(t, path) && t.Fork? && t.r.Fork? && t.n == elm
      modifies this`root, nodes
      ensures Zip(Fork(Fork(t.l, elm, t.c, t.r.l), t.r.n, t.r.c, t.r.r), path)
    {
      hide Distinct, Apart, Nodes, PathNodes;
      RotateLeftDistinct(t);
      RotateApart(t, path, t.r, t.r.l);
      ghost var b := t.r.l;
      assert Linked(t.r, elm) && Linked(b, t.r.n) && LinkedPath(path, elm, root);
      assert !path.Root? ==> LinkedPath(path.up, path.n, root);
      TurnLeft(elm, elm.right, elm.right.left, elm.parent);
      assert Linked(b, elm);
      assert !path.Root? ==> LinkedPath(path.up, path.n, root);
      assert path.InLeft? ==> Linked(path.r, path.n);
      assert path.InRight? ==> Linked(path.l, path.n);
      assert LinkedPath(path, t.r.n, root);
      assert Linked(Fork(t.l, elm, t.c, b), t.r.n);
      assert Linked(Fork(Fork(t.l, elm, t.c, b), t.r.n, t.r.c, t.r.r), Parent(path));
    }

    /** The writes of RB_ROTATE_RIGHT, field by field. */
    method TurnRight(elm: Node, tmp: Node, b: Node?, p: Node?)
      requires elm.left == tmp && tmp.right == b && elm.parent == p
      requires elm != tmp && b != elm && b != tmp && p != elm && p != tmp && (p != null ==> p != b)
      modifies this`root, elm, tmp, if b == null then {} else {b}, if p == null then {} else {p}
      ensures elm.left == b && elm.parent == tmp && elm.right == old(elm.right) && elm.color == old(elm.color)
      ensures tmp.right == elm && tmp.parent == p && tmp.left == old(tmp.left) && tmp.color == old(tmp.color)
      ensures b != null ==>
                b.parent == elm && b.left == old(b.left) && b.right == old(b.right) && b.color == old(b.color)
      ensures Redirected(p, elm, tmp)
    {
      elm.left := tmp.right;
      if tmp.right != null {
        tmp.right.parent := elm;
      }
      tmp.parent := elm.parent;
      if elm.parent != null {
        if elm == elm.parent.left {
          elm.parent.left := tmp;
        } else {
          elm.parent.right := tmp;
        }
      } else {
        root := tmp;
      }
      tmp.right := elm;
      elm.parent := tmp;
    }

    /** RB_ROTATE_RIGHT */
    method RotateRight(elm: Node, ghost t: Tree, ghost path: Path)
      requires Zip(t, path) && t.Fork? && t.l.Fork? && t.n == elm
      modifies this`root, nodes
      ensures Zip(Fork(t.l.l, t.l.n, t.l.c, Fork(t.l.r, elm, t.c, t.r)), path)
    {
      hide Distinct, Apart, Nodes, PathNodes;
      RotateRightDistinct(t);
      RotateApart(t, path, t.l, t.l.r);
      ghost var b := t.l.r;
      assert Linked(t.l, elm) && Linked(b, t.l.n) && LinkedPath(path, elm, root);
      assert !path.Root? ==> LinkedPath(path.up, path.n, root);
      TurnRight(elm, elm.left, elm.left.right, elm.parent);
      assert Linked(b, elm);
      assert !path.Root? ==> LinkedPath(path.up, path.n, root);
      assert path.InLeft? ==> Linked(path.r, path.n);
      assert path.InRight? ==> Linked(path.l, path.n);
      assert LinkedPath(path, t.l.n, root);
      assert Linked(Fork(b, elm, t.c, t.r), t.l.n);
      assert Linked(Fork(t.l.l, t.l.n, t.l.c, Fork(b, elm, t.c, t.r)), Parent(path));
    }

    // ---------- insertion ----------

    /** Red uncle: parent and uncle turn black, the grandparent red. */
    method UncleRedLeft(parent: Node, gparent: Node, uncle: Node, ghost p: Tree, ghost u: Tree, ghost up: Path)
      requires Zip(Fork(p, gparent, Black, u), up)
      requires p.Fork? && p.n == parent && u.Fork? && u.n == uncle
      modifies nodes
      ensures Zip(Fork(p.(c := Black), gparent, Red, u.(c := Black)), up)
    {
      ghost var p', u' := p.(c := Black), u.(c := Black);
      Down(Fork(p, gparent, Black, u), up);
      SetColor(uncle, Black, u, InRight(p, gparent, Black, up));
      Up(u', InRight(p, gparent, Black, up));
      Down(Fork(p, gparent, Black, u'), up);
      SetColor(parent, Black, p, InLeft(gparent, Black, u', up));
      Up(p', InLeft(gparent, Black, u', up));
      SetColor(gparent, Red, Fork(p', gparent, Black, u'), up);
    }

    /** Black uncle: the parent turns black and takes the grandparent's place. */
    method LiftLeft(parent: Node, gparent: Node, ghost p: Tree, ghost u: Tree, ghost up: Path)
      requires Zip(Fork(p, gparent, Black, u), up)
      requires p.Fork? && p.n == parent
      modifies this`root, nodes
      ensures Zip(p.l, InLeft(parent, Black, Fork(p.r, gparent, Red, u), up))
    {
      ghost var p' := p.(c := Black);
      Down(Fork(p, gparent, Black, u), up);
      SetColor(parent, Black, p, InLeft(gparent, Black, u, up));
      Up(p', InLeft(gparent, Black, u, up));
      SetColor(gparent, Red, Fork(p', gparent, Black, u), up);
      RotateRight(gparent, Fork(p', gparent, Red, u), up);
      Down(Fork(p.l, parent, Black, Fork(p.r, gparent, Red, u)), up);
    }

    /** One turn of the loop of RB_INSERT_COLOR when parent is a left child. */
    method InsertStepLeft(elm: Node, parent: Node, gparent: Node, ghost t: Tree, ghost path: Path)
      returns (elm': Node, ghost t': Tree, ghost path': Path)
      requires Zip(t, path) && t.Fork? && t.n == elm && RedRed(t, path) && path.n == parent
      requires path.up.InLeft? && path.up.n == gparent
      modifies this`root, nodes
      ensures Zip(t', path') && t'.Fork? && t'.n == elm' && IsRed(t') && Rb(t') && PathRb(path', Bh(t'))
      ensures Length(path') < Length(path) && Inorder(Plug(path', t')) == Inorder(Plug(path, t))
    {
      hide Zip;
      ghost var u, up := path.up.r, path.up.up;
      Look(t, path);
      Up(t, path);
      Look(Ascend(path, t), path.up);
      Up(Ascend(path, t), path.up);
      Look(Ascend(path.up, Ascend(path, t)), up);
      Down(Fork(Ascend(path, t), gparent, Black, u), up);
      Look(u, InRight(Ascend(path, t), gparent, Black, up));
      var tmp := gparent.right;
      if tmp != null && tmp.color == Red {
        UncleRedShapeLeft(t, path);
        UncleRedLeft(parent, gparent, tmp, Ascend(path, t), u, up);
        elm', t', path' := gparent, Fork(Ascend(path, t).(c := Black), gparent, Red, u.(c := Black)), up;
      } else {
        elm', t', path' := elm, t, path;
        var parent' := parent;
        if parent.right == elm {
          BentShapeLeft(t, path);
          Up(t, path);
          RotateLeft(parent, Ascend(path, t), path.up);
          t', path' := Fork(path.l, parent, Red, t.l), InLeft(elm, Red, t.r, path.up);
          Down(Fork(t', elm, Red, t.r), path.up);
          elm', parent' := parent, elm;
        }
        StraightShapeLeft(t', path');
        Up(t', path');
        Up(Ascend(path', t'), path.up);
        LiftLeft(parent', gparent, Ascend(path', t'), u, up);
        path' := InLeft(parent', Black, Fork(path'.r, gparent, Red, u), up);
      }
    }

    /** Red uncle: parent and uncle turn black, the grandparent red. */
    method UncleRedRight(parent: Node, gparent: Node, uncle: Node, ghost p: Tree, ghost u: Tree, ghost up: Path)
      requires Zip(Fork(u, gparent, Black, p), up)
      requires p.Fork? && p.n == parent && u.Fork? && u.n == uncle
      modifies nodes
      ensures Zip(Fork(u.(c := Black), gparent, Red, p.(c := Black)), up)
    {
      ghost var p', u' := p.(c := Black), u.(c := Black);
      Down(Fork(u, gparent, Black, p), up);
      SetColor(uncle, Black, u, InLeft(gparent, Black, p, up));
      Up(u', InLeft(gparent, Black, p, up));
      Down(Fork(u', gparent, Black, p), up);
      SetColor(parent, Black, p, InRight(u', gparent, Black, up));
      Up(p', InRight(u', gparent, Black, up));
      SetColor(gparent, Red, Fork(u', gparent, Black, p'), up);
    }

    /** Black uncle: the parent turns black and takes the grandparent's place. */
    method LiftRight(parent: Node, gparent: Node, ghost p: Tree, ghost u: Tree, ghost up: Path)
      requires Zip(Fork(u, gparent, Black, p), up)
      requires p.Fork? && p.n == parent
      modifies this`root, nodes
      ensures Zip(p.r, InRight(Fork(u, gparent, Red, p.l), parent, Black, up))
    {
      ghost var p' := p.(c := Black);
      Down(Fork(u, gparent, Black, p), up);
      SetColor(parent, Black, p, InRight(u, gparent, Black, up));
      Up(p', InRight(u, gparent, Black, up));
      SetColor(gparent, Red, Fork(u, gparent, Black, p'), up);
      RotateLeft(gparent, Fork(u, gparent, Red, p'), up);
      Down(Fork(Fork(u, gparent, Red, p.l), parent, Black, p.r), up);
    }

    /** One turn of the loop of RB_INSERT_COLOR when parent is a right child. */
    method InsertStepRight(elm: Node, parent: Node, gparent: Node, ghost t: Tree, ghost path: Path)
      returns (elm': Node, ghost t': Tree, ghost path': Path)
      requires Zip(t, path) && t.Fork? && t.n == elm && RedRed(t, path) && path.n == parent
      requires path.up.InRight? && path.up.n == gparent
      modifies this`root, nodes
      ensures Zip(t', path') && t'.Fork? && t'.n == elm' && IsRed(t') && Rb(t') && PathRb(path', Bh(t'))
      ensures Length(path') < Length(path) && Inorder(Plug(path', t')) == Inorder(Plug(path, t))
    {
      hide Zip;
      ghost var u, up := path.up.l, path.up.up;
      Look(t, path);
      Up(t, path);
      Look(Ascend(path, t), path.up);
      Up(Ascend(path, t), path.up);
      Look(Ascend(path.up, Ascend(path, t)), up);
      Down(Fork(u, gparent, Black, Ascend(path, t)), up);
      Look(u, InLeft(gparent, Black, Ascend(path, t), up));
      var tmp := gparent.left;
      if tmp != null && tmp.color == Red {
        UncleRedShapeRight(t, path);
        UncleRedRight(parent, gparent, tmp, Ascend(path, t), u, up);
        elm', t', path' := gparent, Fork(u.(c := Black), gparent, Red, Ascend(path, t).(c := Black)), up;
      } else {
        elm', t', path' := elm, t, path;
        var parent' := parent;
        if parent.left == elm {
          BentShapeRight(t, path);
          Up(t, path);
          RotateRight(parent, Ascend(path, t), path.up);
          t', path' := Fork(t.r, parent, Red, path.r), InRight(t.l, elm, Red, path.up);
          Down(Fork(t.l, elm, Red, t'), path.up);
          elm', parent' := parent, elm;
        }
        StraightShapeRight(t', path');
        Up(t', path');
        Up(Ascend(path', t'), path.up);
        LiftRight(parent', gparent, Ascend(path', t'), u, up);
        path' := InRight(Fork(u, gparent, Red, path'.l), parent', Black, up);
      }
    }

    /** RB_INSERT_COLOR */
    method InsertColor(elm0: Node, ghost t0: Tree, ghost path0: Path) returns (ghost whole: Tree)
      requires Zip(t0, path0) && t0.Fork? && t0.n == elm0 && IsRed(t0) && Rb(t0) && PathRb(path0, Bh(t0))
      modifies this`root, nodes
      ensures Zip(whole, Root) && Rb(whole) && !IsRed(whole)
      ensures Inorder(whole) == Inorder(Plug(path0, t0))
    {
      hide Zip;
      var elm := elm0;
      ghost var t, path := t0, path0;
      while elm.parent != null && elm.parent.color == Red
        invariant Zip(t, path) && t.Fork? && t.n == elm && IsRed(t) && Rb(t) && PathRb(path, Bh(t))
        invariant Inorder(Plug(path, t)) == Inorder(Plug(path0, t0))
        decreases Length(path)
      {
        var parent := elm.parent;
        var gparent := parent.parent;
        Look(t, path);
        Up(t, path);
        Look(Ascend(path, t), path.up);
        if parent == gparent.left {
          elm, t, path := InsertStepLeft(elm, parent, gparent, t, path);
        } else {
          elm, t, path := InsertStepRight(elm, parent, gparent, t, path);
        }
      }
      Look(t, path);
      UpAll(t, path);
      whole := Plug(path, t);
      BlackenRb(path, t);
      Look(whole, Root);
      SetColor(root, Black, whole, Root);
      whole := whole.(c := Black);
    }

    /** The writes that make elm a red leaf below parent. */
    method Hook(elm: Node, parent: Node?, comp: int)
      requires parent != elm
      modifies this`root, elm, if parent == null then {} else {parent}
      ensures elm.parent == parent && elm.left == null && elm.right == null && elm.color == Red
      ensures parent == null ==> root == elm
      ensures parent != null ==>
                && root == old(root) && parent.parent == old(parent.parent) && parent.color == old(parent.color)
                && parent.left == (if comp < 0 then elm else old(parent.left))
                && parent.right == (if comp < 0 then old(parent.right) else elm)
    {
      elm.parent := parent;
      elm.left, elm.right := null, null;
      elm.color := Red;
      if parent != null {
        if comp < 0 {
          parent.left := elm;
        } else {
          parent.right := elm;
        }
      } else {
        root := elm;
      }
    }

    /** RB_SET, and the link from the parent that the search ended at. */
    method Attach(elm: Node, parent: Node?, comp: int, ghost path: Path)
      requires Zip(Leaf, path) && elm !in nodes && parent == Parent(path)
      requires parent != null ==> (comp < 0 <==> path.InLeft?)
      modifies this, elm, if parent == null then {} else {parent}
      ensures nodes == old(nodes) + {elm} && shape == old(shape)
      ensures Zip(Fork(Leaf, elm, Red, Leaf), path)
    {
      hide Distinct, Apart, Nodes, PathNodes;
      AttachApart(path, elm);
      assert !path.Root? ==> LinkedPath(path.up, path.n, root);
      assert path.InLeft? ==> Linked(path.r, path.n);
      assert path.InRight? ==> Linked(path.l, path.n);
      Hook(elm, parent, comp);
      assert !path.Root? ==> LinkedPath(path.up, path.n, root);
      assert path.InLeft? ==> Linked(path.r, path.n);
      assert path.InRight? ==> Linked(path.l, path.n);
      assert LinkedPath(path, elm, root);
      nodes := nodes + {elm};
      assert Linked(Fork(Leaf, elm, Red, Leaf), parent);
    }

    ghost predicate Valid()
      reads this, nodes
    {
      Zip(shape, Root) && Rb(shape) && !IsRed(shape) && Sorted(Inorder(shape))
    }

    constructor ()
      ensures Valid() && nodes == {}
    {
      root, nodes, shape := null, {}, Leaf;
    }

    /** The search that RB_INSERT and RB_FIND share: the element with k's key, or the empty place for it. */
    method Search(k: Node) returns (found: Node?, parent: Node?, comp: int, ghost path: Path)
      requires Valid()
      ensures found != null ==> found in nodes && found.key == k.key
      ensures found == null ==>
                && Zip(Leaf, path) && parent == Parent(path) && Plug(path, Leaf) == shape
                && (parent != null ==> (comp < 0 <==> path.InLeft?))
                && Brackets(path, k)
    {
      var tmp := root;
      parent, comp := null, 0;
      path := Root;
      ghost var t := shape;
      while tmp != null
        invariant Zip(t, path) && tmp == Top(t) && parent == Parent(path) && Plug(path, t) == shape
        invariant parent != null ==> (comp < 0 <==> path.InLeft?)
        invariant Brackets(path, k)
        decreases t
      {
        parent := tmp;
        comp := Cmp(k, parent);
        Down(t, path);
        SearchStep(t, path, k);
        if comp < 0 {
          tmp, t, path := tmp.left, t.l, InLeft(t.n, t.c, t.r, path);
        } else if comp > 0 {
          tmp, t, path := tmp.right, t.r, InRight(t.l, t.n, t.c, path);
        } else {
          return tmp, parent, comp, path;
        }
      }
      found := null;
    }

    lemma Slot(path: Path, elm: Node)
      requires Valid() && Zip(Leaf, path) && Plug(path, Leaf) == shape
      requires Brackets(path, elm)
      ensures !path.Root? ==> path.n in nodes
      ensures PathRb(path, 0) && Sorted(Inorder(Plug(path, Fork(Leaf, elm, Red, Leaf))))
      ensures forall x :: x in nodes ==> x.key != elm.key
    {
      InsertPosition(path, elm);
      NodesInorder(shape);
      assert nodes == Nodes(shape);
      UnplugRb(path, Leaf);
      assert !path.Root? ==> path.n in PathNodes(path);
    }

    /** RB_INSERT: adds elm, or returns the element already holding its key. */
    method Insert(elm: Node) returns (r: Node?)
      requires Valid() && elm !in nodes
      modifies this, nodes, elm
      ensures Valid()
      ensures r == null ==> nodes == old(nodes) + {elm} && forall x :: x in old(nodes) ==> x.key != elm.key
      ensures r != null ==> r in nodes && r.key == elm.key && nodes == old(nodes) && shape == old(shape)
    {
      hide Zip;
      var found, parent, comp, path := Search(elm);
      if found != null {
        return found;
      }
      Slot(path, elm);
      Attach(elm, parent, comp, path);
      ghost var t := Fork(Leaf, elm, Red, Leaf);
      assert Rb(t) && Bh(t) == 0;
      shape := InsertColor(elm, t, path);
      return null;
    }

    // ---------- removal ----------

    /** What a position that is one black short knows about its sibling. */
    lemma Sibling(t: Tree, path: Path)
      requires Zip(t, path) && Short(t, path) && !path.Root?
      ensures path.InLeft? ==> path.r.Fork? && path.n.right == path.r.n && path.r.n.color == path.r.c
      ensures path.InRight? ==> path.l.Fork? && path.n.left == path.l.n && path.l.n.color == path.l.c
    {
    }

    /** The colour tests on the children of the sibling s. */
    method BlackChildren(tmp: Node, ghost s: Tree, ghost t: Tree, ghost path: Path)
      returns (leftBlack: bool, rightBlack: bool)
      requires Zip(t, path) && s.Fork? && s.n == tmp
      requires (path.InLeft? && path.r == s) || (path.InRight? && path.l == s)
      ensures leftBlack == !IsRed(s.l) && rightBlack == !IsRed(s.r)
    {
      assert Linked(s, path.n);
      assert Linked(s.l, tmp) && Linked(s.r, tmp);
      leftBlack := tmp.left == null || tmp.left.color == Black;
      rightBlack := tmp.right == null || tmp.right.color == Black;
    }

    /** Red sibling: it takes the parent's place and turns black, the parent red. */
    method RedSiblingLeft(parent: Node, tmp: Node, ghost t: Tree, ghost path: Path) returns (ghost path': Path)
      requires Zip(t, path) && path.InLeft? && path.n == parent && path.r.Fork? && path.r.n == tmp
      modifies this`root, nodes
      ensures path' == InLeft(parent, Red, path.r.l, InLeft(tmp, Black, path.r.r, path.up))
      ensures Zip(t, path')
    {
      hide Zip;
      ghost var s, s', up := path.r, path.r.(c := Black), path.up;
      Up(t, path);
      Down(Fork(t, parent, path.c, s), up);
      SetColor(tmp, Black, s, InRight(t, parent, path.c, up));
      Up(s', InRight(t, parent, path.c, up));
      SetColor(parent, Red, Fork(t, parent, path.c, s'), up);
      RotateLeft(parent, Fork(t, parent, Red, s'), up);
      Down(Fork(Fork(t, parent, Red, s.l), tmp, Black, s.r), up);
      Down(Fork(t, parent, Red, s.l), InLeft(tmp, Black, s.r, up));
      path' := InLeft(parent, Red, s.l, InLeft(tmp, Black, s.r, up));
    }

    /** Black sibling whose inner child is red: that child becomes the sibling. */
    method InnerNephewLeft(parent: Node, tmp: Node, ghost t: Tree, ghost path: Path) returns (ghost path': Path)
      requires Zip(t, path) && path.InLeft? && path.n == parent && path.r.Fork? && path.r.n == tmp
      modifies this`root, nodes
      requires path.r.l.Fork?
      ensures var s, o := path.r, path.r.l;
        path' == InLeft(parent, path.c, Fork(o.l, o.n, Black, Fork(o.r, tmp, Red, s.r)), path.up)
      ensures Zip(t, path')
    {
      hide Zip;
      ghost var s, o, up := path.r, path.r.l, path.up;
      ghost var o', frame := o.(c := Black), InRight(t, parent, path.c, up);
      Up(t, path);
      Down(Fork(t, parent, path.c, s), up);
      Look(s, frame);
      var oleft := tmp.left;
      Down(s, frame);
      SetColor(oleft, Black, o, InLeft(tmp, s.c, s.r, frame));
      Up(o', InLeft(tmp, s.c, s.r, frame));
      SetColor(tmp, Red, Fork(o', tmp, s.c, s.r), frame);
      RotateRight(tmp, Fork(o', tmp, Red, s.r), frame);
      ghost var s' := Fork(o.l, o.n, Black, Fork(o.r, tmp, Red, s.r));
      Up(s', frame);
      Down(Fork(t, parent, path.c, s'), up);
      path' := InLeft(parent, path.c, s', up);
    }

    /** Black sibling whose outer child is red: the last rotation. */
    method OuterNephewLeft(parent: Node, tmp: Node, ghost t: Tree, ghost path: Path)
      requires Zip(t, path) && path.InLeft? && path.n == parent && path.r.Fork? && path.r.n == tmp
      modifies this`root, nodes
      requires path.r.r.Fork?
      ensures Zip(Fork(Fork(t, parent, Black, path.r.l), tmp, path.c, path.r.r.(c := Black)), path.up)
    {
      hide Zip;
      ghost var s, s', up := path.r, path.r.(c := path.c), path.up;
      ghost var o, o' := s.r, s.r.(c := Black);
      Look(t, path);
      Up(t, path);
      Down(Fork(t, parent, path.c, s), up);
      SetColor(tmp, parent.color, s, InRight(t, parent, path.c, up));
      Up(s', InRight(t, parent, path.c, up));
      SetColor(parent, Black, Fork(t, parent, path.c, s'), up);
      Down(Fork(t, parent, Black, s'), up);
      Look(s', InRight(t, parent, Black, up));
      Down(s', InRight(t, parent, Black, up));
      SetColor(tmp.right, Black, o, InRight(s.l, tmp, path.c, InRight(t, parent, Black, up)));
      Up(o', InRight(s.l, tmp, path.c, InRight(t, parent, Black, up)));
      Up(Fork(s.l, tmp, path.c, o'), InRight(t, parent, Black, up));
      RotateLeft(parent, Fork(t, parent, Black, Fork(s.l, tmp, path.c, o')), up);
    }

    /** One turn of the loop of RB_REMOVE_COLOR when elm is a left child. */
    method RemoveStepLeft(elm: Node?, parent: Node, ghost t: Tree, ghost path: Path)
      returns (done: bool, elm': Node?, parent': Node?, ghost t': Tree, ghost path': Path)
      requires Zip(t, path) && Short(t, path) && !IsRed(t) && path.InLeft? && path.n == parent && elm == Top(t)
      modifies this`root, nodes
      ensures Zip(t', path') && Inorder(Plug(path', t')) == Inorder(Plug(path, t))
      ensures !done ==>
        && Short(t', path') && elm' == Top(t') && parent' == Parent(path')
        && (IsRed(t') || Length(path') < Length(path))
      ensures done ==>
        && Rb(t') && PathRb(path', Bh(t')) && t'.Fork? && (IsRed(t') ==> !RedPath(path') && !path'.Root?)
    {
      hide Zip;
      Sibling(t, path);
      Look(t, path);
      var tmp := parent.right;
      t', path' := t, path;
      if tmp.color == Red {
        RedSiblingShapeLeft(t, path);
        path' := RedSiblingLeft(parent, tmp, t, path);
        Sibling(t, path');
        Look(t, path');
        tmp := parent.right;
      }
      BlackNephewsShapeLeft(t, path');
      ghost var s := path'.r;
      var leftBlack, rightBlack := BlackChildren(tmp, s, t, path');
      if leftBlack && rightBlack {
        Up(t, path');
        Down(Fork(t, parent, path'.c, s), path'.up);
        SetColor(tmp, Red, s, InRight(t, parent, path'.c, path'.up));
        Up(s.(c := Red), InRight(t, parent, path'.c, path'.up));
        t', path' := Fork(t, parent, path'.c, s.(c := Red)), path'.up;
        Look(t', path');
        return false, parent, parent.parent, t', path';
      }
      if rightBlack {
        InnerNephewShapeLeft(t, path');
        path' := InnerNephewLeft(parent, tmp, t, path');
        Look(t, path');
        tmp := parent.right;
      }
      OuterNephewShapeLeft(t, path');
      OuterNephewLeft(parent, tmp, t, path');
      t', path' := Fork(Fork(t, parent, Black, path'.r.l), tmp, path'.c, path'.r.r.(c := Black)), path'.up;
      return true, root, null, t', path';
    }

    /** Red sibling: it takes the parent's place and turns black, the parent red. */
    method RedSiblingRight(parent: Node, tmp: Node, ghost t: Tree, ghost path: Path) returns (ghost path': Path)
      requires Zip(t, path) && path.InRight? && path.n == parent && path.l.Fork? && path.l.n == tmp
      modifies this`root, nodes
      ensures path' == InRight(path.l.r, parent, Red, InRight(path.l.l, tmp, Black, path.up))
      ensures Zip(t, path')
    {
      hide Zip;
      ghost var s, s', up := path.l, path.l.(c := Black), path.up;
      Up(t, path);
      Down(Fork(s, parent, path.c, t), up);
      SetColor(tmp, Black, s, InLeft(parent, path.c, t, up));
      Up(s', InLeft(parent, path.c, t, up));
      SetColor(parent, Red, Fork(s', parent, path.c, t), up);
      RotateRight(parent, Fork(s', parent, Red, t), up);
      Down(Fork(s.l, tmp, Black, Fork(s.r, parent, Red, t)), up);
      Down(Fork(s.r, parent, Red, t), InRight(s.l, tmp, Black, up));
      path' := InRight(s.r, parent, Red, InRight(s.l, tmp, Black, up));
    }

    /** Black sibling whose inner child is red: that child becomes the sibling. */
    method InnerNephewRight(parent: Node, tmp: Node, ghost t: Tree, ghost path: Path) returns (ghost path': Path)
      requires Zip(t, path) && path.InRight? && path.n == parent && path.l.Fork? && path.l.n == tmp
      modifies this`root, nodes
      requires path.l.r.Fork?
      ensures var s, o := path.l, path.l.r;
        path' == InRight(Fork(Fork(s.l, tmp, Red, o.l), o.n, Black, o.r), parent, path.c, path.up)
      ensures Zip(t, path')
    {
      hide Zip;
      ghost var s, o, up := path.l, path.l.r, path.up;
      ghost var o', frame := o.(c := Black), InLeft(parent, path.c, t, up);
      Up(t, path);
      Down(Fork(s, parent, path.c, t), up);
      Look(s, frame);
      var oright := tmp.right;
      Down(s, frame);
      SetColor(oright, Black, o, InRight(s.l, tmp, s.c, frame));
      Up(o', InRight(s.l, tmp, s.c, frame));
      SetColor(tmp, Red, Fork(s.l, tmp, s.c, o'), frame);
      RotateLeft(tmp, Fork(s.l, tmp, Red, o'), frame);
      ghost var s' := Fork(Fork(s.l, tmp, Red, o.l), o.n, Black, o.r);
      Up(s', frame);
      Down(Fork(s', parent, path.c, t), up);
      path' := InRight(s', parent, path.c, up);
    }

    /** Black sibling whose outer child is red: the last rotation. */
    method OuterNephewRight(parent: Node, tmp: Node, ghost t: Tree, ghost path: Path)
      requires Zip(t, path) && path.InRight? && path.n == parent && path.l.Fork? && path.l.n == tmp
      modifies this`root, nodes
      requires path.l.l.Fork?
      ensures Zip(Fork(path.l.l.(c := Black), tmp, path.c, Fork(path.l.r, parent, Black, t)), path.up)
    {
      hide Zip;
      ghost var s, s', up := path.l, path.l.(c := path.c), path.up;
      ghost var o, o' := s.l, s.l.(c := Black);
      Look(t, path);
      Up(t, path);
      Down(Fork(s, parent, path.c, t), up);
      SetColor(tmp, parent.color, s, InLeft(parent, path.c, t, up));
      Up(s', InLeft(parent, path.c, t, up));
      SetColor(parent, Black, Fork(s', parent, path.c, t), up);
      Down(Fork(s', parent, Black, t), up);
      Look(s', InLeft(parent, Black, t, up));
      Down(s', InLeft(parent, Black, t, up));
      SetColor(tmp.left, Black, o, InLeft(tmp, path.c, s.r, InLeft(parent, Black, t, up)));
      Up(o', InLeft(tmp, path.c, s.r, InLeft(parent, Black, t, up)));
      Up(Fork(o', tmp, path.c, s.r), InLeft(parent, Black, t, up));
      RotateRight(parent, Fork(Fork(o', tmp, path.c, s.r), parent, Black, t), up);
    }

    /** One turn of the loop of RB_REMOVE_COLOR when elm is a right child. */
    method RemoveStepRight(elm: Node?, parent: Node, ghost t: Tree, ghost path: Path)
      returns (done: bool, elm': Node?, parent': Node?, ghost t': Tree, ghost path': Path)
      requires Zip(t, path) && Short(t, path) && !IsRed(t) && path.InRight? && path.n == parent && elm == Top(t)
      modifies this`root, nodes
      ensures Zip(t', path') && Inorder(Plug(path', t')) == Inorder(Plug(path, t))
      ensures !done ==>
        && Short(t', path') && elm' == Top(t') && parent' == Parent(path')
        && (IsRed(t') || Length(path') < Length(path))
      ensures done ==>
        && Rb(t') && PathRb(path', Bh(t')) && t'.Fork? && (IsRed(t') ==> !RedPath(path') && !path'.Root?)
    {
      hide Zip;
      Sibling(t, path);
      Look(t, path);
      var tmp := parent.left;
      t', path' := t, path;
      if tmp.color == Red {
        RedSiblingShapeRight(t, path);
        path' := RedSiblingRight(parent, tmp, t, path);
        Sibling(t, path');
        Look(t, path');
        tmp := parent.left;
      }
      BlackNephewsShapeRight(t, path');
      ghost var s := path'.l;
      var leftBlack, rightBlack := BlackChildren(tmp, s, t, path');
      if leftBlack && rightBlack {
        Up(t, path');
        Down(Fork(s, parent, path'.c, t), path'.up);
        SetColor(tmp, Red, s, InLeft(parent, path'.c, t, path'.up));
        Up(s.(c := Red), InLeft(parent, path'.c, t, path'.up));
        t', path' := Fork(s.(c := Red), parent, path'.c, t), path'.up;
        Look(t', path');
        return false, parent, parent.parent, t', path';
      }
      if leftBlack {
        InnerNephewShapeRight(t, path');
        path' := InnerNephewRight(parent, tmp, t, path');
        Look(t, path');
        tmp := parent.left;
      }
      OuterNephewShapeRight(t, path');
      OuterNephewRight(parent, tmp, t, path');
      t', path' := Fork(path'.l.l.(c := Black), tmp, path'.c, Fork(path'.l.r, parent, Black, t)), path'.up;
      return true, root, null, t', path';
    }

    lemma {:induction false} RootAbove(path: Path, hole: Node?)
      requires LinkedPath(path, hole, root) && !path.Root?
      ensures root != null && root in PathNodes(path)
    {
      if path.up.Root? {
      } else {
        RootAbove(path.up, path.n);
      }
    }

    lemma AtRoot(t: Tree, path: Path)
      requires Zip(t, path)
      ensures root == Top(t) <==> path.Root?
    {
      if !path.Root? {
        RootAbove(path, Top(t));
        ApartDisjoint(path, Nodes(t));
      }
    }

    /** RB_REMOVE_COLOR */
    method RemoveColor(parent0: Node?, elm0: Node?, ghost t0: Tree, ghost path0: Path) returns (ghost whole: Tree)
      requires Zip(t0, path0) && Short(t0, path0) && elm0 == Top(t0) && parent0 == Parent(path0)
      modifies this`root, nodes
      ensures Zip(whole, Root) && Rb(whole) && !IsRed(whole)
      ensures Inorder(whole) == Inorder(Plug(path0, t0))
    {
      hide Zip, Rb, PathRb, Short, Inorder, Plug;
      var elm, parent, done := elm0, parent0, false;
      ghost var t, path := t0, path0;
      AtRoot(t, path);
      Look(t, path);
      while (elm == null || elm.color == Black) && elm != root
        invariant Zip(t, path) && Inorder(Plug(path, t)) == Inorder(Plug(path0, t0))
        invariant Short(t, path) && elm == Top(t) && parent == Parent(path)
        invariant elm == root <==> path.Root?
        invariant elm != null ==> elm.color == t.c && elm in nodes
        decreases if IsRed(t) then 0 else 1 + Length(path)
      {
        Look(t, path);
        Sibling(t, path);
        if parent.left == elm {
          done, elm, parent, t, path := RemoveStepLeft(elm, parent, t, path);
        } else {
          done, elm, parent, t, path := RemoveStepRight(elm, parent, t, path);
        }
        if done {
          PlugRb(path, t);
          PlugFork(path, t);
          UpAll(t, path);
          whole := Plug(path, t);
          Look(whole, Root);
          SetColor(root, Black, whole, Root);
          assert whole.(c := Black) == whole;
          return;
        }
        AtRoot(t, path);
        Look(t, path);
      }
      Settled(t, path);
      if elm != null {
        SetColor(elm, Black, t, path);
        t := t.(c := Black);
      }
      UpAll(t, path);
      whole := Plug(path, t);
    }

    lemma {:induction false} UpAlong(inner: Path, t: Tree, path: Path)
      requires Zip(t, Compose(inner, path))
      ensures Zip(Plug(inner, t), path)
      decreases inner
    {
      if !inner.Root? {
        Up(t, Compose(inner, path));
        UpAlong(inner.up, Ascend(inner, t), path);
      }
    }

    /** The writes that take elm out of the links. */
    method Unlink(elm: Node, child: Node?, parent: Node?)
      requires child != elm && parent != elm && (parent != null ==> parent != child)
      modifies this`root, if child == null then {} else {child}, if parent == null then {} else {parent}
      ensures child != null ==>
                && child.parent == parent && child.left == old(child.left) && child.right == old(child.right)
                && child.color == old(child.color)
      ensures Redirected(parent, elm, child)
    {
      if child != null {
        child.parent := parent;
      }
      if parent != null {
        if parent.left == elm {
          parent.left := child;
        } else {
          parent.right := child;
        }
      } else {
        root := child;
      }
    }

    /** Takes elm, which has at most one child, out of the tree: child stands in its place. */
    method Splice(elm: Node, child: Node?, parent: Node?, ghost t: Tree, ghost path: Path)
      requires Zip(t, path) && t.Fork? && t.n == elm && (t.l.Leaf? || t.r.Leaf?)
      requires child == Top(OnlyChild(t)) && parent == Parent(path)
      modifies this`root, this`nodes, if child == null then {} else {child}, if parent == null then {} else {parent}
      ensures nodes == old(nodes) - {elm}
      ensures Zip(OnlyChild(t), path)
    {
      hide Distinct, Apart, Nodes, PathNodes;
      ghost var ct := OnlyChild(t);
      Look(t, path);
      SpliceApart(t, path);
      TopApart(t);
      TopApart(ct);
      PathTopApart(path, elm);
      assert Linked(ct, elm);
      assert !path.Root? ==> LinkedPath(path.up, path.n, root);
      Unlink(elm, child, parent);
      assert Linked(ct, parent);
      assert !path.Root? ==> LinkedPath(path.up, path.n, root);
      assert path.InLeft? ==> Linked(path.r, path.n);
      assert path.InRight? ==> Linked(path.l, path.n);
      assert LinkedPath(path, child, root);
      nodes := nodes - {elm};
    }

    /** The writes that put elm into the place of was. */
    method CopyLinks(was: Node, elm: Node)
      requires was != elm && was.left != null && was.left != was && was.left != elm
      requires was.right != was && was.right != elm && was.left != was.right
      requires was.parent != was && was.parent != elm
      requires was.parent != null ==> was.parent != was.left && was.parent != was.right
      modifies this`root, elm, was.left, if was.right == null then {} else {was.right}
      modifies if was.parent == null then {} else {was.parent}
      ensures elm.left == was.left && elm.right == was.right && elm.parent == was.parent && elm.color == was.color
      ensures Redirected(was.parent, was, elm)
      ensures was.left.parent == elm && was.left.left == old(was.left.left)
      ensures was.left.right == old(was.left.right) && was.left.color == old(was.left.color)
      ensures was.right != null ==>
                && was.right.parent == elm && was.right.left == old(was.right.left)
                && was.right.right == old(was.right.right) && was.right.color == old(was.right.color)
    {
      elm.left, elm.right, elm.parent, elm.color := was.left, was.right, was.parent, was.color;
      if was.parent != null {
        if was.parent.left == was {
          was.parent.left := elm;
        } else {
          was.parent.right := elm;
        }
      } else {
        root := elm;
      }
      was.left.parent := elm;
      if was.right != null {
        was.right.parent := elm;
      }
    }

    /** Puts elm into the place of was: same children, parent and colour. */
    method Replace(was: Node, elm: Node, ghost t: Tree, ghost path: Path)
      requires Zip(t, path) && t.Fork? && t.n == was && t.l.Fork? && elm !in nodes
      modifies this`root, this`nodes, nodes, elm
      ensures nodes == old(nodes) - {was} + {elm}
      ensures Zip(t.(n := elm), path)
    {
      hide Distinct, Apart, PathNodes;
      ReplaceApart(t, path, elm);
      TakePlace(was, elm, t.l, t.r, path);
      nodes := nodes - {was} + {elm};
    }

    method TakePlace(was: Node, elm: Node, ghost l: Tree, ghost r: Tree, ghost path: Path)
      requires Linked(l, was) && Linked(r, was) && LinkedPath(path, was, root)
      requires was.left == Top(l) && l.Fork? && was.right == Top(r) && was.parent == Parent(path)
      requires Distinct(l) && Distinct(r) && Nodes(l) !! Nodes(r) && Apart(path, {was})
      requires PathNodes(path) !! Nodes(l) && PathNodes(path) !! Nodes(r)
      requires Nodes(l) <= nodes && Nodes(r) <= nodes && PathNodes(path) <= nodes
      requires was in nodes && was !in Nodes(l) && was !in Nodes(r) && elm !in nodes
      modifies this`root, nodes, elm
      ensures Linked(l, elm) && Linked(r, elm) && LinkedPath(path, elm, root)
      ensures elm.left == Top(l) && elm.right == Top(r) && elm.parent == Parent(path) && elm.color == old(was.color)
    {
      PathTopApart(path, was);
      TopApart(l);
      TopApart(r);
      CopyLinks(was, elm);
      assert Linked(l, elm);
      assert Linked(r, elm);
      assert LinkedPath(path, elm, root);
    }

    /** The path of x inside the subtree at (t, path), and x's own subtree. */
    lemma Find(t: Tree, path: Path, x: Node) returns (t': Tree, path': Path)
      requires x in Nodes(t) && Zip(t, path)
      ensures t'.Fork? && t'.n == x && Zip(t', path') && Plug(path', t') == Plug(path, t)
      decreases t
    {
      Down(t, path);
      if x == t.n {
        t', path' := t, path;
      } else if x in Nodes(t.l) {
        t', path' := Find(t.l, InLeft(t.n, t.c, t.r, path), x);
      } else {
        t', path' := Find(t.r, InRight(t.l, t.n, t.c, path), x);
      }
    }

    /** The walk to the leftmost element below a node's right child. */
    method Successor(first: Node, ghost r: Tree, ghost path: Path)
      returns (elm: Node, ghost t: Tree, ghost inner: Path)
      requires Zip(r, path) && r.Fork? && r.n == first
      ensures t.Fork? && t.n == elm && t.l.Leaf? && Plug(inner, t) == r && Before(inner) == []
      ensures Zip(t, Compose(inner, path))
    {
      hide Zip;
      elm, t, inner := first, r, Root;
      Look(t, path);
      var left := elm.left;
      while left != null
        invariant t.Fork? && t.n == elm && Plug(inner, t) == r && Before(inner) == []
        invariant Zip(t, Compose(inner, path)) && left == Top(t.l)
        decreases t
      {
        Down(t, Compose(inner, path));
        elm, t, inner := left, t.l, InLeft(t.n, t.c, t.r, inner);
        Look(t, Compose(inner, path));
        left := elm.left;
      }
    }

    /** RB_REMOVE of an element with at most one child. */
    method RemoveOuter(elm: Node, child: Node?, ghost t: Tree, ghost path: Path)
      requires Valid() && Zip(t, path) && Plug(path, t) == shape && t.Fork? && t.n == elm
      requires (t.l.Leaf? || t.r.Leaf?) && child == Top(OnlyChild(t))
      modifies this, nodes
      ensures Valid() && nodes == old(nodes) - {elm}
    {
      hide Zip;
      Look(t, path);
      ChildLinks(t, path);
      RemoveOuterShape(t, path);
      var parent, color := elm.parent, elm.color;
      Splice(elm, child, parent, t, path);
      ghost var ct := OnlyChild(t);
      if color == Black {
        shape := RemoveColor(parent, child, ct, path);
      } else {
        PlugRb(path, ct);
        UpAll(ct, path);
        shape := Plug(path, ct);
      }
    }

    lemma ChildLinks(t: Tree, path: Path)
      requires Zip(t, path) && t.Fork?
      ensures t.l.Fork? ==> t.l.n in nodes
      ensures t.r.Fork? ==> t.r.n in nodes
    {
    }

    /** Splices the successor out at inner and lets it take elm's place, keeping its child's position. */
    method Promote(elm: Node, succ: Node, child: Node?, parent: Node?, ghost t: Tree, ghost path: Path,
                   ghost st: Tree, ghost inner: Path)
      requires t.Fork? && t.n == elm && t.l.Fork? && st.Fork? && st.n == succ && st.l.Leaf?
      requires Zip(st, Compose(inner, InRight(t.l, elm, t.c, path)))
      requires child == Top(st.r) && parent == Parent(Compose(inner, InRight(t.l, elm, t.c, path)))
      modifies this`root, this`nodes, nodes
      ensures nodes == old(nodes) - {elm}
      ensures Zip(st.r, Compose(inner, InRight(t.l, succ, t.c, path)))
    {
      hide Zip;
      ghost var frame, frame' := InRight(t.l, elm, t.c, path), InRight(t.l, succ, t.c, path);
      SplicedApart(st, inner, frame);
      Splice(succ, child, parent, st, Compose(inner, frame));
      UpAlong(inner, st.r, frame);
      Up(Plug(inner, st.r), frame);
      ghost var t' := Fork(t.l, elm, t.c, Plug(inner, st.r));
      Replace(elm, succ, t', path);
      Down(Fork(t.l, succ, t.c, Plug(inner, st.r)), path);
      DownAlong(inner, st.r, frame');
    }

    lemma SplicedApart(st: Tree, inner: Path, frame: Path)
      requires st.Fork? && frame.InRight? && Zip(st, Compose(inner, frame))
      ensures st.n in nodes && frame.n in nodes && st.n != frame.n
      ensures var p := Compose(inner, frame); !p.Root? && p.n in nodes
      ensures st.r.Fork? ==> st.r.n in nodes
      ensures Parent(Compose(inner, frame)) == frame.n <==> inner.Root?
    {
      FrameOnPath(inner, frame);
      if !inner.Root? {
        FrameOnPath(inner.up, frame);
        ApartMono(Compose(inner, frame), Nodes(st), {st.n});
        PathTopApart(Compose(inner, frame), st.n);
      }
      ApartDisjoint(Compose(inner, frame), Nodes(st));
    }

    /** RB_REMOVE of an element with two children: its successor takes its place. */
    method RemoveInner(elm: Node, ghost t: Tree, ghost path: Path)
      requires Valid() && Zip(t, path) && Plug(path, t) == shape && t.Fork? && t.n == elm
      requires t.l.Fork? && t.r.Fork?
      modifies this, nodes
      ensures Valid() && nodes == old(nodes) - {elm}
    {
      hide Zip;
      Look(t, path);
      Down(t, path);
      var succ, st, inner := Successor(elm.right, t.r, InRight(t.l, elm, t.c, path));
      Look(st, Compose(inner, InRight(t.l, elm, t.c, path)));
      RemoveInnerBalance(t, path, st, inner);
      RemoveInnerOrder(t, path, st, inner);
      var child, parent, color := succ.right, succ.parent, succ.color;
      SplicedApart(st, inner, InRight(t.l, elm, t.c, path));
      Promote(elm, succ, child, parent, t, path, st, inner);
      if parent == elm {
        parent := succ;
      }
      ghost var path' := Compose(inner, InRight(t.l, succ, t.c, path));
      if color == Black {
        shape := RemoveColor(parent, child, st.r, path');
      } else {
        PlugRb(path', st.r);
        UpAll(st.r, path');
        shape := Plug(path', st.r);
      }
    }

    /** RB_REMOVE */
    method Remove(elm: Node) returns (r: Node)
      requires Valid() && elm in nodes
      modifies this, nodes
      ensures Valid() && nodes == old(nodes) - {elm} && r == elm
    {
      ghost var t, path := Find(shape, Root, elm);
      Look(t, path);
      if elm.left == null {
        RemoveOuter(elm, elm.right, t, path);
      } else if elm.right == null {
        RemoveOuter(elm, elm.left, t, path);
      } else {
        RemoveInner(elm, t, path);
      }
      return elm;
    }

    // ---------- search and iteration ----------

    /** RB_FIND */
    method FindKey(k: Node) returns (r: Node?)
      requires Valid()
      ensures r != null ==> r in nodes && r.key == k.key
      ensures r == null ==> forall x :: x in nodes ==> x.key != k.key
    {
      var found, parent, comp, path := Search(k);
      if found == null {
        Slot(path, k);
      }
      return found;
    }

    /** RB_NFIND: the least element that is not below k. */
    method FindFirst(k: Node) returns (r: Node?)
      requires Valid()
      ensures r == null ==> forall x :: x in nodes ==> x.key < k.key
      ensures r != null ==> r in nodes && k.key <= r.key
      ensures r != null ==> forall x :: x in nodes && k.key <= x.key ==> r.key <= x.key
    {
      hide Zip, Rb, IsRed, Sorted, Inorder;
      var tmp, res: Node? := root, null;
      ghost var t, path := shape, Root;
      Look(t, path);
      AllNodes();
      while tmp != null
        invariant Zip(t, path) && tmp == Top(t) && Plug(path, t) == shape
        invariant res == FirstAfter(path)
        invariant Brackets(path, k)
        decreases t
      {
        var comp := Cmp(k, tmp);
        Look(t, path);
        Down(t, path);
        SearchStep(t, path, k);
        if comp < 0 {
          res := tmp;
          tmp, t, path := tmp.left, t.l, InLeft(t.n, t.c, t.r, path);
        } else if comp > 0 {
          tmp, t, path := tmp.right, t.r, InRight(t.l, t.n, t.c, path);
        } else {
          return tmp;
        }
      }
      FirstAfterBound(path, k);
      return res;
    }

    lemma AllNodes()
      requires Valid()
      ensures nodes == Nodes(shape) && forall x :: x in nodes <==> x in Inorder(shape)
      ensures forall i :: 0 <= i < |Inorder(shape)| ==> Inorder(shape)[i] in nodes
    {
      NodesInorder(shape);
      ghost var s := Inorder(shape);
      forall i | 0 <= i < |s|
        ensures s[i] in nodes
      {
        InorderAt(shape, i);
      }
    }

    /** Where the neighbours in key order are, seen from a position. */
    lemma Neighbours(t: Tree, path: Path)
      requires Valid() && Plug(path, t) == shape && t.Fork?
      ensures IsNext(Inorder(shape), t.n,
                if t.r.Fork? then Inorder(t.r)[0] else if After(path) == [] then null else After(path)[0])
      ensures IsPrev(Inorder(shape), t.n,
                if t.l.Fork? then Inorder(t.l)[|Inorder(t.l)| - 1]
                else if Before(path) == [] then null else Before(path)[|Before(path)| - 1])
    {
      hide Zip;
      InorderPlug(path, t);
      assert Inorder(t) == Inorder(t.l) + [t.n] + Inorder(t.r);
      NeighboursIn(Before(path), Inorder(t.l), t.n, Inorder(t.r), After(path));
    }

    /** The leftmost element of a subtree. */
    method FarLeft(elm: Node, ghost t0: Tree, ghost path0: Path) returns (r: Node)
      requires Zip(t0, path0) && t0.Fork? && t0.n == elm
      ensures r == Inorder(t0)[0]
    {
      hide Zip;
      r := elm;
      ghost var t, path := t0, path0;
      Look(t, path);
      while r.left != null
        invariant Zip(t, path) && t.Fork? && t.n == r && r.left == Top(t.l)
        invariant Inorder(t)[0] == Inorder(t0)[0]
        decreases t
      {
        Down(t, path);
        r := r.left;
        t, path := t.l, InLeft(t.n, t.c, t.r, path);
        Look(t, path);
      }
    }

    /** The climb to the nearest ancestor of which elm is on the left. */
    method ClimbLeft(elm: Node, ghost t0: Tree, ghost path0: Path) returns (r: Node?)
      requires Zip(t0, path0) && t0.Fork? && t0.n == elm
      ensures r == if After(path0) == [] then null else After(path0)[0]
    {
      hide Zip;
      var x := elm;
      ghost var t, path := t0, path0;
      Look(t, path);
      if x.parent != null && x == x.parent.left {
        return x.parent;
      }
      while x.parent != null && x == x.parent.right
        invariant Zip(t, path) && t.Fork? && t.n == x && x.parent == Parent(path)
        invariant x.parent != null ==> (x == x.parent.right <==> path.InRight?)
        invariant After(path) == After(path0)
        decreases Length(path)
      {
        Up(t, path);
        x := x.parent;
        t, path := Ascend(path, t), path.up;
        Look(t, path);
      }
      r := x.parent;
    }

    /** RB_NEXT: the next element in key order, or NULL after the last. */
    method Next(elm: Node) returns (r: Node?)
      requires Valid() && elm in nodes
      ensures IsNext(Inorder(shape), elm, r)
    {
      hide Zip;
      AllNodes();
      ghost var t, path := Find(shape, Root, elm);
      Look(t, path);
      Down(t, path);
      Neighbours(t, path);
      if elm.right != null {
        r := FarLeft(elm.right, t.r, InRight(t.l, t.n, t.c, path));
      } else {
        r := ClimbLeft(elm, t, path);
      }
    }

    /** The rightmost element of a subtree. */
    method FarRight(elm: Node, ghost t0: Tree, ghost path0: Path) returns (r: Node)
      requires Zip(t0, path0) && t0.Fork? && t0.n == elm
      ensures r == Inorder(t0)[|Inorder(t0)| - 1]
    {
      hide Zip;
      r := elm;
      ghost var t, path := t0, path0;
      Look(t, path);
      while r.right != null
        invariant Zip(t, path) && t.Fork? && t.n == r && r.right == Top(t.r)
        invariant Inorder(t)[|Inorder(t)| - 1] == Inorder(t0)[|Inorder(t0)| - 1]
        decreases t
      {
        Down(t, path);
        r := r.right;
        t, path := t.r, InRight(t.l, t.n, t.c, path);
        Look(t, path);
      }
    }

    /** The climb to the nearest ancestor of which elm is on the right. */
    method ClimbRight(elm: Node, ghost t0: Tree, ghost path0: Path) returns (r: Node?)
      requires Zip(t0, path0) && t0.Fork? && t0.n == elm
      ensures r == if Before(path0) == [] then null else Before(path0)[|Before(path0)| - 1]
    {
      hide Zip;
      var x := elm;
      ghost var t, path := t0, path0;
      Look(t, path);
      if x.parent != null && x == x.parent.right {
        return x.parent;
      }
      while x.parent != null && x == x.parent.left
        invariant Zip(t, path) && t.Fork? && t.n == x && x.parent == Parent(path)
        invariant x.parent != null ==> (x == x.parent.left <==> path.InLeft?)
        invariant Before(path) == Before(path0)
        decreases Length(path)
      {
        Up(t, path);
        x := x.parent;
        t, path := Ascend(path, t), path.up;
        Look(t, path);
      }
      r := x.parent;
    }

    /** RB_PREV: the previous element in key order, or NULL before the first. */
    method Prev(elm: Node) returns (r: Node?)
      requires Valid() && elm in nodes
      ensures IsPrev(Inorder(shape), elm, r)
    {
      hide Zip;
      AllNodes();
      ghost var t, path := Find(shape, Root, elm);
      Look(t, path);
      Down(t, path);
      Neighbours(t, path);
      if elm.left != null {
        r := FarRight(elm.left, t.l, InLeft(t.n, t.c, t.r, path));
      } else {
        r := ClimbRight(elm, t, path);
      }
    }

    /** RB_MINMAX: the first element when val is negative, otherwise the last. */
    method MinMax(val: int) returns (parent: Node?)
      requires Valid()
      ensures shape.Leaf? ==> parent == null
      ensures shape.Fork? ==> parent == Inorder(shape)[if val < 0 then 0 else |Inorder(shape)| - 1]
    {
      hide Zip;
      var tmp := root;
      parent := null;
      ghost var t, path := shape, Root;
      Look(t, path);
      InorderPlug(path, t);
      while tmp != null
        invariant Zip(t, path) && tmp == Top(t) && parent == Parent(path)
        invariant Before(path) + Inorder(t) + After(path) == Inorder(shape)
        invariant val < 0 ==> Before(path) == [] && (!path.Root? ==> path.InLeft?)
        invariant val >= 0 ==> After(path) == [] && (!path.Root? ==> path.InRight?)
        decreases t
      {
        parent := tmp;
        Look(t, path);
        Down(t, path);
        Descend(t, path);
        if val < 0 {
          tmp, t, path := tmp.left, t.l, InLeft(t.n, t.c, t.r, path);
        } else {
          tmp, t, path := tmp.right, t.r, InRight(t.l, t.n, t.c, path);
        }
      }
    }

    /** RB_FOREACH: the elements in the order the loop meets them. */
    method Foreach() returns (visited: seq<Node>)
      requires Valid()
      ensures visited == Inorder(shape)
    {
      hide Zip, Rb, Sorted, IsNext, Inorder;
      ghost var s := Inorder(shape);
      AllNodes();
      visited := [];
      var x := MinMax(-1);
      while x != null
        invariant |visited| <= |s| && visited == s[..|visited|]
        invariant x == if |visited| < |s| then s[|visited|] else null
        decreases |s| - |visited|
      {
        var next := Next(x);
        NextAt(s, |visited|, next);
        visited := visited + [x];
        x := next;
      }
    }

    /** The bound the header promises on the height: 2 lg (n + 1). */
    lemma HeightPromise()
      requires Valid()
      ensures Pow2(Height(shape)) <= (|nodes| + 1) * (|nodes| + 1)
    {
      AllNodes();
      CountNodes(shape);
      HeightBound(shape);
    }

    /** So no path from the root has more than 2 lg (n + 1) nodes. */
    lemma PathPromise(path: Path, t: Tree)
      requires Valid() && Plug(path, t) == shape
      ensures Pow2(Length(path)) <= (|nodes| + 1) * (|nodes| + 1)
    {
      hide Valid, Plug, Height;
      HeightPromise();
      PathsFit(path, t);
      Pow2Mono(Length(path), Height(shape));
    }
  }
}
