/** The nodes of a red-black tree and the mathematical shapes its memory represents:
    a Tree, and a Path from a position of the tree up to the root. A position is a pair
    of a Path and the Tree hanging there, so that the pointer walks of the program, which
    climb through parent fields, become walks along a Path. */
module RedBlackShapes {
  import opened Basics

  datatype Color = Red | Black

  /** One element with its RB_ENTRY. Keys stand for the elements' total order. */
  class Node {
    const key: int
    var left: Node?
    var right: Node?
    var parent: Node?
    var color: Color

    constructor (key: int)
      ensures this.key == key
    {
      this.key := key;
      left, right, parent, color := null, null, null, Black;
    }
  }

  datatype Tree = Leaf | Fork(l: Tree, n: Node, c: Color, r: Tree)

  /** InLeft: the hole is the left child of n, whose right subtree is r. */
  datatype Path =
    | Root
    | InLeft(n: Node, c: Color, r: Tree, up: Path)
    | InRight(l: Tree, n: Node, c: Color, up: Path)

  ghost function Nodes(t: Tree): set<Node> {
    match t
    case Leaf => {}
    case Fork(l, n, _, r) => Nodes(l) + {n} + Nodes(r)
  }

  ghost function PathNodes(path: Path): set<Node> {
    match path
    case Root => {}
    case InLeft(n, _, r, up) => {n} + Nodes(r) + PathNodes(up)
    case InRight(l, n, _, up) => Nodes(l) + {n} + PathNodes(up)
  }

  ghost function Top(t: Tree): Node? {
    if t.Leaf? then null else t.n
  }

  ghost function Parent(path: Path): Node? {
    if path.Root? then null else path.n
  }

  /** The whole tree of a position. */
  ghost function Plug(path: Path, t: Tree): Tree {
    match path
    case Root => t
    case InLeft(n, c, r, up) => Plug(up, Fork(t, n, c, r))
    case InRight(l, n, c, up) => Plug(up, Fork(l, n, c, t))
  }

  /** The subtree one step up. */
  ghost function Ascend(path: Path, t: Tree): Tree
    requires !path.Root?
  {
    if path.InLeft? then Fork(t, path.n, path.c, path.r) else Fork(path.l, path.n, path.c, t)
  }

  /** Continue the climb of inner with outer. */
  ghost function Compose(inner: Path, outer: Path): Path {
    match inner
    case Root => outer
    case InLeft(n, c, r, up) => InLeft(n, c, r, Compose(up, outer))
    case InRight(l, n, c, up) => InRight(l, n, c, Compose(up, outer))
  }

  lemma {:induction false} PlugCompose(inner: Path, outer: Path, t: Tree)
    ensures Plug(Compose(inner, outer), t) == Plug(outer, Plug(inner, t))
  {
    match inner
    case Root =>
    case InLeft(n, c, r, up) => PlugCompose(up, outer, Fork(t, n, c, r));
    case InRight(l, n, c, up) => PlugCompose(up, outer, Fork(l, n, c, t));
  }

  ghost function Length(path: Path): nat {
    if path.Root? then 0 else 1 + Length(path.up)
  }

  // ---------- order ----------

  ghost function Inorder(t: Tree): seq<Node> {
    match t
    case Leaf => []
    case Fork(l, n, _, r) => Inorder(l) + [n] + Inorder(r)
  }

  ghost function Before(path: Path): seq<Node> {
    match path
    case Root => []
    case InLeft(_, _, _, up) => Before(up)
    case InRight(l, n, _, up) => Before(up) + (Inorder(l) + [n])
  }

  ghost function After(path: Path): seq<Node> {
    match path
    case Root => []
    case InLeft(n, _, r, up) => [n] + Inorder(r) + After(up)
    case InRight(_, _, _, up) => After(up)
  }

  lemma {:induction false} InorderPlug(path: Path, t: Tree)
    ensures Inorder(Plug(path, t)) == Before(path) + Inorder(t) + After(path)
  {
    match path
    case Root =>
    case InLeft(n, c, r, up) =>
      InorderPlug(up, Fork(t, n, c, r));
      Reassociate(Before(up), Inorder(t), [n] + Inorder(r), After(up));
      assert Inorder(t) + [n] + Inorder(r) == Inorder(t) + ([n] + Inorder(r));
    case InRight(l, n, c, up) =>
      InorderPlug(up, Fork(l, n, c, t));
      Reassociate(Before(up), Inorder(l) + [n], Inorder(t), After(up));
  }

  lemma Reassociate<T>(a: seq<T>, b: seq<T>, c: seq<T>, d: seq<T>)
    ensures a + (b + c) + d == a + b + c + d == a + b + (c + d)
  {
  }

  /** The search order: keys ascend strictly. */
  ghost predicate Sorted(s: seq<Node>) {
    forall i, j :: 0 <= i < j < |s| ==> s[i].key < s[j].key
  }

  lemma SortedAround(a: seq<Node>, n: Node, b: seq<Node>)
    requires Sorted(a + [n] + b)
    ensures Sorted(a) && Sorted(b)
    ensures forall x :: x in a ==> x.key < n.key
    ensures forall x :: x in b ==> n.key < x.key
  {
    var s := a + [n] + b;
    assert forall i :: 0 <= i < |a| ==> s[i] == a[i];
    assert s[|a|] == n;
    assert forall i :: 0 <= i < |b| ==> s[|a| + 1 + i] == b[i];
  }

  lemma SameInorder(path: Path, t: Tree, t': Tree)
    requires Inorder(t) == Inorder(t')
    ensures Inorder(Plug(path, t)) == Inorder(Plug(path, t'))
  {
    InorderPlug(path, t);
    InorderPlug(path, t');
  }

  /** The comparator: negative, zero or positive as the first key is below, at or above the second. */
  function Cmp(a: Node, b: Node): int {
    a.key - b.key
  }

  /** Everything before the position is below k, everything after it above. */
  ghost predicate Brackets(path: Path, k: Node) {
    && (forall x :: x in Before(path) ==> x.key < k.key)
    && (forall x :: x in After(path) ==> k.key < x.key)
  }

  lemma SearchStep(t: Tree, path: Path, k: Node)
    requires Sorted(Inorder(Plug(path, t))) && t.Fork? && Brackets(path, k)
    ensures Cmp(k, t.n) < 0 ==> Brackets(InLeft(t.n, t.c, t.r, path), k)
    ensures Cmp(k, t.n) > 0 ==> Brackets(InRight(t.l, t.n, t.c, path), k)
  {
    InorderPlug(path, t);
    assert Inorder(t) == Inorder(t.l) + [t.n] + Inorder(t.r);
    SortedMiddle(Before(path), Inorder(t.l), t.n, Inorder(t.r), After(path));
  }

  lemma SortedMiddle(a: seq<Node>, l: seq<Node>, n: Node, r: seq<Node>, b: seq<Node>)
    requires Sorted(a + (l + [n] + r) + b)
    ensures forall x :: x in a ==> x.key < n.key
    ensures forall x :: x in l ==> x.key < n.key
    ensures forall x :: x in r ==> n.key < x.key
    ensures forall x :: x in b ==> n.key < x.key
  {
    assert a + (l + [n] + r) + b == (a + l) + [n] + (r + b);
    SortedAround(a + l, n, r + b);
    forall x | x in a ensures x in a + l {}
    forall x | x in l ensures x in a + l {}
    forall x | x in r ensures x in r + b {}
    forall x | x in b ensures x in r + b {}
  }

  lemma SortedInsert(a: seq<Node>, n: Node, b: seq<Node>)
    requires Sorted(a + b)
    requires forall x :: x in a ==> x.key < n.key
    requires forall x :: x in b ==> n.key < x.key
    ensures Sorted(a + [n] + b)
  {
    var s, s' := a + b, a + [n] + b;
    forall i, j | 0 <= i < j < |s'|
      ensures s'[i].key < s'[j].key
    {
      assert i < |a| ==> s[i] == a[i];
      assert j > |a| ==> s[j - 1] == b[j - 1 - |a|];
      assert i > |a| ==> s[i - 1] == b[i - 1 - |a|];
      assert j < |a| ==> s[j] == a[j];
    }
  }

  /** A search that ends in an empty place has found where the key belongs. */
  lemma InsertPosition(path: Path, elm: Node)
    requires Sorted(Inorder(Plug(path, Leaf)))
    requires Brackets(path, elm)
    ensures Sorted(Inorder(Plug(path, Fork(Leaf, elm, Red, Leaf))))
    ensures forall x :: x in Inorder(Plug(path, Leaf)) ==> x.key != elm.key
  {
    InorderPlug(path, Leaf);
    InorderPlug(path, Fork(Leaf, elm, Red, Leaf));
    assert Before(path) + [] + After(path) == Before(path) + After(path);
    assert [] + [elm] + [] == [elm];
    SortedInsert(Before(path), elm, After(path));
  }

  lemma {:induction false} NodesInorder(t: Tree)
    ensures forall x :: x in Nodes(t) <==> x in Inorder(t)
  {
    match t
    case Leaf =>
    case Fork(l, n, c, r) => NodesInorder(l); NodesInorder(r);
  }

  // ---------- balance ----------

  ghost predicate IsRed(t: Tree) {
    t.Fork? && t.c.Red?
  }

  ghost function Weight(c: Color): nat {
    if c.Black? then 1 else 0
  }

  /** Black height, counted along the left edge. */
  ghost function Bh(t: Tree): nat {
    match t
    case Leaf => 0
    case Fork(l, _, c, _) => Bh(l) + Weight(c)
  }

  /** Equal black counts on all search paths, and no red node with a red child. */
  ghost predicate Rb(t: Tree) {
    match t
    case Leaf => true
    case Fork(l, _, c, r) =>
      && Rb(l) && Rb(r) && Bh(l) == Bh(r)
      && (c.Red? ==> !IsRed(l) && !IsRed(r))
  }

  /** What the surroundings of a position ask of a tree of black height h hanging there.
      The outermost frame is black: the root is. */
  ghost predicate PathRb(path: Path, h: nat) {
    match path
    case Root => true
    case InLeft(_, c, r, up) => SideRb(c, r, up, h) && PathRb(up, h + Weight(c))
    case InRight(l, _, c, up) => SideRb(c, l, up, h) && PathRb(up, h + Weight(c))
  }

  ghost predicate RedPath(path: Path) {
    !path.Root? && path.c.Red?
  }

  ghost predicate SideRb(c: Color, side: Tree, up: Path, h: nat) {
    && Rb(side) && Bh(side) == h
    && (c.Red? ==> !IsRed(side) && !up.Root? && up.c.Black?)
  }

  /** Good surroundings and a good tree make a good whole. */
  lemma {:induction false} PlugRb(path: Path, t: Tree)
    requires Rb(t) && PathRb(path, Bh(t)) && (IsRed(t) ==> !RedPath(path) && !path.Root?)
    ensures Rb(Plug(path, t)) && !IsRed(Plug(path, t))
  {
    match path
    case Root =>
    case InLeft(n, c, r, up) => PlugRb(up, Fork(t, n, c, r));
    case InRight(l, n, c, up) => PlugRb(up, Fork(l, n, c, t));
  }

  /** Conversely, every position of a good tree has good surroundings. */
  lemma {:induction false} UnplugRb(path: Path, t: Tree)
    requires Rb(Plug(path, t)) && !IsRed(Plug(path, t))
    ensures Rb(t) && PathRb(path, Bh(t))
    ensures IsRed(t) ==> !RedPath(path) && !path.Root?
  {
    match path
    case Root =>
    case InLeft(n, c, r, up) => UnplugRb(up, Fork(t, n, c, r));
    case InRight(l, n, c, up) => UnplugRb(up, Fork(l, n, c, t));
  }

  ghost function Height(t: Tree): nat {
    match t
    case Leaf => 0
    case Fork(l, _, _, r) => 1 + if Height(l) < Height(r) then Height(r) else Height(l)
  }

  /** The height is the length of the longest path from the root: no path is longer, and one is that long. */
  lemma {:induction false} PathsFit(path: Path, t: Tree)
    ensures Length(path) + Height(t) <= Height(Plug(path, t))
    decreases path
  {
    if !path.Root? {
      PathsFit(path.up, Ascend(path, t));
    }
  }

  lemma {:induction false} LongestPath(t: Tree, outer: Path) returns (path: Path)
    ensures Plug(path, Leaf) == Plug(outer, t) && Length(path) == Length(outer) + Height(t)
    decreases t
  {
    match t
    case Leaf => path := outer;
    case Fork(l, n, c, r) =>
      if Height(l) < Height(r) {
        path := LongestPath(r, InRight(l, n, c, outer));
      } else {
        path := LongestPath(l, InLeft(n, c, r, outer));
      }
  }

  /** The black nodes on a path. */
  ghost function Blacks(path: Path): nat {
    if path.Root? then 0 else Weight(path.c) + Blacks(path.up)
  }

  /** Every search path from the root to a leaf has the same number of black nodes, and a red node has no red parent. */
  lemma {:induction false} BlackPaths(path: Path, t: Tree)
    requires Rb(Plug(path, t))
    ensures Rb(t) && Blacks(path) + Bh(t) == Bh(Plug(path, t))
    ensures IsRed(t) ==> !RedPath(path)
    decreases path
  {
    if !path.Root? {
      BlackPaths(path.up, Ascend(path, t));
    }
  }

  lemma {:induction false} HeightByBlackHeight(t: Tree)
    requires Rb(t)
    ensures Height(t) <= 2 * Bh(t) + if IsRed(t) then 1 else 0
    ensures Pow2(Bh(t)) <= |Inorder(t)| + 1
  {
    match t
    case Leaf =>
    case Fork(l, n, c, r) => HeightByBlackHeight(l); HeightByBlackHeight(r);
  }

  /** Height at most 2 lg (n + 1), written without logarithms. */
  lemma HeightBound(t: Tree)
    requires Rb(t) && !IsRed(t)
    ensures var n := |Inorder(t)|; Pow2(Height(t)) <= (n + 1) * (n + 1)
  {
    HeightByBlackHeight(t);
    Pow2Mono(Height(t), Bh(t) + Bh(t));
    Pow2Add(Bh(t), Bh(t));
    SquareMono(Pow2(Bh(t)), |Inorder(t)| + 1);
  }

  lemma SquareMono(a: nat, b: nat)
    requires a <= b
    ensures a * a <= b * b
  {
    assert a * a <= a * b <= b * b;
  }

  // ---------- where the nodes of a position are ----------

  ghost predicate Distinct(t: Tree) {
    match t
    case Leaf => true
    case Fork(l, n, _, r) =>
      && Distinct(l) && Distinct(r)
      && n !in Nodes(l) && n !in Nodes(r) && Nodes(l) !! Nodes(r)
  }

  /** The nodes of path are pairwise different and none of them is in s. */
  ghost predicate Apart(path: Path, s: set<Node>) {
    match path
    case Root => true
    case InLeft(n, _, r, up) =>
      && n !in s && Distinct(r) && n !in Nodes(r) && Nodes(r) !! s
      && Apart(up, s + {n} + Nodes(r))
    case InRight(l, n, _, up) =>
      && n !in s && Distinct(l) && n !in Nodes(l) && Nodes(l) !! s
      && Apart(up, Nodes(l) + {n} + s)
  }

  lemma {:induction false} ApartDisjoint(path: Path, s: set<Node>)
    requires Apart(path, s)
    ensures PathNodes(path) !! s
  {
    match path
    case Root =>
    case InLeft(n, c, r, up) => ApartDisjoint(up, s + {n} + Nodes(r));
    case InRight(l, n, c, up) => ApartDisjoint(up, Nodes(l) + {n} + s);
  }

  lemma {:induction false} ApartMono(path: Path, s: set<Node>, s': set<Node>)
    requires Apart(path, s) && s' <= s
    ensures Apart(path, s')
  {
    match path
    case Root =>
    case InLeft(n, c, r, up) => ApartMono(up, s + {n} + Nodes(r), s' + {n} + Nodes(r));
    case InRight(l, n, c, up) => ApartMono(up, Nodes(l) + {n} + s, Nodes(l) + {n} + s');
  }

  lemma RotateLeftDistinct(t: Tree)
    requires Distinct(t) && t.Fork? && t.r.Fork?
    ensures var t' := Fork(Fork(t.l, t.n, t.c, t.r.l), t.r.n, t.r.c, t.r.r);
      && Distinct(t') && Nodes(t') == Nodes(t) && Inorder(t') == Inorder(t)
    ensures t.n != t.r.n && {t.n, t.r.n} !! Nodes(t.l) + Nodes(t.r.l) + Nodes(t.r.r)
    ensures Nodes(t.r.l) !! Nodes(t.l) + Nodes(t.r.r)
  {
    assert Nodes(t.r) == Nodes(t.r.l) + {t.r.n} + Nodes(t.r.r);
  }

  lemma RotateRightDistinct(t: Tree)
    requires Distinct(t) && t.Fork? && t.l.Fork?
    ensures var t' := Fork(t.l.l, t.l.n, t.l.c, Fork(t.l.r, t.n, t.c, t.r));
      && Distinct(t') && Nodes(t') == Nodes(t) && Inorder(t') == Inorder(t)
    ensures t.n != t.l.n && {t.n, t.l.n} !! Nodes(t.r) + Nodes(t.l.r) + Nodes(t.l.l)
    ensures Nodes(t.l.r) !! Nodes(t.r) + Nodes(t.l.l)
  {
    assert Nodes(t.l) == Nodes(t.l.l) + {t.l.n} + Nodes(t.l.r);
  }

  lemma TopApart(t: Tree)
    requires Distinct(t)
    ensures t.Fork? ==>
      && t.n in Nodes(t) && Nodes(t.l) <= Nodes(t) && Nodes(t.r) <= Nodes(t)
      && t.n !in Nodes(t.l) && t.n !in Nodes(t.r)
  {
  }

  lemma PathTopApart(path: Path, a: Node)
    requires Apart(path, {a})
    ensures !path.Root? ==>
      && path.n in PathNodes(path) && PathNodes(path.up) <= PathNodes(path)
      && path.n !in PathNodes(path.up) && path.n != a && a !in PathNodes(path.up)
    ensures path.InLeft? ==> path.n !in Nodes(path.r) && a !in Nodes(path.r) && Nodes(path.r) <= PathNodes(path)
    ensures path.InRight? ==> path.n !in Nodes(path.l) && a !in Nodes(path.l) && Nodes(path.l) <= PathNodes(path)
  {
    if path.InLeft? {
      ApartDisjoint(path.up, {a} + {path.n} + Nodes(path.r));
    } else if path.InRight? {
      ApartDisjoint(path.up, Nodes(path.l) + {path.n} + {a});
    }
  }

  // ---------- the shapes of the insertion loop ----------

  /** The only flaw of the tree: the red top of t below a red parent. */
  ghost predicate RedRed(t: Tree, path: Path) {
    Rb(t) && IsRed(t) && PathRb(path, Bh(t)) && RedPath(path)
  }

  lemma UncleRedShapeLeft(t: Tree, path: Path)
    requires RedRed(t, path) && path.up.InLeft? && IsRed(path.up.r)
    ensures var p, u, up := Ascend(path, t), path.up.r, path.up.up;
      var t' := Fork(p.(c := Black), path.up.n, Red, u.(c := Black));
      && Rb(t') && PathRb(up, Bh(t')) && Inorder(Plug(up, t')) == Inorder(Plug(path, t))
  {
    assert PathRb(path.up, Bh(t)) && PathRb(path.up.up, Bh(t) + 1);
    var p, u, up := Ascend(path, t), path.up.r, path.up.up;
    SameInorder(up, Fork(p.(c := Black), path.up.n, Red, u.(c := Black)), Fork(p, path.up.n, Black, u));
  }

  lemma StraightShapeLeft(t: Tree, path: Path)
    requires RedRed(t, path) && path.InLeft? && path.up.InLeft? && !IsRed(path.up.r)
    ensures var path' := InLeft(path.n, Black, Fork(path.r, path.up.n, Red, path.up.r), path.up.up);
      && PathRb(path', Bh(t)) && Inorder(Plug(path', t)) == Inorder(Plug(path, t))
  {
    assert PathRb(path.up, Bh(t)) && PathRb(path.up.up, Bh(t) + 1);
    var u, g, up := path.up.r, path.up.n, path.up.up;
    RotateInorder(t, path.n, path.r, g, u, Black, Red, Red, Black);
    SameInorder(up, Fork(t, path.n, Black, Fork(path.r, g, Red, u)), Fork(Fork(t, path.n, Red, path.r), g, Black, u));
  }

  lemma BentShapeLeft(t: Tree, path: Path)
    requires RedRed(t, path) && path.InRight? && path.up.InLeft? && !IsRed(path.up.r)
    ensures var t', path' := Fork(path.l, path.n, Red, t.l), InLeft(t.n, Red, t.r, path.up);
      && RedRed(t', path') && Inorder(Plug(path', t')) == Inorder(Plug(path, t))
  {
    RotateInorder(path.l, path.n, t.l, t.n, t.r, Red, Red, Red, Red);
    var t' := Fork(path.l, path.n, Red, t.l);
    SameInorder(path.up, Fork(path.l, path.n, Red, t), Fork(t', t.n, Red, t.r));
  }

  lemma UncleRedShapeRight(t: Tree, path: Path)
    requires RedRed(t, path) && path.up.InRight? && IsRed(path.up.l)
    ensures var p, u, up := Ascend(path, t), path.up.l, path.up.up;
      var t' := Fork(u.(c := Black), path.up.n, Red, p.(c := Black));
      && Rb(t') && PathRb(up, Bh(t')) && Inorder(Plug(up, t')) == Inorder(Plug(path, t))
  {
    assert PathRb(path.up, Bh(t)) && PathRb(path.up.up, Bh(t) + 1);
    var p, u, up := Ascend(path, t), path.up.l, path.up.up;
    SameInorder(up, Fork(u.(c := Black), path.up.n, Red, p.(c := Black)), Fork(u, path.up.n, Black, p));
  }

  lemma StraightShapeRight(t: Tree, path: Path)
    requires RedRed(t, path) && path.InRight? && path.up.InRight? && !IsRed(path.up.l)
    ensures var path' := InRight(Fork(path.up.l, path.up.n, Red, path.l), path.n, Black, path.up.up);
      && PathRb(path', Bh(t)) && Inorder(Plug(path', t)) == Inorder(Plug(path, t))
  {
    assert PathRb(path.up, Bh(t)) && PathRb(path.up.up, Bh(t) + 1);
    var u, g, up := path.up.l, path.up.n, path.up.up;
    RotateInorder(u, g, path.l, path.n, t, Black, Red, Red, Black);
    SameInorder(up, Fork(Fork(u, g, Red, path.l), path.n, Black, t), Fork(u, g, Black, Fork(path.l, path.n, Red, t)));
  }

  lemma BentShapeRight(t: Tree, path: Path)
    requires RedRed(t, path) && path.InLeft? && path.up.InRight? && !IsRed(path.up.l)
    ensures var t', path' := Fork(t.r, path.n, Red, path.r), InRight(t.l, t.n, Red, path.up);
      && RedRed(t', path') && Inorder(Plug(path', t')) == Inorder(Plug(path, t))
  {
    RotateInorder(t.l, t.n, t.r, path.n, path.r, Red, Red, Red, Red);
    var t' := Fork(t.r, path.n, Red, path.r);
    SameInorder(path.up, Fork(t, path.n, Red, path.r), Fork(t.l, t.n, Red, t'));
  }

  lemma RotateInorder(a: Tree, x: Node, b: Tree, y: Node, c: Tree, k: Color, k': Color, m: Color, m': Color)
    ensures Inorder(Fork(a, x, k, Fork(b, y, k', c))) == Inorder(Fork(Fork(a, x, m, b), y, m', c))
  {
    Regroup(Inorder(a), [x], Inorder(b), [y], Inorder(c));
  }

  lemma Regroup<T>(a: seq<T>, x: seq<T>, b: seq<T>, y: seq<T>, c: seq<T>)
    ensures a + x + (b + y + c) == a + x + b + y + c
  {
    assert b + y + c == b + (y + c);
    assert a + x + (b + (y + c)) == a + x + b + (y + c);
  }

  lemma BlackenRb(path: Path, t: Tree)
    requires Rb(t) && t.Fork? && IsRed(t) && PathRb(path, Bh(t)) && !RedPath(path)
    ensures var w := Plug(path, t); w.Fork? && Rb(w.(c := Black))
  {
    if !path.Root? {
      PlugRb(path, t);
      PlugFork(path, t);
    }
  }

  lemma {:induction false} PlugFork(path: Path, t: Tree)
    requires t.Fork?
    ensures Plug(path, t).Fork?
  {
    if !path.Root? {
      PlugFork(path.up, Ascend(path, t));
    }
  }

  lemma {:induction false} ApartAdd(path: Path, s: set<Node>, s': set<Node>)
    requires Apart(path, s) && PathNodes(path) !! s'
    ensures Apart(path, s + s')
  {
    match path
    case Root =>
    case InLeft(n, _, r, up) =>
      ApartAdd(up, s + {n} + Nodes(r), s');
      assert s + {n} + Nodes(r) + s' == s + s' + {n} + Nodes(r);
    case InRight(l, n, _, up) =>
      ApartAdd(up, Nodes(l) + {n} + s, s');
      assert Nodes(l) + {n} + s + s' == Nodes(l) + {n} + (s + s');
  }

  // ---------- the shapes of the removal loop ----------

  /** t is sound once its top is black, and its position asks for one black more than t has. */
  ghost predicate Short(t: Tree, path: Path) {
    (t.Fork? ==> Rb(t.(c := Black))) && PathRb(path, Bh(t) + 1)
  }

  lemma BlackTop(t: Tree)
    requires Rb(t) && t.Fork?
    ensures var t' := t.(c := Black); Rb(t') && Bh(t') == Bh(t) + (1 - Weight(t.c)) && Inorder(t') == Inorder(t)
  {
  }

  lemma RedSiblingShapeLeft(t: Tree, path: Path)
    requires Short(t, path) && !IsRed(t) && path.InLeft? && IsRed(path.r)
    ensures var s := path.r;
      var path' := InLeft(path.n, Red, s.l, InLeft(s.n, Black, s.r, path.up));
      && Short(t, path') && Inorder(Plug(path', t)) == Inorder(Plug(path, t)) && path.c.Black?
  {
    var s := path.r;
    RotateInorder(t, path.n, s.l, s.n, s.r, Black, Red, Red, Black);
    SameInorder(path.up, Fork(Fork(t, path.n, Red, s.l), s.n, Black, s.r), Fork(t, path.n, Black, s));
  }

  lemma BlackNephewsShapeLeft(t: Tree, path: Path)
    requires Short(t, path) && !IsRed(t) && path.InLeft? && !IsRed(path.r)
    ensures path.r.Fork?
    ensures !IsRed(path.r.l) && !IsRed(path.r.r) ==>
      var t' := Fork(t, path.n, path.c, path.r.(c := Red));
      && Short(t', path.up) && Inorder(Plug(path.up, t')) == Inorder(Plug(path, t))
  {
    var s := path.r;
    if s.Fork? {
      SameInorder(path.up, Fork(t, path.n, path.c, s.(c := Red)), Fork(t, path.n, path.c, s));
    }
  }

  lemma InnerNephewShapeLeft(t: Tree, path: Path)
    requires Short(t, path) && !IsRed(t) && path.InLeft? && path.r.Fork? && path.r.c.Black?
    requires IsRed(path.r.l) && !IsRed(path.r.r)
    ensures var s, o := path.r, path.r.l;
      var path' := InLeft(path.n, path.c, Fork(o.l, o.n, Black, Fork(o.r, s.n, Red, s.r)), path.up);
      && Short(t, path') && Inorder(Plug(path', t)) == Inorder(Plug(path, t))
  {
    var s, o := path.r, path.r.l;
    assert SideRb(path.c, s, path.up, Bh(t) + 1) && Rb(s.r) && Rb(o) && Rb(o.l) && Rb(o.r) && Bh(o.l) == Bh(o.r) == Bh(s.r);
    var s' := Fork(o.l, o.n, Black, Fork(o.r, s.n, Red, s.r));
    RotateInorder(o.l, o.n, o.r, s.n, s.r, Black, Red, Red, Black);
    SameInorder(path.up, Fork(t, path.n, path.c, s'), Fork(t, path.n, path.c, s));
  }

  lemma OuterNephewShapeLeft(t: Tree, path: Path)
    requires Short(t, path) && !IsRed(t) && path.InLeft? && path.r.Fork? && path.r.c.Black?
    requires IsRed(path.r.r)
    ensures var s := path.r;
      var t' := Fork(Fork(t, path.n, Black, s.l), s.n, path.c, s.r.(c := Black));
      && Rb(t') && PathRb(path.up, Bh(t')) && Inorder(Plug(path.up, t')) == Inorder(Plug(path, t))
      && (IsRed(t') ==> !RedPath(path.up) && !path.up.Root?)
  {
    var s := path.r;
    BlackTop(s.r);
    assert SideRb(path.c, s, path.up, Bh(t) + 1) && PathRb(path.up, Bh(s) + Weight(path.c));
    var t' := Fork(Fork(t, path.n, Black, s.l), s.n, path.c, s.r.(c := Black));
    RotateInorder(t, path.n, s.l, s.n, s.r.(c := Black), path.c, Black, Black, path.c);
    SameInorder(path.up, t', Fork(t, path.n, path.c, s));
  }

  lemma RedSiblingShapeRight(t: Tree, path: Path)
    requires Short(t, path) && !IsRed(t) && path.InRight? && IsRed(path.l)
    ensures var s := path.l;
      var path' := InRight(s.r, path.n, Red, InRight(s.l, s.n, Black, path.up));
      && Short(t, path') && Inorder(Plug(path', t)) == Inorder(Plug(path, t)) && path.c.Black?
  {
    var s := path.l;
    RotateInorder(s.l, s.n, s.r, path.n, t, Black, Red, Red, Black);
    SameInorder(path.up, Fork(s.l, s.n, Black, Fork(s.r, path.n, Red, t)), Fork(s, path.n, Black, t));
  }

  lemma BlackNephewsShapeRight(t: Tree, path: Path)
    requires Short(t, path) && !IsRed(t) && path.InRight? && !IsRed(path.l)
    ensures path.l.Fork?
    ensures !IsRed(path.l.l) && !IsRed(path.l.r) ==>
      var t' := Fork(path.l.(c := Red), path.n, path.c, t);
      && Short(t', path.up) && Inorder(Plug(path.up, t')) == Inorder(Plug(path, t))
  {
    var s := path.l;
    if s.Fork? {
      SameInorder(path.up, Fork(s.(c := Red), path.n, path.c, t), Fork(s, path.n, path.c, t));
    }
  }

  lemma InnerNephewShapeRight(t: Tree, path: Path)
    requires Short(t, path) && !IsRed(t) && path.InRight? && path.l.Fork? && path.l.c.Black?
    requires IsRed(path.l.r) && !IsRed(path.l.l)
    ensures var s, o := path.l, path.l.r;
      var path' := InRight(Fork(Fork(s.l, s.n, Red, o.l), o.n, Black, o.r), path.n, path.c, path.up);
      && Short(t, path') && Inorder(Plug(path', t)) == Inorder(Plug(path, t))
  {
    var s, o := path.l, path.l.r;
    assert SideRb(path.c, s, path.up, Bh(t) + 1) && Rb(s.l) && Rb(o) && Rb(o.l) && Rb(o.r) && Bh(o.l) == Bh(o.r) == Bh(s.l);
    var s' := Fork(Fork(s.l, s.n, Red, o.l), o.n, Black, o.r);
    RotateInorder(s.l, s.n, o.l, o.n, o.r, Black, Red, Red, Black);
    SameInorder(path.up, Fork(s', path.n, path.c, t), Fork(s, path.n, path.c, t));
  }

  lemma OuterNephewShapeRight(t: Tree, path: Path)
    requires Short(t, path) && !IsRed(t) && path.InRight? && path.l.Fork? && path.l.c.Black?
    requires IsRed(path.l.l)
    ensures var s := path.l;
      var t' := Fork(s.l.(c := Black), s.n, path.c, Fork(s.r, path.n, Black, t));
      && Rb(t') && PathRb(path.up, Bh(t')) && Inorder(Plug(path.up, t')) == Inorder(Plug(path, t))
      && (IsRed(t') ==> !RedPath(path.up) && !path.up.Root?)
  {
    var s := path.l;
    BlackTop(s.l);
    assert SideRb(path.c, s, path.up, Bh(t) + 1) && PathRb(path.up, Bh(s) + Weight(path.c));
    var t' := Fork(s.l.(c := Black), s.n, path.c, Fork(s.r, path.n, Black, t));
    RotateInorder(s.l.(c := Black), s.n, s.r, path.n, t, path.c, Black, Black, path.c);
    SameInorder(path.up, t', Fork(s, path.n, path.c, t));
  }

  lemma BlackenedInorder(path: Path, t: Tree)
    requires t.Fork?
    ensures Inorder(Plug(path, t.(c := Black))) == Inorder(Plug(path, t))
  {
    SameInorder(path, t.(c := Black), t);
  }

  // ---------- taking an element out ----------

  /** The subtree that stands in for the top of t, which has at most one child. */
  ghost function OnlyChild(t: Tree): Tree
    requires t.Fork?
  {
    if t.l.Leaf? then t.r else t.l
  }

  lemma SpliceApart(t: Tree, path: Path)
    requires Distinct(t) && t.Fork? && (t.l.Leaf? || t.r.Leaf?) && Apart(path, Nodes(t))
    ensures var ct := OnlyChild(t);
      && Distinct(ct) && Apart(path, Nodes(ct)) && Apart(path, {t.n}) && PathNodes(path) !! Nodes(t)
      && Nodes(ct) == Nodes(t) - {t.n}
  {
    ApartDisjoint(path, Nodes(t));
    ApartMono(path, Nodes(t), {t.n});
    ApartMono(path, Nodes(t), Nodes(OnlyChild(t)));
  }

  lemma ReplaceApart(t: Tree, path: Path, elm: Node)
    requires Distinct(t) && t.Fork? && Apart(path, Nodes(t)) && elm !in Nodes(t) + PathNodes(path)
    ensures Distinct(t.(n := elm)) && Nodes(t.(n := elm)) == Nodes(t) - {t.n} + {elm}
    ensures Apart(path, Nodes(t.(n := elm))) && Apart(path, {t.n})
    ensures PathNodes(path) !! Nodes(t) && PathNodes(path) !! Nodes(t.l) && PathNodes(path) !! Nodes(t.r)
    ensures Nodes(t.l) !! Nodes(t.r) && elm !in Nodes(t.l) && elm !in Nodes(t.r)
    ensures t.n !in Nodes(t.l) && t.n !in Nodes(t.r) && Distinct(t.l) && Distinct(t.r)
  {
    ApartDisjoint(path, Nodes(t));
    ApartMono(path, Nodes(t), {t.n});
    ApartMono(path, Nodes(t), Nodes(t) - {t.n});
    ApartAdd(path, Nodes(t) - {t.n}, {elm});
  }

  lemma SortedRemove(a: seq<Node>, n: Node, b: seq<Node>)
    requires Sorted(a + [n] + b)
    ensures Sorted(a + b)
  {
    var s := a + [n] + b;
    forall i, j | 0 <= i < j < |a + b|
      ensures (a + b)[i].key < (a + b)[j].key
    {
      var i', j' := if i < |a| then i else i + 1, if j < |a| then j else j + 1;
      assert s[i'] == (a + b)[i] && s[j'] == (a + b)[j];
    }
  }

  /** Without an outer element the order keeps, and if that element was black its place is one black short. */
  lemma RemoveOuterShape(t: Tree, path: Path)
    requires var w := Plug(path, t); Rb(w) && !IsRed(w) && Sorted(Inorder(w))
    requires t.Fork? && (t.l.Leaf? || t.r.Leaf?)
    ensures var ct := OnlyChild(t);
      && Sorted(Inorder(Plug(path, ct)))
      && (t.c.Black? ==> Short(ct, path))
      && (t.c.Red? ==> Rb(ct) && PathRb(path, Bh(ct)) && !IsRed(ct))
  {
    var ct := OnlyChild(t);
    UnplugRb(path, t);
    if ct.Fork? {
      BlackTop(ct);
    }
    InorderPlug(path, t);
    InorderPlug(path, ct);
    assert Inorder(t) == Inorder(t.l) + [t.n] + Inorder(t.r);
    assert Inorder(ct) == Inorder(t.l) + Inorder(t.r);
    SortedCut(Before(path), Inorder(t.l), t.n, Inorder(t.r), After(path));
  }

  lemma SortedCut(a: seq<Node>, l: seq<Node>, n: Node, r: seq<Node>, b: seq<Node>)
    requires Sorted(a + (l + [n] + r) + b)
    ensures Sorted(a + (l + r) + b)
  {
    assert a + (l + [n] + r) + b == (a + l) + [n] + (r + b);
    SortedRemove(a + l, n, r + b);
    assert a + (l + r) + b == (a + l) + (r + b);
  }

  /** The successor st of t's top leaves its place at inner and takes the top's place. */
  lemma RemoveInnerBalance(t: Tree, path: Path, st: Tree, inner: Path)
    requires var w := Plug(path, t); Rb(w) && !IsRed(w)
    requires t.Fork? && st.Fork? && st.l.Leaf? && Plug(inner, st) == t.r
    ensures var path' := Compose(inner, InRight(t.l, st.n, t.c, path));
      && (st.c.Black? ==> Short(st.r, path'))
      && (st.c.Red? ==> Rb(st.r) && PathRb(path', Bh(st.r)) && !IsRed(st.r))
  {
    PlugCompose(inner, InRight(t.l, t.n, t.c, path), st);
    UnplugRb(Compose(inner, InRight(t.l, t.n, t.c, path)), st);
    Renamed(inner, t.l, t.n, st.n, t.c, path, Bh(st));
    if st.r.Fork? {
      BlackTop(st.r);
    }
  }

  lemma RemoveInnerOrder(t: Tree, path: Path, st: Tree, inner: Path)
    requires Sorted(Inorder(Plug(path, t)))
    requires t.Fork? && st.Fork? && st.l.Leaf? && Plug(inner, st) == t.r && Before(inner) == []
    ensures Sorted(Inorder(Plug(Compose(inner, InRight(t.l, st.n, t.c, path)), st.r)))
  {
    PlugCompose(inner, InRight(t.l, st.n, t.c, path), st.r);
    InorderPlug(path, t);
    var t' := Fork(t.l, st.n, t.c, Plug(inner, st.r));
    InorderPlug(path, t');
    PromotedInorder(t, st, inner);
    SortedCut(Before(path), Inorder(t.l), t.n, Inorder(t.r), After(path));
  }

  lemma PromotedInorder(t: Tree, st: Tree, inner: Path)
    requires t.Fork? && st.Fork? && st.l.Leaf? && Plug(inner, st) == t.r && Before(inner) == []
    ensures Inorder(t) == Inorder(t.l) + [t.n] + Inorder(t.r)
    ensures Inorder(Fork(t.l, st.n, t.c, Plug(inner, st.r))) == Inorder(t.l) + Inorder(t.r)
  {
    InorderPlug(inner, st);
    InorderPlug(inner, st.r);
    LeadingMove(Inorder(t.l), st.n, Inorder(st.r), After(inner));
  }

  lemma LeadingMove<T>(l: seq<T>, n: T, r: seq<T>, b: seq<T>)
    ensures l + ([] + ([] + [n] + r) + b) == l + [n] + ([] + r + b)
  {
    assert [] + ([] + [n] + r) + b == [n] + (r + b);
    assert [] + r + b == r + b;
  }

  /** Balance does not depend on which node carries a frame. */
  lemma {:induction false} Renamed(inner: Path, l: Tree, n: Node, n': Node, c: Color, up: Path, h: nat)
    requires PathRb(Compose(inner, InRight(l, n, c, up)), h)
    ensures PathRb(Compose(inner, InRight(l, n', c, up)), h)
    ensures Compose(inner, InRight(l, n', c, up)).c == Compose(inner, InRight(l, n, c, up)).c
  {
    match inner
    case Root =>
    case InLeft(_, k, _, outer) => Renamed(outer, l, n, n', c, up, h + Weight(k));
    case InRight(_, _, k, outer) => Renamed(outer, l, n, n', c, up, h + Weight(k));
  }

  lemma {:induction false} FrameOnPath(inner: Path, frame: Path)
    requires !frame.Root?
    ensures var p := Compose(inner, frame); !p.Root? && p.n in PathNodes(p) && frame.n in PathNodes(p)
  {
    if !inner.Root? {
      FrameOnPath(inner.up, frame);
    }
  }

  // ---------- neighbours in the order ----------

  /** r follows x in s, or is null if x is the last. */
  ghost predicate IsNext(s: seq<Node>, x: Node, r: Node?) {
    && (exists i :: 0 <= i < |s| && s[i] == x)
    && forall i :: 0 <= i < |s| && s[i] == x ==> r == if i + 1 < |s| then s[i + 1] else null
  }

  /** r precedes x in s, or is null if x is the first. */
  ghost predicate IsPrev(s: seq<Node>, x: Node, r: Node?) {
    && (exists i :: 0 <= i < |s| && s[i] == x)
    && forall i :: 0 <= i < |s| && s[i] == x ==> r == if i > 0 then s[i - 1] else null
  }

  lemma NextAt(s: seq<Node>, k: nat, r: Node?)
    requires k < |s| && IsNext(s, s[k], r)
    ensures r == if k + 1 < |s| then s[k + 1] else null
  {
  }

  lemma PrevAt(s: seq<Node>, k: nat, r: Node?)
    requires k < |s| && IsPrev(s, s[k], r)
    ensures r == if k > 0 then s[k - 1] else null
  {
  }

  /** Stepping back undoes stepping forth, and the other way round. */
  lemma PrevUndoesNext(s: seq<Node>, x: Node, y: Node)
    requires Sorted(s)
    ensures IsNext(s, x, y) <==> IsPrev(s, y, x)
  {
    if IsNext(s, x, y) {
      var i :| 0 <= i < |s| && s[i] == x;
      NextAt(s, i, y);
      assert s[i + 1] == y;
    }
    if IsPrev(s, y, x) {
      var i :| 0 <= i < |s| && s[i] == y;
      PrevAt(s, i, x);
      assert s[i - 1] == x;
    }
  }

  lemma NeighboursIn(a: seq<Node>, l: seq<Node>, n: Node, r: seq<Node>, b: seq<Node>)
    requires Sorted(a + (l + [n] + r) + b)
    ensures var s := a + (l + [n] + r) + b;
      && IsNext(s, n, if r != [] then r[0] else if b == [] then null else b[0])
      && IsPrev(s, n, if l != [] then l[|l| - 1] else if a == [] then null else a[|a| - 1])
  {
    var s := a + (l + [n] + r) + b;
    var k := |a| + |l|;
    assert s[k] == n;
    assert r != [] ==> s[k + 1] == r[0];
    assert r == [] && b != [] ==> s[k + 1] == b[0];
    assert l != [] ==> s[k - 1] == l[|l| - 1];
    assert l == [] && a != [] ==> s[k - 1] == a[|a| - 1];
    assert forall i :: 0 <= i < |s| && s[i] == n ==> i == k;
  }

  /** The element right after the empty place where a search for k ends. */
  ghost function FirstAfter(path: Path): Node? {
    if After(path) == [] then null else After(path)[0]
  }

  lemma FirstAfterBound(path: Path, k: Node)
    requires Sorted(Inorder(Plug(path, Leaf))) && Brackets(path, k)
    ensures var s, r := Inorder(Plug(path, Leaf)), FirstAfter(path);
      && (r == null ==> forall x :: x in s ==> x.key < k.key)
      && (r != null ==> r in s && k.key <= r.key && forall x :: x in s && k.key <= x.key ==> r.key <= x.key)
  {
    hide Inorder, Plug, Before, After;
    InorderPlug(path, Leaf);
    var a, b := Before(path), After(path);
    NothingBetween();
    assert a + [] + b == a + b;
    FirstOfRest(a, b, k.key);
  }

  lemma NothingBetween()
    ensures Inorder(Leaf) == []
  {
  }

  lemma FirstOfRest(a: seq<Node>, b: seq<Node>, key: int)
    requires Sorted(a + b) && (forall x :: x in a ==> x.key < key) && (forall x :: x in b ==> key < x.key)
    ensures b == [] ==> forall x :: x in a + b ==> x.key < key
    ensures b != [] ==> b[0] in a + b && key < b[0].key && forall x :: x in a + b && key <= x.key ==> b[0].key <= x.key
  {
    if b != [] {
      assert b[0] in b;
      forall x | x in a + b && key <= x.key
        ensures b[0].key <= x.key
      {
        FirstLeast(a, b, x);
      }
    }
  }

  lemma FirstLeast(a: seq<Node>, b: seq<Node>, x: Node)
    requires Sorted(a + b) && x in b
    ensures b[0].key <= x.key
  {
    var i :| 0 <= i < |b| && b[i] == x;
    assert (a + b)[|a|] == b[0] && (a + b)[|a| + i] == b[i];
  }

  lemma Descend(t: Tree, path: Path)
    requires t.Fork?
    ensures var s := Before(path) + Inorder(t) + After(path);
      && s == Before(path) + Inorder(t.l) + After(InLeft(t.n, t.c, t.r, path))
      && s == Before(InRight(t.l, t.n, t.c, path)) + Inorder(t.r) + After(path)
  {
    assert Inorder(t) == Inorder(t.l) + [t.n] + Inorder(t.r);
    Regather(Before(path), Inorder(t.l), t.n, Inorder(t.r), After(path));
  }

  lemma Regather<T>(a: seq<T>, l: seq<T>, n: T, r: seq<T>, b: seq<T>)
    ensures a + (l + [n] + r) + b == a + l + ([n] + r + b) == a + (l + [n]) + r + b
  {
  }

  lemma {:induction false} InorderAt(t: Tree, i: nat)
    requires i < |Inorder(t)|
    ensures Inorder(t)[i] in Nodes(t)
  {
    var k := |Inorder(t.l)|;
    if i < k {
      InorderAt(t.l, i);
    } else if i > k {
      InorderAt(t.r, i - k - 1);
    }
  }

  lemma {:induction false} CountNodes(t: Tree)
    requires Distinct(t)
    ensures |Nodes(t)| == |Inorder(t)|
  {
    match t
    case Leaf =>
    case Fork(l, n, c, r) =>
      CountNodes(l);
      CountNodes(r);
      assert |Nodes(l) + {n}| == |Nodes(l)| + 1;
      assert |(Nodes(l) + {n}) + Nodes(r)| == |Nodes(l) + {n}| + |Nodes(r)|;
  }

  /** The separation facts a rotation at t relies on, spelled out: s is the child that rises, b the part that moves. */
  lemma {:induction false} RotateApart(t: Tree, path: Path, s: Tree, b: Tree)
    requires Distinct(t) && t.Fork? && s.Fork? && (s == t.l || s == t.r) && (b == s.l || b == s.r)
    requires Apart(path, Nodes(t))
    ensures PathNodes(path) !! Nodes(t) && t.n in Nodes(t) && s.n in Nodes(t)
    ensures Nodes(t.l) <= Nodes(t) && Nodes(t.r) <= Nodes(t) && Nodes(s.l) <= Nodes(t) && Nodes(s.r) <= Nodes(t)
    ensures Distinct(b)
    ensures b.Fork? ==>
      && b.n in Nodes(b) && Nodes(b.l) <= Nodes(b) && Nodes(b.r) <= Nodes(b)
      && b.n !in Nodes(b.l) && b.n !in Nodes(b.r)
    ensures !path.Root? ==>
      && path.n in PathNodes(path) && PathNodes(path.up) <= PathNodes(path)
      && path.n !in PathNodes(path.up) && path.n != t.n && t.n !in PathNodes(path.up)
    ensures path.InLeft? ==>
      path.n !in Nodes(path.r) && t.n !in Nodes(path.r) && Nodes(path.r) <= PathNodes(path)
    ensures path.InRight? ==>
      path.n !in Nodes(path.l) && t.n !in Nodes(path.l) && Nodes(path.l) <= PathNodes(path)
  {
    ApartDisjoint(path, Nodes(t));
    ApartMono(path, Nodes(t), {t.n});
    PathTopApart(path, t.n);
    TopApart(t);
    TopApart(s);
    TopApart(b);
  }

  lemma AttachApart(path: Path, elm: Node)
    requires Apart(path, Nodes(Leaf)) && elm !in PathNodes(path)
    ensures var t := Fork(Leaf, elm, Red, Leaf);
      Distinct(t) && Nodes(t) == {elm} && Apart(path, Nodes(t)) && Nodes(Leaf) == {}
    ensures !path.Root? ==>
      && path.n in PathNodes(path) && PathNodes(path.up) <= PathNodes(path)
      && path.n !in PathNodes(path.up) && path.n != elm && elm !in PathNodes(path.up)
    ensures path.InLeft? ==> path.n !in Nodes(path.r) && elm !in Nodes(path.r) && Nodes(path.r) <= PathNodes(path)
    ensures path.InRight? ==> path.n !in Nodes(path.l) && elm !in Nodes(path.l) && Nodes(path.l) <= PathNodes(path)
  {
    ApartAdd(path, {}, {elm});
    assert {} + {elm} == {elm};
    assert Nodes(Fork(Leaf, elm, Red, Leaf)) == {elm};
    PathTopApart(path, elm);
  }

  /** The end of the removal loop: blackening a red top, or being at the root, settles the missing black. */
  lemma Settled(t: Tree, path: Path)
    requires Short(t, path) && (IsRed(t) || path.Root?)
    ensures var t' := if t.Fork? then t.(c := Black) else t;
      var w := Plug(path, t'); Rb(w) && !IsRed(w) && Inorder(w) == Inorder(Plug(path, t))
  {
    if t.Fork? {
      BlackenedInorder(path, t);
      PlugRb(path, t.(c := Black));
    }
  }
}
