/** The shapes of splay trees, and splaying as a function on them. */
module SplayShapes {
  class Node {
    const key: int
    var left: Node?
    var right: Node?

    constructor (key: int)
      ensures this.key == key && left == null && right == null
    {
      this.key := key;
      left, right := null, null;
    }
  }

  datatype Tree = Leaf | Fork(l: Tree, n: Node, r: Tree)

  /** A side tree under construction: a chain of nodes from the dummy downwards, each with its outer
      subtree, the innermost last. The inner link of the last node is still to be filled in. */
  datatype Spine = Nil | Snoc(up: Spine, t: Tree, n: Node)

  ghost function Nodes(t: Tree): set<Node> {
    match t
    case Leaf => {}
    case Fork(l, n, r) => Nodes(l) + {n} + Nodes(r)
  }

  ghost function SpineNodes(s: Spine): set<Node> {
    match s
    case Nil => {}
    case Snoc(up, t, n) => SpineNodes(up) + Nodes(t) + {n}
  }

  ghost function Top(t: Tree): Node? {
    if t.Leaf? then null else t.n
  }

  ghost function Last(s: Spine, dummy: Node): Node {
    if s.Nil? then dummy else s.n
  }

  ghost function Inorder(t: Tree): seq<Node> {
    match t
    case Leaf => []
    case Fork(l, n, r) => Inorder(l) + [n] + Inorder(r)
  }

  /** A left side tree completed with t at its inner end. */
  ghost function PlugLeft(s: Spine, t: Tree): Tree {
    match s
    case Nil => t
    case Snoc(up, outer, n) => PlugLeft(up, Fork(outer, n, t))
  }

  ghost function PlugRight(s: Spine, t: Tree): Tree {
    match s
    case Nil => t
    case Snoc(up, outer, n) => PlugRight(up, Fork(t, n, outer))
  }

  // ---------- order ----------

  ghost predicate Sorted(s: seq<Node>) {
    forall i, j :: 0 <= i < j < |s| ==> s[i].key < s[j].key
  }

  ghost predicate Below(s: seq<Node>, key: int) {
    forall x :: x in s ==> x.key < key
  }

  ghost predicate Above(s: seq<Node>, key: int) {
    forall x :: x in s ==> key < x.key
  }

  function Cmp(a: Node, b: Node): int {
    a.key - b.key
  }

  /** The top of t parts the elements at key: what is left of it is below, what is right of it above. */
  ghost predicate SplitAt(t: Tree, key: int) {
    t.Fork? && Below(Inorder(t.l), key) && Above(Inorder(t.r), key)
  }

  lemma Reparse<T>(a: seq<T>, x: seq<T>, b: seq<T>, y: seq<T>, c: seq<T>)
    ensures a + x + (b + y + c) == a + x + b + y + c
  {
    assert b + y + c == b + (y + c);
    assert a + x + (b + (y + c)) == a + x + b + (y + c);
  }

  ghost function Size(t: Tree): nat {
    if t.Leaf? then 0 else Size(t.l) + 1 + Size(t.r)
  }

  lemma SizeParts(t: Tree)
    requires t.Fork?
    ensures Size(t) == Size(t.l) + 1 + Size(t.r)
  {
  }

  lemma SortedAround(a: seq<Node>, l: seq<Node>, n: Node, r: seq<Node>, b: seq<Node>)
    requires Sorted(a + (l + [n] + r) + b)
    ensures Below(l, n.key) && Above(r, n.key) && Sorted(l) && Sorted(r)
  {
    var s := a + (l + [n] + r) + b;
    var k := |a|;
    assert forall i :: 0 <= i < |l| ==> s[k + i] == l[i];
    assert s[k + |l|] == n;
    assert forall i :: 0 <= i < |r| ==> s[k + |l| + 1 + i] == r[i];
  }

  lemma {:induction false} NodesInorder(t: Tree)
    ensures forall x :: x in Nodes(t) <==> x in Inorder(t)
  {
    match t
    case Leaf =>
    case Fork(l, n, r) => NodesInorder(l); NodesInorder(r);
  }

  lemma {:induction false} NodesAsSet(t: Tree)
    ensures Nodes(t) == set x: Node | x in Inorder(t)
  {
    match t
    case Leaf =>
    case Fork(l, n, r) => NodesAsSet(l); NodesAsSet(r);
  }

  lemma SameNodes(t: Tree, t': Tree)
    requires Inorder(t) == Inorder(t')
    ensures Nodes(t) == Nodes(t')
  {
    NodesAsSet(t);
    NodesAsSet(t');
  }

  /** A key that occurs at all is the top's, once the top parts the elements at that key. */
  lemma KeyAtTop(t: Tree, key: int)
    requires SplitAt(t, key)
    ensures forall x :: x in Nodes(t) && x.key == key ==> x == t.n
  {
    forall x | x in Nodes(t) && x.key == key
      ensures x == t.n
    {
      KeyAtTopOf(t, key, x);
    }
  }

  lemma KeyAtTopOf(t: Tree, key: int, x: Node)
    requires SplitAt(t, key) && x in Nodes(t) && x.key == key
    ensures x == t.n
  {
    hide Inorder;
    NodesInorder(t.l);
    NodesInorder(t.r);
  }

  /** elm fits right before or right after the top that parts the elements at its key. */
  lemma InsertOrder(t: Tree, elm: Node)
    requires SplitAt(t, elm.key) && Sorted(Inorder(t))
    ensures elm.key < t.n.key ==> Sorted(Inorder(Fork(t.l, elm, Fork(Leaf, t.n, t.r))))
    ensures elm.key > t.n.key ==> Sorted(Inorder(Fork(Fork(t.l, t.n, Leaf), elm, t.r)))
    ensures elm.key != t.n.key ==> forall x :: x in Nodes(t) ==> x.key != elm.key
  {
    KeyAtTop(t, elm.key);
    InsertOrderIn(Inorder(t.l), t.n, Inorder(t.r), elm);
  }

  lemma InsertOrderIn(l: seq<Node>, n: Node, r: seq<Node>, elm: Node)
    requires Sorted(l + [n] + r) && Below(l, elm.key) && Above(r, elm.key)
    ensures elm.key < n.key ==> Sorted(l + [elm] + ([] + [n] + r))
    ensures elm.key > n.key ==> Sorted((l + [n] + []) + [elm] + r)
  {
    assert [] + [n] + r == [n] + r && l + [n] + [] == l + [n];
    assert l + [n] + r == l + ([n] + r);
    if elm.key < n.key {
      SortedInsert(l, elm, [n] + r);
    } else if elm.key > n.key {
      SortedInsert(l + [n], elm, r);
    }
  }

  lemma SortedInsert(a: seq<Node>, n: Node, b: seq<Node>)
    requires Sorted(a + b) && Below(a, n.key) && Above(b, n.key)
    ensures Sorted(a + [n] + b)
  {
    var s, s' := a + b, a + [n] + b;
    forall i, j | 0 <= i < j < |s'|
      ensures s'[i].key < s'[j].key
    {
      assert i < |a| ==> s[i] == a[i];
      assert j > |a| ==> s[j - 1] == b[j - 1 - |a|];
      assert i > |a| ==> s[i - 1] == b[i - 1 - |a|];
      assert j < |a| ==> s[j] == a[j];
    }
  }

  lemma RemoveOrder(t: Tree)
    requires t.Fork? && Sorted(Inorder(t))
    ensures Sorted(Inorder(t.r)) && Sorted(Inorder(t.l) + Inorder(t.r))
  {
    var l, r := Inorder(t.l), Inorder(t.r);
    var s := l + [t.n] + r;
    forall i, j | 0 <= i < j < |l + r|
      ensures (l + r)[i].key < (l + r)[j].key
    {
      var i', j' := if i < |l| then i else i + 1, if j < |l| then j else j + 1;
      assert s[i'] == (l + r)[i] && s[j'] == (l + r)[j];
    }
    assert forall i :: 0 <= i < |r| ==> s[|l| + 1 + i] == r[i];
  }

  lemma LastHasNoRight(l: Tree, t: Tree, key: int)
    requires SplitAt(t, key) && Inorder(t) == Inorder(l) && Below(Inorder(l), key)
    ensures t.r.Leaf?
  {
    PartBelow(Inorder(t.l) + [t.n], Inorder(t.r), key);
    NoneBetween(Inorder(t.r), key);
  }

  lemma PartBelow(a: seq<Node>, b: seq<Node>, key: int)
    requires Below(a + b, key)
    ensures Below(b, key)
  {
    forall x | x in b
      ensures x.key < key
    {
      assert x in a + b;
    }
  }

  lemma NoneBetween(s: seq<Node>, key: int)
    requires Below(s, key) && Above(s, key)
    ensures s == []
  {
    if s != [] {
      FirstIn(s);
    }
  }

  lemma FirstIn(s: seq<Node>)
    requires s != []
    ensures s[0] in s
  {
  }

  lemma MergeOrder(l: Tree, t: Tree, t': Tree)
    requires t.Fork? && t.r.Leaf? && Inorder(t) == Inorder(l) && t'.Fork? && t'.l == t.l && t'.n == t.n
    ensures Inorder(t') == Inorder(l) + Inorder(t'.r)
  {
    assert Inorder(t) == Inorder(t.l) + [t.n];
  }

  lemma HalvesOrder(t: Tree)
    requires t.Fork? && Sorted(Inorder(t))
    ensures Below(Inorder(t.l), t.n.key) && Above(Inorder(t.r), t.n.key)
    ensures Sorted(Inorder(t.l)) && Sorted(Inorder(t.r))
  {
    Padded(Inorder(t.l) + [t.n] + Inorder(t.r));
    SortedAround([], Inorder(t.l), t.n, Inorder(t.r), []);
  }

  lemma Padded<T>(s: seq<T>)
    ensures [] + s + [] == s
  {
  }

  /** The top is the nearest element to the key from the side it is on. */
  lemma NearestAtTop(t: Tree, key: int)
    requires SplitAt(t, key) && Sorted(Inorder(t))
    ensures t.n.key <= key ==> forall x :: x in Nodes(t) && x.key <= key ==> x.key <= t.n.key
    ensures key <= t.n.key ==> forall x :: x in Nodes(t) && key <= x.key ==> t.n.key <= x.key
  {
    HalvesOrder(t);
    forall x | x in Nodes(t)
      ensures t.n.key <= key && x.key <= key ==> x.key <= t.n.key
      ensures key <= t.n.key && key <= x.key ==> t.n.key <= x.key
    {
      NearestOf(t, key, x);
    }
  }

  lemma NearestOf(t: Tree, key: int, x: Node)
    requires SplitAt(t, key) && Below(Inorder(t.l), t.n.key) && Above(Inorder(t.r), t.n.key) && x in Nodes(t)
    ensures t.n.key <= key && x.key <= key ==> x.key <= t.n.key
    ensures key <= t.n.key && key <= x.key ==> t.n.key <= x.key
  {
    hide Inorder;
    NodesInorder(t.l);
    NodesInorder(t.r);
  }

  /** r follows x in s, or is null if x is the last. */
  ghost predicate IsNext(s: seq<Node>, x: Node, r: Node?) {
    && (exists i :: 0 <= i < |s| && s[i] == x)
    && forall i :: 0 <= i < |s| && s[i] == x ==> r == if i + 1 < |s| then s[i + 1] else null
  }

  lemma NextOfTop(t: Tree)
    requires t.Fork? && Sorted(Inorder(t))
    ensures IsNext(Inorder(t), t.n, if t.r.Leaf? then null else Inorder(t.r)[0])
  {
    var l, r, s := Inorder(t.l), Inorder(t.r), Inorder(t);
    assert s == l + [t.n] + r;
    assert s[|l|] == t.n;
    assert r != [] ==> s[|l| + 1] == r[0];
    assert forall i :: 0 <= i < |s| && s[i] == t.n ==> i == |l|;
  }

  // ---------- splaying as a function ----------

  /** s with n and its right subtree r attached behind all its elements. */
  ghost function JoinRight(s: Tree, n: Node, r: Tree): (t: Tree)
    requires s.Fork?
    ensures t.Fork? && Size(t) == Size(s) + 1 + Size(r)
  {
    Fork(s.l, s.n, Fork(s.r, n, r))
  }

  /** s with n and its left subtree l attached in front of all its elements. */
  ghost function JoinLeft(l: Tree, n: Node, s: Tree): (t: Tree)
    requires s.Fork?
    ensures t.Fork? && Size(t) == Size(l) + 1 + Size(s)
  {
    Fork(Fork(l, n, s.l), s.n, s.r)
  }

  /** The tree that SPLAY leaves: a step to one side, or two steps to the same side at once, and what was passed is
      attached on the other side. */
  ghost function Splayed(t: Tree, key: int): (s: Tree)
    requires t.Fork?
    ensures s.Fork? && Size(s) == Size(t)
  {
    if key < t.n.key && t.l.Fork? then
      if key < t.l.n.key then
        var back := Fork(t.l.r, t.n, t.r);
        if t.l.l.Leaf? then Fork(Leaf, t.l.n, back) else JoinRight(Splayed(t.l.l, key), t.l.n, back)
      else JoinRight(Splayed(t.l, key), t.n, t.r)
    else if key > t.n.key && t.r.Fork? then
      if key > t.r.n.key then
        var back := Fork(t.l, t.n, t.r.l);
        if t.r.r.Leaf? then Fork(back, t.r.n, Leaf) else JoinLeft(back, t.r.n, Splayed(t.r.r, key))
      else JoinLeft(t.l, t.n, Splayed(t.r, key))
    else t
  }

  /** How often SPLAY goes round its loop. */
  ghost function Rounds(t: Tree, key: int): nat
    requires t.Fork?
  {
    if key < t.n.key then
      if t.l.Leaf? then 1
      else if key < t.l.n.key then if t.l.l.Leaf? then 1 else 1 + Rounds(t.l.l, key)
      else 1 + Rounds(t.l, key)
    else if key > t.n.key then
      if t.r.Leaf? then 1
      else if key > t.r.n.key then if t.r.r.Leaf? then 1 else 1 + Rounds(t.r.r, key)
      else 1 + Rounds(t.r, key)
    else 0
  }

  /** The nodes that a search for the key meets. */
  ghost function SearchLength(t: Tree, key: int): nat {
    if t.Leaf? then 0
    else if key < t.n.key then 1 + SearchLength(t.l, key)
    else if key > t.n.key then 1 + SearchLength(t.r, key)
    else 1
  }

  /** A round goes down one step or two, so that the rounds measure the search path. */
  lemma {:induction false} RoundsMeasure(t: Tree, key: int)
    requires t.Fork?
    ensures Rounds(t, key) <= SearchLength(t, key) <= 2 * Rounds(t, key) + 1
    decreases t
  {
    if key < t.n.key && t.l.Fork? {
      if key < t.l.n.key && t.l.l.Fork? {
        RoundsMeasure(t.l.l, key);
      } else {
        RoundsMeasure(t.l, key);
      }
    } else if key > t.n.key && t.r.Fork? {
      if key > t.r.n.key && t.r.r.Fork? {
        RoundsMeasure(t.r.r, key);
      } else {
        RoundsMeasure(t.r, key);
      }
    }
  }

  lemma RotateOrder(a: Tree, x: Node, b: Tree, y: Node, c: Tree)
    ensures Inorder(Fork(a, x, Fork(b, y, c))) == Inorder(Fork(Fork(a, x, b), y, c))
  {
    Reparse(Inorder(a), [x], Inorder(b), [y], Inorder(c));
  }

  lemma JoinRightOrder(s: Tree, n: Node, r: Tree)
    requires s.Fork?
    ensures Inorder(JoinRight(s, n, r)) == Inorder(s) + [n] + Inorder(r)
  {
    Reparse(Inorder(s.l), [s.n], Inorder(s.r), [n], Inorder(r));
  }

  lemma JoinLeftOrder(l: Tree, n: Node, s: Tree)
    requires s.Fork?
    ensures Inorder(JoinLeft(l, n, s)) == Inorder(l) + [n] + Inorder(s)
  {
    Reparse(Inorder(l), [n], Inorder(s.l), [s.n], Inorder(s.r));
  }

  /** Splaying keeps the order. */
  lemma {:induction false} SplayedOrder(t: Tree, key: int)
    requires t.Fork?
    ensures Inorder(Splayed(t, key)) == Inorder(t)
  {
    hide JoinLeft, JoinRight;
    if key < t.n.key && t.l.Fork? {
      if key < t.l.n.key {
        RotateOrder(t.l.l, t.l.n, t.l.r, t.n, t.r);
        if t.l.l.Fork? {
          SplayedOrder(t.l.l, key);
          JoinRightOrder(Splayed(t.l.l, key), t.l.n, Fork(t.l.r, t.n, t.r));
        }
      } else {
        SplayedOrder(t.l, key);
        JoinRightOrder(Splayed(t.l, key), t.n, t.r);
      }
    } else if key > t.n.key && t.r.Fork? {
      if key > t.r.n.key {
        RotateOrder(t.l, t.n, t.r.l, t.r.n, t.r.r);
        if t.r.r.Fork? {
          SplayedOrder(t.r.r, key);
          JoinLeftOrder(Fork(t.l, t.n, t.r.l), t.r.n, Splayed(t.r.r, key));
        }
      } else {
        SplayedOrder(t.r, key);
        JoinLeftOrder(t.l, t.n, Splayed(t.r, key));
      }
    }
  }

  lemma Weaken(s: seq<Node>, key: int, key': int)
    ensures Above(s, key) && key' <= key ==> Above(s, key')
    ensures Below(s, key) && key <= key' ==> Below(s, key')
  {
  }

  lemma OutsideFork(l: Tree, n: Node, r: Tree, key: int)
    ensures Above(Inorder(l), key) && key < n.key && Above(Inorder(r), key) ==> Above(Inorder(Fork(l, n, r)), key)
    ensures Below(Inorder(l), key) && n.key < key && Below(Inorder(r), key) ==> Below(Inorder(Fork(l, n, r)), key)
  {
  }

  lemma NothingOutside(key: int)
    ensures Below(Inorder(Leaf), key) && Above(Inorder(Leaf), key)
  {
  }

  lemma SplitLeft(t: Tree, key: int)
    requires t.Fork? && Sorted(Inorder(t)) && key < t.n.key
    requires t.l.Fork? && key >= t.l.n.key ==> SplitAt(Splayed(t.l, key), key)
    requires t.l.Fork? && t.l.l.Fork? && key < t.l.n.key ==> SplitAt(Splayed(t.l.l, key), key)
    ensures SplitAt(Splayed(t, key), key)
  {
    hide Inorder, Below, Above, Sorted;
    NothingOutside(key);
    HalvesOrder(t);
    Weaken(Inorder(t.r), t.n.key, key);
    if t.l.Fork? {
      if key < t.l.n.key {
        var back := Fork(t.l.r, t.n, t.r);
        HalvesOrder(t.l);
        Weaken(Inorder(t.l.r), t.l.n.key, key);
        OutsideFork(t.l.r, t.n, t.r, key);
        if t.l.l.Fork? {
          OutsideFork(Splayed(t.l.l, key).r, t.l.n, back, key);
        }
      } else {
        OutsideFork(Splayed(t.l, key).r, t.n, t.r, key);
      }
    }
  }

  lemma SplitRight(t: Tree, key: int)
    requires t.Fork? && Sorted(Inorder(t)) && key > t.n.key
    requires t.r.Fork? && key <= t.r.n.key ==> SplitAt(Splayed(t.r, key), key)
    requires t.r.Fork? && t.r.r.Fork? && key > t.r.n.key ==> SplitAt(Splayed(t.r.r, key), key)
    ensures SplitAt(Splayed(t, key), key)
  {
    hide Inorder, Below, Above, Sorted;
    NothingOutside(key);
    HalvesOrder(t);
    Weaken(Inorder(t.l), t.n.key, key);
    if t.r.Fork? {
      if key > t.r.n.key {
        var back := Fork(t.l, t.n, t.r.l);
        HalvesOrder(t.r);
        Weaken(Inorder(t.r.l), t.r.n.key, key);
        OutsideFork(t.l, t.n, t.r.l, key);
        if t.r.r.Fork? {
          OutsideFork(back, t.r.n, Splayed(t.r.r, key).l, key);
        }
      } else {
        OutsideFork(t.l, t.n, Splayed(t.r, key).l, key);
      }
    }
  }

  /** Splaying a search tree parts it at the key. */
  lemma {:induction false} SplayedSplits(t: Tree, key: int)
    requires t.Fork? && Sorted(Inorder(t))
    ensures SplitAt(Splayed(t, key), key)
  {
    hide Inorder, Below, Above, Sorted, SplitAt;
    HalvesOrder(t);
    if key < t.n.key {
      if t.l.Fork? && key >= t.l.n.key {
        SplayedSplits(t.l, key);
      } else if t.l.Fork? && t.l.l.Fork? {
        HalvesOrder(t.l);
        SplayedSplits(t.l.l, key);
      }
      SplitLeft(t, key);
    } else if key > t.n.key {
      if t.r.Fork? && key <= t.r.n.key {
        SplayedSplits(t.r, key);
      } else if t.r.Fork? && t.r.r.Fork? {
        HalvesOrder(t.r);
        SplayedSplits(t.r.r, key);
      }
      SplitRight(t, key);
    } else {
      SplitHere(t);
    }
  }

  lemma SplitHere(t: Tree)
    requires t.Fork? && Below(Inorder(t.l), t.n.key) && Above(Inorder(t.r), t.n.key)
    ensures SplitAt(Splayed(t, t.n.key), t.n.key)
  {
  }

  // ---------- the loop's view ----------

  /** What the loop makes of the tree still at the head and the two side trees. */
  ghost function Joined(t: Tree, left: Spine, right: Spine, key: int): Tree
    requires t.Fork?
  {
    var s := Splayed(t, key);
    Fork(PlugLeft(left, s.l), s.n, PlugRight(right, s.r))
  }

  ghost function Assembled(t: Tree, left: Spine, right: Spine): Tree
    requires t.Fork?
  {
    Fork(PlugLeft(left, t.l), t.n, PlugRight(right, t.r))
  }

  lemma StartJoined(t: Tree, key: int)
    requires t.Fork?
    ensures Joined(t, Nil, Nil, key) == Splayed(t, key)
  {
  }

  /** Where a round finds nothing to go on to, the tree at the head stays. */
  lemma StopJoined(t: Tree, left: Spine, right: Spine, key: int)
    requires t.Fork? && (key == t.n.key || (key < t.n.key && t.l.Leaf?) || (key > t.n.key && t.r.Leaf?))
    ensures Joined(t, left, right, key) == Assembled(t, left, right)
    ensures Rounds(t, key) == if key == t.n.key then 0 else 1
  {
  }

  lemma TurnedLeft(t: Tree, left: Spine, right: Spine, key: int)
    requires t.Fork? && t.l.Fork? && key < t.n.key && key < t.l.n.key
    ensures var back := Fork(t.l.r, t.n, t.r);
      if t.l.l.Leaf? then
        Joined(t, left, right, key) == Assembled(Fork(Leaf, t.l.n, back), left, right) && Rounds(t, key) == 1
      else
        && Joined(t, left, right, key) == Joined(t.l.l, left, Snoc(right, back, t.l.n), key)
        && Rounds(t, key) == 1 + Rounds(t.l.l, key)
  {
  }

  lemma TurnedRight(t: Tree, left: Spine, right: Spine, key: int)
    requires t.Fork? && t.r.Fork? && key > t.n.key && key > t.r.n.key
    ensures var back := Fork(t.l, t.n, t.r.l);
      if t.r.r.Leaf? then
        Joined(t, left, right, key) == Assembled(Fork(back, t.r.n, Leaf), left, right) && Rounds(t, key) == 1
      else
        && Joined(t, left, right, key) == Joined(t.r.r, Snoc(left, back, t.r.n), right, key)
        && Rounds(t, key) == 1 + Rounds(t.r.r, key)
  {
  }

  lemma PassedLeft(t: Tree, left: Spine, right: Spine, key: int)
    requires t.Fork? && t.l.Fork? && t.l.n.key <= key < t.n.key
    ensures Joined(t, left, right, key) == Joined(t.l, left, Snoc(right, t.r, t.n), key)
    ensures Rounds(t, key) == 1 + Rounds(t.l, key)
  {
  }

  lemma PassedRight(t: Tree, left: Spine, right: Spine, key: int)
    requires t.Fork? && t.r.Fork? && t.n.key < key <= t.r.n.key
    ensures Joined(t, left, right, key) == Joined(t.r, Snoc(left, t.l, t.n), right, key)
    ensures Rounds(t, key) == 1 + Rounds(t.r, key)
  {
  }

  /** Beyond all elements on one side. */
  ghost predicate Beyond(t: Tree, key: int, comp: int) {
    forall x :: x in Nodes(t) ==> if comp < 0 then key < x.key else x.key < key
  }

  lemma BeyondSign(t: Tree, key: int, comp: int)
    ensures Beyond(t, key, comp) <==> Beyond(t, key, if comp < 0 then -1 else 1)
  {
  }

  lemma BeyondParts(t: Tree, key: int, comp: int)
    requires t.Fork? && Beyond(t, key, comp)
    ensures Beyond(t.l, key, comp) && Beyond(t.r, key, comp) && if comp < 0 then key < t.n.key else t.n.key < key
  {
  }

  lemma BeyondSplit(t: Tree, key: int, comp: int)
    requires SplitAt(t, key) && Beyond(t, key, comp)
    ensures if comp < 0 then t.l.Leaf? else t.r.Leaf?
  {
    hide Inorder;
    BeyondParts(t, key, comp);
    NodesInorder(t.l);
    NodesInorder(t.r);
    if t.l.Fork? {
      BeyondParts(t.l, key, comp);
      TopIn(t.l);
    }
    if t.r.Fork? {
      BeyondParts(t.r, key, comp);
      TopIn(t.r);
    }
  }

  lemma BeyondSame(t: Tree, t': Tree, key: int, comp: int)
    requires Nodes(t) == Nodes(t') && Beyond(t, key, comp)
    ensures Beyond(t', key, comp)
  {
  }

  lemma TopIn(t: Tree)
    requires t.Fork?
    ensures t.n in Nodes(t)
  {
  }

  lemma {:induction false} SomeBeyond(t: Tree, comp: int) returns (key: int)
    ensures Beyond(t, key, comp)
  {
    key := 0;
    if t.Fork? {
      var l := SomeBeyond(t.l, comp);
      var r := SomeBeyond(t.r, comp);
      key := if comp < 0 then t.n.key - 1 else t.n.key + 1;
      key := if comp < 0 then (if l < key then l else key) else (if l > key then l else key);
      key := if comp < 0 then (if r < key then r else key) else (if r > key then r else key);
    }
  }

  // ---------- separation ----------

  ghost predicate Distinct(t: Tree) {
    match t
    case Leaf => true
    case Fork(l, n, r) =>
      Distinct(l) && Distinct(r) && n !in Nodes(l) && n !in Nodes(r) && Nodes(l) !! Nodes(r)
  }

  /** The two trees SPLAY_INSERT makes of a splayed one. */
  lemma BeforeShape(t: Tree, elm: Node)
    requires t.Fork? && Distinct(t) && elm !in Nodes(t)
    ensures var b := Fork(t.l, elm, Fork(Leaf, t.n, t.r));
      Distinct(b) && Nodes(b) == Nodes(t) + {elm} && Size(b) == Size(t) + 1
  {
    hide Distinct, Nodes, Size;
    var r := Fork(Leaf, t.n, t.r);
    NodesOfFork(Leaf, t.n, t.r);
    NodesOfFork(t.l, t.n, t.r);
    NodesOfFork(t.l, elm, r);
    NodesOfLeaf();
    SizeParts(t);
    SizeParts(r);
    SizeParts(Fork(t.l, elm, r));
  }

  lemma AfterShape(t: Tree, elm: Node)
    requires t.Fork? && Distinct(t) && elm !in Nodes(t)
    ensures var a := Fork(Fork(t.l, t.n, Leaf), elm, t.r);
      Distinct(a) && Nodes(a) == Nodes(t) + {elm} && Size(a) == Size(t) + 1
  {
    hide Distinct, Nodes, Size;
    var l := Fork(t.l, t.n, Leaf);
    NodesOfFork(t.l, t.n, Leaf);
    NodesOfFork(t.l, t.n, t.r);
    NodesOfFork(l, elm, t.r);
    NodesOfLeaf();
    SizeParts(t);
    SizeParts(l);
    SizeParts(Fork(l, elm, t.r));
  }

  lemma NodesOfFork(l: Tree, n: Node, r: Tree)
    ensures Nodes(Fork(l, n, r)) == Nodes(l) + {n} + Nodes(r)
    ensures Distinct(Fork(l, n, r)) <==>
              Distinct(l) && Distinct(r) && n !in Nodes(l) && n !in Nodes(r) && Nodes(l) !! Nodes(r)
  {
  }

  lemma NodesOfLeaf()
    ensures Nodes(Leaf) == {} && Distinct(Leaf) && Size(Leaf) == 0
  {
  }

  ghost predicate DistinctSpine(s: Spine) {
    match s
    case Nil => true
    case Snoc(up, t, n) =>
      && DistinctSpine(up) && Distinct(t)
      && n !in SpineNodes(up) && n !in Nodes(t) && SpineNodes(up) !! Nodes(t)
  }

  lemma {:induction false} PlugLeftApart(s: Spine, t: Tree)
    requires DistinctSpine(s) && Distinct(t) && SpineNodes(s) !! Nodes(t)
    ensures Distinct(PlugLeft(s, t)) && Nodes(PlugLeft(s, t)) == SpineNodes(s) + Nodes(t)
  {
    if s.Snoc? {
      PlugLeftApart(s.up, Fork(s.t, s.n, t));
    }
  }

  lemma {:induction false} PlugRightApart(s: Spine, t: Tree)
    requires DistinctSpine(s) && Distinct(t) && SpineNodes(s) !! Nodes(t)
    ensures Distinct(PlugRight(s, t)) && Nodes(PlugRight(s, t)) == SpineNodes(s) + Nodes(t)
  {
    if s.Snoc? {
      PlugRightApart(s.up, Fork(t, s.n, s.t));
    }
  }

  /** A tree and two side trees that share no node. */
  ghost predicate Separate(t: Tree, left: Spine, right: Spine) {
    && Distinct(t) && DistinctSpine(left) && DistinctSpine(right)
    && Nodes(t) !! SpineNodes(left) && Nodes(t) !! SpineNodes(right) && SpineNodes(left) !! SpineNodes(right)
  }

  ghost function AllNodes(t: Tree, left: Spine, right: Spine): set<Node> {
    Nodes(t) + SpineNodes(left) + SpineNodes(right)
  }

  /** Where the nodes that a rotation writes are not. */
  lemma RotateSeparate(t: Tree, s: Tree, left: Spine, right: Spine)
    requires Separate(t, left, right) && t.Fork? && s.Fork? && (s == t.l || s == t.r)
    ensures var t' := if s == t.l then Fork(s.l, s.n, Fork(s.r, t.n, t.r)) else Fork(Fork(t.l, t.n, s.l), s.n, s.r);
      Separate(t', left, right) && AllNodes(t', left, right) == AllNodes(t, left, right)
    ensures t.n != s.n && t.n in AllNodes(t, left, right) && s.n in AllNodes(t, left, right)
    ensures t.n !in Nodes(s.l) && t.n !in Nodes(s.r) && s.n !in Nodes(s.l) && s.n !in Nodes(s.r)
    ensures t.n !in Nodes(t.l) && t.n !in Nodes(t.r)
    ensures s == t.l ==> s.n !in Nodes(t.r)
    ensures s == t.r ==> s.n !in Nodes(t.l)
    ensures t.n !in SpineNodes(left) && t.n !in SpineNodes(right)
    ensures s.n !in SpineNodes(left) && s.n !in SpineNodes(right)
  {
    RotateApart(t, s);
    assert t.n in Nodes(t) && s.n in Nodes(t);
  }

  lemma LinkLeftSeparate(t: Tree, left: Spine, right: Spine)
    requires Separate(t, left, right) && t.Fork?
    ensures Separate(t.l, left, Snoc(right, t.r, t.n))
    ensures AllNodes(t.l, left, Snoc(right, t.r, t.n)) == AllNodes(t, left, right)
  {
  }

  lemma LinkRightSeparate(t: Tree, left: Spine, right: Spine)
    requires Separate(t, left, right) && t.Fork?
    ensures Separate(t.r, Snoc(left, t.l, t.n), right)
    ensures AllNodes(t.r, Snoc(left, t.l, t.n), right) == AllNodes(t, left, right)
  {
  }

  lemma AssembleSeparate(t: Tree, left: Spine, right: Spine)
    requires Separate(t, left, right) && t.Fork?
    ensures var l, r := PlugLeft(left, t.l), PlugRight(right, t.r);
      && Distinct(Fork(l, t.n, r)) && Nodes(Fork(l, t.n, r)) == AllNodes(t, left, right)
      && t.n !in Nodes(l) && t.n !in Nodes(r)
  {
    PlugLeftApart(left, t.l);
    PlugRightApart(right, t.r);
  }

  /** Where the last node of a side tree is and is not. */
  lemma LastApart(t: Tree, s: Spine, other: Spine)
    requires (Separate(t, s, other) || Separate(t, other, s)) && t.Fork?
    ensures t.n in Nodes(t) && Nodes(t.l) <= Nodes(t) && Nodes(t.r) <= Nodes(t)
    ensures s.Snoc? ==>
      && s.n in SpineNodes(s) && SpineNodes(s.up) <= SpineNodes(s) && Nodes(s.t) <= SpineNodes(s)
      && s.n !in SpineNodes(s.up) && s.n !in Nodes(s.t)
      && s.n !in Nodes(t.l) && s.n !in Nodes(t.r) && s.n != t.n && s.n !in SpineNodes(other)
      && (s.up.Snoc? ==> s.up.n != s.n)
  {
  }

  lemma RotateApart(t: Tree, s: Tree)
    requires Distinct(t) && t.Fork? && s.Fork? && (s == t.l || s == t.r)
    ensures s == t.l ==> Distinct(Fork(s.l, s.n, Fork(s.r, t.n, t.r))) && Nodes(Fork(s.l, s.n, Fork(s.r, t.n, t.r))) == Nodes(t)
    ensures s == t.r ==> Distinct(Fork(Fork(t.l, t.n, s.l), s.n, s.r)) && Nodes(Fork(Fork(t.l, t.n, s.l), s.n, s.r)) == Nodes(t)
    ensures t.n != s.n && {t.n, s.n} !! Nodes(s.l) && {t.n, s.n} !! Nodes(s.r)
    ensures t.n !in Nodes(t.l) && t.n !in Nodes(t.r) && (s == t.l ==> s.n !in Nodes(t.r)) && (s == t.r ==> s.n !in Nodes(t.l))
  {
    assert Nodes(s) == Nodes(s.l) + {s.n} + Nodes(s.r);
  }
}
