/** The intrusive circular list of queue.h: cells with two pointers, and a head cell that stands for the whole list.
    Each macro is a method whose contract says which sequence the head stands for afterwards. */
module Queue {

  /** typedef void *QUEUE[2]: next in [0], prev in [1]. */
  class Cell {
    var next: Cell
    var prev: Cell

    /** QUEUE_INIT on fresh storage. */
    constructor ()
      ensures IsList(this, [])
    {
      next := this;
      prev := this;
    }
  }

  ghost predicate NoDup(q: seq<Cell>) {
    forall i, j :: 0 <= i < j < |q| ==> q[i] != q[j]
  }

  /** The cell at place i of the ring: h comes before the first cell of q and after the last. */
  ghost function Around(h: Cell, q: seq<Cell>, i: int): Cell {
    if 0 <= i < |q| then q[i] else h
  }

  /** The ring of h: h, then the cells of q in order, then h again, with next and prev inverse to each other. */
  ghost predicate IsList(h: Cell, q: seq<Cell>)
    reads h, q
  {
    && h !in q && NoDup(q)
    && h.next == Around(h, q, 0) && h.prev == Around(h, q, |q| - 1)
    && (forall i {:trigger q[i].next} {:trigger q[i].prev} :: 0 <= i < |q| ==>
          q[i].next == Around(h, q, i + 1) && q[i].prev == Around(h, q, i - 1))
  }

  /** QUEUE_EMPTY: whether h is linked to itself. */
  method Empty(h: Cell, ghost q: seq<Cell>) returns (r: bool)
    requires IsList(h, q)
    ensures r <==> q == []
  {
    r := h == h.next;
  }

  /** QUEUE_HEAD of a non-empty list. */
  method Head(h: Cell, ghost q: seq<Cell>) returns (r: Cell)
    requires IsList(h, q) && q != []
    ensures r == q[0]
  {
    r := h.next;
  }

  method Init(q: Cell)
    modifies q
    ensures IsList(q, [])
  {
    q.next := q;
    q.prev := q;
  }

  method InsertHead(h: Cell, q: Cell, ghost s: seq<Cell>)
    requires IsList(h, s) && q != h && q !in s
    modifies h, q, h.next
    ensures IsList(h, [q] + s)
  {
    q.next := h.next;
    q.prev := h;
    q.next.prev := q;
    h.next := q;
  }

  method InsertTail(h: Cell, q: Cell, ghost s: seq<Cell>)
    requires IsList(h, s) && q != h && q !in s
    modifies h, q, h.prev
    ensures IsList(h, s + [q])
  {
    q.next := h;
    q.prev := h.prev;
    q.prev.next := q;
    h.prev := q;
  }

  ghost function Without(q: seq<Cell>, k: nat): (r: seq<Cell>)
    requires k < |q|
    ensures |r| == |q| - 1
    ensures forall i {:trigger r[i]} :: 0 <= i < |r| ==> r[i] == if i < k then q[i] else q[i + 1]
  {
    q[..k] + q[k + 1..]
  }

  /** QUEUE_REMOVE needs only the cell. Its own two pointers stay as they were: it does not become a list of its own,
      which is how uv__work_cancel tells a removed item from one a worker has taken and initialised again. */
  method Remove(q: Cell, ghost h: Cell, ghost s: seq<Cell>, ghost k: nat)
    requires IsList(h, s) && k < |s| && q == s[k]
    modifies q.prev, q.next
    ensures IsList(h, Without(s, k))
    ensures q.next == old(q.next) && q.prev == old(q.prev) && q.next != q
  {
    hide Without;
    q.prev.next := q.next;
    q.next.prev := q.prev;
  }

  /** QUEUE_ADD appends the list of n to that of h, and h is right even when n is empty. n is left dangling. */
  method Add(h: Cell, n: Cell, ghost s: seq<Cell>, ghost more: seq<Cell>)
    requires IsList(h, s) && IsList(n, more) && h != n && h !in more && n !in s
    requires forall i, j :: 0 <= i < |s| && 0 <= j < |more| ==> s[i] != more[j]
    modifies h, h.prev, n, n.next, n.prev
    ensures IsList(h, s + more)
  {
    h.prev.next := n.next;
    n.next.prev := h.prev;
    h.prev := n.prev;
    h.prev.next := h;
  }

  /** QUEUE_SPLIT moves q and what follows it to n and leaves what precedes it with h. */
  method Split(h: Cell, q: Cell, n: Cell, ghost s: seq<Cell>, ghost k: nat)
    requires IsList(h, s) && k < |s| && q == s[k] && n != h && n !in s
    modifies h, h.prev, n, q, q.prev
    ensures IsList(h, s[..k]) && IsList(n, s[k..])
  {
    n.prev := h.prev;
    n.prev.next := n;
    n.next := q;
    h.prev := q.prev;
    h.prev.next := h;
    q.prev := n;
  }

  /** Adding back what a split moved off restores every pointer of the list. */
  method SplitAndAdd(h: Cell, q: Cell, n: Cell, ghost s: seq<Cell>, ghost k: nat)
    requires IsList(h, s) && k < |s| && q == s[k] && n != h && n !in s
    modifies h, s, n
    ensures IsList(h, s)
    ensures forall c :: c == h || c in s ==> c.next == old(c.next) && c.prev == old(c.prev)
  {
    Split(h, q, n, s, k);
    Add(h, n, s[..k], s[k..]);
    assert s[..k] + s[k..] == s;
  }

  /** QUEUE_FOREACH visits the cells in order, each once, and then meets h again. */
  method Foreach(h: Cell, ghost s: seq<Cell>) returns (visited: seq<Cell>)
    requires IsList(h, s)
    ensures visited == s
  {
    visited := [];
    var q := h.next;
    while q != h
      invariant |visited| <= |s| && visited == s[..|visited|]
      invariant q == if |visited| < |s| then s[|visited|] else h
      decreases |s| - |visited|
    {
      visited := visited + [q];
      q := q.next;
    }
  }

  lemma FirstTwo(h: Cell, s: seq<Cell>)
    requires IsList(h, s) && s != []
    ensures h.next == s[0] && h.next.next == if |s| > 1 then s[1] else h
  {
  }

  /** One round of that loop's body: the first cell is taken off. */
  method TakeFirst(h: Cell, ghost s: seq<Cell>) returns (q: Cell)
    requires IsList(h, s) && s != []
    modifies h, h.next.next
    ensures q == s[0] && IsList(h, s[1..])
  {
    q := Head(h, s);
    assert q.prev == h && (q.next == h || q.next == s[1]);
    Remove(q, h, s, 0);
    assert Without(s, 0) == s[1..];
  }

  /** The loop at the end of uv__work_done: it takes the cells off the front until the list is empty. */
  method Drain(h: Cell, ghost s: seq<Cell>) returns (taken: seq<Cell>)
    requires IsList(h, s)
    modifies h, s
    ensures taken == s && IsList(h, [])
  {
    hide IsList;
    taken := [];
    ghost var rest := s;
    var empty := Empty(h, s);
    while !empty
      invariant s == taken + rest && IsList(h, rest) && (empty <==> rest == [])
      decreases |rest|
    {
      FirstTwo(h, rest);
      assert |rest| > 1 ==> rest[1] == s[|taken| + 1];
      var q := TakeFirst(h, rest);
      taken, rest := taken + [q], rest[1..];
      empty := Empty(h, rest);
    }
  }
}
