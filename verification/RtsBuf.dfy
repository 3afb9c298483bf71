/** rts_buf.c: a byte buffer that grows when it must. */
module RtsBuf {
  import opened Basics

  function Max(a: nat, b: nat): nat {
    if a < b then b else a
  }

  /** What an append of len bytes does to the sizes: one byte more than the content must fit. copied counts the bytes
      that reallocations have moved. */
  datatype Sizes = Sizes(size: nat, capacity: nat, copied: nat)

  predicate Fits(s: Sizes, len: nat) {
    s.capacity - s.size >= len + 1
  }

  function Appended(s: Sizes, len: nat): Sizes {
    if Fits(s, len) then Sizes(s.size + len, s.capacity, s.copied)
    else Sizes(s.size + len, Max(s.size + len + 1, 2 * s.capacity), s.copied + s.size)
  }

  function Total(lens: seq<nat>): nat {
    if lens == [] then 0 else Total(lens[..|lens| - 1]) + lens[|lens| - 1]
  }

  /** The sizes after appends of the given lengths to a buffer of capacity c0. */
  function AfterAppends(c0: nat, lens: seq<nat>): Sizes {
    if lens == [] then Sizes(0, c0, 0) else Appended(AfterAppends(c0, lens[..|lens| - 1]), lens[|lens| - 1])
  }

  /** However the appends come, the buffer holds their total with a byte to spare, wastes at most half of its room (or
      has its first capacity still), and all reallocations together move no more bytes than the capacity has grown. */
  lemma {:induction false} GrowthBounds(c0: nat, lens: seq<nat>)
    requires c0 > 0
    ensures var s := AfterAppends(c0, lens);
      && s.size == Total(lens)
      && s.size < s.capacity <= Max(c0, 2 * s.size + 1)
      && c0 <= s.capacity && s.copied <= s.capacity - c0
  {
    if lens != [] {
      GrowthBounds(c0, lens[..|lens| - 1]);
    }
  }

  /** A reallocation at least doubles the capacity and makes room for one byte more than the content, with no byte more
      than these two need; and it moves the content once. */
  lemma GrowthDoubles(s: Sizes, len: nat)
    requires s.size < s.capacity
    ensures Appended(s, len).capacity == s.capacity || Appended(s, len).capacity >= 2 * s.capacity
    ensures Appended(s, len).capacity == s.capacity <==> s.size + len < s.capacity
    ensures s.size + len >= s.capacity ==>
              && Appended(s, len).capacity >= s.size + len + 1
              && (Appended(s, len).capacity == 2 * s.capacity || Appended(s, len).capacity == s.size + len + 1)
    ensures Appended(s, len).copied == s.copied + if s.size + len < s.capacity then 0 else s.size
  {
  }

  class Buffer {
    var buf: array<Byte>
    var size: nat
    var capacity: nat
    ghost var copied: nat

    ghost predicate Valid()
      reads this, buf
    {
      capacity == buf.Length && size < capacity
    }

    ghost function Contents(): seq<Byte>
      requires Valid()
      reads this, buf
    {
      buf[..size]
    }

    ghost function State(): Sizes
      reads this
    {
      Sizes(size, capacity, copied)
    }

    /** rts_buf_init with a positive capacity and memory to be had. */
    constructor (capacity: nat)
      requires capacity > 0
      ensures Valid() && fresh(buf) && Contents() == [] && State() == AfterAppends(capacity, [])
    {
      buf := new Byte[capacity](_ => 0);
      size := 0;
      this.capacity := capacity;
      copied := 0;
    }

    /** memcpy of the first n bytes of src to dst from at on. */
    static method Copy(dst: array<Byte>, at: nat, src: array<Byte>, n: nat)
      requires n <= src.Length && at + n <= dst.Length && dst != src
      modifies dst
      ensures dst[..at + n] == old(dst[..at]) + src[..n]
    {
      var i := 0;
      while i < n
        invariant 0 <= i <= n
        invariant dst[..at + i] == old(dst[..at]) + src[..i]
      {
        dst[at + i] := src[i];
        assert dst[..at + (i + 1)] == dst[..at + i] + [src[i]];
        i := i + 1;
      }
    }

    /** rts_buf_append: -1 for no content, otherwise 0 with the content at the end. The bytes stay where they are unless
        the new ones do not fit. */
    method Append(content: array?<Byte>, len: nat) returns (r: int)
      requires Valid() && content != buf && (content != null ==> len <= content.Length)
      modifies this, buf
      ensures Valid()
      ensures content == null ==> r == -1 && State() == old(State()) && buf == old(buf) && Contents() == old(Contents())
      ensures content != null ==>
                && r == 0 && Contents() == old(Contents()) + content[..len]
                && State() == Appended(old(State()), len)
                && (if Fits(old(State()), len) then buf == old(buf) else fresh(buf))
    {
      if content == null {
        return -1;
      }
      var allocLen := len + 1;
      if capacity - size < allocLen {
        var newCap := if size + allocLen - capacity >= capacity then size + allocLen else capacity * 2;
        var newBuf := new Byte[newCap](_ => 0);
        Copy(newBuf, 0, buf, size);
        assert newBuf[..size] == buf[..size];
        capacity := newCap;
        buf := newBuf;
        copied := copied + size;
      }
      Copy(buf, size, content, len);
      size := size + len;
      r := 0;
    }
  }
}
