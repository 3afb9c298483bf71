/** proxy.c: relaying bytes between a downstream and an upstream connection, each with a buffer for what was read from
    it and cursors pos and last into that buffer. A stream and the callback data it owns are one object here. */
module Relay {
  import opened Basics
  import opened RtsBuf

  const DEFAULT_BUF_SIZE := 8092

  /** uv_write of len bytes at base + off, under way. */
  datatype WriteReq = WriteReq(base: array<Byte>, off: nat, len: nat)

  class Conn {
    const stream: Stream
    var ready: bool

    constructor (stream: Stream, ready: bool)
      ensures this.stream == stream && this.ready == ready
    {
      this.stream := stream;
      this.ready := ready;
    }
  }

  /** input: all bytes read from the stream. output: all bytes whose write to the stream has completed. pending: the
      writes to the stream that are under way. */
  class Stream {
    var conn: Conn?
    var buf: Buffer
    var pos: nat
    var last: nat
    var pending: seq<WriteReq>
    ghost var input: seq<Byte>
    ghost var output: seq<Byte>

    /** init_callback_data. */
    constructor ()
      ensures Open(this) && fresh(buf) && fresh(buf.buf) && buf.State() == Sizes(0, 8092, 0)
    {
      conn := null;
      buf := new Buffer(DEFAULT_BUF_SIZE);
      pos, last, pending := 0, 0, [];
      input, output := [], [];
    }
  }

  /** A connection that nothing was read from yet. */
  ghost predicate Open(s: Stream)
    reads s, s.buf, s.buf.buf
  {
    && s.conn == null && s.buf.Valid() && s.buf.size == 0 && s.pos == 0 && s.last == 0
    && s.pending == [] && s.input == [] && s.output == []
  }

  /** From one stream to the other: what was read is what was written and then what the buffer holds from pos on; one
      write is under way exactly when pos < last, of the bytes between them. */
  ghost predicate Flow(from: Stream, to: Stream)
    reads from, from.buf, from.buf.buf, to
  {
    && from.buf.Valid() && from.pos <= from.last <= from.buf.size
    && from.input == to.output + from.buf.Contents()[from.pos..]
    && to.pending == if from.pos < from.last then [WriteReq(from.buf.buf, from.pos, from.last - from.pos)] else []
  }

  /** No byte is stranded: with the peer ready and no write under way the buffer is empty. Before that nothing is
      written. */
  ghost predicate Settled(from: Stream)
    reads from, from.conn, from.buf
  {
    && from.conn != null
    && (from.conn.ready && from.pos == from.last ==> from.buf.size == 0)
    && (!from.conn.ready ==> from.last == 0)
  }

  ghost predicate Apart(down: Stream, up: Stream)
    reads down, up, down.buf, up.buf
  {
    && down != up && down.buf != up.buf && down.buf.buf != up.buf.buf
    && down.conn != null && up.conn != null && down.conn != up.conn
    && down.conn.stream == up && up.conn.stream == down
  }

  /** The two connections of a relay, each with the other as its peer. Until the upstream connects, something is waiting
      for it and nothing has come from it. */
  ghost predicate Linked(down: Stream, up: Stream)
    reads down, up, down.buf, up.buf, down.buf.buf, up.buf.buf, down.conn, up.conn
  {
    && Apart(down, up) && up.conn.ready
    && Flow(down, up) && Settled(down) && Flow(up, down) && Settled(up)
    && (!down.conn.ready ==> down.buf.size > 0 && up.input == [])
  }

  /** What the relay promises a reader: the bytes written are a prefix of those read, the bytes under way come next, and
      when nothing is under way to a ready peer, everything read has been written. */
  lemma InOrder(from: Stream, to: Stream)
    requires Flow(from, to) && Settled(from)
    ensures to.output <= from.input && |to.pending| <= 1
    ensures forall w :: w in to.pending ==>
              && w.len > 0 && w.off + w.len <= w.base.Length
              && to.output + w.base[w.off..w.off + w.len] <= from.input
    ensures from.conn.ready && to.pending == [] ==> to.output == from.input
  {
    if from.pos < from.last {
      Window(from.buf.buf, from.buf.size, from.pos, from.last);
      var rest := from.buf.Contents()[from.pos..];
      assert from.input[..|to.output| + (from.last - from.pos)] == to.output + rest[..from.last - from.pos];
    }
  }

  lemma Window(a: array<Byte>, size: nat, pos: nat, last: nat)
    requires pos <= last <= size <= a.Length
    ensures a[pos..last] == a[..size][pos..][..last - pos]
    ensures a[..size][pos..] == a[pos..last] + a[last..size]
  {
  }

  /** transfer_stream_data: unless a write is under way, all that the buffer holds is written. The callers see to it
      that there is something. */
  method Transfer(from: Stream, to: Stream)
    requires from != to && Flow(from, to) && (from.pos == from.last ==> from.last < from.buf.size)
    modifies from`last, to`pending
    ensures Flow(from, to)
    ensures old(from.pos == from.last) ==> from.last == from.buf.size
    ensures old(from.pos != from.last) ==> from.last == old(from.last)
  {
    if from.pos != from.last {
      return;
    }
    from.last := from.buf.size;
    to.pending := to.pending + [WriteReq(from.buf.buf, from.pos, from.last - from.pos)];
  }

  /** init_upstream_connection, with memory to be had. */
  method InitUpstream(down: Stream) returns (up: Stream)
    requires Open(down)
    modifies down`conn
    ensures fresh(up) && fresh(up.buf) && fresh(up.buf.buf) && up.conn != null && fresh(up.conn)
    ensures down.conn != null && fresh(down.conn) && Apart(down, up)
    ensures !down.conn.ready && up.conn.ready && Flow(down, up) && Flow(up, down)
    ensures up.buf.size == 0 && up.input == [] && up.output == [] && up.pos == 0 && up.last == 0
  {
    up := new Stream();
    var downConn := new Conn(down, true);
    var upConn := new Conn(up, false);
    down.conn := upConn;
    up.conn := downConn;
  }

  /** Whether nread bytes can be read without a reallocation during a write, which the program leaves out by its choice
      of buffer size: the write would go on from memory that has been freed. */
  ghost predicate RoomFor(from: Stream, nread: nat)
    reads from, from.buf
  {
    from.pos < from.last ==> Fits(from.buf.State(), nread)
  }

  lemma TailOfAppend(a: seq<Byte>, b: seq<Byte>, k: nat)
    requires k <= |a|
    ensures (a + b)[k..] == a[k..] + b
  {
  }

  /** Bytes are read into the buffer. That keeps the flow exactly when there is room for them. */
  method Absorb(from: Stream, to: Stream, content: array<Byte>, nread: nat)
    requires from != to && Flow(from, to)
    requires 0 < nread <= content.Length && content != from.buf.buf
    modifies from`input, from.buf, from.buf.buf
    ensures Flow(from, to) <==> old(RoomFor(from, nread))
    ensures from.buf.Valid() && from.input == old(from.input) + content[..nread]
    ensures from.buf.size > from.last
    ensures if Fits(old(from.buf.State()), nread) then from.buf.buf == old(from.buf.buf) else fresh(from.buf.buf)
    ensures from.buf.State() == Appended(old(from.buf.State()), nread)
  {
    ghost var was := from.buf.Contents();
    var r := from.buf.Append(content, nread);
    TailOfAppend(was, content[..nread], from.pos);
    from.input := from.input + content[..nread];
  }

  /** The part of downstream_read and upstream_read that they share: append, and start a write if the peer is ready and
      none is under way. */
  method Receive(from: Stream, to: Stream, content: array<Byte>, nread: nat)
    requires from != to && Flow(from, to) && from.conn != null && from.conn.stream == to
    requires from.conn.ready ==> Settled(from)
    requires !from.conn.ready ==> from.last == 0
    requires 0 < nread <= content.Length && content != from.buf.buf
    modifies from`last, from`input, to`pending, from.buf, from.buf.buf
    ensures Flow(from, to) <==> old(RoomFor(from, nread))
    ensures Settled(from) && from.input == old(from.input) + content[..nread]
    ensures from.buf.size > 0
    ensures if Fits(old(from.buf.State()), nread) then from.buf.buf == old(from.buf.buf) else fresh(from.buf.buf)
    ensures from.buf.State() == Appended(old(from.buf.State()), nread)
    ensures old(to.pending) <= to.pending
  {
    Absorb(from, to, content, nread);
    if from.conn != null && from.conn.ready && from.pos == from.last {
      Transfer(from, from.conn.stream);
    }
  }

  method DownstreamRead(client: Stream, content: array<Byte>, nread: nat)
    requires 0 < nread <= content.Length && content != client.buf.buf
    requires client.conn == null ==> Open(client)
    requires client.conn != null ==> Linked(client, client.conn.stream)
    requires RoomFor(client, nread)
    modifies client, client.buf, client.buf.buf, (if client.conn == null then {} else {client.conn.stream})`pending
    ensures client.conn != null && Linked(client, client.conn.stream)
    ensures client.input == old(client.input) + content[..nread]
    ensures old(client.conn) != null ==> client.conn == old(client.conn)
    ensures old(client.conn) == null ==>
              && !client.conn.ready && fresh(client.conn) && fresh(client.conn.stream) && fresh(client.conn.stream.conn)
              && fresh(client.conn.stream.buf) && fresh(client.conn.stream.buf.buf)
    ensures client.buf == old(client.buf) && (client.buf.buf == old(client.buf.buf) || fresh(client.buf.buf))
    ensures client.buf.State() == Appended(old(client.buf.State()), nread)
  {
    if client.conn == null {
      var up := InitUpstream(client);
    }
    Receive(client, client.conn.stream, content, nread);
  }

  method UpstreamRead(client: Stream, content: array<Byte>, nread: nat)
    requires 0 < nread <= content.Length && content != client.buf.buf
    requires client.conn != null && Linked(client.conn.stream, client) && client.conn.stream.conn.ready
    requires RoomFor(client, nread)
    modifies client, client.buf, client.buf.buf, client.conn.stream`pending
    ensures client.conn == old(client.conn) && Linked(client.conn.stream, client)
    ensures client.input == old(client.input) + content[..nread]
    ensures client.buf == old(client.buf) && (client.buf.buf == old(client.buf.buf) || fresh(client.buf.buf))
    ensures client.buf.State() == Appended(old(client.buf.State()), nread)
  {
    Receive(client, client.conn.stream, content, nread);
  }

  /** on_upstream_connect, on success: what has been read by now is written. */
  method OnUpstreamConnect(up: Stream)
    requires up.conn != null && Linked(up.conn.stream, up) && !up.conn.stream.conn.ready
    modifies up.conn.stream`last, up.conn.stream.conn`ready, up`pending
    ensures up.conn == old(up.conn) && Linked(up.conn.stream, up) && up.conn.stream.conn.ready
    ensures up.pending != [] && up.conn.stream.last == up.conn.stream.buf.size
  {
    var down := up.conn.stream;
    down.conn.ready := true;
    if down.pos == down.last {
      Transfer(down, up);
    }
  }

  lemma TailSplits(s: seq<Byte>, pos: nat, last: nat)
    requires pos <= last <= |s|
    ensures s[pos..] == s[pos..last] + s[last..]
  {
  }

  lemma Reassociate(x: seq<Byte>, y: seq<Byte>, z: seq<Byte>)
    ensures x + (y + z) == (x + y) + z
    ensures y != [] ==> x < x + y
  {
  }

  lemma Advance(a: array<Byte>, size: nat, pos: nat, last: nat, before: seq<Byte>)
    requires pos <= last <= size <= a.Length
    ensures before + a[..size][pos..] == (before + a[pos..last]) + a[..size][last..]
    ensures pos < last ==> before < before + a[pos..last]
  {
    var s := a[..size];
    assert a[pos..last] == s[pos..last];
    TailSplits(s, pos, last);
    Reassociate(before, s[pos..last], s[last..]);
  }

  /** The write under way completes: the bytes its request points to are out. */
  method Complete(from: Stream, to: Stream)
    requires from != to && Flow(from, to) && to.pending != []
    modifies from`pos, to`pending, to`output
    ensures Flow(from, to) && from.pos == from.last
    ensures to.output == old(to.output + from.buf.buf[from.pos..from.last]) && old(to.output) < to.output
  {
    ghost var wr := to.pending[0];
    Advance(from.buf.buf, from.buf.size, from.pos, from.last, to.output);
    to.output := to.output + wr.base[wr.off..wr.off + wr.len];
    to.pending := [];
    from.pos := from.last;
  }

  /** after_upstream_write and after_downstream_write, which differ in their messages only: what has come in during the
      write that completed is written next, and otherwise the buffer starts again from its beginning. */
  method AfterWrite(from: Stream, to: Stream)
    requires from != to && Flow(from, to) && Settled(from) && to.pending != []
    modifies from`pos, from`last, to`pending, to`output, from.buf`size
    ensures Flow(from, to) && Settled(from)
    ensures to.output == old(to.output + from.buf.buf[from.pos..from.last]) && old(to.output) < to.output
  {
    Complete(from, to);
    if from.last != from.buf.size {
      Transfer(from, to);
    } else {
      from.buf.size := 0;
      from.last := 0;
      from.pos := 0;
    }
  }

  method AfterUpstreamWrite(up: Stream)
    requires up.conn != null && Linked(up.conn.stream, up) && up.pending != []
    modifies up.conn.stream`pos, up.conn.stream`last, up`pending, up`output, up.conn.stream.buf`size
    ensures up.conn == old(up.conn) && Linked(up.conn.stream, up) && old(up.output) < up.output
    ensures var from := up.conn.stream;
      up.output == old(up.output + from.buf.buf[from.pos..from.last])
  {
    AfterWrite(up.conn.stream, up);
  }

  method AfterDownstreamWrite(down: Stream)
    requires down.conn != null && Linked(down, down.conn.stream) && down.pending != []
    modifies down.conn.stream`pos, down.conn.stream`last, down`pending, down`output, down.conn.stream.buf`size
    ensures down.conn == old(down.conn) && Linked(down, down.conn.stream) && old(down.output) < down.output
    ensures var from := down.conn.stream;
      down.output == old(down.output + from.buf.buf[from.pos..from.last])
  {
    AfterWrite(down.conn.stream, down);
  }

  /** A write in Linked's sense is of the buffer's memory. */
  lemma WriteOfBuffer(down: Stream, up: Stream)
    requires Linked(down, up) && up.pending != []
    ensures |up.pending| == 1 && up.pending[0].base == down.buf.buf && down.pos < down.last
    ensures down != up && Flow(down, up) && down.conn != null && down.conn.stream == up && Settled(down)
  {
  }

  lemma EachOther(down: Stream, up: Stream)
    requires Linked(down, up)
    ensures down.conn != null && down.conn.stream == up && up.conn != null && up.conn.stream == down && down != up
  {
  }

  /** A first read of 5000 bytes and then the connection: half of the buffer is being written. */
  method Halfway(down: Stream, content: array<Byte>)
    requires Open(down) && down.buf.State() == Sizes(0, DEFAULT_BUF_SIZE, 0)
    requires content.Length == 5000 && content != down.buf.buf
    modifies down, down.buf, down.buf.buf
    ensures down.conn != null && Linked(down, down.conn.stream) && down.conn.ready && down.conn.stream.pending != []
    ensures down.buf.State() == Sizes(5000, DEFAULT_BUF_SIZE, 0) && content != down.buf.buf
    ensures down.buf == old(down.buf) && fresh(down.conn) && fresh(down.conn.stream)
    ensures down.buf.buf == old(down.buf.buf) || fresh(down.buf.buf)
  {
    hide Linked, Settled, Flow;
    DownstreamRead(down, content, 5000);
    EachOther(down, down.conn.stream);
    OnUpstreamConnect(down.conn.stream);
    EachOther(down, down.conn.stream);
  }

  /** A stream that fails RoomFor: two reads of 5000 bytes with the connection made between them. The second makes the
      buffer reallocate while the first is being written, and that write goes on from the old memory. */
  method Overrun() returns (down: Stream, up: Stream)
    ensures up.pending != [] && up.pending[0].base != down.buf.buf && !Flow(down, up)
  {
    hide Linked, Settled, Flow;
    down := new Stream();
    var content := new Byte[5000](_ => 0);
    Halfway(down, content);
    up := down.conn.stream;
    WriteOfBuffer(down, up);
    ghost var base := up.pending[0].base;
    Receive(down, up, content, 5000);
    assert up.pending[0].base == base;
  }
}
