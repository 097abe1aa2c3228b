/** A bounded byte ring buffer over a fixed storage block with read and
    write cursors (ring_buffer.c).

    The struct has no occupancy counter and its comment defines
    "read == write" as "empty". This model keeps exactly those fields and
    reserves one slot: the buffer is full when advancing the write cursor
    would land on the read cursor, so it holds at most cap - 1 bytes and
    "read == write" holds exactly when nothing is stored. A write into a
    full buffer drops the byte (the C function returns void and reports
    nothing). */
module RingBuffer {

  /** RING_BUF_CAPACITY, the capacity the driver uses. */
  const RingBufCapacity: nat := 4

  /** A C `char`, kept as its 8-bit pattern. */
  newtype Byte = b: int | 0 <= b < 256

  /** The `(char)` conversion of the driver: keeps the low eight bits. */
  function ToByte(i: int): (b: Byte)
    ensures b as int == i % 256
    ensures 0 <= i < 256 ==> b as int == i
  {
    (i % 256) as Byte
  }

  /** The byte the driver writes on iteration i: `(char)i + 64`. */
  function DriverByte(i: int): Byte {
    ToByte(i + 64)
  }

  /** The first n bytes the driver writes, in order. */
  function DriverBytes(n: nat): (s: seq<Byte>)
    ensures |s| == n
    ensures forall k :: 0 <= k < n ==> s[k] == DriverByte(k)
  {
    seq(n, k => DriverByte(k))
  }

  class RingBuffer {
    /** The storage block (head), cap bytes long. */
    var head: array<Byte>
    var cap: nat
    /** Start of valid data. */
    var read: nat
    /** End of valid data. */
    var write: nat

    ghost predicate Valid()
      reads this
    {
      head.Length == cap &&
      (cap == 0 ==> read == 0 && write == 0) &&
      (cap > 0 ==> read < cap && write < cap)
    }

    /** The cursor after i, wrapping from the end of the block to its start. */
    function Next(i: nat): (j: nat)
      reads this
      requires Valid() && cap > 0 && i < cap
      ensures j < cap
      ensures j == (i + 1) % cap
    {
      if i + 1 == cap then 0 else i + 1
    }

    /** The valid bytes, oldest first: from read up to (not including) write,
        wrapping round the end of the block. */
    ghost function Contents(): (s: seq<Byte>)
      reads this, head
      requires Valid()
      ensures cap == 0 ==> s == []
      ensures |s| == if read <= write then write - read else cap - read + write
      ensures cap > 0 ==> |s| < cap
    {
      if read <= write then head[read..write] else head[read..] + head[..write]
    }

    /** The comment on `write`: the buffer is empty exactly when read == write. */
    predicate IsEmpty()
      reads this
      requires Valid()
      ensures IsEmpty() <==> Contents() == []
    {
      read == write
    }

    /** One slot stays free, so the buffer is full at cap - 1 bytes; a
        zero-capacity buffer is always full. */
    predicate IsFull()
      reads this
      requires Valid()
      ensures IsFull() <==> |Contents()| + 1 >= cap
    {
      cap == 0 || Next(write) == read
    }

    /** make_ring_buffer: a zeroed block of `capacity` bytes, both cursors at its start. */
    constructor (capacity: nat)
      ensures Valid() && fresh(head)
      ensures cap == capacity && head.Length == capacity
      ensures forall i :: 0 <= i < capacity ==> head[i] == 0
      ensures read == 0 && write == 0
      ensures Contents() == []
    {
      cap := capacity;
      head := new Byte[capacity](_ => 0);
      read, write := 0, 0;
    }

    /** write_ring_buffer: appends val at the write cursor, or drops it when full. */
    method Write(val: Byte)
      requires Valid()
      modifies this, head
      ensures Valid() && head == old(head) && cap == old(cap)
      ensures old(IsFull()) ==> Contents() == old(Contents())
      ensures !old(IsFull()) ==> Contents() == old(Contents()) + [val]
      ensures read == old(read)
    {
      if IsFull() {
        return;
      }
      ghost var before := Contents();
      head[write] := val;
      write := Next(write);
      if read <= old(write) {
        assert before == old(head[read..write]);
        if write == 0 {
          assert Contents() == head[read..] + head[..0];
          assert head[read..] == before + [val];
        } else {
          assert Contents() == head[read..write];
        }
      } else {
        assert before == old(head[read..]) + old(head[..write]);
        assert head[..write] == old(head[..write]) + [val];
      }
    }

    /** read_ring_buffer: on success returns 0 and the oldest byte, which it
        consumes; otherwise returns -1 and leaves *ret (prev) and the buffer alone. */
    method Read(prev: Byte) returns (status: int, ret: Byte)
      requires Valid()
      modifies this
      ensures Valid() && head == old(head) && cap == old(cap) && write == old(write)
      ensures status == 0 <==> old(Contents()) != []
      ensures status == 0 ==> ret == old(Contents())[0] && Contents() == old(Contents())[1..]
      ensures status != 0 ==> status == -1 && ret == prev && Contents() == old(Contents())
    {
      if IsEmpty() {
        return -1, prev;
      }
      ghost var before := Contents();
      ret := head[read];
      read := Next(read);
      status := 0;
      if old(read) < write {
        assert Contents() == before[1..];
      } else if read == 0 {
        assert Contents() == head[..write];
      } else {
        assert Contents() == before[1..];
      }
    }
  }

  /** The number of bytes a buffer of the given capacity can hold. */
  function Room(capacity: nat): nat {
    if capacity == 0 then 0 else capacity - 1
  }

  lemma DriverBytesSnoc(n: nat)
    ensures DriverBytes(n + 1) == DriverBytes(n) + [DriverByte(n)]
  {
    assert DriverBytes(n + 1)[..n] == DriverBytes(n);
  }

  /** Moving the byte a read returned from the buffer's front to the end of got. */
  lemma Consume(got: seq<Byte>, c: Byte, rest: seq<Byte>, before: seq<Byte>, initial: seq<Byte>)
    requires before != [] && c == before[0] && rest == before[1..] && got + before == initial
    ensures (got + [c]) + rest == initial
  {
    assert before == [c] + rest;
  }

  /** The first loop of main: `count` writes of the driver's bytes into an
      empty buffer; the bytes beyond its room are dropped. */
  method WriteBytes(buf: RingBuffer, count: nat)
    requires buf.Valid() && buf.Contents() == []
    modifies buf, buf.head
    ensures buf.Valid() && buf.cap == old(buf.cap) && buf.head == old(buf.head)
    ensures buf.Contents() == DriverBytes(if count < Room(buf.cap) then count else Room(buf.cap))
  {
    var i := 0;
    while i < count
      invariant buf.Valid() && buf.cap == old(buf.cap) && buf.head == old(buf.head)
      invariant 0 <= i <= count
      invariant buf.Contents() == DriverBytes(if i < Room(buf.cap) then i else Room(buf.cap))
    {
      buf.Write(DriverByte(i));
      if i < Room(buf.cap) {
        DriverBytesSnoc(i);
      }
      i := i + 1;
    }
  }

  /** The second loop of main: `count` read attempts, collecting the byte of
      every read that returns 0. */
  method ReadBytes(buf: RingBuffer, count: nat) returns (got: seq<Byte>)
    requires buf.Valid()
    modifies buf
    ensures buf.Valid() && buf.cap == old(buf.cap) && buf.head == old(buf.head)
    ensures got + buf.Contents() == old(buf.Contents())
    ensures |got| == if count < |old(buf.Contents())| then count else |old(buf.Contents())|
  {
    ghost var initial := buf.Contents();
    var c: Byte := 0;
    got := [];
    var i := 0;
    while i < count
      invariant buf.Valid() && buf.cap == old(buf.cap) && buf.head == old(buf.head)
      invariant 0 <= i <= count
      invariant got + buf.Contents() == initial
      invariant |got| == if i < |initial| then i else |initial|
    {
      ghost var before := buf.Contents();
      var status;
      status, c := buf.Read(c);
      if status == 0 {
        Consume(got, c, buf.Contents(), before, initial);
        got := got + [c];
      }
      i := i + 1;
    }
  }

  /** main: writes cap*2 bytes 64, 65, ... and then tries cap*3 reads,
      collecting (instead of printing) every byte a successful read returns.
      Only the first cap - 1 writes fit, and exactly those bytes come back. */
  method Driver(capacity: nat) returns (got: seq<Byte>)
    ensures got == DriverBytes(Room(capacity))
  {
    var buf := new RingBuffer(capacity);
    WriteBytes(buf, buf.cap * 2);
    got := ReadBytes(buf, buf.cap * 3);
  }

  /** The demo run with RING_BUF_CAPACITY = 4: three of the twelve reads
      succeed, returning '@', 'A', 'B' (bytes 64, 65, 66). */
  method Demo() returns (got: seq<Byte>)
    ensures got == [64, 65, 66]
  {
    got := Driver(RingBufCapacity);
  }
}
