/** The circular byte buffer of ring_buffer.h, and the bounded FIFO queue it refines. */
module RingBuffers {
  import opened Seq32

  /** One step around a circle of `n` places: what `x % n` is for the sums taken here. */
  function Around(x: int, n: nat): int
  {
    if x < n then x else x - n
  }

  lemma ModOnce(x: int, n: nat)
    requires 0 < n && 0 <= x < 2 * n
    ensures x % n == Around(x, n)
  {}

  // ------------------------------------------------------------------ the buffer as a value

  datatype Ring = Ring(size: nat, head: nat, tail: nat, buf: seq<byte>)
  {
    predicate Valid()
    {
      0 < size == |buf| && head < size && tail < size
    }

    function Used(): int
    {
      Around(tail - head + size, size)
    }

    /** One byte stays unused, to tell a full buffer from an empty one. */
    function Free(): int
    {
      size - Used() - 1
    }

    /** The bytes held, oldest first. */
    function Contents(): seq<byte>
      requires Valid()
    {
      if head <= tail then buf[head..tail] else buf[head..] + buf[..tail]
    }

    function ReadLength(n: int): int
    {
      if Used() < n then Used() else n
    }

    /** The first `len` bytes from the head; two pieces when the range runs past the end. */
    function Piece(len: nat): seq<byte>
      requires Valid() && len <= size
    {
      if head + len > size then buf[head..] + buf[..len - (size - head)] else buf[head..head + len]
    }

    function Skip(len: nat): Ring
    {
      this.(head := Around(head + len, size))
    }

    /** The bytes a read copies out. */
    function Taken(n: nat): seq<byte>
      requires Valid() && 0 <= ReadLength(n) <= size
    {
      Piece(ReadLength(n))
    }

    function AfterRead(n: nat): Ring
      requires 0 <= ReadLength(n)
    {
      Skip(ReadLength(n))
    }

    /** The bytes stored by a write, in two pieces when the range runs past the end. */
    function Stored(data: seq<byte>): seq<byte>
      requires Valid() && |data| < size
    {
      if tail + |data| > size then
        var right := size - tail;
        data[right..] + buf[|data| - right..tail] + data[..right]
      else
        buf[..tail] + data + buf[tail + |data|..]
    }

    function AfterWrite(data: seq<byte>): Ring
      requires Valid() && |data| < size
    {
      this.(buf := Stored(data), tail := Around(tail + |data|, size))
    }
  }

  lemma UsedIsLength(r: Ring)
    requires r.Valid()
    ensures r.Used() == |r.Contents()| && r.Used() + r.Free() == r.size - 1 && 0 <= r.Free()
  {}

  lemma ReadStraight(r: Ring, len: nat)
    requires r.Valid() && len <= |r.Contents()| && r.head + len <= r.size
    ensures r.buf[r.head..r.head + len] == r.Contents()[..len]
    ensures r.Skip(len).Valid() && r.Skip(len).Contents() == r.Contents()[len..]
  {
    var t := r.Skip(len);
    if r.head <= r.tail {
      assert r.Contents()[..len] == r.buf[r.head..r.head + len];
      assert t.Contents() == r.buf[r.head + len..r.tail];
    } else if r.head + len < r.size {
      assert r.Contents()[..len] == r.buf[r.head..][..len];
      assert t.Contents() == r.buf[r.head + len..] + r.buf[..r.tail];
    } else {
      assert t.Contents() == r.buf[0..r.tail] == r.buf[..r.tail];
    }
  }

  lemma ReadSplit(r: Ring, len: nat)
    requires r.Valid() && len <= |r.Contents()| && r.size < r.head + len
    ensures r.buf[r.head..] + r.buf[..len - (r.size - r.head)] == r.Contents()[..len]
    ensures r.Skip(len).Valid() && r.Skip(len).Contents() == r.Contents()[len..]
  {
    var t, left := r.Skip(len), len - (r.size - r.head);
    assert r.tail < r.head && t.head == left <= r.tail;
    assert r.Contents()[..len] == r.buf[r.head..] + r.buf[..r.tail][..left];
    assert t.Contents() == r.buf[left..r.tail] == r.buf[..r.tail][left..];
  }

  lemma PieceIsOldest(r: Ring, len: nat)
    requires r.Valid() && len <= |r.Contents()|
    ensures len <= r.size && r.Piece(len) == r.Contents()[..len]
    ensures r.Skip(len).Valid() && r.Skip(len).Contents() == r.Contents()[len..]
  {
    if r.size < r.head + len {
      ReadSplit(r, len);
    } else {
      ReadStraight(r, len);
    }
  }

  /** A read takes the oldest min(used, n) bytes out and leaves the rest in order. */
  lemma {:induction false} ReadIsFifo(r: Ring, n: nat)
    requires r.Valid()
    ensures 0 <= r.ReadLength(n) <= n && r.ReadLength(n) <= |r.Contents()|
    ensures r.ReadLength(n) == n || r.ReadLength(n) == |r.Contents()|
    ensures r.Taken(n) == r.Contents()[..r.ReadLength(n)]
    ensures r.AfterRead(n).Valid() && r.AfterRead(n).Contents() == r.Contents()[r.ReadLength(n)..]
  {
    UsedIsLength(r);
    PieceIsOldest(r, r.ReadLength(n));
  }

  /** Where each byte of a write lands. */
  lemma StoredAt(r: Ring, data: seq<byte>)
    requires r.Valid() && |data| < r.size && |data| - (r.size - r.tail) <= r.tail
    ensures |r.Stored(data)| == r.size
    ensures forall k :: 0 <= k < r.size ==>
      r.Stored(data)[k] ==
        (if r.tail <= k < r.tail + |data| then data[k - r.tail]
         else if k < r.tail + |data| - r.size then data[k + r.size - r.tail]
         else r.buf[k])
  {}

  lemma StoredSplit(buf: seq<byte>, h: nat, tail: nat, data: seq<byte>)
    requires h <= tail < |buf| < tail + |data| && |data| - (|buf| - tail) <= h
    ensures var right := |buf| - tail;
            var w := data[right..] + buf[|data| - right..tail] + data[..right];
            w[h..] + w[..|data| - right] == buf[h..tail] + data
  {
    var right := |buf| - tail;
    var w := data[right..] + buf[|data| - right..tail] + data[..right];
    assert w[h..] == buf[h..tail] + data[..right];
    assert w[..|data| - right] == data[right..];
  }

  lemma StoredStraight(buf: seq<byte>, h: nat, tail: nat, data: seq<byte>)
    requires h <= |buf| && tail + |data| <= |buf|
    ensures var w := buf[..tail] + data + buf[tail + |data|..];
            && w[..tail + |data|] == buf[..tail] + data
            && (h <= tail ==> w[h..tail + |data|] == buf[h..tail] + data)
            && (tail + |data| <= h ==> w[h..] == buf[h..])
  {}

  lemma WriteAcrossTheEnd(r: Ring, data: seq<byte>)
    requires r.Valid() && |data| <= r.Free() && r.size < r.tail + |data| && |data| < r.size
    ensures r.AfterWrite(data).Contents() == r.Contents() + data
  {
    assert r.head <= r.tail && |data| - (r.size - r.tail) < r.head;
    StoredSplit(r.buf, r.head, r.tail, data);
    var w := r.AfterWrite(data);
    assert w.tail == |data| - (r.size - r.tail);
    assert w.Contents() == w.buf[r.head..] + w.buf[..w.tail];
  }

  lemma WriteBeforeHead(r: Ring, data: seq<byte>)
    requires r.Valid() && |data| <= r.Free() && r.tail < r.head && r.tail + |data| < r.size
    ensures r.AfterWrite(data).Contents() == r.Contents() + data
  {
    StoredStraight(r.buf, r.head, r.tail, data);
    assert r.AfterWrite(data).Contents() == r.buf[r.head..] + (r.buf[..r.tail] + data);
  }

  lemma WriteAfterTail(r: Ring, data: seq<byte>)
    requires r.Valid() && |data| <= r.Free() && r.head <= r.tail && r.tail + |data| <= r.size
    requires |data| < r.size
    ensures r.AfterWrite(data).Contents() == r.Contents() + data
  {
    StoredStraight(r.buf, r.head, r.tail, data);
    var w := r.AfterWrite(data);
    if r.tail + |data| == r.size {
      assert w.tail == 0 < r.head && w.buf[r.head..] == w.buf[r.head..r.size];
    }
  }

  /** A write that fits appends exactly its bytes. */
  lemma {:induction false} WriteIsFifo(r: Ring, data: seq<byte>)
    requires r.Valid() && |data| <= r.Free()
    ensures |data| < r.size
    ensures r.AfterWrite(data).Valid()
    ensures r.AfterWrite(data).Contents() == r.Contents() + data
  {
    UsedIsLength(r);
    if r.size < r.tail + |data| {
      WriteAcrossTheEnd(r, data);
    } else if r.tail < r.head {
      WriteBeforeHead(r, data);
    } else {
      WriteAfterTail(r, data);
    }
  }

  // ------------------------------------------------------------------------- whole runs

  datatype Op = Write(data: seq<byte>) | Read(n: nat)

  /** The guard of a write is the source's assertion: something to store, and room for it. */
  predicate Fits(r: Ring, op: Op)
  {
    op.Write? ==> 0 < |op.data| <= r.Free()
  }

  function Do(r: Ring, op: Op): (t: Ring)
    requires r.Valid() && Fits(r, op)
    ensures t.Valid() && t.size == r.size
  {
    match op
    case Write(data) => WriteIsFifo(r, data); r.AfterWrite(data)
    case Read(n) => ReadIsFifo(r, n); r.AfterRead(n)
  }

  function In(op: Op): seq<byte> { if op.Write? then op.data else [] }

  function Out(r: Ring, op: Op): seq<byte>
    requires r.Valid()
  {
    if op.Read? then ReadIsFifo(r, op.n); r.Taken(op.n) else []
  }

  lemma StepIsFifo(r: Ring, op: Op)
    requires r.Valid() && Fits(r, op)
    ensures Out(r, op) + Do(r, op).Contents() == r.Contents() + In(op)
  {
    match op
    case Write(data) => WriteIsFifo(r, data);
    case Read(n) => ReadIsFifo(r, n);
  }

  ghost predicate Legal(r: Ring, ops: seq<Op>)
    requires r.Valid()
    decreases |ops|
  {
    ops == [] || (Fits(r, ops[0]) && Legal(Do(r, ops[0]), ops[1..]))
  }

  ghost function AfterOps(r: Ring, ops: seq<Op>): (t: Ring)
    requires r.Valid() && Legal(r, ops)
    ensures t.Valid() && t.size == r.size
    decreases |ops|
  {
    if ops == [] then r else AfterOps(Do(r, ops[0]), ops[1..])
  }

  ghost function BytesRead(r: Ring, ops: seq<Op>): seq<byte>
    requires r.Valid() && Legal(r, ops)
    decreases |ops|
  {
    if ops == [] then [] else Out(r, ops[0]) + BytesRead(Do(r, ops[0]), ops[1..])
  }

  function BytesWritten(ops: seq<Op>): seq<byte>
  {
    if ops == [] then [] else In(ops[0]) + BytesWritten(ops[1..])
  }

  lemma Regroup(a: seq<byte>, b: seq<byte>, c: seq<byte>)
    ensures a + b + c == a + (b + c)
  {}

  /** Over any legal run, what was read and what is still held make up exactly what the
      buffer held at first followed by what was written. */
  lemma {:induction false} RunIsFifo(r: Ring, ops: seq<Op>)
    requires r.Valid() && Legal(r, ops)
    ensures BytesRead(r, ops) + AfterOps(r, ops).Contents() == r.Contents() + BytesWritten(ops)
    decreases |ops|
  {
    if ops != [] {
      var t := Do(r, ops[0]);
      RunIsFifo(t, ops[1..]);
      StepIsFifo(r, ops[0]);
      calc {
        BytesRead(r, ops) + AfterOps(r, ops).Contents();
        { Regroup(Out(r, ops[0]), BytesRead(t, ops[1..]), AfterOps(t, ops[1..]).Contents()); }
        Out(r, ops[0]) + (t.Contents() + BytesWritten(ops[1..]));
        { Regroup(Out(r, ops[0]), t.Contents(), BytesWritten(ops[1..])); }
        r.Contents() + In(ops[0]) + BytesWritten(ops[1..]);
        { Regroup(r.Contents(), In(ops[0]), BytesWritten(ops[1..])); }
        r.Contents() + BytesWritten(ops);
      }
    }
  }

  // ------------------------------------------------------------- the buffer in memory

  class RingBuffer {
    const size: nat
    var head: nat
    var tail: nat
    const buf: array<byte>

    ghost predicate Valid()
      reads this, buf
    {
      0 < size == buf.Length && head < size && tail < size
    }

    /** The state of the buffer as a value. */
    ghost function Model(): (r: Ring)
      reads this, buf
      requires Valid()
      ensures r.Valid()
    {
      Ring(size, head, tail, buf[..])
    }

    constructor (capacity: nat)
      ensures Valid() && fresh(buf)
      ensures size == capacity + 1
      ensures Model().Contents() == [] && Model().Free() == capacity
    {
      size := capacity + 1;
      head, tail := 0, 0;
      buf := new byte[capacity + 1](_ => 0);
      new;
      UsedIsLength(Model());
    }

    method Used() returns (used: int)
      requires Valid()
      ensures used == |Model().Contents()|
    {
      UsedIsLength(Model());
      ModOnce(tail - head + size, size);
      used := (tail - head + size) % size;
    }

    method Free() returns (free: int)
      requires Valid()
      ensures free == size - 1 - |Model().Contents()| && 0 <= free
    {
      UsedIsLength(Model());
      var used := Used();
      free := size - used - 1;
    }

    method Read(dst: array<byte>, n: nat) returns (len: nat)
      requires Valid() && n <= dst.Length && dst != buf
      modifies this`head, dst
      ensures Valid() && Model() == old(Model()).AfterRead(n)
      ensures len == old(Model()).ReadLength(n)
      ensures dst[..len] == old(Model().Contents())[..len] && dst[len..] == old(dst[len..])
    {
      UsedIsLength(Model());
      var used := Used();
      len := if used < n then used else n;
      if len > 0 {
        TakeOut(dst, len);
      }
    }

    /** memcpy of the bytes to be taken, then the head moves. */
    method TakeOut(dst: array<byte>, len: nat)
      requires Valid() && 0 < len <= dst.Length && dst != buf
      requires len <= |Model().Contents()|
      modifies this`head, dst
      ensures Valid() && Model() == old(Model()).Skip(len)
      ensures dst[..len] == old(Model().Contents())[..len] && dst[len..] == old(dst[len..])
    {
      CopyOut(dst, len);
      ModOnce(head + len, size);
      head := (head + len) % size;
    }

    method CopyOut(dst: array<byte>, len: nat)
      requires Valid() && 0 < len <= dst.Length && dst != buf
      requires len <= |Model().Contents()|
      modifies dst
      ensures dst[..len] == Model().Contents()[..len] && dst[len..] == old(dst[len..])
    {
      ghost var r := Model();
      if head + len > size {
        ReadSplit(r, len);
        CopyTwo(dst, len);
      } else {
        ReadStraight(r, len);
        CopyBytes(dst, 0, buf, head, len);
        assert dst[..len] == buf[head..head + len];
      }
    }

    method CopyTwo(dst: array<byte>, len: nat)
      requires Valid() && 0 < len <= dst.Length && dst != buf && size < head + len && len <= size
      modifies dst
      ensures dst[..len] == buf[head..] + buf[..len - (size - head)] && dst[len..] == old(dst[len..])
    {
      var right := size - head;
      var left := len - right;
      CopyBytes(dst, 0, buf, head, right);
      CopyBytes(dst, right, buf, 0, left);
    }

    /** The source asserts the guard: something to write, and room for it. */
    method Write(src: seq<byte>)
      requires Valid() && 0 < |src| <= Model().Free()
      modifies this`tail, buf
      ensures Valid() && |src| < size && Model() == old(Model()).AfterWrite(src)
      ensures Model().Contents() == old(Model().Contents()) + src
    {
      ghost var before := Model();
      WriteIsFifo(before, src);
      StoreIn(src);
      ModOnce(tail + |src|, size);
      tail := (tail + |src|) % size;
    }

    method StoreIn(src: seq<byte>)
      requires Valid() && 0 < |src| < size && tail + |src| - size <= tail
      modifies buf
      ensures Model() == old(Model()).(buf := old(Model()).Stored(src))
    {
      StoredAt(Model(), src);
      var len := |src|;
      if tail + len > size {
        var right := size - tail;
        StoreBytes(buf, tail, src[..right]);
        StoreBytes(buf, 0, src[right..]);
      } else {
        StoreBytes(buf, tail, src);
      }
    }
  }

  /** memcpy between two arrays. */
  method CopyBytes(dst: array<byte>, at: nat, src: array<byte>, from: nat, n: nat)
    requires dst != src && at + n <= dst.Length && from + n <= src.Length
    modifies dst
    ensures forall k :: 0 <= k < dst.Length ==>
      dst[k] == if at <= k < at + n then src[from + (k - at)] else old(dst[k])
  {
    for i := 0 to n
      invariant forall k :: 0 <= k < dst.Length ==>
        dst[k] == if at <= k < at + i then src[from + (k - at)] else old(dst[k])
    {
      dst[at + i] := src[from + i];
    }
  }

  /** memcpy from a packet's payload. */
  method StoreBytes(dst: array<byte>, at: nat, data: seq<byte>)
    requires at + |data| <= dst.Length
    modifies dst
    ensures forall k :: 0 <= k < dst.Length ==>
      dst[k] == if at <= k < at + |data| then data[k - at] else old(dst[k])
  {
    for i := 0 to |data|
      invariant forall k :: 0 <= k < dst.Length ==>
        dst[k] == if at <= k < at + i then data[k - at] else old(dst[k])
    {
      dst[at + i] := data[i];
    }
  }
}
