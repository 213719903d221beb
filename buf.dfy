/** The cursor-addressed Buffer, whose 8192-byte backing block comes from
    the pool's 8192-byte class. */
module Buf {
  import opened GoSlices
  import opened BufferPool

  /** bufferSize: the capacity of a new Buffer. */
  const BufferSize := 8192

  /** How Grow ends: normally, or with a Go panic carrying its message. */
  datatype Outcome = Ok | Panic(msg: string)

  /** `poolbuf = GetPool(bufferSize)` is class 2, the 8192-byte class. */
  lemma BufferClass()
    ensures FirstFit(ClassSizes(), BufferSize) == Some(2)
    ensures ExactFit(ClassSizes(), BufferSize) == Some(2)
  {
    var sizes := ClassSizes();
    assert sizes[0] < BufferSize && sizes[1] < BufferSize && BufferSize <= sizes[2];
  }

  class Buffer {
    /** The Go slice b.buf: backing array (its length is cap) and len. */
    var buf: Slice
    /** Read cursor. */
    var start: int
    /** Write cursor. */
    var end: int
    /** Only ever set to 0. */
    var size: int

    ghost predicate Valid()
      reads this
    {
      0 <= start <= end <= buf.len <= buf.arr.Length
    }

    /** Bytes: the unread region buf[start:end], a view of the backing array. */
    function Bytes(): (r: seq<uint8>)
      reads this, buf.arr
      requires Valid()
      ensures |r| == end - start
      ensures forall i :: 0 <= i < |r| ==> r[i] == buf.arr[start + i]
    {
      buf.arr[start..end]
    }

    /** String: the unread region as a string; Go's zero-copy conversion is
        represented by the bytes themselves. */
    function String(): (s: seq<uint8>)
      reads this, buf.arr
      requires Valid()
      ensures s == Bytes()
    {
      Bytes()
    }

    /** Len: the number of unread bytes. */
    function Len(): (n: int)
      reads this, buf.arr
      requires Valid()
      ensures n == |Bytes()| && n >= 0
    {
      end - start
    }

    /** Cap: the capacity of the backing block. */
    function Cap(): (c: int)
      reads this
      requires Valid()
      ensures buf.len <= c && end - start <= c
    {
      buf.arr.Length
    }

    function IsEmpty(): (r: bool)
      reads this, buf.arr
      requires Valid()
      ensures r <==> Bytes() == []
    {
      Len() == 0
    }

    /** IsFull compares Cap() with Len(): it holds exactly when nothing has
        been consumed and the write cursor is at the capacity, and then the
        write cursor is also at len(buf). */
    function IsFull(): (r: bool)
      reads this, buf.arr
      requires Valid()
      ensures r <==> start == 0 && end == buf.arr.Length
      ensures r ==> end == buf.len
    {
      Cap() == Len()
    }

    /** Byte: buf[start + idx], which Go bounds-checks against len(buf). */
    function Byte(idx: int): (r: uint8)
      reads this, buf.arr
      requires Valid() && 0 <= start + idx < buf.len
      ensures 0 <= idx < end - start ==> r == Bytes()[idx]
      ensures r == buf.Elems()[start + idx]
    {
      buf.arr[start + idx]
    }

    /** New: takes a block from the 8192-byte class (running the pool's Init
        if needed) and slices it to 8192 bytes. */
    constructor New(p: SizeClassPool)
      requires p.Valid()
      modifies p.pool, p.poolSize
      ensures Valid() && p.Valid() && p.Initialised()
      ensures start == 0 && end == 0 && size == 0
      ensures buf.len == BufferSize && buf.arr.Length == BufferSize
      ensures forall j :: 0 <= j < NumPools && j != 2 ==> p.FreeBlocks(j) == old(p.FreeBlocks(j))
      ensures || (fresh(buf.arr) && p.FreeBlocks(2) == old(p.FreeBlocks(2)))
              || (exists k :: 0 <= k < |old(p.FreeBlocks(2))| && buf.arr == old(p.FreeBlocks(2))[k].arr &&
                    p.FreeBlocks(2) == old(p.FreeBlocks(2))[..k] + old(p.FreeBlocks(2))[k + 1..])
      ensures fresh(buf.arr) || buf.arr in old(p.BlockArrays())
    {
      BufferClass();
      var poolbuf := p.GetPool(BufferSize);
      assert p.FreeBlocks(2) == old(p.FreeBlocks(2));
      var block := p.Get(poolbuf.value);
      if block.arr.Length >= BufferSize {
        buf := Slice(block.arr, BufferSize);
      } else {
        // make([]byte, bufferSize) is never reached: every block of the
        // 8192-byte class has capacity 8192.
        assert false;
        buf := block;
      }
      start, end, size := 0, 0, 0;
    }

    /** Release on a nil receiver does nothing. Otherwise it drops the backing
        block (buf = nil) and resets the cursors; the capacity test that would
        return the block to the pool runs after buf is nil, so it never holds
        and the pool is not touched. */
    static method Release(b: Buffer?)
      requires b != null ==> b.Valid()
      modifies b
      ensures b != null ==> b.Valid() && b.Cap() == 0 && b.buf.len == 0
      ensures b != null ==> b.start == 0 && b.end == 0 && b.size == 0
    {
      if b == null {
        return;
      }
      var nilArray := new uint8[0];
      b.buf := Slice(nilArray, 0);
      b.Reset();
      if b.Cap() == BufferSize {
        assert false;  // poolbuf.Put is unreachable: cap(nil) is 0
      }
    }

    /** Release as the pool's exact-capacity rule intends it: a block that
        still has the 8192-byte capacity goes back to the 8192-byte class
        (through Free, which keeps the class invariant) before buf is
        dropped; any other block is dropped. */
    static method ReleaseToPool(b: Buffer?, p: SizeClassPool)
      requires b != null ==> b.Valid()
      requires p.Valid() && p.Initialised()
      modifies b, p.pool
      ensures p.Valid() && p.Initialised()
      ensures b != null ==> b.Valid() && b.Cap() == 0 && b.buf.len == 0
      ensures b != null ==> b.start == 0 && b.end == 0 && b.size == 0
      ensures b != null && old(b.buf.arr.Length) == BufferSize ==>
                && p.FreeBlocks(2) == old(p.FreeBlocks(2)) + [Slice(old(b.buf.arr), BufferSize)]
                && forall j :: 0 <= j < NumPools && j != 2 ==> p.FreeBlocks(j) == old(p.FreeBlocks(j))
      ensures (b == null || old(b.buf.arr.Length) != BufferSize) ==> unchanged(p.pool)
    {
      if b == null {
        return;
      }
      if b.Cap() == BufferSize {
        p.Free(b.buf);
      }
      var nilArray := new uint8[0];
      b.buf := Slice(nilArray, 0);
      b.Reset();
    }

    /** Reset: empties the buffer without touching its storage. */
    method Reset()
      requires buf.Valid()
      modifies this
      ensures Valid() && buf == old(buf)
      ensures start == 0 && end == 0 && size == 0
      ensures Bytes() == [] && IsEmpty() && Cap() == old(buf.arr.Length)
    {
      start := 0;
      end := 0;
      size := 0;
    }

    /** WriteByte: stores c at the write cursor, which Go bounds-checks
        against len(buf), and advances the cursor. */
    method WriteByte(c: uint8)
      requires Valid() && end < buf.len
      modifies this, buf.arr
      ensures Valid() && buf == old(buf) && start == old(start) && size == old(size)
      ensures end == old(end) + 1
      ensures buf.arr[..] == old(buf.arr[..])[old(end) := c]
      ensures Bytes() == old(Bytes()) + [c]
    {
      buf.arr[end] := c;
      end := end + 1;
    }

    /** WriteString: copies as much of s as fits before len(buf), never
        growing, and advances the write cursor by the amount copied. */
    method WriteString(s: seq<uint8>) returns (n: int)
      requires Valid()
      modifies this, buf.arr
      ensures Valid() && buf == old(buf) && start == old(start) && size == old(size)
      ensures n == Min(|s|, old(buf.len - end))
      ensures end == old(end) + n
      ensures Bytes() == old(Bytes()) + s[..n]
      ensures buf.arr[..old(end)] == old(buf.arr[..end])
      ensures buf.arr[end..] == old(buf.arr[..])[end..]
    {
      n := CopyAtEnd(s, buf.len);
    }

    /** `copy(buf[end:hi], s)` followed by `end += n`: the copied bytes join
        the unread region, and no byte outside [end, end + n) changes. */
    method CopyAtEnd(s: seq<uint8>, hi: int) returns (n: int)
      requires Valid() && end <= hi <= buf.len
      modifies this, buf.arr
      ensures Valid() && buf == old(buf) && start == old(start) && size == old(size)
      ensures n == Min(|s|, hi - old(end))
      ensures end == old(end) + n
      ensures Bytes() == old(Bytes()) + s[..n]
      ensures buf.arr[..old(end)] == old(buf.arr[..end])
      ensures buf.arr[end..] == old(buf.arr[..])[end..]
    {
      ghost var unread := Bytes();
      ghost var prefix := buf.arr[..end];
      n := Copy(buf.arr, end, hi, s);
      assert buf.arr[start..end] == unread by {
        assert buf.arr[..end] == prefix;
        assert buf.arr[start..end] == prefix[start..end];
      }
      assert buf.arr[end..end + n] == s[..n];
      end := end + n;
      assert Bytes() == buf.arr[start..end - n] + buf.arr[end - n..end];
    }

    /** grow: moves the contents to a fresh block of capacity 2 * cap + n,
        keeping len(buf) and its first len bytes; the old block is dropped,
        not returned to the pool. */
    method Reallocate(n: int)
      requires Valid() && n >= 0
      modifies this
      ensures Valid() && fresh(buf.arr)
      ensures buf.arr.Length == 2 * old(buf.arr.Length) + n
      ensures buf.len == old(buf.len) && buf.Elems() == old(buf.Elems())
      ensures start == old(start) && end == old(end) && size == old(size)
      ensures Bytes() == old(Bytes())
    {
      var arr := new uint8[2 * buf.arr.Length + n];
      var copied := Copy(arr, 0, buf.len, buf.arr[..buf.len]);
      buf := Slice(arr, buf.len);
    }

    /** Grow: panics on a negative count; otherwise reallocates only when the
        room between len(buf) and cap(buf) is less than n, so that afterwards
        there are at least n bytes of it. */
    method Grow(n: int) returns (o: Outcome)
      requires Valid()
      modifies this
      ensures Valid()
      ensures o.Panic? <==> n < 0
      ensures o.Panic? ==> o.msg == "fast.Buffer.Grow: negative count"
      ensures (o.Panic? || old(buf.arr.Length - buf.len) >= n) ==> buf == old(buf)
      ensures (o.Ok? && old(buf.arr.Length - buf.len) < n) ==>
                fresh(buf.arr) && buf.arr.Length == 2 * old(buf.arr.Length) + n
      ensures o.Ok? ==> buf.arr.Length - buf.len >= n
      ensures buf.len == old(buf.len) && buf.Elems() == old(buf.Elems())
      ensures start == old(start) && end == old(end) && size == old(size)
      ensures Bytes() == old(Bytes())
    {
      if n < 0 {
        return Panic("fast.Buffer.Grow: negative count");
      }
      if buf.arr.Length - buf.len < n {
        Reallocate(n);
      }
      return Ok;
    }

    /** Go's `buf = append(buf[:at], p...)`: in place when at + |p| fits in
        the capacity, otherwise into a fresh block of some larger capacity
        (Go's growth policy is not modelled beyond that). */
    method Append(at: int, p: seq<uint8>)
      requires Valid() && end <= at <= buf.len
      modifies this, buf.arr
      ensures Valid()
      ensures buf.len == at + |p| && buf.Elems() == old(buf.Elems())[..at] + p
      ensures old(buf.arr.Length) - at >= |p| ==> buf.arr == old(buf.arr)
      ensures old(buf.arr.Length) - at < |p| ==> fresh(buf.arr)
      ensures start == old(start) && end == old(end) && size == old(size)
      ensures Bytes() == old(Bytes())
    {
      ghost var unread := Bytes();
      buf := GoSlices.Append(buf, at, p);
      assert Bytes() == buf.Elems()[start..end];
    }

    /** Write: appends p after len(buf), not at the write cursor. The
        cursors do not move, so the unread region is unchanged and the
        written bytes cannot be read back. */
    method Write(p: seq<uint8>) returns (n: int)
      requires Valid()
      modifies this, buf.arr
      ensures Valid() && n == |p|
      ensures buf.len == old(buf.len) + |p| && buf.Elems() == old(buf.Elems()) + p
      ensures old(buf.arr.Length - buf.len) >= |p| ==> buf.arr == old(buf.arr)
      ensures old(buf.arr.Length - buf.len) < |p| ==> fresh(buf.arr)
      ensures start == old(start) && end == old(end) && size == old(size)
      ensures Bytes() == old(Bytes())
    {
      Append(buf.len, p);
      return |p|;
    }

    /** Write as the round-trip law of the buffer requires it: the bytes go
        to the write cursor, which advances past them; beyond len(buf) they
        are appended to buf[:end]. */
    method WriteAtEnd(p: seq<uint8>) returns (n: int)
      requires Valid()
      modifies this, buf.arr
      ensures Valid() && n == |p|
      ensures Bytes() == old(Bytes()) + p
      ensures start == old(start) && end == old(end) + |p| && size == old(size)
      ensures buf.len >= old(buf.len)
      ensures buf.arr[..old(end)] == old(buf.arr[..end])
    {
      if end + |p| <= buf.len {
        n := CopyAtEnd(p, buf.len);
        assert p[..n] == p;
      } else {
        ghost var unread := Bytes();
        ghost var oldEnd := end;
        Append(end, p);
        assert buf.Elems()[..oldEnd] == old(buf.arr[..end]);
        assert buf.Elems()[oldEnd..oldEnd + |p|] == p;
        end := end + |p|;
        assert Bytes() == buf.arr[start..oldEnd] + buf.arr[oldEnd..end];
        n := |p|;
      }
    }

    /** ReadByte: end of stream on an empty buffer; otherwise the byte at
        the read cursor, which advances. */
    method ReadByte() returns (c: uint8, eof: bool)
      requires Valid()
      modifies this
      ensures Valid() && buf == old(buf) && end == old(end) && size == old(size)
      ensures eof <==> old(Bytes()) == []
      ensures eof ==> c == 0 && start == old(start)
      ensures !eof ==> c == old(Bytes())[0] && start == old(start) + 1
      ensures !eof ==> Bytes() == old(Bytes())[1..]
    {
      if start == end {
        return 0, true;
      }
      c := buf.arr[start];
      start := start + 1;
      eof := false;
    }

    /** Read: end of stream on an empty buffer; otherwise copies as many
        unread bytes as fit in data, and either consumes them or, when that
        drains the buffer, resets the cursors. */
    method Read(data: array<uint8>) returns (n: int, eof: bool)
      requires Valid() && data != buf.arr
      modifies this, data
      ensures Valid() && buf == old(buf)
      ensures eof <==> old(Bytes()) == []
      ensures eof ==> n == 0 && start == old(start) && end == old(end) && size == old(size)
      ensures eof ==> data[..] == old(data[..])
      ensures !eof ==> n == Min(data.Length, old(end - start))
      ensures !eof ==> data[..n] == old(Bytes())[..n] && data[n..] == old(data[n..])
      ensures !eof && n == old(end - start) ==> start == 0 && end == 0 && size == 0
      ensures !eof && n < old(end - start) ==>
                start == old(start) + n && end == old(end) && size == old(size) && Bytes() == old(Bytes())[n..]
    {
      if Len() == 0 {
        return 0, true;
      }
      n := Copy(data, 0, data.Length, buf.arr[start..end]);
      if n == Len() {
        Reset();
      } else {
        start := start + n;
      }
      eof := false;
    }

    /** ReadFrom: grows by one byte when full, then lets a reader fill
        buf[end:len(buf)]; `input` stands for the bytes the reader delivered,
        and the write cursor advances by their number. When the buffer was
        full, growing does not lengthen buf[end:], so nothing is read. */
    method ReadFrom(input: seq<uint8>) returns (n: int)
      requires Valid()
      requires |input| <= buf.len - end  // an io.Reader returns at most len(p) bytes
      modifies this, buf.arr
      ensures Valid() && n == |input|
      ensures start == old(start) && end == old(end) + n && size == old(size)
      ensures buf.len == old(buf.len)
      ensures Bytes() == old(Bytes()) + input
      ensures old(IsFull()) ==> fresh(buf.arr) && buf.arr.Length == 2 * old(buf.arr.Length) + 1 && n == 0
      ensures !old(IsFull()) ==> buf == old(buf)
    {
      if IsFull() {
        Reallocate(1);
      }
      n := CopyAtEnd(input, buf.len);
      assert input[..n] == input;
    }

    /** ReadFullFrom: grows by `count` when Cap() < count, then lets a reader
        fill buf[end:end+count] with one call; `input` stands for the bytes it
        delivered. Go panics unless end + count is within the capacity left
        by the growth test. */
    method ReadFullFrom(count: int, input: seq<uint8>) returns (n: int)
      requires Valid() && 0 <= count
      requires end + count <= CapacityForReadFull(Cap(), count)
      requires |input| <= count && end + |input| <= buf.len
      modifies this, buf.arr
      ensures Valid() && n == |input|
      ensures start == old(start) && end == old(end) + n && size == old(size)
      ensures buf.len == old(buf.len)
      ensures Bytes() == old(Bytes()) + input
      ensures old(Cap()) < count ==> fresh(buf.arr) && buf.arr.Length == 2 * old(buf.arr.Length) + count
      ensures old(Cap()) >= count ==> buf == old(buf)
    {
      if Cap() < count {
        Reallocate(count);
      }
      n := CopyAtEnd(input, end + |input|);
      assert input[..n] == input;
    }

    /** ReadFullFrom with the growth test on the room after the write
        cursor, Cap() - end < count: then buf[end:end+count] always lies
        within the capacity, whatever the cursor. */
    method ReadFullFromChecked(count: int, input: seq<uint8>) returns (n: int)
      requires Valid() && 0 <= count
      requires |input| <= count && end + |input| <= buf.len
      modifies this, buf.arr
      ensures Valid() && n == |input|
      ensures old(end) + count <= buf.arr.Length
      ensures start == old(start) && end == old(end) + n && size == old(size)
      ensures buf.len == old(buf.len)
      ensures Bytes() == old(Bytes()) + input
      ensures old(Cap() - end) < count ==> fresh(buf.arr) && buf.arr.Length == 2 * old(buf.arr.Length) + count
      ensures old(Cap() - end) >= count ==> buf == old(buf)
    {
      if Cap() - end < count {
        Reallocate(count);
        assert end <= buf.arr.Length - count;
      }
      assert end + count <= buf.arr.Length;
      n := CopyAtEnd(input, end + |input|);
      assert input[..n] == input;
    }
  }

  /** The capacity ReadFullFrom leaves before it slices buf[end:end+count]:
      it grows to 2 * cap + count only when cap < count. */
  function CapacityForReadFull(cap: int, count: int): (c: int)
    requires 0 <= cap && 0 <= count
    ensures c >= cap && c >= count
  {
    if cap < count then 2 * cap + count else cap
  }

  /** The growth test of ReadFullFrom ignores the write cursor: a new
      buffer (capacity 8192) holding 100 unread bytes is not grown for a
      ReadFullFrom of 8192 bytes, and buf[100:8292] exceeds the capacity. */
  lemma ReadFullFromOverrun()
    ensures 100 + BufferSize > CapacityForReadFull(BufferSize, BufferSize)
  {
  }
}
