/** Clients of Buffer and the pool: what a caller can conclude from the
    contracts alone. */
module BufScenarios {
  import opened GoSlices
  import opened BufferPool
  import opened Buf

  /** Write-then-read round trip: a new buffer, WriteString(s) with s no
      longer than the buffer, then Read into a destination of |s| bytes,
      gives back s and leaves the buffer empty with both cursors at 0. */
  method WriteStringThenRead(p: SizeClassPool, s: seq<uint8>) returns (b: Buffer, out: seq<uint8>)
    requires p.Valid() && 0 < |s| <= BufferSize
    modifies p.pool, p.poolSize, p.BlockArrays()
    ensures b.Valid() && out == s
    ensures b.IsEmpty() && b.start == 0 && b.end == 0 && b.Cap() == BufferSize
  {
    b := new Buffer.New(p);
    var w := b.WriteString(s);
    assert w == |s| && b.Bytes() == s;
    var dst := new uint8[|s|];
    var n, eof := b.Read(dst);
    out := dst[..n];
  }

  /** "hello" written with WriteString is five unread bytes, and reading
      them into a five-byte array returns exactly "hello". */
  method Hello(p: SizeClassPool) returns (lenAfterWrite: int, out: seq<uint8>)
    requires p.Valid()
    modifies p.pool, p.poolSize, p.BlockArrays()
    ensures lenAfterWrite == 5 && out == [104, 101, 108, 108, 111]
  {
    var b := new Buffer.New(p);
    var w := b.WriteString([104, 101, 108, 108, 111]);
    lenAfterWrite := b.Len();
    var dst := new uint8[5];
    var n, eof := b.Read(dst);
    out := dst[..n];
  }

  /** ReadByte on a new buffer reports end of stream, not a zero byte. */
  method ReadByteOnNewBuffer(p: SizeClassPool) returns (c: uint8, eof: bool)
    requires p.Valid()
    modifies p.pool, p.poolSize, p.BlockArrays()
    ensures eof && c == 0
  {
    var b := new Buffer.New(p);
    c, eof := b.ReadByte();
  }

  /** Grow(n) then n one-byte Writes: the appends all land in the block Grow
      left, so the only reallocation is Grow's own. */
  method GrowThenAppend(b: Buffer, n: int, x: uint8)
    requires b.Valid() && n >= 0
    modifies b, b.buf.arr
    ensures b.Valid() && b.buf.len == old(b.buf.len) + n
    ensures old(b.buf.arr.Length - b.buf.len) >= n ==> b.buf.arr == old(b.buf.arr)
    ensures old(b.buf.arr.Length - b.buf.len) < n ==> b.buf.arr.Length == 2 * old(b.buf.arr.Length) + n
    ensures b.Bytes() == old(b.Bytes())
  {
    var o := b.Grow(n);
    ghost var grown := b.buf.arr;
    for k := 0 to n
      invariant b.Valid() && b.buf.arr == grown
      invariant b.buf.len == old(b.buf.len) + k
      invariant b.buf.arr.Length == (if old(b.buf.arr.Length - b.buf.len) >= n then old(b.buf.arr.Length) else 2 * old(b.buf.arr.Length) + n)
      invariant b.start == old(b.start) && b.end == old(b.end)
      invariant b.Bytes() == old(b.Bytes())
    {
      var w := b.Write([x]);
    }
  }

  /** As written, Release never gives the block back: after New and Release
      on a pool whose 8192-byte free list is empty, that list is still empty. */
  method ReleaseRecyclesNothing(p: SizeClassPool)
    requires p.Valid() && p.FreeBlocks(2) == []
    modifies p.pool, p.poolSize, p.BlockArrays()
    ensures p.Valid() && p.FreeBlocks(2) == []
  {
    var b := new Buffer.New(p);
    Buffer.Release(b);
  }

  /** With the capacity test made before the block is dropped, the same
      sequence leaves exactly the buffer's 8192-byte block on that list. */
  method ReleaseToPoolRecycles(p: SizeClassPool)
    requires p.Valid() && p.FreeBlocks(2) == []
    modifies p.pool, p.poolSize, p.BlockArrays()
    ensures p.Valid() && |p.FreeBlocks(2)| == 1
    ensures p.FreeBlocks(2)[0].len == p.FreeBlocks(2)[0].arr.Length == BufferSize
  {
    var b := new Buffer.New(p);
    Buffer.ReleaseToPool(b, p);
  }

  /** As written, ReadFullFrom's growth test ignores the write cursor: on a
      new buffer holding 100 unread bytes, a ReadFullFrom of 8192 bytes is
      not grown for, and buf[end:end+8192] reaches past the capacity, so the
      call's precondition (Go's slice bounds check) fails. */
  method ReadFullFromOverrunOnBuffer(p: SizeClassPool) returns (b: Buffer)
    requires p.Valid()
    modifies p.pool, p.poolSize, p.BlockArrays()
    ensures b.Valid() && b.end == 100 && b.Cap() == BufferSize
    ensures !(b.Cap() < BufferSize)
    ensures !(b.end + BufferSize <= CapacityForReadFull(b.Cap(), BufferSize))
  {
    b := new Buffer.New(p);
    var w := b.WriteString(seq(100, _ => 7));
  }

  /** As written, bytes passed to Write cannot be read back: on a new buffer,
      Write([42]) then ReadByte reports end of stream. */
  method WriteIsNotReadBack(p: SizeClassPool) returns (c: uint8, eof: bool)
    requires p.Valid()
    modifies p.pool, p.poolSize, p.BlockArrays()
    ensures eof
  {
    var b := new Buffer.New(p);
    var n := b.Write([42]);
    c, eof := b.ReadByte();
  }

  /** With Write putting its bytes at the write cursor, the same sequence
      reads 42 back. */
  method WriteAtEndIsReadBack(p: SizeClassPool) returns (c: uint8, eof: bool)
    requires p.Valid()
    modifies p.pool, p.poolSize, p.BlockArrays()
    ensures !eof && c == 42
  {
    var b := new Buffer.New(p);
    var n := b.WriteAtEnd([42]);
    c, eof := b.ReadByte();
  }
}
