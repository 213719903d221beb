# bufferPool in Dafny

A model of the Go package `bufferPool`: a size-classed pool of byte blocks
(`bufferpool.go`) and the cursor-based `Buffer` that takes its storage from it
(`buf.go`).

- `go_slices.dfy` (module `GoSlices`) holds the Go runtime pieces the package
  relies on. Bytes are `uint8`. A Go slice header is `Slice(arr, len)`, where
  the backing `array` has length `cap`. The builtins `copy` and `append` are
  methods proved against their Go semantics.
- `bufferpool.dfy` (module `BufferPool`) models the package variables `pool`
  and `poolSize` as the class `SizeClassPool`. Each `sync.Pool` is a free list
  (`FreeList.SyncPool(newSize, blocks)`), and `Nil` stands for the nil pointer
  before `Init`. `Get` is nondeterministic: it returns one pooled block or a
  fresh block of the class capacity, because a `sync.Pool` may drop its
  entries. The class lookups are the pure functions `FirstFit` (used by
  `GetPool`) and `ExactFit` (used by `Free`).
- `buf.dfy` (module `Buf`) models `Buffer` as a class with the slice `buf`
  and the fields `start`, `end` and `size`. Its invariant is
  `0 <= start <= end <= len(buf) <= cap(buf)`. `Bytes()` is the unread region
  `[start, end)`, and the contracts of the mutating methods are stated
  against it.
- `scenarios.dfy` (module `BufScenarios`) holds client methods that derive
  the buffer's promised behaviour from the contracts alone. They cover the
  write-then-read round trip, the "hello" scenario, end of stream on a new
  buffer, Grow's headroom, and the demonstrations for the findings below.

The model follows the code as written. In particular:

- `WriteByte` and `WriteString` are bounded by `len(buf)`, not by the
  capacity.
- `Write` appends after `len(buf)` and moves no cursor.
- `Release` never returns a block to the pool.
- The fallback `make([]byte, bufferSize)` in `New` cannot be reached, because
  every block of the 8192-byte class has capacity 8192. It is an
  `assert false` branch.
- The `return buf` branch of `Allocate` cannot be reached either, because
  pooled blocks always have `len == cap`.

## Model

| member | source | states |
|---|---|---|
| `GoSlices.Copy` | buf.go:78 | `copy(dst[lo:hi], src)` copies `min(hi-lo, len(src))` bytes to `lo` and changes no other byte of `dst` |
| `GoSlices.Append` | buf.go:102 | `append(s[:at], p...)` has length `at+len(p)` and contents `s[:at]` followed by `p`; it is in place when that fits in the capacity and fresh otherwise |
| `BufferPool.ClassCapacities` | bufferpool.go:27-32 | Init's `1 << (i+11)` gives 2048, 4096, 8192 and 16384 for classes 0..3, which are strictly increasing |
| `BufferPool.FirstFit` | bufferpool.go:51-59 | the lookup returns the first index whose size is `>= size`, every earlier size is `< size`, and None exactly when every size is `< size` |
| `BufferPool.FirstFitClasses` | bufferpool.go:51-59 | with the initialised sizes, the lookup returns nil exactly when `size > 16384`, and otherwise a class of capacity `>= size` |
| `BufferPool.ExactFit` | bufferpool.go:104-110 | Free's search returns the first class whose size equals the capacity, and None exactly when no class has that size |
| `BufferPool.ExactFitOnlyClassSizes` | bufferpool.go:104-110 | only capacities 2048, 4096, 8192 and 16384 are ever kept by Free |
| `BufferPool.FreeFindsAllocatingClass` | bufferpool.go:101-110 | for `size <= 16384`, Free's exact search on the capacity of the class Allocate chose finds that same class again |
| `BufferPool.SizeClassPool.constructor` | bufferpool.go:20-23 | the package variables start as nil pools and zero sizes |
| `BufferPool.SizeClassPool.Init` | bufferpool.go:25-40 | afterwards `poolSize` holds the four class sizes and every class has a fresh, empty free list whose New makes blocks of the class size |
| `BufferPool.SizeClassPool.GetPool` | bufferpool.go:45-59 | runs Init only when the pools are nil, and then all free lists are empty; once initialised, it changes nothing; returns the first-fit class |
| `BufferPool.SizeClassPool.Get` | bufferpool.go:14-18 | returns a block with `len == cap ==` the class size, either removed from that class's free list or freshly made; other classes are unchanged |
| `BufferPool.SizeClassPool.Allocate` | bufferpool.go:71-90 | for `size <= 16384` the block has `len == size` and `cap ==` the first-fit class size `>= size`, taken from that class's list or fresh, and no other list changes; above that it is a fresh block with `len == cap == size` and no list changes |
| `BufferPool.SizeClassPool.Free` | bufferpool.go:101-110 | appends `buf[0:cap]` to the list of the class whose size equals `cap(buf)`, and leaves all other lists unchanged; with no such class nothing changes; the invariant `len == cap ==` class size is kept |
| `Buf.BufferClass` | buf.go:11 | `poolbuf = GetPool(8192)` is class 2, and Free also maps capacity 8192 to class 2 |
| `Buf.Buffer.New` | buf.go:20-31 | the new buffer has `start == end == 0` and `len == cap == 8192`; its block comes off class 2's free list or is fresh, and no other class changes |
| `Buf.Buffer.Release` | buf.go:34-44 | a nil receiver is left alone; otherwise `buf` becomes nil (`Cap() == 0`) and the cursors and `size` are 0; the pool is not touched |
| `Buf.Buffer.ReleaseToPool` | buf.go:34-44 | corrected Release: a block of capacity 8192 is appended to class 2's free list and no other list changes; any other block leaves the pool unchanged |
| `Buf.Buffer.Len` | buf.go:46-48 | the number of unread bytes, `|Bytes()|` |
| `Buf.Buffer.Cap` | buf.go:50-52 | the capacity is at least `len(buf)` and at least `Len()` |
| `Buf.Buffer.Reset` | buf.go:54-58 | `start == end == size == 0` with `buf` unchanged, so `IsEmpty()` holds and `Cap()` is unchanged |
| `Buf.Buffer.Byte` | buf.go:60-62 | for `0 <= idx < Len()`, returns the idx-th unread byte |
| `Buf.Buffer.Bytes` | buf.go:64-66 | the unread region has `end-start` bytes, and byte `i` is `buf[start+i]` |
| `Buf.Buffer.String` | buf.go:68-70 | the same bytes as `Bytes()` |
| `Buf.Buffer.WriteByte` | buf.go:72-76 | needs `end < len(buf)`; stores `c` at `end`, advances `end` by 1, and changes no other byte and not `start`; the unread region gains `c` |
| `Buf.Buffer.WriteString` | buf.go:77-81 | copies `n = min(|s|, len(buf)-end)` bytes of `s` into `[end, end+n)`, advances `end` by `n` and returns `n`; the unread region gains `s[..n]`; `buf` is unchanged, so it never grows |
| `Buf.Buffer.CopyAtEnd` | buf.go:78-79 | `copy(buf[end:hi], s)` then `end += n`: `n = min(|s|, hi-end)`, the unread region gains `s[..n]`, and no byte outside `[end, end+n)` changes |
| `Buf.Buffer.Reallocate` | buf.go:83-87 | grow: a fresh block of capacity `2*cap+n` keeps `len` and the first `len` bytes, and the cursors are unchanged |
| `Buf.Buffer.Grow` | buf.go:89-98 | panics exactly when `n < 0`, and then changes nothing; a no-op when `cap-len >= n`; otherwise the new capacity is `2*cap+n`; afterwards `cap-len >= n`; contents and cursors are kept |
| `Buf.Buffer.Append` | buf.go:102 | `buf = append(buf[:at], p...)` for `at >= end`: the unread region and the cursors are unchanged |
| `Buf.Buffer.Write` | buf.go:100-104 | appends `p` after `len(buf)`: the new `len` is `oldLen+|p|`, the old prefix is kept, the result is `|p|`, and `start`, `end` and the unread region are unchanged; in place exactly when it fits |
| `Buf.Buffer.WriteAtEnd` | buf.go:100-104 | corrected Write: the unread region gains `p`, `end` advances by `|p|`, and the result is `|p|` |
| `Buf.Buffer.ReadByte` | buf.go:106-114 | end of stream with byte 0 and nothing changed exactly when the buffer is empty; otherwise returns the first unread byte and advances `start` by 1 |
| `Buf.Buffer.Read` | buf.go:116-128 | end of stream with nothing changed exactly when `Len() == 0`; otherwise copies `n = min(|data|, Len())` unread bytes to `data[..n]`; the cursors reset to 0 when `n == Len()`, and otherwise `start` advances by `n` |
| `Buf.Buffer.ReadFrom` | buf.go:129-136 | grows by 1 (capacity `2*cap+1`) only when full; the delivered bytes are appended to the unread region and `end` advances by their number; on a full buffer that number is 0 |
| `Buf.Buffer.IsEmpty` | buf.go:138-140 | holds exactly when there are no unread bytes |
| `Buf.Buffer.ReadFullFrom` | buf.go:142-149 | grows to `2*cap+count` exactly when `Cap() < count` and is otherwise in place; needs `end+count` within the resulting capacity; the delivered bytes are appended to the unread region |
| `Buf.Buffer.ReadFullFromChecked` | buf.go:142-149 | corrected ReadFullFrom: with the test `Cap()-end < count`, `buf[end:end+count]` always lies within the capacity |
| `Buf.CapacityForReadFull` | buf.go:143-145 | the capacity after ReadFullFrom's growth test is at least the old capacity and at least `count` |
| `Buf.ReadFullFromOverrun` | buf.go:143-146 | 100 unread bytes in a new buffer and a ReadFullFrom of 8192: no growth, and `buf[100:8292]` exceeds the capacity |
| `BufScenarios.ReadFullFromOverrunOnBuffer` | buf.go:142-146 | after New and a 100-byte WriteString, `end == 100` and `Cap() == 8192`, so the growth test `Cap() < 8192` is false and `end + 8192` exceeds the capacity the test leaves: ReadFullFrom's slice-bounds precondition fails |
| `Buf.Buffer.IsFull` | buf.go:155-157 | holds exactly when `start == 0` and `end == cap`; then `end == len(buf)` too |
| `BufScenarios.WriteStringThenRead` | buf.go:77-127 | writing `s` (`0 < |s| <= 8192`) to a new buffer and reading into `|s|` bytes gives back `s`, and leaves the buffer empty with both cursors at 0 |
| `BufScenarios.Hello` | buf.go:77-127 | `WriteString("hello")` gives `Len() == 5`, and `Read` into 5 bytes returns "hello" |
| `BufScenarios.ReadByteOnNewBuffer` | buf.go:106-109 | ReadByte on a new buffer is end of stream, not a zero byte |
| `BufScenarios.GrowThenAppend` | buf.go:89-104 | after `Grow(n)`, `n` one-byte Writes stay in the block Grow left, so there is no second reallocation |
| `BufScenarios.ReleaseRecyclesNothing` | buf.go:34-44 | New then Release on a pool whose 8192-byte list is empty leaves that list empty |
| `BufScenarios.ReleaseToPoolRecycles` | buf.go:34-44 | New then the corrected Release leaves exactly one 8192-byte block on that list |
| `BufScenarios.WriteIsNotReadBack` | buf.go:100-104 | on a new buffer, `Write([42])` then ReadByte is end of stream |
| `BufScenarios.WriteAtEndIsReadBack` | buf.go:100-104 | on a new buffer, the corrected Write of `[42]` then ReadByte returns 42 |

## Left out

- `WriteTo` (buf.go:151-153) is not modelled. It is a single `io.Writer` call on `Bytes()` and moves no cursor.
- The error results of `WriteByte`, `WriteString`, `Write`, `Read`, `ReadFrom` and `ReadFullFrom` are not modelled. `io.EOF` is the flag `eof`, the other results are always nil, and a reader's own error is outside the model.
- Concurrency and garbage-collector eviction in `sync.Pool` are not modelled. Each class is a sequential free list.
- BufferPool.SizeClassPool.Get: entries other than the one returned are never dropped. The only nondeterminism is pooled block versus fresh block.
- `lowlevelfunctions.MakeNoZero` is modelled by `new uint8[n]`, whose contents the verifier treats as arbitrary, which is what MakeNoZero gives. No contract states anything about the bytes of a fresh block. `lowlevelfunctions.String` is not modelled either: `String()` is the bytes of `Bytes()`.
- `GetPool` returns a class index, not a `*sync.Pool` pointer.
- The `poolbuf.Put(&b.buf)` call in `Release` is not modelled. It would put a `*[]byte` into a pool of `[]byte`, and it is unreachable.
- Go's `append` growth policy is not modelled beyond "capacity at least the new length".
- Slices that start at an offset inside their backing array are not modelled: every `Slice` starts at index 0. So `Free(b[8192:])` on a 16384-byte block `b` cannot be expressed. In Go that slice has capacity 8192 (bufferpool.go:102-103), so it goes onto the 8192-byte list while `b` still reaches the same bytes.
- Buf.Buffer.New: it looks up the 8192-byte class through `GetPool` on every call, whereas `poolbuf` (buf.go:11) is bound once at package initialisation. If `Init` (bufferpool.go:25-29) is called again later, it replaces every class's `*sync.Pool`. Go's `New` then still draws from the old class-2 pool, which may hold a block freed before the re-Init. The model draws from the new, empty list. The identity of `poolbuf` across a re-Init is not kept.
- Views are not modelled: `Bytes()` returns the bytes, so later writes through a returned slice are outside the model.
- Panics other than Grow's are not modelled as outcomes. Each becomes a precondition: index out of range, slice bounds, a negative `Allocate` size, and `Free` of a zero-capacity block before `Init` (a `Put` on a nil `*sync.Pool`).
- A nil receiver is modelled only for `Release`, which is a static method taking `Buffer?`.
- Buf.Buffer.Read: requires that `data` is not the buffer's own backing array. Go's `copy` would handle the overlap.
- Buf.Buffer.ReadFrom: only the bytes the reader reports are modelled. A reader's scratch writes to `buf[end+n:]` are not.
- Buf.Buffer.ReadFullFrom: requires `end + |input| <= len(buf)`. In Go the slice `buf[end:end+count]` may extend past `len(buf)` up to the capacity, and a read there would put `end` past `len(buf)`, outside this model's invariant.
- Buf.Buffer.ReadFullFromChecked: requires `end + |input| <= len(buf)`, for the same reason.

## Findings

| source | as written | input that shows it | evidently intended | confidence | as-written member | corrected member |
|---|---|---|---|---|---|---|
| buf.go:39-43 | `b.buf = nil` runs before the test `cap(b.buf) == bufferSize`, so the test never holds and no block is ever returned to the pool | `New()` then `Release()` on a pool whose 8192-byte free list is empty: the list stays empty | test the capacity first and give the 8192-byte block back to its class | high; not executed | `BufScenarios.ReleaseRecyclesNothing` | `Buf.Buffer.ReleaseToPool` (shown by `BufScenarios.ReleaseToPoolRecycles`) |
| buf.go:100-104 | `Write` appends after `len(buf)` (8192 for a new buffer) and leaves `end` alone, so written bytes are never part of the unread region | `New()`, `Write([42])`, `ReadByte()`: end of stream | write at the cursor `end` and advance it, so that reads return what was written | medium; not executed | `BufScenarios.WriteIsNotReadBack` | `Buf.Buffer.WriteAtEnd` (shown by `BufScenarios.WriteAtEndIsReadBack`) |
| buf.go:143-146 | the growth test compares `Cap()` with `size` and ignores `end`, so `buf[end:end+size]` can exceed the capacity and panic | `New()`, 100 bytes written with `WriteString`, then `ReadFullFrom(r, 8192)`: no growth, and `buf[100:8292]` is out of range | grow when the room after `end` is less than `size` | high; not executed | `BufScenarios.ReadFullFromOverrunOnBuffer` (arithmetic in `Buf.ReadFullFromOverrun`) | `Buf.Buffer.ReadFullFromChecked` |
