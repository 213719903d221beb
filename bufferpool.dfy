/** The size-classed block pool: four free lists whose blocks have
    capacities 2048, 4096, 8192 and 16384 bytes. */
module BufferPool {
  import opened GoSlices

  /** numPools: the number of size classes. */
  const NumPools := 4
  /** The largest class capacity, poolSize[numPools - 1] after Init. */
  const MaxClassSize := 16384

  function Pow2(k: nat): nat
  {
    if k == 0 then 1 else 2 * Pow2(k - 1)
  }

  /** The capacity `1 << (i + 11)` that Init gives class i. */
  function ClassCapacity(i: nat): nat
  {
    Pow2(i + 11)
  }

  /** The contents of poolSize after Init. */
  function ClassSizes(): seq<int>
  {
    [2048, 4096, 8192, 16384]
  }

  lemma {:induction false} Pow2Add(a: nat, b: nat)
    ensures Pow2(a + b) == Pow2(a) * Pow2(b)
  {
    if a > 0 {
      Pow2Add(a - 1, b);
    }
  }

  /** Init's `1 << (i + 11)` gives the four class sizes 2 KiB, 4 KiB, 8 KiB
      and 16 KiB, which are strictly increasing. */
  lemma ClassCapacities()
    ensures forall i :: 0 <= i < NumPools ==> ClassCapacity(i) == ClassSizes()[i]
    ensures forall i, j :: 0 <= i < j < NumPools ==> ClassSizes()[i] < ClassSizes()[j]
  {
    Pow2Add(1, 10);
    assert Pow2(10) == 1024;
    Pow2Add(11, 1);
    Pow2Add(11, 2);
    Pow2Add(11, 3);
  }

  /** First fit: the index of the first entry of `sizes` that is at least
      `size`, or None when every entry is smaller. */
  function FirstFit(sizes: seq<int>, size: int): (r: Option<nat>)
    ensures r.Some? ==> r.value < |sizes| && size <= sizes[r.value]
    ensures r.Some? ==> forall j :: 0 <= j < r.value ==> sizes[j] < size
    ensures r.None? <==> forall j :: 0 <= j < |sizes| ==> sizes[j] < size
  {
    if sizes == [] then None
    else if size <= sizes[0] then Some(0)
    else match FirstFit(sizes[1..], size)
      case None => None
      case Some(i) => Some(i + 1)
  }

  /** Exact fit: the index of the first entry of `sizes` equal to `c`, or
      None when `c` is not among them. */
  function ExactFit(sizes: seq<int>, c: int): (r: Option<nat>)
    ensures r.Some? ==> r.value < |sizes| && sizes[r.value] == c
    ensures r.Some? ==> forall j :: 0 <= j < r.value ==> sizes[j] != c
    ensures r.None? <==> c !in sizes
  {
    if sizes == [] then None
    else if c == sizes[0] then Some(0)
    else match ExactFit(sizes[1..], c)
      case None => None
      case Some(i) => Some(i + 1)
  }

  /** The class lookup of GetPool finds no class exactly for sizes above
      16384; otherwise it finds a class whose capacity is at least `size`. */
  lemma FirstFitClasses(size: int)
    ensures FirstFit(ClassSizes(), size).None? <==> size > MaxClassSize
    ensures FirstFit(ClassSizes(), size).Some? ==>
              size <= ClassSizes()[FirstFit(ClassSizes(), size).value]
  {
    var sizes := ClassSizes();
    if size > MaxClassSize {
      assert forall j :: 0 <= j < |sizes| ==> sizes[j] < size;
    } else {
      assert !(sizes[3] < size);
    }
  }

  /** A block handed out by class i has capacity ClassSizes()[i]; Free looks
      that capacity up exactly and finds class i again. So Free(Allocate(size))
      returns the block to the class Allocate took it from. */
  lemma FreeFindsAllocatingClass(size: int)
    requires size <= MaxClassSize
    ensures FirstFit(ClassSizes(), size).Some?
    ensures ExactFit(ClassSizes(), ClassSizes()[FirstFit(ClassSizes(), size).value])
            == FirstFit(ClassSizes(), size)
  {
    FirstFitClasses(size);
  }

  /** A capacity that is not one of the four class sizes is never pooled. */
  lemma ExactFitOnlyClassSizes(c: int)
    ensures ExactFit(ClassSizes(), c).None? <==> c != 2048 && c != 4096 && c != 8192 && c != 16384
  {
  }

  /** One sync.Pool: `Nil` is the nil *sync.Pool before Init; otherwise its
      New function makes blocks of `newSize` bytes, and `blocks` is the free
      list of blocks put back into it. */
  datatype FreeList = Nil | SyncPool(newSize: int, blocks: seq<Slice>)

  /** The package-level `pool` and `poolSize` arrays. */
  class SizeClassPool {
    const pool: array<FreeList>
    const poolSize: array<int>

    ghost predicate Shaped()
    {
      pool.Length == NumPools && poolSize.Length == NumPools
    }

    /** The zero state of the package variables, before Init has run. */
    ghost predicate Uninitialised()
      reads pool, poolSize
    {
      Shaped() &&
      forall i :: 0 <= i < NumPools ==> pool[i] == Nil && poolSize[i] == 0
    }

    /** The state after Init: the class sizes are in place and every pooled
        block has len == cap == its class capacity. */
    ghost predicate Initialised()
      reads pool, poolSize
    {
      Shaped() &&
      poolSize[..] == ClassSizes() &&
      forall i :: 0 <= i < NumPools ==>
        pool[i].SyncPool? && pool[i].newSize == poolSize[i] &&
        forall b :: b in pool[i].blocks ==> b.len == b.arr.Length == poolSize[i]
    }

    ghost predicate Valid()
      reads pool, poolSize
    {
      Uninitialised() || Initialised()
    }

    /** The free list of class i. */
    ghost function FreeBlocks(i: nat): seq<Slice>
      reads pool
      requires i < pool.Length
    {
      if pool[i].SyncPool? then pool[i].blocks else []
    }

    /** The backing arrays of all pooled blocks: the storage the pool owns. */
    ghost function BlockArrays(): set<array<uint8>>
      reads pool
      requires pool.Length == NumPools
    {
      set i, k | 0 <= i < NumPools && 0 <= k < |FreeBlocks(i)| :: FreeBlocks(i)[k].arr
    }

    constructor ()
      ensures Valid() && Uninitialised()
      ensures fresh(pool) && fresh(poolSize)
    {
      pool := new FreeList[NumPools](_ => Nil);
      poolSize := new int[NumPools](_ => 0);
    }

    /** Init: gives class i the capacity 1 << (i + 11) and a fresh, empty
        sync.Pool whose New makes blocks of that capacity. */
    method Init()
      requires Shaped()
      modifies pool, poolSize
      ensures Valid() && Initialised()
      ensures forall i :: 0 <= i < NumPools ==> pool[i].blocks == []
    {
      ClassCapacities();
      for i := 0 to NumPools
        invariant forall j :: 0 <= j < i ==>
          pool[j] == SyncPool(ClassCapacity(j), []) && poolSize[j] == ClassCapacity(j)
      {
        pool[i] := SyncPool(ClassCapacity(i), []);
        poolSize[i] := ClassCapacity(i);
      }
      assert poolSize[..] == ClassSizes();
    }

    /** GetPool: runs Init when the pools are still nil, then returns the
        first class whose capacity is at least `size` (the index stands for
        the *sync.Pool), or None in place of nil. */
    method GetPool(size: int) returns (r: Option<nat>)
      requires Valid()
      modifies pool, poolSize
      ensures Valid() && Initialised()
      ensures r == FirstFit(ClassSizes(), size)
      ensures old(Initialised()) ==> unchanged(pool, poolSize)
      ensures old(Uninitialised()) ==> forall i :: 0 <= i < NumPools ==> pool[i].blocks == []
    {
      if pool[0] == Nil {
        Init();
      }
      for idx := 0 to NumPools
        invariant Valid() && Initialised()
        invariant forall j :: 0 <= j < idx ==> poolSize[j] < size
      {
        if size <= poolSize[idx] {
          return Some(idx);
        }
      }
      return None;
    }

    /** sync.Pool.Get on class i: either some block of the free list, which
        leaves the list, or a fresh block of the class capacity made by the
        pool's New function (sync.Pool may have dropped its entries). */
    method Get(i: nat) returns (b: Slice)
      requires Valid() && Initialised() && i < NumPools
      modifies pool
      ensures Valid() && Initialised()
      ensures b.len == b.arr.Length == poolSize[i]
      ensures forall j :: 0 <= j < NumPools && j != i ==> pool[j] == old(pool[j])
      ensures pool[i].newSize == old(pool[i].newSize)
      ensures || (fresh(b.arr) && pool[i] == old(pool[i]))
              || (exists k :: 0 <= k < |old(pool[i].blocks)| && b == old(pool[i].blocks)[k] &&
                    pool[i].blocks == old(pool[i].blocks)[..k] + old(pool[i].blocks)[k + 1..])
    {
      var blocks := pool[i].blocks;
      var reuse := blocks != [];
      if reuse {
        if * { reuse := false; }
      }
      if reuse {
        var k :| 0 <= k < |blocks|;
        b := blocks[k];
        pool[i] := pool[i].(blocks := blocks[..k] + blocks[k + 1..]);
        assert forall c :: c in pool[i].blocks ==> c in blocks;
      } else {
        var arr := new uint8[pool[i].newSize];
        b := Slice(arr, pool[i].newSize);
      }
    }

    /** Allocate: a block of the first class that fits, sliced to `size`;
        beyond the largest class, a fresh block of exactly `size` bytes. */
    method Allocate(size: int) returns (r: Slice)
      requires Valid() && 0 <= size
      modifies pool, poolSize
      ensures Valid() && Initialised()
      ensures r.Valid() && r.len == size
      ensures FirstFit(ClassSizes(), size).Some? ==>
                var i := FirstFit(ClassSizes(), size).value;
                && r.arr.Length == ClassSizes()[i] >= size
                && (forall j :: 0 <= j < NumPools && j != i ==> FreeBlocks(j) == old(FreeBlocks(j)))
                && (|| (fresh(r.arr) && FreeBlocks(i) == old(FreeBlocks(i)))
                    || (exists k :: 0 <= k < |old(FreeBlocks(i))| && r.arr == old(FreeBlocks(i))[k].arr &&
                          FreeBlocks(i) == old(FreeBlocks(i))[..k] + old(FreeBlocks(i))[k + 1..]))
      ensures FirstFit(ClassSizes(), size).None? ==>
                && size > MaxClassSize
                && fresh(r.arr) && r.arr.Length == size
                && (forall j :: 0 <= j < NumPools ==> FreeBlocks(j) == old(FreeBlocks(j)))
                && (old(Initialised()) ==> unchanged(pool))
    {
      FirstFitClasses(size);
      var idx := GetPool(size);
      if idx.Some? {
        assert FreeBlocks(idx.value) == old(FreeBlocks(idx.value));
        var buf := Get(idx.value);
        if buf.len >= size {
          return Slice(buf.arr, size);
        }
        assert false;
      }
      var arr := new uint8[size];
      r := Slice(arr, size);
    }

    /** Free: re-slices the block to its full capacity and puts it on the
        free list of the class whose capacity equals that exactly; a block of
        any other capacity is dropped. */
    method Free(buf: Slice)
      requires Valid() && buf.Valid()
      requires Uninitialised() ==> buf.arr.Length != 0  // Put on a nil *sync.Pool panics
      modifies pool
      ensures Valid() && (old(Initialised()) ==> Initialised())
      ensures ExactFit(poolSize[..], buf.arr.Length).Some? ==>
                var i := ExactFit(poolSize[..], buf.arr.Length).value;
                && pool[i].blocks == old(pool[i].blocks) + [Slice(buf.arr, buf.arr.Length)]
                && forall j :: 0 <= j < NumPools && j != i ==> pool[j] == old(pool[j])
      ensures ExactFit(poolSize[..], buf.arr.Length).None? ==> unchanged(pool)
    {
      var size := buf.arr.Length;
      var whole := Slice(buf.arr, size);
      for idx := 0 to NumPools
        invariant unchanged(pool)
        invariant forall j :: 0 <= j < idx ==> poolSize[j] != whole.len
      {
        if whole.len == poolSize[idx] {
          assert ExactFit(poolSize[..], size) == Some(idx);
          assert poolSize[idx] != 0;
          ghost var before := pool[idx].blocks;
          pool[idx] := pool[idx].(blocks := pool[idx].blocks + [whole]);
          assert forall c :: c in pool[idx].blocks ==> c in before || c == whole;
          assert Initialised();
          return;
        }
      }
    }
  }
}
