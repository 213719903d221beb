/** The pieces of Go's runtime the package relies on: bytes, slice headers,
    and the builtin `copy`. */
module GoSlices {

  newtype uint8 = x: int | 0 <= x < 256

  datatype Option<T> = None | Some(value: T)

  function Min(a: int, b: int): (m: int)
    ensures m <= a && m <= b
    ensures m == a || m == b
  {
    if a <= b then a else b
  }

  /** A Go byte slice that starts at offset 0 of its backing array:
      `arr.Length` is cap(s) and `len` is len(s). The nil slice is a
      slice over a zero-length array. */
  datatype Slice = Slice(arr: array<uint8>, len: nat) {
    predicate Valid() { len <= arr.Length }

    function Cap(): nat { arr.Length }

    /** The bytes a Go program can see through the slice, s[0:len(s)]. */
    function Elems(): (r: seq<uint8>)
      reads arr
      requires Valid()
      ensures |r| == len
    {
      arr[..len]
    }
  }

  /** Go's `copy(dst[lo:hi], src)`: copies min(hi - lo, |src|) bytes into
      dst starting at lo, and leaves every other byte of dst alone. */
  method Copy(dst: array<uint8>, lo: nat, hi: nat, src: seq<uint8>) returns (n: nat)
    requires lo <= hi <= dst.Length
    modifies dst
    ensures n == Min(hi - lo, |src|)
    ensures dst[..lo] == old(dst[..lo])
    ensures dst[lo..lo + n] == src[..n]
    ensures dst[lo + n..] == old(dst[lo + n..])
  {
    n := Min(hi - lo, |src|);
    var k := 0;
    while k < n
      invariant 0 <= k <= n
      invariant forall j :: 0 <= j < lo ==> dst[j] == old(dst[j])
      invariant forall j :: lo <= j < lo + k ==> dst[j] == src[j - lo]
      invariant forall j :: lo + k <= j < dst.Length ==> dst[j] == old(dst[j])
    {
      dst[lo + k] := src[k];
      k := k + 1;
    }
  }

  /** Go's `append(s[:at], p...)`: in place when at + |p| fits in the
      capacity of s, otherwise into a fresh backing array of some capacity
      large enough (the runtime's growth policy is not modelled). */
  method Append(s: Slice, at: nat, p: seq<uint8>) returns (r: Slice)
    requires s.Valid() && at <= s.len
    modifies s.arr
    ensures r.Valid() && r.len == at + |p|
    ensures r.Elems() == old(s.arr[..at]) + p
    ensures s.arr[..at] == old(s.arr[..at])
    ensures at + |p| <= s.arr.Length ==> r.arr == s.arr
    ensures at + |p| > s.arr.Length ==> fresh(r.arr) && unchanged(s.arr)
  {
    if at + |p| <= s.arr.Length {
      var k := Copy(s.arr, at, s.arr.Length, p);
      r := Slice(s.arr, at + |p|);
      assert s.arr[..at + |p|] == s.arr[..at] + s.arr[at..at + |p|];
    } else {
      var newCap: nat :| newCap >= at + |p|;
      var arr := new uint8[newCap];
      var k := Copy(arr, 0, at, s.arr[..at]);
      k := Copy(arr, at, newCap, p);
      r := Slice(arr, at + |p|);
      assert arr[..at + |p|] == arr[..at] + arr[at..at + |p|];
    }
  }
}
