/** Go byte slices over a backing array, and `resize`, which grows them in allocation units. */
module Slices {
  import opened Fuse
  import opened Operations

  /** A slice that starts at the first byte of its array; the capacity is the array's length. */
  datatype Slice = Slice(arr: array<byte>, len: nat) {
    ghost predicate Valid() {
      len <= arr.Length
    }

    ghost function Contents(): Bytes
      requires Valid()
      reads arr
    {
      arr[..len]
    }
  }

  lemma PartOfSlice(slice: Slice, from: nat, to: nat)
    requires slice.Valid() && from <= to <= slice.len
    ensures slice.arr[from..to] == slice.Contents()[from..to]
  {
  }

  const TWO_64 := 0x1_0000_0000_0000_0000

  function Wrap64(x: int): int {
    (x + TWO_63) % TWO_64 - TWO_63
  }

  /** Go's division truncates toward zero. */
  function GoDiv(x: int, y: int): int
    requires 0 < y
  {
    if 0 <= x then x / y else -(-x / y)
  }

  /** The capacity that resize computes, in 64-bit arithmetic. */
  function AllocSize(size: nat): int {
    GoDiv(Wrap64(size + UNIT - 1), UNIT) * UNIT
  }

  /** The 64-bit computation is the rounding up to whole units, or negative when that
      rounding does not fit. */
  lemma AllocSizeRounds(size: nat)
    requires size < TWO_63
    ensures if RoundUp(size) < TWO_63 then AllocSize(size) == RoundUp(size) else AllocSize(size) < 0
    ensures size <= RoundUp(size) < size + UNIT
  {
    if size + UNIT - 1 < TWO_63 {
      assert Wrap64(size + UNIT - 1) == size + UNIT - 1;
    } else {
      assert Wrap64(size + UNIT - 1) == size + UNIT - 1 - TWO_64;
    }
  }

  /** Go's copy between two slices, which reads all bytes before it writes any. */
  method CopyBytes(dst: array<byte>, at: nat, src: array<byte>, from: nat, n: nat)
    requires at + n <= dst.Length && from + n <= src.Length
    modifies dst
    ensures dst[..] == old(dst[..at] + src[from..from + n] + dst[at + n..])
  {
    forall k | 0 <= k < n {
      dst[at + k] := src[from + k];
    }
  }

  /** for ; to > from; from++ { arr[from] = 0 } */
  method SetZero(arr: array<byte>, from: nat, to: nat)
    requires to <= arr.Length
    modifies arr
    ensures arr[..] == if from <= to then old(arr[..from]) + Zeros(to - from) + old(arr[to..]) else old(arr[..])
  {
    ghost var was := arr[..];
    var i := from;
    while i < to
      invariant from <= i && (from <= to ==> i <= to)
      invariant forall k :: 0 <= k < arr.Length ==> arr[k] == if from <= k < i && k < to then 0 else was[k]
    {
      arr[i] := 0;
      i := i + 1;
    }
  }

  /** The slice with `size` bytes: old bytes kept, new bytes zero.  Fails, with nothing
      changed, exactly when the rounded size is more than the run time can allocate. */
  method Resize(slice: Slice, size: nat, zeroinit: bool, limit: nat) returns (ok: bool, r: Slice)
    requires slice.Valid() && size < TWO_63 && slice.arr.Length <= limit < TWO_63
    modifies slice.arr
    ensures ok <==> RoundUp(size) <= limit
    ensures !ok ==> r == slice
    ensures slice.Contents() == old(slice.Contents())
    ensures ok && !zeroinit && slice.arr.Length == RoundUp(size) ==> r == slice
    ensures ok && (zeroinit || slice.arr.Length != RoundUp(size)) ==>
              && r.Valid() && r.arr.Length == RoundUp(size)
              && r.Contents() == Resized(old(slice.Contents()), size)
    ensures r.arr == slice.arr || fresh(r.arr)
    ensures ok ==> (r.arr == slice.arr <==> slice.arr.Length == RoundUp(size))
  {
    AllocSizeRounds(size);
    var allocsize := AllocSize(size);
    r := slice;
    if slice.arr.Length != allocsize {
      if allocsize < 0 || limit < allocsize {
        return false, slice;
      }
      var newarr := new byte[allocsize](_ => 0);
      CopyBytes(newarr, 0, slice.arr, 0, if size < slice.len then size else slice.len);
      assert newarr[..size] == Resized(old(slice.Contents()), size);
      r := Slice(newarr, size);
    } else if zeroinit {
      SetZero(slice.arr, slice.len, size);
      r := Slice(slice.arr, size);
      assert r.Contents() == Resized(old(slice.Contents()), size);
    }
    ok := true;
  }
}
