/** The bytes of a file: what writing, resizing and copying leave at every offset. */
module Files {
  import opened Fuse
  import opened Inodes
  import opened Operations

  function Max(a: int, b: int): int {
    if a < b then b else a
  }

  function Min(a: int, b: int): int {
    if a < b then a else b
  }

  /** The byte at any offset, zero beyond the end: a file as an infinite tape. */
  function ByteAt(data: Bytes, k: nat): byte {
    if k < |data| then data[k] else 0
  }

  lemma ResizedBytes(data: Bytes, size: nat, k: nat)
    ensures |Resized(data, size)| == size
    ensures ByteAt(Resized(data, size), k) == if k < size then ByteAt(data, k) else 0
  {
  }

  /** A write puts its bytes at its offset, keeps every other byte, and fills any gap
      between the old end and the offset with zeros. */
  lemma WrittenBytes(data: Bytes, ofst: nat, buff: Bytes, k: nat)
    ensures |Written(data, ofst, buff)| == Max(|data|, ofst + |buff|)
    ensures ByteAt(Written(data, ofst, buff), k) ==
            if ofst <= k < ofst + |buff| then buff[k - ofst] else ByteAt(data, k)
  {
    ResizedBytes(data, ofst + |buff|, k);
  }

  /** Two files of the same size with the same tape are the same. */
  lemma SameBytes(a: Bytes, b: Bytes)
    requires |a| == |b| && forall k: nat :: ByteAt(a, k) == ByteAt(b, k)
    ensures a == b
  {
    forall k: nat | k < |a| ensures a[k] == b[k] {
      assert ByteAt(a, k) == ByteAt(b, k);
    }
  }

  /** Reading gives the bytes of the tape between the offset and the end. */
  lemma WindowBytes(data: Bytes, ofst: nat, n: nat)
    ensures |Window(data, ofst, n)| == Max(0, Min(n, |data| - ofst))
    ensures forall k: nat :: k < |Window(data, ofst, n)| ==> Window(data, ofst, n)[k] == ByteAt(data, ofst + k)
  {
  }

  /** What was written is what is read back. */
  lemma ReadWritten(data: Bytes, ofst: nat, buff: Bytes)
    ensures Window(Written(data, ofst, buff), ofst, |buff|) == buff
  {
    var w := Written(data, ofst, buff);
    WrittenBytes(data, ofst, buff, 0);
    WindowBytes(w, ofst, |buff|);
    forall k: nat | k < |buff| ensures Window(w, ofst, |buff|)[k] == buff[k] {
      WrittenBytes(data, ofst, buff, ofst + k);
    }
  }

  datatype Change = Resize(size: nat) | Grow(end: nat) | Put(ofst: nat, buff: Bytes)

  /** Truncate, Fallocate, and Write or the target side of CopyFileRange. */
  function Apply(data: Bytes, c: Change): Bytes {
    match c
    case Resize(size) => Resized(data, size)
    case Grow(end) => Grown(data, end)
    case Put(ofst, buff) => Written(data, ofst, buff)
  }

  function ApplyAll(data: Bytes, cs: seq<Change>): Bytes
    decreases |cs|
  {
    if cs == [] then data else Apply(ApplyAll(data, cs[..|cs| - 1]), cs[|cs| - 1])
  }

  predicate Puts(c: Change, k: nat) {
    c.Put? && c.ofst <= k < c.ofst + |c.buff|
  }

  /** The byte that the last change touching offset `k` left there: the byte put, or zero
      once a resize has cut the offset off. */
  function LastByte(data: Bytes, cs: seq<Change>, k: nat): byte
    decreases |cs|
  {
    if cs == [] then ByteAt(data, k)
    else
      var c := cs[|cs| - 1];
      if Puts(c, k) then c.buff[k - c.ofst]
      else if c.Resize? && c.size <= k then 0
      else LastByte(data, cs[..|cs| - 1], k)
  }

  /** Over every sequence of changes a byte is the one last put there, and zero where
      nothing has been put since the file was last cut shorter: no stale byte returns. */
  lemma {:induction false} NoStaleBytes(data: Bytes, cs: seq<Change>, k: nat)
    ensures ByteAt(ApplyAll(data, cs), k) == LastByte(data, cs, k)
    decreases |cs|
  {
    if cs != [] {
      var before, c := ApplyAll(data, cs[..|cs| - 1]), cs[|cs| - 1];
      NoStaleBytes(data, cs[..|cs| - 1], k);
      match c
      case Resize(size) => ResizedBytes(before, size, k);
      case Grow(end) => ResizedBytes(before, end, k);
      case Put(ofst, buff) => WrittenBytes(before, ofst, buff, k);
    }
  }

  // --------------------------------------------------------------- CopyFileRange

  /** The count is what the source still has, the target range receives the bytes the
      source had before the call, even when source and target are one node and the ranges
      overlap, and every other byte of every file is kept. */
  lemma CopyFileRangeBytes(fs: FS, pIn: Path, fhIn: nat, offIn: nat, pOut: Path, fhOut: nat, offOut: nat,
                           size: nat, i: Ino, o: Ino)
    requires GetNode(fs, pIn, fhIn) == At(i) && GetNode(fs, pOut, fhOut) == At(o)
    ensures var (fs', r) := CopyFileRange(fs, pIn, fhIn, offIn, pOut, fhOut, offOut, size);
            var n := Max(0, Min(size, |fs.tab[i].data| - offIn));
            if r == NO_SPACE then fs' == fs && n > 0 && !CanAllocate(fs, offOut + n) && |fs.tab[o].data| < offOut + n
            else
              && r == Return(n)
              && fs'.tab.Keys == fs.tab.Keys
              && (forall j :: j in fs.tab && j != o ==> fs'.tab[j] == fs.tab[j])
              && fs'.tab[o] == fs.tab[o].(data := fs'.tab[o].data)
              && |fs'.tab[o].data| == (if n == 0 then |fs.tab[o].data| else Max(|fs.tab[o].data|, offOut + n))
              && (forall k: nat :: ByteAt(fs'.tab[o].data, k) ==
                    if offOut <= k < offOut + n then ByteAt(fs.tab[i].data, offIn + (k - offOut))
                    else ByteAt(fs.tab[o].data, k))
  {
    var src, dst := Window(fs.tab[i].data, offIn, size), fs.tab[o].data;
    WindowBytes(fs.tab[i].data, offIn, size);
    WrittenBytes(dst, offOut, src, 0);
    forall k: nat
      ensures ByteAt(Written(dst, offOut, src), k) ==
              if offOut <= k < offOut + |src| then ByteAt(fs.tab[i].data, offIn + (k - offOut)) else ByteAt(dst, k)
    {
      WrittenBytes(dst, offOut, src, k);
    }
  }

  /** A write of no bytes is not always without effect: it extends the file exactly when
      its offset lies beyond the end and the run time can allocate that much. */
  lemma EmptyWriteGrowsExactly(fs: FS, p: Path, ofst: nat, fh: nat, i: Ino)
    requires GetNode(fs, p, fh) == At(i)
    ensures var (fs', r) := Write(fs, p, [], ofst, fh);
            && (fs' != fs <==> |fs.tab[i].data| < ofst && CanAllocate(fs, ofst))
            && (r == if |fs.tab[i].data| < ofst && !CanAllocate(fs, ofst) then NO_SPACE else Return(0))
            && (fs' != fs ==> |fs'.tab[i].data| == ofst)
  {
    var data := fs.tab[i].data;
    WrittenBytes(data, ofst, [], 0);
    if ofst <= |data| {
      forall k: nat ensures ByteAt(Written(data, ofst, []), k) == ByteAt(data, k) {
        WrittenBytes(data, ofst, [], k);
      }
      SameBytes(Written(data, ofst, []), data);
      assert SetInode(fs, i, fs.tab[i]) == fs;
    }
  }
}
