/** What each Memfs operation does to the abstract file system, branch by branch. */
module Operations {
  import opened Fuse
  import opened Inodes

  // ------------------------------------------------------------------- lookup

  datatype LookupResult =
    | Found(prnt: Option<Ino>, name: Name, node: Option<Ino>)
    | TooLong

  const MAX_NAME := 255

  /** The rest of the lookup loop, `p` being the names still to follow. */
  function LookupFrom(fs: FS, prnt: Option<Ino>, name: Name, node: Option<Ino>, p: Path,
                      ancestor: Option<Ino>): LookupResult
    decreases |p|
  {
    if p == [] then Found(prnt, name, node)
    else if MAX_NAME < |p[0]| then TooLong
    else if node.None? then Found(None, p[0], None)
    else
      var next := Child(fs, node.value, p[0]);
      if ancestor.Some? && next == ancestor then Found(node, "", next)
      else LookupFrom(fs, node, p[0], next, p[1..], ancestor)
  }

  function Lookup(fs: FS, p: Path, ancestor: Option<Ino>): LookupResult {
    LookupFrom(fs, Some(ROOT), "", Some(ROOT), p, ancestor)
  }

  const NAME_TOO_LONG := Panic(FuseError(-ENAMETOOLONG))
  const NO_SPACE := Panic(FuseError(-ENOSPC))

  function Err(code: int): Outcome {
    Return(-code)
  }

  // ---------------------------------------------------------------- namespace

  function NewInode(mode: bv32, data: Bytes): Inode {
    Inode(mode, 1, map[], map[], data, 0)
  }

  /** uint32 increment and decrement of stat.Nlink. */
  function Inc32(n: nat): nat {
    (n + 1) % TWO_32
  }

  function Dec32(n: nat): nat {
    (n + TWO_32 - 1) % TWO_32
  }

  function SetLinks(fs: FS, i: Ino, n: nat): FS {
    if i in fs.tab then SetInode(fs, i, fs.tab[i].(nlink := n)) else fs
  }

  function Links(fs: FS, i: Ino): nat {
    if i in fs.tab then fs.tab[i].nlink else 0
  }

  function MakeNode(fs: FS, p: Path, mode: bv32, data: Bytes): (FS, Outcome) {
    match Lookup(fs, p, None)
    case TooLong => (fs, NAME_TOO_LONG)
    case Found(None, _, _) => (fs, Err(ENOENT))
    case Found(Some(_), _, Some(_)) => (fs, Err(EEXIST))
    case Found(Some(d), n, None) =>
      var fs1 := fs.(ino := fs.ino + 1);
      if fs.limit < |data| || !IsDir(fs, d) then (fs1, Panic(RuntimeError))
      else (AddEntry(SetInode(fs1, fs1.ino, NewInode(mode, data)), d, n, fs1.ino), Return(0))
  }

  function RemoveNode(fs: FS, p: Path, dir: bool): (FS, Outcome) {
    match Lookup(fs, p, None)
    case TooLong => (fs, NAME_TOO_LONG)
    case Found(Some(d), n, Some(i)) =>
      if !dir && IsDir(fs, i) then (fs, Err(EISDIR))
      else if dir && !IsDir(fs, i) then (fs, Err(ENOTDIR))
      else if i in fs.tab && fs.tab[i].chld.Keys != {} then (fs, Err(ENOTEMPTY))
      else (DelEntry(SetLinks(fs, i, Dec32(Links(fs, i))), d, n), Return(0))
    case _ => (fs, Err(ENOENT))
  }

  function Link(fs: FS, source: Path, target: Path): (FS, Outcome) {
    match Lookup(fs, source, None)
    case TooLong => (fs, NAME_TOO_LONG)
    case Found(_, _, None) => (fs, Err(ENOENT))
    case Found(_, _, Some(i)) =>
      match Lookup(fs, target, None)
      case TooLong => (fs, NAME_TOO_LONG)
      case Found(None, _, _) => (fs, Err(ENOENT))
      case Found(Some(_), _, Some(_)) => (fs, Err(EEXIST))
      case Found(Some(d), n, None) =>
        var fs1 := SetLinks(fs, i, Inc32(Links(fs, i)));
        if !IsDir(fs, d) then (fs1, Panic(RuntimeError))
        else (AddEntry(fs1, d, n, i), Return(0))
  }

  /** Rename and Rename3 after the flags have been checked. */
  function RenameEntry(fs: FS, source: Path, target: Path, noreplace: bool): (FS, Outcome) {
    match Lookup(fs, source, None)
    case TooLong => (fs, NAME_TOO_LONG)
    case Found(Some(od), on, Some(i)) =>
      (match Lookup(fs, target, Some(i))
       case TooLong => (fs, NAME_TOO_LONG)
       case Found(None, _, _) => (fs, Err(ENOENT))
       case Found(Some(nd), nn, replaced) =>
         if nn == "" then (fs, Err(EINVAL))
         else if od == nd && on == nn then (fs, Return(0))
         else if replaced.None? then MoveEntry(fs, od, on, nd, nn, i)
         else if noreplace then (fs, Err(EEXIST))
         else
           var (fs1, r) := RemoveNode(fs, target, IsDir(fs, i));
           if r != Return(0) then (fs1, r) else MoveEntry(fs1, od, on, nd, nn, i))
    case _ => (fs, Err(ENOENT))
  }

  /** The two map updates at the end of a rename; the second one panics when the new
      parent has no map of children. */
  function MoveEntry(fs: FS, od: Ino, on: Name, nd: Ino, nn: Name, i: Ino): (FS, Outcome) {
    var fs1 := DelEntry(fs, od, on);
    if !IsDir(fs, nd) then (fs1, Panic(RuntimeError))
    else (AddEntry(fs1, nd, nn, i), Return(0))
  }

  function Rename(fs: FS, source: Path, target: Path): (FS, Outcome) {
    RenameEntry(fs, source, target, false)
  }

  function Rename3(fs: FS, source: Path, target: Path, flags: bv32): (FS, Outcome) {
    if flags & !RENAME_NOREPLACE != 0 then (fs, Err(EINVAL))
    else RenameEntry(fs, source, target, flags & RENAME_NOREPLACE == RENAME_NOREPLACE)
  }

  // -------------------------------------------------------- nodes and handles

  datatype Target = Missing | LongName | At(i: Ino)

  function NodeAt(fs: FS, p: Path): (t: Target)
    ensures t.At? ==> t.i in fs.tab
  {
    match Lookup(fs, p, None)
    case TooLong => LongName
    case Found(_, _, None) => Missing
    case Found(_, _, Some(i)) => if i in fs.tab then At(i) else Missing
  }

  predicate Open(fs: FS, h: Ino) {
    h in fs.tab && 0 < fs.tab[h].opencnt
  }

  function GetNode(fs: FS, p: Path, fh: nat): (t: Target)
    ensures t.At? ==> t.i in fs.tab
  {
    if fh == NO_HANDLE then NodeAt(fs, p)
    else if Open(fs, fh) then At(fh) else Missing
  }

  function NoNode(t: Target): Outcome
    requires !t.At?
  {
    if t.LongName? then NAME_TOO_LONG else Err(ENOENT)
  }

  function OpenNode(fs: FS, p: Path, dir: bool): (FS, Outcome, nat) {
    match NodeAt(fs, p)
    case At(i) => OpenFound(fs, i, dir)
    case t => (fs, NoNode(t), NO_HANDLE)
  }

  function OpenFound(fs: FS, i: Ino, dir: bool): (FS, Outcome, nat)
    requires i in fs.tab
  {
    if !dir && IsDir(fs, i) then (fs, Err(EISDIR), NO_HANDLE)
    else if dir && !IsDir(fs, i) then (fs, Err(ENOTDIR), NO_HANDLE)
    else (SetInode(fs, i, fs.tab[i].(opencnt := fs.tab[i].opencnt + 1)), Return(0), i)
  }

  /** A handle that is not in the table is a nil node: the Go code panics. */
  function CloseNode(fs: FS, fh: nat): (FS, Outcome) {
    if !Open(fs, fh) then (fs, Panic(RuntimeError))
    else (SetInode(fs, fh, fs.tab[fh].(opencnt := fs.tab[fh].opencnt - 1)), Return(0))
  }

  /** What Getattr and Readdir tell of a node. */
  datatype Stat = Stat(ino: Ino, mode: bv32, nlink: nat, size: nat)

  function StatOf(fs: FS, i: Ino): Stat
    requires i in fs.tab
  {
    Stat(i, fs.tab[i].mode, fs.tab[i].nlink, |fs.tab[i].data|)
  }

  function Getattr(fs: FS, p: Path, fh: nat): (Outcome, Option<Stat>) {
    match GetNode(fs, p, fh)
    case At(i) => (Return(0), Some(StatOf(fs, i)))
    case t => (NoNode(t), None)
  }

  function ChmodBits(was: bv32, mode: bv32): bv32 {
    (was & S_IFMT) | (mode & PERMISSIONS)
  }

  /** Chmod changes the permission bits and never the kind of a node. */
  lemma ChmodBitsMean(was: bv32, mode: bv32)
    ensures ChmodBits(was, mode) & S_IFMT == was & S_IFMT
    ensures ChmodBits(was, mode) & PERMISSIONS == mode & PERMISSIONS
    ensures IsDirMode(ChmodBits(was, mode)) == IsDirMode(was)
  {
  }

  function Chmod(fs: FS, p: Path, mode: bv32, fh: nat): (FS, Outcome) {
    match GetNode(fs, p, fh)
    case At(i) =>
      (SetInode(fs, i, fs.tab[i].(mode := ChmodBits(fs.tab[i].mode, mode))), Return(0))
    case t => (fs, NoNode(t))
  }

  function Readlink(fs: FS, p: Path): (Outcome, Bytes) {
    match NodeAt(fs, p)
    case At(i) =>
      if !IsLnkMode(fs.tab[i].mode) then (Err(EINVAL), [])
      else (Return(0), fs.tab[i].data)
    case t => (NoNode(t), [])
  }

  // ---------------------------------------------------------------- file bytes

  const UNIT := 65536

  function RoundUp(size: nat): nat {
    (size + UNIT - 1) / UNIT * UNIT
  }

  predicate CanAllocate(fs: FS, size: nat) {
    RoundUp(size) <= fs.limit
  }

  function Zeros(n: nat): (z: Bytes)
    ensures |z| == n && forall k :: 0 <= k < n ==> z[k] == 0
  {
    seq(n, _ => 0)
  }

  function Resized(data: Bytes, size: nat): Bytes {
    if size <= |data| then data[..size] else data + Zeros(size - |data|)
  }

  function Grown(data: Bytes, size: nat): Bytes {
    if size <= |data| then data else Resized(data, size)
  }

  function Overwritten(data: Bytes, ofst: nat, buff: Bytes): Bytes
    requires ofst + |buff| <= |data|
  {
    data[..ofst] + buff + data[ofst + |buff|..]
  }

  function Written(data: Bytes, ofst: nat, buff: Bytes): Bytes {
    Overwritten(Grown(data, ofst + |buff|), ofst, buff)
  }

  /** At most `n` bytes from `ofst` on. */
  function Window(data: Bytes, ofst: nat, n: nat): Bytes {
    if |data| < ofst then []
    else if |data| < ofst + n then data[ofst..]
    else data[ofst..ofst + n]
  }

  /** The outcome of an operation that has node `i` hold at least `size` bytes:
      `data` and `n` when the run time can allocate, no change otherwise. */
  function Store(fs: FS, i: Ino, size: nat, must: bool, data: Bytes, n: int): (FS, Outcome)
    requires i in fs.tab
  {
    if must && !CanAllocate(fs, size) then (fs, NO_SPACE)
    else (SetInode(fs, i, fs.tab[i].(data := data)), Return(n))
  }

  function Truncate(fs: FS, p: Path, size: nat, fh: nat): (FS, Outcome) {
    match GetNode(fs, p, fh)
    case At(i) => Store(fs, i, size, true, Resized(fs.tab[i].data, size), 0)
    case t => (fs, NoNode(t))
  }

  function Read(fs: FS, p: Path, n: nat, ofst: nat, fh: nat): (Outcome, Bytes) {
    match GetNode(fs, p, fh)
    case At(i) =>
      var bytes := Window(fs.tab[i].data, ofst, n);
      (Return(|bytes|), bytes)
    case t => (NoNode(t), [])
  }

  function Write(fs: FS, p: Path, buff: Bytes, ofst: nat, fh: nat): (FS, Outcome) {
    match GetNode(fs, p, fh)
    case At(i) =>
      var data := fs.tab[i].data;
      Store(fs, i, ofst + |buff|, |data| < ofst + |buff|, Written(data, ofst, buff), |buff|)
    case t => (fs, NoNode(t))
  }

  function CopyFileRange(fs: FS, pIn: Path, fhIn: nat, offIn: nat,
                         pOut: Path, fhOut: nat, offOut: nat, size: nat): (FS, Outcome)
  {
    match (GetNode(fs, pIn, fhIn), GetNode(fs, pOut, fhOut))
    case (LongName, _) => (fs, NAME_TOO_LONG)
    case (_, LongName) => (fs, NAME_TOO_LONG)
    case (At(i), At(o)) => CopyNodes(fs, i, offIn, o, offOut, size)
    case _ => (fs, Err(ENOENT))
  }

  function CopyNodes(fs: FS, i: Ino, offIn: nat, o: Ino, offOut: nat, size: nat): (FS, Outcome)
    requires i in fs.tab && o in fs.tab
  {
    var src := Window(fs.tab[i].data, offIn, size);
    var dst := fs.tab[o].data;
    if src == [] then (fs, Return(0))
    else Store(fs, o, offOut + |src|, |dst| < offOut + |src|, Written(dst, offOut, src), |src|)
  }

  function Fallocate(fs: FS, p: Path, mode: int, off: nat, length: nat, fh: nat): (FS, Outcome) {
    match GetNode(fs, p, fh)
    case At(i) =>
      if mode != 0 then (fs, Err(ENOSYS))
      else
        var data := fs.tab[i].data;
      Store(fs, i, off + length, |data| < off + length, Grown(data, off + length), 0)
    case t => (fs, NoNode(t))
  }

  // ------------------------------------------------------- extended attributes

  // "com.apple.ResourceFork"
  const RESOURCE_FORK: Bytes :=
    [99, 111, 109, 46, 97, 112, 112, 108, 101, 46, 82, 101, 115, 111, 117, 114, 99, 101, 70, 111, 114, 107]

  function Setxattr(fs: FS, p: Path, name: Bytes, value: Bytes, flags: int): (FS, Outcome) {
    match NodeAt(fs, p)
    case At(i) =>
      if name == RESOURCE_FORK then (fs, Err(ENOTSUP))
      else if flags == XATTR_CREATE && name in fs.tab[i].xatr then (fs, Err(EEXIST))
      else if flags == XATTR_REPLACE && name !in fs.tab[i].xatr then (fs, Err(ENOATTR))
      else (SetInode(fs, i, fs.tab[i].(xatr := fs.tab[i].xatr[name := value])), Return(0))
    case t => (fs, NoNode(t))
  }

  function Getxattr(fs: FS, p: Path, name: Bytes): (Outcome, Bytes) {
    match NodeAt(fs, p)
    case At(i) =>
      if name == RESOURCE_FORK then (Err(ENOTSUP), [])
      else if name !in fs.tab[i].xatr then (Err(ENOATTR), [])
      else (Return(0), fs.tab[i].xatr[name])
    case t => (NoNode(t), [])
  }

  function Removexattr(fs: FS, p: Path, name: Bytes): (FS, Outcome) {
    match NodeAt(fs, p)
    case At(i) =>
      if name == RESOURCE_FORK then (fs, Err(ENOTSUP))
      else if name !in fs.tab[i].xatr then (fs, Err(ENOATTR))
      else (SetInode(fs, i, fs.tab[i].(xatr := fs.tab[i].xatr - {name})), Return(0))
    case t => (fs, NoNode(t))
  }
}
