/** What every request answers, and what it does when it goes through, said by what paths
    and handles lead to.  The tables here are written from the promises, not from the
    branches of Operations, and each is proved of every state and every request. */
module Answers {
  import opened Fuse
  import opened Inodes
  import opened Paths
  import opened Operations
  import opened Lookups
  import opened Namespace
  import opened Renames
  import opened Runs
  import Files

  const TOO_LONG := Panic(FuseError(-ENAMETOOLONG))
  const FULL := Panic(FuseError(-ENOSPC))
  const DONE := Return(0)

  /** The lookup of `p` comes to a name of more than 255 characters. */
  ghost predicate Overreads(fs: FS, p: Path) {
    exists k: nat :: Overlong(fs, p, None, k)
  }

  /** The same for a lookup that stops at `x`. */
  ghost predicate OverreadsBefore(fs: FS, p: Path, x: Ino) {
    exists k: nat :: Overlong(fs, p, Some(x), k)
  }

  ghost function ParentOf(fs: FS, p: Path): Option<Ino>
    requires p != []
  {
    Resolve(fs, DropLast(p))
  }

  /** The node that a request with path `p` and handle `fh` reaches. */
  ghost function Reached(fs: FS, p: Path, fh: nat): Option<Ino> {
    if fh == NO_HANDLE then Resolve(fs, p)
    else if fh in fs.tab && 0 < fs.tab[fh].opencnt then Some(fh)
    else None
  }

  ghost function Unreached(fs: FS, p: Path, fh: nat): Outcome {
    if fh == NO_HANDLE && Overreads(fs, p) then TOO_LONG else Return(-ENOENT)
  }

  /** The run time can make an array for `size` bytes, rounded up to units of 64 KiB. */
  ghost predicate Fits(fs: FS, size: nat) {
    (size + 65535) / 65536 * 65536 <= fs.limit
  }

  // ------------------------------------------------------------------- lookups

  lemma ResolvedIsShort(fs: FS, p: Path)
    requires WellFormed(fs) && Resolve(fs, p).Some?
    ensures !Overreads(fs, p) && Resolve(fs, p).value in fs.tab
    ensures p != [] ==> ParentOf(fs, p).Some? && IsDir(fs, ParentOf(fs, p).value)
  {
    ResolvedNamesGood(fs, p);
    WalkInTable(fs, ROOT, p);
    if p != [] {
      assert p[..|p| - 1] == DropLast(p);
    }
  }

  /** A lookup by path finds what the path resolves to; a lookup by handle, the open node. */
  lemma GetNodeMeans(fs: FS, p: Path, fh: nat)
    requires WellFormed(fs)
    ensures match Reached(fs, p, fh)
            case Some(i) => GetNode(fs, p, fh) == At(i)
            case None => !GetNode(fs, p, fh).At? && NoNode(GetNode(fs, p, fh)) == Unreached(fs, p, fh)
  {
    LookupMeans(fs, p);
    if Resolve(fs, p).Some? {
      ResolvedIsShort(fs, p);
    }
  }

  lemma ReachedNode(fs: FS, p: Path, fh: nat)
    requires WellFormed(fs) && Reached(fs, p, fh).Some?
    ensures Reached(fs, p, fh).value in fs.tab && GetNode(fs, p, fh) == At(Reached(fs, p, fh).value)
  {
    GetNodeMeans(fs, p, fh);
  }

  lemma ResolvedNode(fs: FS, p: Path)
    requires WellFormed(fs) && Resolve(fs, p).Some?
    ensures Resolve(fs, p).value in fs.tab && NodeAt(fs, p) == At(Resolve(fs, p).value)
  {
    GetNodeMeans(fs, p, NO_HANDLE);
  }

  // -------------------------------------------------------------- what is answered

  ghost function MakeAnswer(fs: FS, p: Path, size: nat): Outcome {
    if Resolve(fs, p).Some? then Return(-EEXIST)
    else if Overreads(fs, p) then TOO_LONG
    else if p == [] || ParentOf(fs, p).None? then Return(-ENOENT)
    else if IsDir(fs, ParentOf(fs, p).value) && size <= fs.limit then DONE
    else Panic(RuntimeError)
  }

  ghost function RemoveAnswer(fs: FS, p: Path, dir: bool): Outcome {
    match Resolve(fs, p)
    case None => if Overreads(fs, p) then TOO_LONG else Return(-ENOENT)
    case Some(i) =>
      if dir && !IsDir(fs, i) then Return(-ENOTDIR)
      else if !dir && IsDir(fs, i) then Return(-EISDIR)
      else if exists n: Name :: Child(fs, i, n).Some? then Return(-ENOTEMPTY)
      else DONE
  }

  ghost function LinkAnswer(fs: FS, s: Path, t: Path): Outcome {
    if Resolve(fs, s).None? then if Overreads(fs, s) then TOO_LONG else Return(-ENOENT)
    else MakeAnswer(fs, t, 0)
  }

  ghost function RenameAnswer(fs: FS, s: Path, t: Path, noreplace: bool): Outcome {
    match Resolve(fs, s)
    case None => if Overreads(fs, s) then TOO_LONG else Return(-ENOENT)
    case Some(x) =>
      if t == [] || Touches(fs, t, x) then Return(-EINVAL)
      else if noreplace && Resolve(fs, t).Some? then Return(-EEXIST)
      else if Resolve(fs, t).Some? then RemoveAnswer(fs, t, IsDir(fs, x))
      else if OverreadsBefore(fs, t, x) then TOO_LONG
      else if ParentOf(fs, t).None? then Return(-ENOENT)
      else if IsDir(fs, ParentOf(fs, t).value) then DONE
      else Panic(RuntimeError)
  }

  ghost function Rename3Answer(fs: FS, s: Path, t: Path, flags: bv32): Outcome {
    if flags == 0 then RenameAnswer(fs, s, t, false)
    else if flags == 1 then RenameAnswer(fs, s, t, true)
    else Return(-EINVAL)
  }

  ghost function OpenAnswer(fs: FS, p: Path, dir: bool): Outcome {
    match Resolve(fs, p)
    case None => Unreached(fs, p, NO_HANDLE)
    case Some(i) => if IsDir(fs, i) == dir then DONE else if dir then Return(-ENOTDIR) else Return(-EISDIR)
  }

  ghost function SetxattrAnswer(fs: FS, p: Path, name: Bytes, flags: int): Outcome {
    match Resolve(fs, p)
    case None => Unreached(fs, p, NO_HANDLE)
    case Some(i) =>
      if name == RESOURCE_FORK then Return(-ENOTSUP)
      else if i in fs.tab && name in fs.tab[i].xatr then if flags == 1 then Return(-EEXIST) else DONE
      else if flags == 2 then Return(-ENOATTR) else DONE
  }

  ghost function GetxattrAnswer(fs: FS, p: Path, name: Bytes): Outcome {
    match Resolve(fs, p)
    case None => Unreached(fs, p, NO_HANDLE)
    case Some(i) =>
      if name == RESOURCE_FORK then Return(-ENOTSUP)
      else if i in fs.tab && name in fs.tab[i].xatr then DONE
      else Return(-ENOATTR)
  }

  ghost function CopyAnswer(fs: FS, i: Option<Ino>, offIn: nat, o: Option<Ino>, offOut: nat, size: nat): Outcome {
    if i.None? || o.None? || i.value !in fs.tab || o.value !in fs.tab then Return(-ENOENT)
    else
      var n := Files.Max(0, Files.Min(size, |fs.tab[i.value].data| - offIn));
      if n == 0 || offOut + n <= |fs.tab[o.value].data| || Fits(fs, offOut + n) then Return(n) else FULL
  }

  /** The answer to each request. */
  ghost function Answer(fs: FS, op: Op): Outcome {
    match op
    case OpMknod(path, _) => MakeAnswer(fs, Components(path), 0)
    case OpMkdir(path, _) => MakeAnswer(fs, Components(path), 0)
    case OpSymlink(link, path) => MakeAnswer(fs, Components(path), |link|)
    case OpUnlink(path) => RemoveAnswer(fs, Components(path), false)
    case OpRmdir(path) => RemoveAnswer(fs, Components(path), true)
    case OpLink(source, target) => LinkAnswer(fs, Components(source), Components(target))
    case OpRename(source, target) => RenameAnswer(fs, Components(source), Components(target), false)
    case OpRename3(source, target, flags) => Rename3Answer(fs, Components(source), Components(target), flags)
    case OpChmod(path, _, fh) => ReachedAnswer(fs, path, fh, DONE)
    case OpOpen(path, dir) => OpenAnswer(fs, Components(path), dir)
    case OpRelease(fh) => if fh in fs.tab && 0 < fs.tab[fh].opencnt then DONE else Panic(RuntimeError)
    case OpTruncate(path, size, fh) => ReachedAnswer(fs, path, fh, if Fits(fs, size) then DONE else FULL)
    case OpWrite(path, buff, ofst, fh) =>
      ReachedAnswer(fs, path, fh, if Holds(fs, path, fh, ofst + |buff|) then Return(|buff|) else FULL)
    case OpCopy(pathIn, fhIn, offIn, path, fhOut, offOut, size) =>
      var p, q := Components(pathIn), Components(path);
      if Reached(fs, p, fhIn).None? && Unreached(fs, p, fhIn) == TOO_LONG then TOO_LONG
      else if Reached(fs, q, fhOut).None? && Unreached(fs, q, fhOut) == TOO_LONG then TOO_LONG
      else CopyAnswer(fs, Reached(fs, p, fhIn), offIn, Reached(fs, q, fhOut), offOut, size)
    case OpFallocate(path, mode, off, length, fh) =>
      ReachedAnswer(fs, path, fh,
                    if mode != 0 then Return(-ENOSYS)
                    else if Holds(fs, path, fh, off + length) then DONE else FULL)
    case OpSetxattr(path, name, _, flags) => SetxattrAnswer(fs, Components(path), name, flags)
    case OpRemovexattr(path, name) => GetxattrAnswer(fs, Components(path), name)
  }

  ghost function ReachedAnswer(fs: FS, path: string, fh: nat, found: Outcome): Outcome {
    if Reached(fs, Components(path), fh).Some? then found else Unreached(fs, Components(path), fh)
  }

  /** The node reached has `end` bytes already, or can be given them. */
  ghost predicate Holds(fs: FS, path: string, fh: nat, end: nat) {
    var i := Reached(fs, Components(path), fh);
    Fits(fs, end) || (i.Some? && i.value in fs.tab && end <= |fs.tab[i.value].data|)
  }

  lemma MakeAnswers(fs: FS, p: Path, mode: bv32, data: Bytes)
    requires WellFormed(fs)
    ensures MakeNode(fs, p, mode, data).1 == MakeAnswer(fs, p, |data|)
  {
    LookupMeans(fs, p);
    if Resolve(fs, p).Some? {
      ResolvedIsShort(fs, p);
    }
  }

  lemma HasChildExactly(fs: FS, i: Ino)
    requires i in fs.tab
    ensures fs.tab[i].chld.Keys != {} <==> exists n: Name :: Child(fs, i, n).Some?
  {
    if fs.tab[i].chld.Keys != {} {
      var n :| n in fs.tab[i].chld;
      assert Child(fs, i, n).Some?;
    }
  }

  lemma RemoveAnswers(fs: FS, p: Path, dir: bool)
    requires WellFormed(fs)
    ensures RemoveNode(fs, p, dir).1 == RemoveAnswer(fs, p, dir)
  {
    LookupMeans(fs, p);
    if Resolve(fs, p).Some? {
      ResolvedIsShort(fs, p);
      HasChildExactly(fs, Resolve(fs, p).value);
    }
  }

  lemma LinkAnswers(fs: FS, s: Path, t: Path)
    requires WellFormed(fs)
    ensures Link(fs, s, t).1 == LinkAnswer(fs, s, t)
  {
    LookupMeans(fs, s);
    LookupMeans(fs, t);
    if Resolve(fs, s).Some? {
      ResolvedIsShort(fs, s);
    }
    if Resolve(fs, t).Some? {
      ResolvedIsShort(fs, t);
    }
  }

  lemma NothingPastOverlong(fs: FS, p: Path, k: nat, j: nat)
    requires WellFormed(fs) && k < j <= |p| && MAX_NAME < |p[k]|
    ensures Resolve(fs, p[..j]).None?
  {
    assert p[..j][k] == p[k];
    if Resolve(fs, p[..j]).Some? {
      ResolvedNamesGood(fs, p[..j]);
    }
  }

  lemma TouchedIsShort(fs: FS, p: Path, x: Ino)
    requires WellFormed(fs) && (Touches(fs, p, x) || Resolve(fs, p).Some?)
    ensures !OverreadsBefore(fs, p, x)
  {
    assert p[..|p|] == p;
    var j :| 0 <= j <= |p| && Resolve(fs, p[..j]).Some? &&
             (j == |p| || (1 <= j && Resolve(fs, p[..j]) == Some(x)));
    forall k: nat | k < |p| && MAX_NAME < |p[k]| ensures !Overlong(fs, p, Some(x), k) {
      if k < j {
        NothingPastOverlong(fs, p, k, j);
      } else {
        assert TouchesBy(fs, p, k, x);
      }
    }
  }

  lemma RenameAnswers(fs: FS, s: Path, t: Path, noreplace: bool)
    requires WellFormed(fs) && Spellable(t)
    ensures RenameEntry(fs, s, t, noreplace).1 == RenameAnswer(fs, s, t, noreplace)
  {
    LookupMeans(fs, s);
    if Resolve(fs, s).Some? {
      var x := Resolve(fs, s).value;
      ResolvedIsShort(fs, s);
      GuardedLookupMeans(fs, t, x);
      if Touches(fs, t, x) || Resolve(fs, t).Some? {
        TouchedIsShort(fs, t, x);
      }
      RenameEffect(fs, s, t, noreplace);
      if BothFound(fs, s, t) && !Guarded(fs, s, t) && Resolve(fs, DropLast(t)).Some? {
        RenameLookups(fs, s, t);
        SameEntryIsGuarded(fs, s, t);
        RemoveAnswers(fs, t, IsDir(fs, x));
      }
      if Resolve(fs, t).Some? {
        ResolvedIsShort(fs, t);
      }
    }
  }

  lemma OpenAnswers(fs: FS, p: Path, dir: bool)
    requires WellFormed(fs)
    ensures OpenNode(fs, p, dir).1 == OpenAnswer(fs, p, dir)
  {
    GetNodeMeans(fs, p, NO_HANDLE);
  }

  lemma AttributeAnswers(fs: FS, p: Path, name: Bytes, value: Bytes, flags: int)
    requires WellFormed(fs)
    ensures Setxattr(fs, p, name, value, flags).1 == SetxattrAnswer(fs, p, name, flags)
    ensures Removexattr(fs, p, name).1 == Getxattr(fs, p, name).0 == GetxattrAnswer(fs, p, name)
  {
    GetNodeMeans(fs, p, NO_HANDLE);
    if Resolve(fs, p).Some? {
      ResolvedIsShort(fs, p);
    }
  }

  lemma CopyNodesAnswers(fs: FS, i: Ino, offIn: nat, o: Ino, offOut: nat, size: nat)
    requires i in fs.tab && o in fs.tab
    ensures CopyNodes(fs, i, offIn, o, offOut, size).1 == CopyAnswer(fs, Some(i), offIn, Some(o), offOut, size)
  {
    Files.WindowBytes(fs.tab[i].data, offIn, size);
  }

  lemma CopyAnswers(fs: FS, op: Op)
    requires WellFormed(fs) && op.OpCopy?
    ensures Step(fs, op).1 == Answer(fs, op)
  {
    var p, q := Components(op.pathIn), Components(op.path);
    GetNodeMeans(fs, p, op.fhIn);
    GetNodeMeans(fs, q, op.fhOut);
    var i, o := Reached(fs, p, op.fhIn), Reached(fs, q, op.fhOut);
    if i.Some? && o.Some? {
      CopyNodesAnswers(fs, i.value, op.offIn, o.value, op.offOut, op.size);
    }
  }

  lemma TruncateAnswers(fs: FS, op: Op)
    requires WellFormed(fs) && op.OpTruncate?
    ensures Step(fs, op).1 == Answer(fs, op)
  {
    GetNodeMeans(fs, Components(op.path), op.fh);
  }

  lemma WriteAnswers(fs: FS, op: Op)
    requires WellFormed(fs) && op.OpWrite?
    ensures Step(fs, op).1 == Answer(fs, op)
  {
    GetNodeMeans(fs, Components(op.path), op.fh);
  }

  lemma FallocateAnswers(fs: FS, op: Op)
    requires WellFormed(fs) && op.OpFallocate?
    ensures Step(fs, op).1 == Answer(fs, op)
  {
    GetNodeMeans(fs, Components(op.path), op.fh);
  }

  lemma MakeStepAnswers(fs: FS, op: Op)
    requires WellFormed(fs) && (op.OpMknod? || op.OpMkdir? || op.OpSymlink?)
    ensures Step(fs, op).1 == Answer(fs, op)
  {
    MakeAnswers(fs, Components(op.path), CreationMode(op), if op.OpSymlink? then op.link else []);
  }

  lemma EntryStepAnswers(fs: FS, op: Op)
    requires WellFormed(fs) && (op.OpUnlink? || op.OpRmdir? || op.OpLink?)
    ensures Step(fs, op).1 == Answer(fs, op)
  {
    if op.OpLink? {
      LinkAnswers(fs, Components(op.source), Components(op.target));
    } else {
      RemoveAnswers(fs, Components(op.path), op.OpRmdir?);
    }
  }

  lemma NodeStepAnswers(fs: FS, op: Op)
    requires WellFormed(fs) && (op.OpChmod? || op.OpOpen? || op.OpRelease?)
    ensures Step(fs, op).1 == Answer(fs, op)
  {
    if op.OpChmod? {
      GetNodeMeans(fs, Components(op.path), op.fh);
    } else if op.OpOpen? {
      OpenAnswers(fs, Components(op.path), op.dir);
    }
  }

  lemma AttributeStepAnswers(fs: FS, op: Op)
    requires WellFormed(fs) && (op.OpSetxattr? || op.OpRemovexattr?)
    ensures Step(fs, op).1 == Answer(fs, op)
  {
    if op.OpSetxattr? {
      SetxattrStep(fs, op.path, op.name, op.value, op.xflags);
      AttributeAnswers(fs, Components(op.path), op.name, op.value, op.xflags);
    } else {
      SetxattrStep(fs, op.path, op.name, [], 0);
      AttributeAnswers(fs, Components(op.path), op.name, [], 0);
    }
  }

  /** Every request, in every state: the answer is the one of the table. */
  lemma StepAnswers(fs: FS, op: Op)
    requires WellFormed(fs)
    ensures Step(fs, op).1 == Answer(fs, op)
  {
    if op.OpMknod? || op.OpMkdir? || op.OpSymlink? {
      MakeStepAnswers(fs, op);
    } else if op.OpUnlink? || op.OpRmdir? || op.OpLink? {
      EntryStepAnswers(fs, op);
    } else if op.OpRename? || op.OpRename3? {
      RenameStepAnswers(fs, op);
    } else if op.OpSetxattr? || op.OpRemovexattr? {
      AttributeStepAnswers(fs, op);
    } else if op.OpCopy? {
      CopyAnswers(fs, op);
    } else if op.OpTruncate? {
      TruncateAnswers(fs, op);
    } else if op.OpWrite? {
      WriteAnswers(fs, op);
    } else if op.OpFallocate? {
      FallocateAnswers(fs, op);
    } else {
      NodeStepAnswers(fs, op);
    }
  }

  lemma RenameStepAnswers(fs: FS, op: Op)
    requires WellFormed(fs) && (op.OpRename? || op.OpRename3?)
    ensures Step(fs, op).1 == Answer(fs, op)
  {
    ComponentsSpellable(op.target);
    RenameAnswers(fs, Components(op.source), Components(op.target), false);
    RenameAnswers(fs, Components(op.source), Components(op.target), true);
    if op.OpRename3? {
      Rename3Flags(fs, Components(op.source), Components(op.target), op.flags);
    }
  }

  /** Rename3 by its flags. */
  lemma Rename3Flags(fs: FS, s: Path, t: Path, flags: bv32)
    ensures Rename3(fs, s, t, flags) ==
            if flags == 0 then RenameEntry(fs, s, t, false)
            else if flags == 1 then RenameEntry(fs, s, t, true)
            else (fs, Return(-EINVAL))
  {
    FlagsMean(flags);
  }

  lemma FlagsMean(flags: bv32)
    ensures flags & !1 == 0 <==> flags == 0 || flags == 1
  {
  }

  /** Any flag but NOREPLACE is refused, without effect, whatever else is asked. */
  lemma OtherFlagsAreRefused(fs: FS, source: string, target: string, flags: bv32)
    requires flags != 0 && flags != 1
    ensures Step(fs, OpRename3(source, target, flags)) == (fs, Return(-EINVAL))
  {
    Rename3Flags(fs, Components(source), Components(target), flags);
  }

  // ----------------------------------------------------------------- what is done

  /** One new node, of the stated kind and content, at the vacant path `p`; its parent has
      one entry more, and no other node and no other path is touched. */
  ghost predicate Makes(fs: FS, fs': FS, p: Path, mode: bv32, data: Bytes) {
    var i := fs.ino + 1;
    && Vacant(fs, p) && fs'.ino == i && fs'.limit == fs.limit && i !in fs.tab
    && (var d := Parent(fs, p);
        fs'.tab == fs.tab[i := Inode(mode, 1, map[], map[], data, 0)][
          d := fs.tab[d].(chld := fs.tab[d].chld[Last(p) := i])])
    && forall q :: Resolve(fs', q) == if q == p then Some(i) else Resolve(fs, q)
  }

  lemma MakeMakes(fs: FS, p: Path, mode: bv32, data: Bytes)
    requires Inv(fs) && Spellable(p) && MakeAnswer(fs, p, |data|) == DONE
    ensures Makes(fs, MakeNode(fs, p, mode, data).0, p, mode, data)
  {
    var fs' := MakeNode(fs, p, mode, data).0;
    MakeAnswers(fs, p, mode, data);
    MakeNodeEffect(fs, p, mode, data);
    forall q ensures Resolve(fs', q) == if q == p then Some(fs.ino + 1) else Resolve(fs, q) {
      CreatedResolves(fs, p, mode, data, q);
    }
    LookupMeans(fs, p);
  }

  /** Mknod makes an empty node of the mode asked. */
  lemma MknodMakes(fs: FS, path: string, mode: bv32)
    requires Inv(fs)
    ensures Step(fs, OpMknod(path, mode)).1 == DONE ==>
              Makes(fs, After(fs, OpMknod(path, mode)), Components(path), mode, [])
  {
    StepAnswers(fs, OpMknod(path, mode));
    if Answer(fs, OpMknod(path, mode)) == DONE {
      ComponentsSpellable(path);
      MakeMakes(fs, Components(path), mode, []);
    }
  }

  /** Mkdir makes an empty directory with the permissions asked. */
  lemma MkdirMakes(fs: FS, path: string, mode: bv32)
    requires Inv(fs)
    ensures Step(fs, OpMkdir(path, mode)).1 == DONE ==>
              var p, fs' := Components(path), After(fs, OpMkdir(path, mode));
              && Makes(fs, fs', p, 0x4000 | (mode & 0xFFF), [])
              && (0x4000 | (mode & 0xFFF)) & 0xFFF == mode & 0xFFF
              && IsDir(fs', fs.ino + 1) && fs'.tab[fs.ino + 1].chld == map[]
  {
    StepAnswers(fs, OpMkdir(path, mode));
    if Answer(fs, OpMkdir(path, mode)) == DONE {
      ComponentsSpellable(path);
      MakeMakes(fs, Components(path), 0x4000 | (mode & 0xFFF), []);
      DirectoryBits(mode);
    }
  }

  /** Below a new directory every good name is vacant, and a Mknod there goes through. */
  lemma MkdirThenMknod(fs: FS, path: string, mode: bv32, n: Name, mode': bv32)
    requires Inv(fs) && GoodName(n)
    ensures Step(fs, OpMkdir(path, mode)).1 == DONE ==>
              var p, fs' := Components(path), After(fs, OpMkdir(path, mode));
              && Vacant(fs', p + [n]) && Components(Spell(p + [n])) == p + [n]
              && Step(fs', OpMknod(Spell(p + [n]), mode')).1 == DONE
  {
    var p, fs' := Components(path), After(fs, OpMkdir(path, mode));
    if Step(fs, OpMkdir(path, mode)).1 == DONE {
      MkdirMakes(fs, path, mode);
      ComponentsSpellable(path);
      MakeNodeKeepsInv(fs, p, 0x4000 | (mode & 0xFFF), []);
      assert Resolve(fs', p) == Some(fs.ino + 1);
      NewDirectoryIsOpen(fs', p, n);
      ComponentsOfSpell(p + [n]);
      MakeAnswers(fs', p + [n], mode', []);
    }
  }

  lemma DirectoryBits(mode: bv32)
    ensures IsDirMode(0x4000 | (mode & 0xFFF)) && (0x4000 | (mode & 0xFFF)) & 0xFFF == mode & 0xFFF
  {
  }

  lemma NewDirectoryIsOpen(fs: FS, p: Path, n: Name)
    requires Resolve(fs, p).Some? && IsDir(fs, Resolve(fs, p).value) && fs.tab[Resolve(fs, p).value].chld == map[]
    requires WellFormed(fs) && GoodName(n)
    ensures Vacant(fs, p + [n]) && MakeAnswer(fs, p + [n], 0) == DONE
  {
    assert DropLast(p + [n]) == p;
    ResolvedNamesGood(fs, p);
    assert forall k: nat :: k < |p + [n]| ==> |(p + [n])[k]| <= 255;
  }

  /** Symlink makes a link, with all permissions, that reads back its target. */
  lemma SymlinkMakes(fs: FS, target: Bytes, path: string)
    requires Inv(fs)
    ensures Step(fs, OpSymlink(target, path)).1 == DONE ==>
              var p, fs' := Components(path), After(fs, OpSymlink(target, path));
              Makes(fs, fs', p, 0xA1FF, target) && Readlink(fs', p) == (DONE, target)
  {
    var p, fs' := Components(path), After(fs, OpSymlink(target, path));
    StepAnswers(fs, OpSymlink(target, path));
    if Answer(fs, OpSymlink(target, path)) == DONE {
      ComponentsSpellable(path);
      MakeMakes(fs, p, 0xA1FF, target);
      MakeNodeKeepsInv(fs, p, 0xA1FF, target);
      ResolvedLookup(fs', p);
    }
  }

  /** Entry `n` of `d` now leads to `to`, and nothing but entries and link counts differs. */
  ghost predicate OneEntryChanged(fs: FS, fs': FS, d: Ino, n: Name, to: Option<Ino>) {
    && OnlyEntries(fs, fs') && fs'.limit == fs.limit
    && forall u, m :: Child(fs', u, m) == if u == d && m == n then to else Child(fs, u, m)
  }

  /** The link count of `i` is `more` larger, modulo 2^32, and all others are as before. */
  ghost predicate LinkCountsBy(fs: FS, fs': FS, i: Ino, more: int) {
    forall j :: j in fs.tab ==>
      j in fs'.tab && fs'.tab[j].nlink == if j == i then (fs.tab[j].nlink + more) % 0x1_0000_0000 else fs.tab[j].nlink
  }

  ghost predicate LinkCountsKept(fs: FS, fs': FS) {
    forall j :: j in fs.tab ==> j in fs'.tab && fs'.tab[j].nlink == fs.tab[j].nlink
  }

  /** The last entry of `p` is gone, and its node has one link less. */
  ghost predicate Removes(fs: FS, fs': FS, p: Path) {
    && p != [] && Resolve(fs, p).Some? && ParentOf(fs, p).Some?
    && OneEntryChanged(fs, fs', ParentOf(fs, p).value, Last(p), None)
    && LinkCountsBy(fs, fs', Resolve(fs, p).value, -1)
    && forall q :: Resolve(fs', q) == if p <= q then None else Resolve(fs, q)
  }

  lemma RemovedEntry(fs: FS, p: Path)
    requires p != [] && Resolve(fs, p).Some? && ParentOf(fs, p).Some? && ParentOf(fs, p).value in fs.tab
    ensures OneEntryChanged(fs, Removed(fs, p), ParentOf(fs, p).value, Last(p), None)
  {
    var i := Resolve(fs, p).value;
    var fs1 := SetLinks(fs, i, Dec32(Links(fs, i)));
    LinksKeepRest(fs, i, Dec32(Links(fs, i)));
    DelKeepsRest(fs1, ParentOf(fs, p).value, Last(p));
    RestTwice(fs, fs1, Removed(fs, p));
    ChildAfterDel(fs1, ParentOf(fs, p).value, Last(p));
  }

  lemma OneLessWraps(n: nat)
    ensures (n + TWO_32 - 1) % TWO_32 == (n - 1) % TWO_32
  {
    assert (n + TWO_32 - 1) % TWO_32 == ((n - 1) + TWO_32) % TWO_32;
  }

  lemma LinksCountLess(fs: FS, i: Ino)
    ensures LinkCountsBy(fs, SetLinks(fs, i, Dec32(Links(fs, i))), i, -1)
  {
    OneLessWraps(Links(fs, i));
  }

  lemma LinksThenEntry(fs: FS, fs1: FS, fs2: FS, i: Ino, more: int)
    requires LinkCountsBy(fs, fs1, i, more) && LinkCountsKept(fs1, fs2)
    ensures LinkCountsBy(fs, fs2, i, more)
  {
  }

  lemma RemovedLinks(fs: FS, p: Path)
    requires p != [] && Resolve(fs, p).Some? && ParentOf(fs, p).Some?
    ensures LinkCountsBy(fs, Removed(fs, p), Resolve(fs, p).value, -1)
  {
    var i := Resolve(fs, p).value;
    var fs1 := SetLinks(fs, i, Dec32(Links(fs, i)));
    LinksCountLess(fs, i);
    EntriesKeepLinks(fs1, ParentOf(fs, p).value, Last(p), i);
    LinksThenEntry(fs, fs1, Removed(fs, p), i, -1);
  }

  lemma EntriesKeepLinks(fs: FS, d: Ino, n: Name, i: Ino)
    ensures LinkCountsKept(fs, DelEntry(fs, d, n)) && LinkCountsKept(fs, AddEntry(fs, d, n, i))
  {
  }

  lemma RemoveRemoves(fs: FS, p: Path, dir: bool)
    requires Inv(fs) && p != [] && RemoveAnswer(fs, p, dir) == DONE
    ensures Removes(fs, RemoveNode(fs, p, dir).0, p)
  {
    var fs' := RemoveNode(fs, p, dir).0;
    assert fs' == Removed(fs, p) by {
      RemoveAnswers(fs, p, dir);
      RemoveNodeEffect(fs, p, dir);
    }
    ResolvedIsShort(fs, p);
    RemovedEntry(fs, p);
    RemovedLinks(fs, p);
    forall q ensures Resolve(fs', q) == if p <= q then None else Resolve(fs, q) {
      RemovedResolves(fs, p, q);
    }
  }

  /** Unlink and Rmdir do this, each for its own kind of node. */
  lemma RequestsRemove(fs: FS, path: string, dir: bool)
    requires Inv(fs)
    ensures var p, op := Components(path), if dir then OpRmdir(path) else OpUnlink(path);
            Step(fs, op).1 == DONE ==>
              Resolve(fs, p).Some? && IsDir(fs, Resolve(fs, p).value) == dir &&
              (p != [] ==> Removes(fs, After(fs, op), p))
  {
    var p, op := Components(path), if dir then OpRmdir(path) else OpUnlink(path);
    StepAnswers(fs, op);
    if Answer(fs, op) == DONE && p != [] {
      RemoveRemoves(fs, p, dir);
    }
  }

  lemma LinkedEntry(fs: FS, t: Path, i: Ino)
    requires Vacant(fs, t) && i in fs.tab
    ensures OneEntryChanged(fs, Linked(fs, t, i), Parent(fs, t), Last(t), Some(i))
    ensures LinkCountsBy(fs, Linked(fs, t, i), i, 1)
  {
    var fs1 := SetLinks(fs, i, Inc32(Links(fs, i)));
    LinksKeepRest(fs, i, Inc32(Links(fs, i)));
    AddKeepsRest(fs1, Parent(fs, t), Last(t), i);
    RestTwice(fs, fs1, Linked(fs, t, i));
    ChildAfterAdd(fs1, Parent(fs, t), Last(t), i);
    EntriesKeepLinks(fs1, Parent(fs, t), Last(t), i);
  }

  /** The new entry of `t` leads to node `i`, which has one link more. */
  ghost predicate Adds(fs: FS, fs': FS, t: Path, i: Ino) {
    && t != [] && ParentOf(fs, t).Some?
    && OneEntryChanged(fs, fs', ParentOf(fs, t).value, Last(t), Some(i))
    && LinkCountsBy(fs, fs', i, 1)
    && forall q :: Resolve(fs', q) == if q == t then Some(i) else Resolve(fs, q)
  }

  /** Link adds one entry for the source's node. */
  lemma LinkAdds(fs: FS, source: string, target: string)
    requires Inv(fs) && Admissible(fs, OpLink(source, target)) && Answer(fs, OpLink(source, target)) == DONE
    ensures Resolve(fs, Components(source)).Some?
    ensures Adds(fs, After(fs, OpLink(source, target)), Components(target), Resolve(fs, Components(source)).value)
  {
    var s, t, fs' := Components(source), Components(target), After(fs, OpLink(source, target));
    var i := Resolve(fs, s).value;
    ComponentsSpellable(target);
    LinkAnswers(fs, s, t);
    LinkEffect(fs, s, t);
    ResolvedIsShort(fs, s);
    LinkedEntry(fs, t, i);
    FileIsLinkable(fs, s);
    forall q ensures Resolve(fs', q) == if q == t then Some(i) else Resolve(fs, q) {
      LinkedResolves(fs, t, i, q);
    }
  }

  lemma FileIsLinkable(fs: FS, s: Path)
    requires Inv(fs) && Resolve(fs, s).Some? && Resolve(fs, s).value in fs.tab && !IsDir(fs, Resolve(fs, s).value)
    ensures Linkable(fs, Resolve(fs, s).value)
  {
    FileIsLeaf(fs, Resolve(fs, s).value);
  }

  /** Only a node that the target named has one link less. */
  ghost predicate MovedCounts(fs: FS, fs': FS, t: Path) {
    if Resolve(fs, t).Some? then LinkCountsBy(fs, fs', Resolve(fs, t).value, -1)
    else LinkCountsKept(fs, fs')
  }

  /** Rename and Rename3 change two entries, and the count of a replaced node. */
  ghost predicate Moves(fs: FS, fs': FS, s: Path, t: Path) {
    && s != [] && t != [] && ParentOf(fs, s).Some? && ParentOf(fs, t).Some? && Resolve(fs, s).Some?
    && OnlyEntries(fs, fs') && fs'.limit == fs.limit
    && (forall u, m :: Child(fs', u, m) ==
          if u == ParentOf(fs, t).value && m == Last(t) then Resolve(fs, s)
          else if u == ParentOf(fs, s).value && m == Last(s) then None
          else Child(fs, u, m))
    && MovedCounts(fs, fs', t)
    && forall q :: Resolve(fs', q) ==
         if t <= q then Resolve(fs, s + q[|t|..]) else if s <= q then None else Resolve(fs, q)
  }

  lemma MovedLinks(fs: FS, s: Path, t: Path)
    requires t != [] && ParentOf(fs, t).Some? && Resolve(fs, s).Some?
    ensures MovedCounts(fs, Moved(fs, s, t), t)
  {
    var x := Resolve(fs, s).value;
    if Resolve(fs, t).Some? {
      RemovedLinks(fs, t);
    }
    EntriesKeepLinks(Cleared(fs, t), SourceParent(fs, s), SourceName(s), x);
    EntriesKeepLinks(Detached(fs, s, t), Parent(fs, t), Last(t), x);
  }

  lemma RenameMoves(fs: FS, s: Path, t: Path, noreplace: bool)
    requires Inv(fs) && Spellable(t) && s != [] && RenameAnswer(fs, s, t, noreplace) == DONE
    ensures Moves(fs, RenameEntry(fs, s, t, noreplace).0, s, t)
  {
    var fs' := RenameEntry(fs, s, t, noreplace).0;
    RenameAnswers(fs, s, t, noreplace);
    RenameEffect(fs, s, t, noreplace);
    ResolvedIsShort(fs, s);
    ProperEffect(fs, s, t, noreplace);
    RenameKeepsRest(fs, s, t, noreplace);
    MovedLinks(fs, s, t);
    forall u, m ensures Child(fs', u, m) ==
                        if u == ParentOf(fs, t).value && m == Last(t) then Resolve(fs, s)
                        else if u == ParentOf(fs, s).value && m == Last(s) then None
                        else Child(fs, u, m)
    {
      MovedChild(fs, s, t, noreplace, u, m);
    }
    forall q ensures Resolve(fs', q) ==
                     if t <= q then Resolve(fs, s + q[|t|..]) else if s <= q then None else Resolve(fs, q)
    {
      RenameResolves(fs, s, t, noreplace, q);
    }
  }

  lemma RenameEntryMoves(fs: FS, s: Path, t: Path, noreplace: bool)
    requires Inv(fs) && Spellable(t) && s != []
    ensures RenameEntry(fs, s, t, noreplace).1 == DONE ==> Moves(fs, RenameEntry(fs, s, t, noreplace).0, s, t)
  {
    RenameAnswers(fs, s, t, noreplace);
    if RenameAnswer(fs, s, t, noreplace) == DONE {
      RenameMoves(fs, s, t, noreplace);
    }
  }

  lemma RenameStep(fs: FS, source: string, target: string, flags: bv32)
    ensures Step(fs, OpRename(source, target)) == RenameEntry(fs, Components(source), Components(target), false)
    ensures Step(fs, OpRename3(source, target, flags)) == Rename3(fs, Components(source), Components(target), flags)
  {
  }

  /** A Rename or Rename3 of anything but the root moves, when it succeeds. */
  lemma RequestsMove(fs: FS, source: string, target: string, flags: bv32)
    requires Inv(fs) && Components(source) != []
    ensures Step(fs, OpRename(source, target)).1 == DONE ==>
              Moves(fs, Step(fs, OpRename(source, target)).0, Components(source), Components(target))
    ensures Step(fs, OpRename3(source, target, flags)).1 == DONE ==>
              Moves(fs, Step(fs, OpRename3(source, target, flags)).0, Components(source), Components(target))
  {
    ComponentsSpellable(target);
    RenameStep(fs, source, target, flags);
    RenameEntryMoves(fs, Components(source), Components(target), false);
    RenameEntryMoves(fs, Components(source), Components(target), true);
    Rename3Flags(fs, Components(source), Components(target), flags);
  }

  /** The state in which only node `i` differs, and is `inode`. */
  function With(fs: FS, i: Ino, inode: Inode): FS {
    FS(fs.ino, fs.tab[i := inode], fs.limit)
  }

  /** Open raises the open count of the node found and returns its number; without success
      it returns no handle and changes nothing. */
  lemma OpenOpens(fs: FS, p: Path, dir: bool)
    requires WellFormed(fs)
    ensures var (fs', o, fh) := OpenNode(fs, p, dir);
            if OpenAnswer(fs, p, dir) == DONE then
              var i := Resolve(fs, p).value;
              && o == DONE && fh == i && i in fs.tab
              && fs' == With(fs, i, fs.tab[i].(opencnt := fs.tab[i].opencnt + 1))
            else o == OpenAnswer(fs, p, dir) && fh == NO_HANDLE && fs' == fs
  {
    GetNodeMeans(fs, p, NO_HANDLE);
  }

  /** Release lowers the open count of an open handle, and always succeeds on one. */
  lemma ReleaseReleases(fs: FS, fh: nat)
    ensures var (fs', o) := Step(fs, OpRelease(fh));
            if fh in fs.tab && 0 < fs.tab[fh].opencnt
            then o == DONE && fs' == With(fs, fh, fs.tab[fh].(opencnt := fs.tab[fh].opencnt - 1))
            else o == Panic(RuntimeError) && fs' == fs
  {
  }

  /** Chmod stores the permission bits asked for and keeps the kind. */
  lemma ChmodStores(fs: FS, path: string, mode: bv32, fh: nat)
    requires WellFormed(fs) && Reached(fs, Components(path), fh).Some?
    ensures var i, fs' := Reached(fs, Components(path), fh).value, After(fs, OpChmod(path, mode, fh));
            && i in fs.tab && i in fs'.tab && fs' == With(fs, i, fs.tab[i].(mode := fs'.tab[i].mode))
            && fs'.tab[i].mode & 0xFFF == mode & 0xFFF && fs'.tab[i].mode & 0xF000 == fs.tab[i].mode & 0xF000
  {
    var i := Reached(fs, Components(path), fh).value;
    ReachedNode(fs, Components(path), fh);
    ChmodBitsMean(fs.tab[i].mode, mode);
  }

  /** Only the bytes of node `i` differ: there are `size` of them now. */
  ghost predicate OnlyBytes(fs: FS, fs': FS, i: Ino, size: nat) {
    && i in fs.tab && i in fs'.tab && |fs'.tab[i].data| == size
    && fs' == With(fs, i, fs.tab[i].(data := fs'.tab[i].data))
  }

  /** Truncate gives the node reached exactly `size` bytes: those it had, then zeros. */
  lemma TruncateResizes(fs: FS, path: string, size: nat, fh: nat, k: nat)
    requires WellFormed(fs) && Reached(fs, Components(path), fh).Some?
    requires Answer(fs, OpTruncate(path, size, fh)) == DONE
    ensures var i, fs' := Reached(fs, Components(path), fh).value, After(fs, OpTruncate(path, size, fh));
            && OnlyBytes(fs, fs', i, size)
            && Files.ByteAt(fs'.tab[i].data, k) == if k < size then Files.ByteAt(fs.tab[i].data, k) else 0
  {
    ReachedNode(fs, Components(path), fh);
    Files.ResizedBytes(fs.tab[Reached(fs, Components(path), fh).value].data, size, k);
  }

  lemma StoreStores(fs: FS, i: Ino, ofst: nat, buff: Bytes, k: nat)
    requires i in fs.tab && (Fits(fs, ofst + |buff|) || ofst + |buff| <= |fs.tab[i].data|)
    ensures var data, end := fs.tab[i].data, ofst + |buff|;
            var (fs', o) := Store(fs, i, end, |data| < end, Written(data, ofst, buff), |buff|);
            && o == Return(|buff|) && OnlyBytes(fs, fs', i, Files.Max(|data|, end))
            && Files.ByteAt(fs'.tab[i].data, k) == if ofst <= k < end then buff[k - ofst] else Files.ByteAt(data, k)
  {
    Files.WrittenBytes(fs.tab[i].data, ofst, buff, k);
  }

  /** Write stores all its bytes at its offset in the node reached, and returns how many. */
  lemma WriteStores(fs: FS, path: string, buff: Bytes, ofst: nat, fh: nat, k: nat)
    requires WellFormed(fs) && Reached(fs, Components(path), fh).Some?
    requires Holds(fs, path, fh, ofst + |buff|)
    ensures var (fs', o) := Step(fs, OpWrite(path, buff, ofst, fh));
            var i := Reached(fs, Components(path), fh).value;
            && o == Return(|buff|) && i in fs.tab
            && OnlyBytes(fs, fs', i, Files.Max(|fs.tab[i].data|, ofst + |buff|))
            && Files.ByteAt(fs'.tab[i].data, k) ==
               if ofst <= k < ofst + |buff| then buff[k - ofst] else Files.ByteAt(fs.tab[i].data, k)
  {
    var i := Reached(fs, Components(path), fh).value;
    ReachedNode(fs, Components(path), fh);
    StoreStores(fs, i, ofst, buff, k);
  }

  lemma GrowExtends(fs: FS, i: Ino, end: nat, k: nat)
    requires i in fs.tab && (Fits(fs, end) || end <= |fs.tab[i].data|)
    ensures var data := fs.tab[i].data;
            var (fs', o) := Store(fs, i, end, |data| < end, Grown(data, end), 0);
            && o == DONE && OnlyBytes(fs, fs', i, Files.Max(|data|, end))
            && Files.ByteAt(fs'.tab[i].data, k) == Files.ByteAt(data, k)
  {
    Files.ResizedBytes(fs.tab[i].data, end, k);
  }

  lemma FallocateStep(fs: FS, path: string, mode: int, off: nat, length: nat, fh: nat)
    ensures Step(fs, OpFallocate(path, mode, off, length, fh)) ==
            Fallocate(fs, Components(path), mode, off, length, fh)
  {
  }

  lemma FallocateFound(fs: FS, p: Path, off: nat, length: nat, fh: nat, i: Ino)
    requires GetNode(fs, p, fh) == At(i)
    ensures var data, end := fs.tab[i].data, off + length;
            Fallocate(fs, p, 0, off, length, fh) == Store(fs, i, end, |data| < end, Grown(data, end), 0)
  {
  }

  /** Fallocate extends the node reached with zeros up to the end asked for, and never cuts it. */
  lemma FallocateExtends(fs: FS, path: string, off: nat, length: nat, fh: nat, k: nat)
    requires WellFormed(fs) && Reached(fs, Components(path), fh).Some?
    requires Holds(fs, path, fh, off + length)
    ensures var (fs', o) := Step(fs, OpFallocate(path, 0, off, length, fh));
            var i := Reached(fs, Components(path), fh).value;
            && o == DONE && i in fs.tab
            && OnlyBytes(fs, fs', i, Files.Max(|fs.tab[i].data|, off + length))
            && Files.ByteAt(fs'.tab[i].data, k) == Files.ByteAt(fs.tab[i].data, k)
  {
    var p := Components(path);
    ReachedNode(fs, p, fh);
    var i, end := Reached(fs, p, fh).value, off + length;
    FallocateStep(fs, path, 0, off, length, fh);
    FallocateFound(fs, p, off, length, fh, i);
    GrowExtends(fs, i, end, k);
  }

  /** And it refuses every mode but zero, without effect. */
  lemma FallocateRefuses(fs: FS, path: string, mode: int, off: nat, length: nat, fh: nat)
    requires WellFormed(fs) && Reached(fs, Components(path), fh).Some? && mode != 0
    ensures Step(fs, OpFallocate(path, mode, off, length, fh)) == (fs, Return(-ENOSYS))
  {
    ReachedNode(fs, Components(path), fh);
  }

  lemma SetxattrDone(fs: FS, p: Path, name: Bytes, value: Bytes, flags: int, i: Ino)
    requires NodeAt(fs, p) == At(i) && Setxattr(fs, p, name, value, flags).1 == DONE
    ensures Setxattr(fs, p, name, value, flags).0 == With(fs, i, fs.tab[i].(xatr := fs.tab[i].xatr[name := value]))
  {
  }

  lemma RemovexattrDone(fs: FS, p: Path, name: Bytes, i: Ino)
    requires NodeAt(fs, p) == At(i) && Removexattr(fs, p, name).1 == DONE
    ensures Removexattr(fs, p, name).0 == With(fs, i, fs.tab[i].(xatr := fs.tab[i].xatr - {name}))
  {
  }

  /** Setxattr sets one attribute of the node the path resolves to ... */
  lemma SetxattrSets(fs: FS, path: string, name: Bytes, value: Bytes, flags: int, i: Ino)
    requires WellFormed(fs) && Resolve(fs, Components(path)) == Some(i)
    requires SetxattrAnswer(fs, Components(path), name, flags) == DONE
    ensures i in fs.tab
    ensures After(fs, OpSetxattr(path, name, value, flags)) ==
            With(fs, i, fs.tab[i].(xatr := fs.tab[i].xatr[name := value]))
  {
    var p := Components(path);
    ResolvedNode(fs, p);
    assert Setxattr(fs, p, name, value, flags).1 == DONE by {
      AttributeAnswers(fs, p, name, value, flags);
    }
    SetxattrDone(fs, p, name, value, flags, i);
    SetxattrStep(fs, path, name, value, flags);
  }

  lemma SetxattrStep(fs: FS, path: string, name: Bytes, value: Bytes, flags: int)
    ensures Step(fs, OpSetxattr(path, name, value, flags)) == Setxattr(fs, Components(path), name, value, flags)
    ensures Step(fs, OpRemovexattr(path, name)) == Removexattr(fs, Components(path), name)
  {
  }

  /** ... and Removexattr drops it. */
  lemma RemovexattrDrops(fs: FS, path: string, name: Bytes, i: Ino)
    requires WellFormed(fs) && Resolve(fs, Components(path)) == Some(i)
    requires GetxattrAnswer(fs, Components(path), name) == DONE
    ensures i in fs.tab
    ensures After(fs, OpRemovexattr(path, name)) == With(fs, i, fs.tab[i].(xatr := fs.tab[i].xatr - {name}))
  {
    var p := Components(path);
    ResolvedNode(fs, p);
    assert Removexattr(fs, p, name).1 == DONE by {
      AttributeAnswers(fs, p, name, [], 0);
    }
    RemovexattrDone(fs, p, name, i);
    SetxattrStep(fs, path, name, [], 0);
  }

  // ------------------------------------------------------------ what is only read

  /** Getattr tells of the node reached: with a handle the open node, without one the node
      the path resolves to. */
  lemma GetattrTells(fs: FS, p: Path, fh: nat)
    requires WellFormed(fs)
    ensures var (o, stat) := Getattr(fs, p, fh);
            match Reached(fs, p, fh)
            case None => o == Unreached(fs, p, fh) && stat == None
            case Some(i) =>
              && o == DONE && stat.Some? && i in fs.tab && stat.value.ino == i && stat.value.mode == fs.tab[i].mode
              && stat.value.nlink == fs.tab[i].nlink && stat.value.size == |fs.tab[i].data|
  {
    GetNodeMeans(fs, p, fh);
  }

  /** Read returns the bytes of the node reached between the offset and the end. */
  lemma ReadTells(fs: FS, p: Path, n: nat, ofst: nat, fh: nat)
    requires WellFormed(fs)
    ensures var (o, bytes) := Read(fs, p, n, ofst, fh);
            match Reached(fs, p, fh)
            case None => o == Unreached(fs, p, fh) && bytes == []
            case Some(i) =>
              && i in fs.tab && o == Return(|bytes|)
              && |bytes| == Files.Max(0, Files.Min(n, |fs.tab[i].data| - ofst))
              && forall k: nat :: k < |bytes| ==> bytes[k] == Files.ByteAt(fs.tab[i].data, ofst + k)
  {
    GetNodeMeans(fs, p, fh);
    if Reached(fs, p, fh).Some? {
      Files.WindowBytes(fs.tab[Reached(fs, p, fh).value].data, ofst, n);
    }
  }

  /** Readlink returns the bytes of a link, and EINVAL for any other kind of node. */
  lemma ReadlinkTells(fs: FS, p: Path)
    requires WellFormed(fs)
    ensures var (o, target) := Readlink(fs, p);
            match Resolve(fs, p)
            case None => o == Unreached(fs, p, NO_HANDLE) && target == []
            case Some(i) =>
              && i in fs.tab
              && if fs.tab[i].mode & 0xF000 == 0xA000 then o == DONE && target == fs.tab[i].data
                 else o == Return(-EINVAL) && target == []
  {
    GetNodeMeans(fs, p, NO_HANDLE);
  }

  /** Getxattr returns the value of a present name. */
  lemma GetxattrTells(fs: FS, p: Path, name: Bytes)
    requires WellFormed(fs)
    ensures var (o, value) := Getxattr(fs, p, name);
            && o == GetxattrAnswer(fs, p, name)
            && (if o != DONE then value == []
                else Resolve(fs, p).Some? && Resolve(fs, p).value in fs.tab &&
                     name in fs.tab[Resolve(fs, p).value].xatr && value == fs.tab[Resolve(fs, p).value].xatr[name])
  {
    GetNodeMeans(fs, p, NO_HANDLE);
    if Resolve(fs, p).Some? {
      ResolvedIsShort(fs, p);
    }
  }

  /** The file system that NewMemfs makes is one empty directory, open to all. */
  lemma InitialIsEmpty(limit: nat, p: Path)
    ensures var fs := Initial(limit);
            && fs.tab == map[1 := Inode(0x41FF, 1, map[], map[], [], 0)] && fs.ino == 1 && fs.limit == limit
            && IsDir(fs, ROOT) && (Resolve(fs, p).Some? <==> p == [])
  {
    var fs := Initial(limit);
    if p != [] {
      LeafWalk(fs, ROOT, p);
    }
  }
}
