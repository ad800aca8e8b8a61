/** The numbers that the FUSE library receives, said by what paths lead to. */
module HostNumbers {
  import opened Fuse
  import opened Inodes
  import opened Paths
  import opened Operations
  import opened Lookups
  import opened Namespace
  import opened Answers
  import opened Dispatch

  /** The number that hostReadlink returns. */
  lemma ReadlinkNumbers(fs: FS, p: Path, errc: int)
    requires WellFormed(fs) && Reports(errc, Readlink(fs, p).0)
    ensures errc == match Resolve(fs, p)
                    case None => if Overreads(fs, p) then -ENAMETOOLONG else -ENOENT
                    case Some(i) => if i in fs.tab && fs.tab[i].mode & 0xF000 == 0xA000 then 0 else -EINVAL
  {
    ReadlinkTells(fs, p);
  }

  /** The numbers that hostSetxattr returns, and hostGetxattr where it fails. */
  lemma AttributeNumbers(fs: FS, p: Path, name: Bytes, value: Bytes, flags: int, errc: int, nbyt: int)
    requires WellFormed(fs)
    requires Reports(errc, Setxattr(fs, p, name, value, flags).1) && Reports(nbyt, Getxattr(fs, p, name).0)
    ensures var i := Resolve(fs, p);
            var missing := if Overreads(fs, p) then -ENAMETOOLONG else -ENOENT;
            var present := i.Some? && i.value in fs.tab && name in fs.tab[i.value].xatr;
            && errc == (if i.None? then missing
                        else if name == RESOURCE_FORK then -ENOTSUP
                        else if present && flags == 1 then -EEXIST
                        else if !present && flags == 2 then -ENOATTR
                        else 0)
            && nbyt == (if i.None? then missing
                        else if name == RESOURCE_FORK then -ENOTSUP
                        else if present then 0
                        else -ENOATTR)
  {
    AttributeAnswers(fs, p, name, value, flags);
  }

  /** Create answers what making an empty node answers: the Open that follows succeeds. */
  lemma CreateAnswers(fs: FS, p: Path, mode: bv32)
    requires Inv(fs) && Spellable(p)
    ensures Create(fs, p, mode).1 == MakeAnswer(fs, p, 0)
  {
    CreateEffect(fs, p, mode);
    MakeAnswers(fs, p, CreateMode(mode), []);
    if MakeAnswer(fs, p, 0) == DONE {
      MadeOpens(fs, p, CreateMode(mode));
    }
  }

  lemma MadeOpens(fs: FS, p: Path, mode: bv32)
    requires Inv(fs) && Spellable(p) && MakeAnswer(fs, p, 0) == DONE && !IsDirMode(mode)
    ensures OpenNode(MakeNode(fs, p, mode, []).0, p, false).1 == DONE
  {
    var fs1 := MakeNode(fs, p, mode, []).0;
    MakeMakes(fs, p, mode, []);
    MakeNodeKeepsInv(fs, p, mode, []);
    OpenAnswers(fs1, p, false);
  }

  /** The number that hostCreate returns, by what the path resolves to. */
  lemma CreateNumbers(fs: FS, p: Path, mode: bv32, errc: int)
    requires Inv(fs) && Spellable(p) && Reports(errc, Create(fs, p, mode).1)
    ensures errc == if Resolve(fs, p).Some? then -EEXIST
                    else if Overreads(fs, p) then -ENAMETOOLONG
                    else if ParentOf(fs, p).None? then -ENOENT
                    else if IsDir(fs, ParentOf(fs, p).value) then 0
                    else -EIO
  {
    CreateAnswers(fs, p, mode);
  }

  /** The number that hostRename returns, with Rename3 or without it: EINVAL exactly for a
      flag that is not known or a target that is the root or leads to or through the source,
      EIO exactly when a name would go under something that is no directory, and zero
      exactly for a rename that is done. */
  lemma RenameNumbers(fs: FS, s: Path, t: Path, flags: bv32, rename3: bool, errc: int)
    requires WellFormed(fs) && Spellable(t)
    requires Reports(errc, if rename3 then Rename3(fs, s, t, flags).1
                           else if flags != 0 then Err(EINVAL) else Rename(fs, s, t).1)
    ensures var bad := flags != 0 && !(rename3 && flags == 1);
            var answer := RenameAnswer(fs, s, t, flags == 1);
            && (bad ==> errc == -EINVAL)
            && (!bad ==> Reports(errc, answer))
            && (errc == -EINVAL <==> bad || (Resolve(fs, s).Some? && (t == [] || Touches(fs, t, Resolve(fs, s).value))))
            && (errc == -EIO <==> !bad && answer == Panic(RuntimeError))
            && (Resolve(fs, s).None? && !bad ==> errc == if Overreads(fs, s) then -ENAMETOOLONG else -ENOENT)
  {
    Rename3Flags(fs, s, t, flags);
    RenameAnswers(fs, s, t, false);
    RenameAnswers(fs, s, t, true);
  }
}
