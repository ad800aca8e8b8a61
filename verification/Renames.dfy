/** Rename: when it goes through, what it does to every path, and when the table stays a tree. */
module Renames {
  import opened Fuse
  import opened Inodes
  import opened Paths
  import opened Operations
  import opened Lookups
  import opened Namespace

  /** Both lookups of a rename return; the source exists. */
  ghost predicate BothFound(fs: FS, source: Path, target: Path) {
    && Lookup(fs, source, None).Found? && Resolve(fs, source).Some?
    && Lookup(fs, target, Resolve(fs, source)).Found?
  }

  /** The target is the root, or leads to or through the node to be moved. */
  ghost predicate Guarded(fs: FS, source: Path, target: Path)
    requires Resolve(fs, source).Some?
  {
    target == [] || Touches(fs, target, Resolve(fs, source).value)
  }

  /** The rename reaches its two final map updates. */
  ghost predicate Goes(fs: FS, source: Path, target: Path, noreplace: bool) {
    && BothFound(fs, source, target) && !Guarded(fs, source, target)
    && Resolve(fs, DropLast(target)).Some?
    && (Resolve(fs, target).None? ||
        (!noreplace && Removable(fs, target, IsDir(fs, Resolve(fs, source).value))))
  }

  /** The state in which the final map updates start. */
  ghost function Cleared(fs: FS, target: Path): FS {
    if target == [] || Resolve(fs, target).None? then fs else Removed(fs, target)
  }

  ghost function SourceParent(fs: FS, source: Path): Ino {
    if source == [] || Resolve(fs, DropLast(source)).None? then ROOT else Resolve(fs, DropLast(source)).value
  }

  ghost function SourceName(source: Path): Name {
    if source == [] then "" else Last(source)
  }

  lemma RenameLookups(fs: FS, source: Path, target: Path)
    requires WellFormed(fs) && Spellable(target) && BothFound(fs, source, target)
    ensures Lookup(fs, source, None) ==
            Found(Some(SourceParent(fs, source)), SourceName(source), Resolve(fs, source))
    ensures var l := Lookup(fs, target, Resolve(fs, source));
            && (l.prnt.Some? ==> (l.name == "" <==> Guarded(fs, source, target)))
            && (Guarded(fs, source, target) ==> l.prnt.Some?)
            && (!Guarded(fs, source, target) ==> Plain(fs, target, l))
  {
    LookupMeans(fs, source);
    GuardedLookupMeans(fs, target, Resolve(fs, source).value);
    if source != [] {
      assert Resolve(fs, DropLast(source)).Some?;
    }
  }

  /** The branch that would report success for renaming an entry to itself is never taken:
      a target that names the source's own entry has met the ancestor guard before. */
  lemma SameEntryIsGuarded(fs: FS, source: Path, target: Path)
    requires BothFound(fs, source, target) && !Guarded(fs, source, target)
    requires Resolve(fs, DropLast(target)).Some? && Last(target) != ""
    ensures !(Resolve(fs, DropLast(target)) == Some(SourceParent(fs, source)) &&
              Last(target) == SourceName(source))
  {
    assert target[..|target|] == target;
    assert Resolve(fs, target) != Resolve(fs, source);
  }

  /** A rename goes through to its two map updates, or fails and changes nothing; it
      answers EINVAL exactly for a guarded target. */
  lemma RenameEffect(fs: FS, source: Path, target: Path, noreplace: bool)
    requires WellFormed(fs) && Spellable(target)
    ensures var (fs', r) := RenameEntry(fs, source, target, noreplace);
            if Goes(fs, source, target, noreplace) then
              (fs', r) == MoveEntry(Cleared(fs, target), SourceParent(fs, source), SourceName(source),
                                    Parent(fs, target), Last(target), Resolve(fs, source).value)
            else fs' == fs && r.Failed()
    ensures RenameEntry(fs, source, target, noreplace).1 == Err(EINVAL) <==>
            BothFound(fs, source, target) && Guarded(fs, source, target)
  {
    LookupMeans(fs, source);
    if BothFound(fs, source, target) {
      RenameLookups(fs, source, target);
      if !Guarded(fs, source, target) && Resolve(fs, DropLast(target)).Some? {
        SameEntryIsGuarded(fs, source, target);
        RemoveNodeEffect(fs, target, IsDir(fs, Resolve(fs, source).value));
      }
    }
  }

  /** Renaming a node to its own name, or to another hard link of it, is refused with
      EINVAL; POSIX rename() asks for success with nothing done. */
  lemma RenameOntoItselfIsRefused(fs: FS, source: Path, target: Path, noreplace: bool)
    requires WellFormed(fs) && Spellable(target)
    requires Resolve(fs, source).Some? && Resolve(fs, target) == Resolve(fs, source)
    ensures RenameEntry(fs, source, target, noreplace) == (fs, Err(EINVAL))
  {
    ResolvedLookup(fs, source);
    ResolvedNamesGood(fs, target);
    GuardedLookupMeans(fs, target, Resolve(fs, source).value);
    assert target[..|target|] == target;
    assert Guarded(fs, source, target);
    RenameEffect(fs, source, target, noreplace);
  }

  // ------------------------------------------------- a rename that goes through

  /** The situation the kernel asks for: the source is not the root, and the target's
      parent is a directory. */
  ghost predicate Proper(fs: FS, source: Path, target: Path, noreplace: bool) {
    && Goes(fs, source, target, noreplace)
    && source != [] && IsDir(fs, Parent(fs, target))
  }

  ghost function Detached(fs: FS, source: Path, target: Path): FS {
    DelEntry(Cleared(fs, target), SourceParent(fs, source), SourceName(source))
  }

  ghost function Moved(fs: FS, source: Path, target: Path): FS
    requires target != [] && Resolve(fs, DropLast(target)).Some? && Resolve(fs, source).Some?
  {
    AddEntry(Detached(fs, source, target), Parent(fs, target), Last(target), Resolve(fs, source).value)
  }

  lemma ProperEffect(fs: FS, source: Path, target: Path, noreplace: bool)
    requires WellFormed(fs) && Spellable(target) && Proper(fs, source, target, noreplace)
    ensures RenameEntry(fs, source, target, noreplace) == (Moved(fs, source, target), Return(0))
  {
    RenameEffect(fs, source, target, noreplace);
  }

  /** The new parent lies outside the moved subtree, and the moved node outside the
      replaced one: neither path is a prefix of the other. */
  lemma PathsApart(fs: FS, source: Path, target: Path, noreplace: bool)
    requires Tree(fs) && Proper(fs, source, target, noreplace)
    ensures !(source <= target) && !(target <= source)
  {
    assert |source| <= |target| ==> target[..|source|] != source;
    if target <= source {
      assert source[..|source|] == source && source[..|target|] == target;
      ResolveShrinks(fs, source, |target|, |source|);
      var r := source[|target|..];
      assert source == target + r;
      WalkAppend(fs, ROOT, target, r);
      LeafWalk(fs, Resolve(fs, target).value, r);
    }
  }

  lemma ClearedResolves(fs: FS, target: Path, q: Path)
    requires Forest(fs) && target != []
    ensures Resolve(Cleared(fs, target), q) == if target <= q then None else Resolve(fs, q)
  {
    if Resolve(fs, target).Some? {
      RemovedResolves(fs, target, q);
    } else if target <= q {
      assert q[..|q|] == q && q[..|target|] == target;
      ResolveShrinks(fs, q, |target|, |q|);
    }
  }

  lemma ClearedKeepsInv(fs: FS, source: Path, target: Path, noreplace: bool)
    requires Inv(fs) && Proper(fs, source, target, noreplace)
    ensures Inv(Cleared(fs, target))
  {
    if Resolve(fs, target).Some? {
      RemovedKeepsInv(fs, target, IsDir(fs, Resolve(fs, source).value));
    }
  }

  lemma ClearedSame(fs: FS, target: Path)
    ensures Cleared(fs, target).tab.Keys == fs.tab.Keys && Cleared(fs, target).ino == fs.ino
    ensures forall i :: IsDir(Cleared(fs, target), i) == IsDir(fs, i)
  {
  }

  lemma DetachedResolves(fs: FS, source: Path, target: Path, noreplace: bool, q: Path)
    requires Inv(fs) && Proper(fs, source, target, noreplace)
    ensures Forest(Detached(fs, source, target))
    ensures Resolve(Detached(fs, source, target), q) ==
            if source <= q || target <= q then None else Resolve(fs, q)
  {
    var base := Cleared(fs, target);
    ClearedKeepsInv(fs, source, target, noreplace);
    PathsApart(fs, source, target, noreplace);
    PrefixOfDropLast(target, source);
    ClearedResolves(fs, target, source);
    ClearedResolves(fs, target, DropLast(source));
    ClearedResolves(fs, target, q);
    ResolveAfterDel(base, source, q);
    DelKeepsForest(base, SourceParent(fs, source), Last(source));
  }

  /** An entry other than the two that a rename touches is as before. */
  lemma MovedChild(fs: FS, source: Path, target: Path, noreplace: bool, u: Ino, n: Name)
    requires WellFormed(fs) && Proper(fs, source, target, noreplace)
    ensures Child(Moved(fs, source, target), u, n) ==
            if u == Parent(fs, target) && n == Last(target) then Resolve(fs, source)
            else if u == SourceParent(fs, source) && n == Last(source) then None
            else Child(fs, u, n)
  {
    var i := if Resolve(fs, target).Some? then Resolve(fs, target).value else ROOT;
    var fs1 := SetLinks(fs, i, Dec32(Links(fs, i)));
    assert Child(fs1, u, n) == Child(fs, u, n);
    assert Child(Cleared(fs, target), u, n) ==
           if Resolve(fs, target).Some? && u == Parent(fs, target) && n == Last(target) then None else Child(fs, u, n);
    ChildAfterDel(Cleared(fs, target), SourceParent(fs, source), Last(source));
    ChildAfterAdd(Detached(fs, source, target), Parent(fs, target), Last(target), Resolve(fs, source).value);
  }

  /** Below the moved node every path leads where it led before. */
  lemma {:induction false} SubtreeMoves(fs: FS, source: Path, target: Path, noreplace: bool, r: Path)
    requires Inv(fs) && Proper(fs, source, target, noreplace)
    ensures Walk(Moved(fs, source, target), Resolve(fs, source).value, r) ==
            Walk(fs, Resolve(fs, source).value, r)
    decreases |r|
  {
    if r != [] {
      var x := Resolve(fs, source).value;
      SubtreeMoves(fs, source, target, noreplace, DropLast(r));
      var u := Walk(fs, x, DropLast(r));
      if u.Some? {
        MovedChild(fs, source, target, noreplace, u.value, Last(r));
        NotInSubtree(fs, source, target, noreplace, DropLast(r));
      }
    }
  }

  lemma NotInSubtree(fs: FS, source: Path, target: Path, noreplace: bool, r: Path)
    requires Tree(fs) && Proper(fs, source, target, noreplace)
    ensures Walk(fs, Resolve(fs, source).value, r) != Some(Parent(fs, target))
    ensures Walk(fs, Resolve(fs, source).value, r) != Some(SourceParent(fs, source))
  {
    WalkAppend(fs, ROOT, source, r);
    WalkInTable(fs, ROOT, source);
    PathsApart(fs, source, target, noreplace);
    if Resolve(fs, source + r) == Some(Parent(fs, target)) {
      DirectoryPathUnique(fs, source + r, DropLast(target));
      PrefixOfDropLast(source, target);
    }
    if Resolve(fs, source + r) == Some(SourceParent(fs, source)) {
      ResolvedHasEntry(fs, source);
      DirectoryPathUnique(fs, source + r, DropLast(source));
    }
  }

  /** What a rename does to every path: paths below the target lead where the paths
      below the source led, paths below the source lead nowhere, all others are as before. */
  lemma RenameResolves(fs: FS, source: Path, target: Path, noreplace: bool, q: Path)
    requires Inv(fs) && Spellable(target) && Proper(fs, source, target, noreplace)
    ensures Resolve(RenameEntry(fs, source, target, noreplace).0, q) ==
            if target <= q then Resolve(fs, source + q[|target|..])
            else if source <= q then None
            else Resolve(fs, q)
  {
    ProperEffect(fs, source, target, noreplace);
    MovedResolves(fs, source, target, noreplace, q);
  }

  lemma MovedResolves(fs: FS, source: Path, target: Path, noreplace: bool, q: Path)
    requires Inv(fs) && Proper(fs, source, target, noreplace)
    ensures Resolve(Moved(fs, source, target), q) ==
            if target <= q then Resolve(fs, source + q[|target|..])
            else if source <= q then None
            else Resolve(fs, q)
  {
    var fs2, x := Detached(fs, source, target), Resolve(fs, source).value;
    PathsApart(fs, source, target, noreplace);
    PrefixOfDropLast(source, target);
    DetachedResolves(fs, source, target, noreplace, q);
    DetachedResolves(fs, source, target, noreplace, DropLast(target));
    ClearedSame(fs, target);
    assert IsDir(fs2, Parent(fs, target));
    ResolveAfterAdd(fs2, target, x, q);
    if target <= q {
      SubtreeMoves(fs, source, target, noreplace, q[|target|..]);
      WalkAppend(fs, ROOT, source, q[|target|..]);
    }
  }

  // ------------------------------------------------------- the table stays a tree

  lemma MovedKeepsForest(fs: FS, source: Path, target: Path, noreplace: bool)
    requires Inv(fs) && Spellable(target) && Proper(fs, source, target, noreplace)
    ensures Forest(Moved(fs, source, target))
  {
    var base, fs2 := Cleared(fs, target), Detached(fs, source, target);
    var d, n, x := Parent(fs, target), Last(target), Resolve(fs, source).value;
    ResolvedHasEntry(fs, source);
    WalkInTable(fs, ROOT, source);
    ClearedKeepsInv(fs, source, target, noreplace);
    ClearedSame(fs, target);
    PathsApart(fs, source, target, noreplace);
    ClearedResolves(fs, target, source);
    PrefixOfDropLast(target, source);
    ClearedResolves(fs, target, DropLast(source));
    assert Child(base, SourceParent(fs, source), Last(source)) == Some(x);
    EntriesAfterDel(base, SourceParent(fs, source), Last(source), x);
    DetachedResolves(fs, source, target, noreplace, target);
    PrefixOfDropLast(source, target);
    DetachedResolves(fs, source, target, noreplace, DropLast(target));
    assert IsDir(fs2, d) && (IsDir(fs2, x) ==> |Entries(fs2, x)| == 0);
    TargetNameGood(fs, source, target, noreplace);
    AddKeepsForest(fs2, d, n, x);
  }

  lemma TargetNameGood(fs: FS, source: Path, target: Path, noreplace: bool)
    requires WellFormed(fs) && Spellable(target) && Goes(fs, source, target, noreplace)
    ensures GoodName(Last(target))
  {
    GuardedLookupMeans(fs, target, Resolve(fs, source).value);
    var k := |target| - 1;
    if k > 0 {
      ResolveShrinks(fs, target, k - 1, k);
    }
    assert !Overlong(fs, target, Resolve(fs, source), k);
  }

  lemma MovedKeepsOrphansEmpty(fs: FS, source: Path, target: Path, noreplace: bool)
    requires Inv(fs) && Proper(fs, source, target, noreplace)
    ensures OrphansEmpty(Moved(fs, source, target))
  {
    var fs' := Moved(fs, source, target);
    forall j | j in fs'.tab && fs'.tab[j].chld.Keys != {} ensures Reachable(fs', j) {
      var q := NewPathTo(fs, source, target, noreplace, j);
      assert Resolve(fs', q) == Some(j);
    }
  }

  /** A node that has children after the rename is reached by its old path, or by the
      target followed by the rest of its old path below the source. */
  lemma NewPathTo(fs: FS, source: Path, target: Path, noreplace: bool, j: Ino) returns (q: Path)
    requires Inv(fs) && Proper(fs, source, target, noreplace)
    requires j in Moved(fs, source, target).tab && Moved(fs, source, target).tab[j].chld.Keys != {}
    ensures Resolve(Moved(fs, source, target), q) == Some(j)
  {
    PathsApart(fs, source, target, noreplace);
    if j == Parent(fs, target) {
      q := DropLast(target);
      PrefixOfDropLast(source, target);
      MovedResolves(fs, source, target, noreplace, q);
    } else {
      var n :| n in Moved(fs, source, target).tab[j].chld;
      MovedChild(fs, source, target, noreplace, j, n);
      assert Child(fs, j, n).Some? && Reachable(fs, j);
      var p :| Resolve(fs, p) == Some(j);
      if source <= p {
        assert p == source + p[|source|..];
        q := target + p[|source|..];
        assert q[|target|..] == p[|source|..];
      } else {
        q := p;
        ReplacedHasNothingBelow(fs, source, target, noreplace, p, n);
      }
      MovedResolves(fs, source, target, noreplace, q);
    }
  }

  lemma ReplacedHasNothingBelow(fs: FS, source: Path, target: Path, noreplace: bool, p: Path, n: Name)
    requires Proper(fs, source, target, noreplace)
    requires Resolve(fs, p).Some? && Child(fs, Resolve(fs, p).value, n).Some?
    ensures !(target <= p)
  {
    if target <= p {
      assert p[..|p|] == p && p[..|target|] == target;
      ResolveShrinks(fs, p, |target|, |p|);
      var r := p[|target|..] + [n];
      assert target + r == p + [n] && DropLast(p + [n]) == p;
      WalkAppend(fs, ROOT, target, r);
      LeafWalk(fs, Resolve(fs, target).value, r);
    }
  }

  lemma MovedKeepsCount(fs: FS, source: Path, target: Path, noreplace: bool, j: Ino)
    requires Inv(fs) && Proper(fs, source, target, noreplace) && j in fs.tab && j != ROOT
    ensures Counted(Moved(fs, source, target), j)
  {
    var base, fs2, x := Cleared(fs, target), Detached(fs, source, target), Resolve(fs, source).value;
    ClearedKeepsInv(fs, source, target, noreplace);
    assert Counted(base, j);
    PathsApart(fs, source, target, noreplace);
    ClearedResolves(fs, target, source);
    PrefixOfDropLast(target, source);
    ClearedResolves(fs, target, DropLast(source));
    EntriesAfterDel(base, SourceParent(fs, source), Last(source), j);
    DetachedResolves(fs, source, target, noreplace, target);
    PrefixOfDropLast(source, target);
    DetachedResolves(fs, source, target, noreplace, DropLast(target));
    EntriesAfterAdd(fs2, Parent(fs, target), Last(target), x, j);
  }

  lemma ProperKeepsInv(fs: FS, source: Path, target: Path, noreplace: bool)
    requires Inv(fs) && Spellable(target) && Proper(fs, source, target, noreplace)
    ensures Inv(RenameEntry(fs, source, target, noreplace).0)
  {
    ProperEffect(fs, source, target, noreplace);
    MovedKeepsForest(fs, source, target, noreplace);
    MovedKeepsOrphansEmpty(fs, source, target, noreplace);
    forall j | j in fs.tab && j != ROOT ensures Counted(Moved(fs, source, target), j) {
      MovedKeepsCount(fs, source, target, noreplace, j);
    }
  }

  /** What rename may be asked for: not to move the root into a directory, and not to
      move anything else under something that is not a directory. */
  ghost predicate RenameAllowed(fs: FS, source: Path, target: Path)
    requires target != [] && Resolve(fs, DropLast(target)).Some?
  {
    (source == []) != IsDir(fs, Parent(fs, target))
  }

  /** Rename keeps the invariant exactly for the requests it may be asked. */
  lemma RenameKeepsInvExactly(fs: FS, source: Path, target: Path, noreplace: bool)
    requires Inv(fs) && Spellable(target)
    ensures Inv(RenameEntry(fs, source, target, noreplace).0) <==>
            (Goes(fs, source, target, noreplace) ==> RenameAllowed(fs, source, target))
  {
    RenameEffect(fs, source, target, noreplace);
    if Goes(fs, source, target, noreplace) {
      if source == [] {
        MovingTheRoot(fs, source, target, noreplace);
      } else if IsDir(fs, Parent(fs, target)) {
        ProperKeepsInv(fs, source, target, noreplace);
      } else {
        MovingUnderAFile(fs, source, target, noreplace);
      }
    }
  }

  lemma NothingUnderAFile(fs: FS, source: Path, target: Path, noreplace: bool)
    requires WellFormed(fs) && Goes(fs, source, target, noreplace) && !IsDir(fs, Parent(fs, target))
    ensures Cleared(fs, target) == fs
  {
    assert Child(fs, Parent(fs, target), Last(target)).None?;
  }

  lemma MovingTheRoot(fs: FS, source: Path, target: Path, noreplace: bool)
    requires Inv(fs) && Spellable(target) && Goes(fs, source, target, noreplace) && source == []
    ensures Inv(RenameEntry(fs, source, target, noreplace).0) <==> !IsDir(fs, Parent(fs, target))
  {
    RenameEffect(fs, source, target, noreplace);
    var base, d, n := Cleared(fs, target), Parent(fs, target), Last(target);
    ClearedSame(fs, target);
    if IsDir(fs, d) {
      var fs' := AddEntry(DelEntry(base, ROOT, ""), d, n, ROOT);
      ChildAfterAdd(DelEntry(base, ROOT, ""), d, n, ROOT);
      assert (d, n) in Entries(fs', ROOT);
    } else {
      NothingUnderAFile(fs, source, target, noreplace);
      assert Child(fs, ROOT, "").None?;
      assert fs.tab[ROOT].chld - {""} == fs.tab[ROOT].chld;
      assert DelEntry(fs, ROOT, "") == fs;
    }
  }

  lemma OneLessDiffers(n: nat)
    requires 0 < n
    ensures (n - 1) % TWO_32 != n % TWO_32
  {
  }

  lemma MovingUnderAFile(fs: FS, source: Path, target: Path, noreplace: bool)
    requires Inv(fs) && Spellable(target) && Goes(fs, source, target, noreplace)
    requires source != [] && !IsDir(fs, Parent(fs, target))
    ensures RenameEntry(fs, source, target, noreplace).1 == Panic(RuntimeError)
    ensures !Inv(RenameEntry(fs, source, target, noreplace).0)
  {
    RenameEffect(fs, source, target, noreplace);
    NothingUnderAFile(fs, source, target, noreplace);
    ResolvedHasEntry(fs, source);
    WalkInTable(fs, ROOT, source);
    var x := Resolve(fs, source).value;
    var fs' := DelEntry(fs, SourceParent(fs, source), Last(source));
    EntriesAfterDel(fs, SourceParent(fs, source), Last(source), x);
    assert Counted(fs, x);
    assert !Counted(fs', x) by {
      OneLessDiffers(|Entries(fs, x)|);
    }
  }
}
