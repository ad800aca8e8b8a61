/** Creating, linking and removing: what each does to every path, and that each keeps
    the invariant of the inode table. */
module Namespace {
  import opened Fuse
  import opened Inodes
  import opened Paths
  import opened Operations
  import opened Lookups

  // ------------------------------------------------ one entry more or one less

  lemma AddKeepsForest(fs: FS, d: Ino, n: Name, i: Ino)
    requires Forest(fs) && IsDir(fs, d) && GoodName(n) && Child(fs, d, n).None?
    requires i in fs.tab && i != ROOT
    requires IsDir(fs, i) ==> Entries(fs, i) == {}
    ensures Forest(AddEntry(fs, d, n, i))
  {
    var fs' := AddEntry(fs, d, n, i);
    ChildAfterAdd(fs, d, n, i);
    forall j ensures IsDir(fs', j) == IsDir(fs, j) {}
    forall j | IsDir(fs', j) ensures |Entries(fs', j)| <= 1 {
      EntriesAfterAdd(fs, d, n, i, j);
    }
    EntriesAfterAdd(fs, d, n, i, ROOT);
  }

  lemma DelKeepsForest(fs: FS, d: Ino, n: Name)
    requires Forest(fs) && Child(fs, d, n).Some?
    ensures Forest(DelEntry(fs, d, n))
  {
    var fs' := DelEntry(fs, d, n);
    ChildAfterDel(fs, d, n);
    forall j ensures IsDir(fs', j) == IsDir(fs, j) {}
    forall j | IsDir(fs', j) ensures |Entries(fs', j)| <= 1 {
      EntriesAfterDel(fs, d, n, j);
    }
    EntriesAfterDel(fs, d, n, ROOT);
  }

  /** Same nodes, same kinds, same entries: everything but bytes, permissions,
      attributes, open counts and link counts. */
  ghost predicate SameShape(fs: FS, fs': FS) {
    && fs'.ino == fs.ino
    && fs'.tab.Keys == fs.tab.Keys
    && forall i :: i in fs.tab ==>
         fs'.tab[i].chld == fs.tab[i].chld && IsDirMode(fs'.tab[i].mode) == IsDirMode(fs.tab[i].mode)
  }

  lemma SameShapeKeepsForest(fs: FS, fs': FS)
    requires Forest(fs) && SameShape(fs, fs')
    ensures SameEntries(fs, fs') && Forest(fs')
  {
    assert SameEntries(fs, fs');
    forall j ensures IsDir(fs', j) == IsDir(fs, j) {}
    forall j ensures Entries(fs', j) == Entries(fs, j) {
      EntriesSame(fs, fs', j);
    }
  }

  lemma SetLinksSameShape(fs: FS, i: Ino, n: nat)
    ensures SameShape(fs, SetLinks(fs, i, n))
  {
  }

  lemma Inc32Counts(c: nat)
    ensures Inc32(c % TWO_32) == (c + 1) % TWO_32
  {
  }

  lemma Dec32Counts(c: nat)
    requires 0 < c
    ensures Dec32(c % TWO_32) == (c - 1) % TWO_32
  {
  }

  lemma CountAfterAdd(fs: FS, d: Ino, n: Name, i: Ino, j: Ino)
    requires d in fs.tab && Child(fs, d, n).None? && i in fs.tab && j in fs.tab && Counted(fs, j)
    ensures Counted(AddEntry(SetLinks(fs, i, Inc32(Links(fs, i))), d, n, i), j)
  {
    var fs1 := SetLinks(fs, i, Inc32(Links(fs, i)));
    SetLinksSameShape(fs, i, Inc32(Links(fs, i)));
    EntriesSame(fs, fs1, j);
    EntriesAfterAdd(fs1, d, n, i, j);
    Inc32Counts(|Entries(fs, j)|);
  }

  lemma CountAfterDel(fs: FS, d: Ino, n: Name, i: Ino, j: Ino)
    requires Child(fs, d, n) == Some(i) && i in fs.tab && j in fs.tab && Counted(fs, j)
    ensures Counted(DelEntry(SetLinks(fs, i, Dec32(Links(fs, i))), d, n), j)
  {
    var fs1 := SetLinks(fs, i, Dec32(Links(fs, i)));
    SetLinksSameShape(fs, i, Dec32(Links(fs, i)));
    EntriesSame(fs, fs1, j);
    EntriesAfterDel(fs1, d, n, j);
    if j == i {
      Dec32Counts(|Entries(fs, j)|);
    }
  }

  lemma CountsAfterAdd(fs: FS, d: Ino, n: Name, i: Ino)
    requires LinksCounted(fs) && d in fs.tab && Child(fs, d, n).None? && i in fs.tab
    ensures LinksCounted(AddEntry(SetLinks(fs, i, Inc32(Links(fs, i))), d, n, i))
  {
    forall j | j in fs.tab && j != ROOT
      ensures Counted(AddEntry(SetLinks(fs, i, Inc32(Links(fs, i))), d, n, i), j)
    {
      CountAfterAdd(fs, d, n, i, j);
    }
  }

  lemma CountsAfterDel(fs: FS, d: Ino, n: Name, i: Ino)
    requires LinksCounted(fs) && Child(fs, d, n) == Some(i) && i in fs.tab
    ensures LinksCounted(DelEntry(SetLinks(fs, i, Dec32(Links(fs, i))), d, n))
  {
    forall j | j in fs.tab && j != ROOT
      ensures Counted(DelEntry(SetLinks(fs, i, Dec32(Links(fs, i))), d, n), j)
    {
      CountAfterDel(fs, d, n, i, j);
    }
  }

  // ------------------------------------------------------------ Mknod and kin

  /** Path `p` names nothing, and is one name below an existing directory. */
  ghost predicate Vacant(fs: FS, p: Path) {
    && p != [] && Resolve(fs, p).None? && GoodName(Last(p))
    && Resolve(fs, DropLast(p)).Some? && IsDir(fs, Resolve(fs, DropLast(p)).value)
  }

  ghost function Parent(fs: FS, p: Path): Ino
    requires p != [] && Resolve(fs, DropLast(p)).Some?
  {
    Resolve(fs, DropLast(p)).value
  }

  /** A lookup that finds a parent but no node has read the last name of a path. */
  lemma VacantLookup(fs: FS, p: Path)
    requires WellFormed(fs) && Spellable(p)
    requires Lookup(fs, p, None).Found? && Lookup(fs, p, None).prnt.Some? && Lookup(fs, p, None).node.None?
    ensures p != [] && Lookup(fs, p, None).prnt == Resolve(fs, DropLast(p)) && Lookup(fs, p, None).name == Last(p)
    ensures Resolve(fs, p).None? && GoodName(Last(p)) && Parent(fs, p) in fs.tab
  {
    LookupMeans(fs, p);
    WalkInTable(fs, ROOT, DropLast(p));
    var k := |p| - 1;
    if k > 0 {
      ResolveShrinks(fs, p, k - 1, k);
    }
    assert !Overlong(fs, p, None, k);
  }

  /** One more entry, at the vacant path `p`, for node `i`. */
  ghost function Linked(fs: FS, p: Path, i: Ino): FS
    requires Vacant(fs, p)
  {
    AddEntry(SetLinks(fs, i, Inc32(Links(fs, i))), Parent(fs, p), Last(p), i)
  }

  /** `i` is a node that may get a (further) entry: without children, and when it is a
      directory without an entry so far. */
  ghost predicate Linkable(fs: FS, i: Ino) {
    && i in fs.tab && i != ROOT && fs.tab[i].chld == map[]
    && (IsDir(fs, i) ==> Entries(fs, i) == {})
  }

  /** Only the new path resolves differently: to the linked node. */
  lemma LinkedResolves(fs: FS, p: Path, i: Ino, q: Path)
    requires Forest(fs) && Vacant(fs, p) && Linkable(fs, i) && Parent(fs, p) != i
    ensures Resolve(Linked(fs, p, i), q) == if q == p then Some(i) else Resolve(fs, q)
  {
    var fs1 := SetLinks(fs, i, Inc32(Links(fs, i)));
    SetLinksSameShape(fs, i, Inc32(Links(fs, i)));
    SameShapeKeepsForest(fs, fs1);
    SameEntriesSameWalk(fs, fs1, ROOT, q);
    SameEntriesSameWalk(fs, fs1, ROOT, DropLast(p));
    ResolveAfterAdd(fs1, p, i, q);
    if p <= q {
      if p == q {
        assert q[|p|..] == [];
      } else {
        LeafWalk(Linked(fs, p, i), i, q[|p|..]);
        ResolveShrinks(fs, q, |p|, |q|);
        assert q[..|p|] == p && q[..|q|] == q;
      }
    }
  }

  lemma {:induction false} LeafWalk(fs: FS, i: Ino, r: Path)
    requires r != [] && (i in fs.tab ==> fs.tab[i].chld == map[])
    ensures Walk(fs, i, r).None?
    decreases |r|
  {
    if |r| > 1 {
      LeafWalk(fs, i, DropLast(r));
    } else {
      assert DropLast(r) == [];
    }
  }

  lemma LinkedKeepsInv(fs: FS, p: Path, i: Ino)
    requires Inv(fs) && Vacant(fs, p) && Linkable(fs, i) && Parent(fs, p) != i
    ensures Inv(Linked(fs, p, i))
  {
    var d, n := Parent(fs, p), Last(p);
    var fs1 := SetLinks(fs, i, Inc32(Links(fs, i)));
    SetLinksSameShape(fs, i, Inc32(Links(fs, i)));
    SameShapeKeepsForest(fs, fs1);
    AddKeepsForest(fs1, d, n, i);
    CountsAfterAdd(fs, d, n, i);
    LinkedKeepsOrphansEmpty(fs, p, i);
  }

  lemma LinkedKeepsOrphansEmpty(fs: FS, p: Path, i: Ino)
    requires Tree(fs) && Vacant(fs, p) && Linkable(fs, i) && Parent(fs, p) != i
    ensures OrphansEmpty(Linked(fs, p, i))
  {
    var fs' := Linked(fs, p, i);
    forall j | j in fs'.tab && fs'.tab[j].chld.Keys != {} ensures Reachable(fs', j) {
      assert j == Parent(fs, p) || Reachable(fs, j);
      var q :| if j == Parent(fs, p) then q == DropLast(p) else Resolve(fs, q) == Some(j);
      LinkedResolves(fs, p, i, q);
      assert Resolve(fs', q) == Some(j);
    }
  }

  /** The table with one more node that no entry points to yet. */
  ghost function Blank(fs: FS, mode: bv32, data: Bytes): FS {
    SetInode(fs.(ino := fs.ino + 1), fs.ino + 1, NewInode(mode, data).(nlink := 0))
  }

  ghost function Created(fs: FS, p: Path, mode: bv32, data: Bytes): FS
    requires WellFormed(fs) && Vacant(fs, p)
  {
    BlankKeepsVacant(fs, p, mode, data);
    Linked(Blank(fs, mode, data), p, fs.ino + 1)
  }

  lemma BlankKeepsVacant(fs: FS, p: Path, mode: bv32, data: Bytes)
    requires WellFormed(fs)
    ensures var fs1 := Blank(fs, mode, data);
            && SameEntries(fs, fs1)
            && (Vacant(fs, p) ==>
                  Vacant(fs1, p) && Parent(fs1, p) == Parent(fs, p) && Parent(fs, p) != fs.ino + 1)
  {
    var fs1 := Blank(fs, mode, data);
    assert SameEntries(fs, fs1);
    if Vacant(fs, p) {
      SameEntriesSameWalk(fs, fs1, ROOT, p);
      SameEntriesSameWalk(fs, fs1, ROOT, DropLast(p));
    }
  }

  lemma MoreNodesKeepTree(fs: FS, fs': FS)
    requires Tree(fs) && SameEntries(fs, fs') && fs.ino <= fs'.ino
    requires forall i :: i in fs.tab ==> i in fs'.tab && IsDir(fs', i) == IsDir(fs, i)
    requires forall i :: i in fs'.tab ==> 1 <= i <= fs'.ino && (i !in fs.tab ==> fs'.tab[i].chld == map[])
    ensures Tree(fs')
  {
    forall j ensures Entries(fs', j) == Entries(fs, j) && (j !in fs.tab ==> Entries(fs, j) == {}) {
      EntriesSame(fs, fs', j);
      if j !in fs.tab {
        NoEntries(fs, j);
      }
    }
    forall i | i in fs'.tab && fs'.tab[i].chld.Keys != {} ensures Reachable(fs', i) {
      var n :| n in fs'.tab[i].chld;
      assert Child(fs', i, n).Some? && Child(fs, i, n).Some?;
      assert Reachable(fs, i);
      var p :| Resolve(fs, p) == Some(i);
      SameEntriesSameWalk(fs, fs', ROOT, p);
      assert Resolve(fs', p) == Some(i);
    }
  }

  lemma MoreNodesKeepCount(fs: FS, fs': FS, i: Ino)
    requires WellFormed(fs) && SameEntries(fs, fs') && i in fs'.tab
    requires if i in fs.tab then Counted(fs, i) && fs'.tab[i].nlink == fs.tab[i].nlink else fs'.tab[i].nlink == 0
    ensures Counted(fs', i)
  {
    EntriesSame(fs, fs', i);
    if i !in fs.tab {
      NoEntries(fs, i);
    }
  }

  lemma MoreNodesKeepInv(fs: FS, fs': FS)
    requires Inv(fs) && SameEntries(fs, fs') && fs.ino <= fs'.ino
    requires forall i :: i in fs.tab ==>
               i in fs'.tab && IsDir(fs', i) == IsDir(fs, i) && fs'.tab[i].nlink == fs.tab[i].nlink
    requires forall i :: i in fs'.tab ==>
               1 <= i <= fs'.ino && (i !in fs.tab ==> fs'.tab[i].chld == map[] && fs'.tab[i].nlink == 0)
    ensures Inv(fs')
  {
    MoreNodesKeepTree(fs, fs');
    forall i | i in fs'.tab && i != ROOT ensures Counted(fs', i) {
      MoreNodesKeepCount(fs, fs', i);
    }
  }

  lemma SameShapeKeepsInv(fs: FS, fs': FS)
    requires Inv(fs) && SameShape(fs, fs')
    requires forall i :: i in fs.tab && i != ROOT ==> fs'.tab[i].nlink == fs.tab[i].nlink
    requires fs'.tab[ROOT].nlink < TWO_32
    ensures Inv(fs')
  {
    assert SameEntries(fs, fs');
    assert forall i :: i in fs'.tab ==> i in fs.tab;
    MoreNodesKeepTree(fs, fs');
    forall i | i in fs'.tab && i != ROOT ensures Counted(fs', i) {
      MoreNodesKeepCount(fs, fs', i);
    }
  }

  lemma BlankKeepsInv(fs: FS, mode: bv32, data: Bytes)
    requires Inv(fs)
    ensures Inv(Blank(fs, mode, data)) && Linkable(Blank(fs, mode, data), fs.ino + 1)
  {
    var fs' := Blank(fs, mode, data);
    assert SameEntries(fs, fs');
    MoreNodesKeepInv(fs, fs');
    EntriesSame(fs, fs', fs.ino + 1);
    NoEntries(fs, fs.ino + 1);
  }

  /** Mknod, Mkdir and Symlink make one node at a vacant path or leave every node as it was. */
  lemma MakeNodeEffect(fs: FS, p: Path, mode: bv32, data: Bytes)
    requires WellFormed(fs) && Spellable(p)
    ensures var (fs', r) := MakeNode(fs, p, mode, data);
            if r == Return(0) then Vacant(fs, p) && fs' == Created(fs, p, mode, data)
            else r.Failed() && fs'.tab == fs.tab && fs.ino <= fs'.ino && fs'.limit == fs.limit
  {
    var l := Lookup(fs, p, None);
    if l.Found? && l.prnt.Some? && l.node.None? {
      VacantLookup(fs, p);
      BlankKeepsVacant(fs, p, mode, data);
    }
  }

  /** Only the new path resolves to the new node; every other path is as before. */
  lemma CreatedResolves(fs: FS, p: Path, mode: bv32, data: Bytes, q: Path)
    requires Inv(fs) && Vacant(fs, p)
    ensures Resolve(Created(fs, p, mode, data), q) == if q == p then Some(fs.ino + 1) else Resolve(fs, q)
  {
    var fs1, i := Blank(fs, mode, data), fs.ino + 1;
    assert Created(fs, p, mode, data) == Linked(fs1, p, i) && Parent(fs1, p) != i && Inv(fs1) && Linkable(fs1, i) by {
      BlankKeepsVacant(fs, p, mode, data);
      BlankKeepsInv(fs, mode, data);
    }
    LinkedResolves(fs1, p, i, q);
    assert Resolve(fs1, q) == Resolve(fs, q) by {
      BlankKeepsVacant(fs, p, mode, data);
      SameEntriesSameWalk(fs, fs1, ROOT, q);
    }
  }

  lemma MakeNodeKeepsInv(fs: FS, p: Path, mode: bv32, data: Bytes)
    requires Inv(fs) && Spellable(p)
    ensures Inv(MakeNode(fs, p, mode, data).0)
  {
    MakeNodeEffect(fs, p, mode, data);
    var (fs', r) := MakeNode(fs, p, mode, data);
    if r == Return(0) {
      BlankKeepsVacant(fs, p, mode, data);
      BlankKeepsInv(fs, mode, data);
      LinkedKeepsInv(Blank(fs, mode, data), p, fs.ino + 1);
    } else {
      SameTableKeepsInv(fs, fs');
    }
  }

  lemma SameTableKeepsInv(fs: FS, fs': FS)
    requires Inv(fs) && fs'.tab == fs.tab && fs.ino <= fs'.ino
    ensures Inv(fs')
  {
    assert SameEntries(fs, fs');
    MoreNodesKeepInv(fs, fs');
  }

  /** Whatever a path can reach, a path string can name. */
  lemma EveryNodeIsNamed(fs: FS, p: Path)
    requires WellFormed(fs) && Resolve(fs, p).Some?
    ensures Components(Spell(p)) == p && NodeAt(fs, Components(Spell(p))) == At(Resolve(fs, p).value)
  {
    ResolvedNamesGood(fs, p);
    ComponentsOfSpell(p);
    ResolvedLookup(fs, p);
    WalkInTable(fs, ROOT, p);
  }

  // -------------------------------------------------------- Unlink and Rmdir

  /** Path `p` is not the root, and names something that unlink (or, for `dir`, rmdir)
      may remove. */
  ghost predicate Removable(fs: FS, p: Path, dir: bool) {
    && Resolve(fs, p).Some?
    && IsDir(fs, Resolve(fs, p).value) == dir
    && Resolve(fs, p).value in fs.tab
    && fs.tab[Resolve(fs, p).value].chld == map[]
  }

  ghost function Removed(fs: FS, p: Path): FS
    requires p != [] && Resolve(fs, p).Some?
  {
    var i := Resolve(fs, p).value;
    DelEntry(SetLinks(fs, i, Dec32(Links(fs, i))), Parent(fs, p), Last(p))
  }

  lemma RemoveNodeEffect(fs: FS, p: Path, dir: bool)
    requires WellFormed(fs)
    ensures var (fs', r) := RemoveNode(fs, p, dir);
            if !Removable(fs, p, dir) then r.Failed() && r != Err(EINVAL) && fs' == fs
            else r == Return(0) && fs' == if p == [] then RootDropped(fs) else Removed(fs, p)
  {
    LookupMeans(fs, p);
    if Resolve(fs, p).Some? {
      ResolvedLookup(fs, p);
      WalkInTable(fs, ROOT, p);
    }
    assert Child(fs, ROOT, "").None?;
    assert fs.tab[ROOT].chld - {""} == fs.tab[ROOT].chld;
  }

  /** All that removing an empty root does: there is no entry to delete. */
  ghost function RootDropped(fs: FS): FS {
    SetLinks(fs, ROOT, Dec32(Links(fs, ROOT)))
  }

  lemma RemovedResolves(fs: FS, p: Path, q: Path)
    requires Forest(fs) && p != [] && Resolve(fs, p).Some?
    ensures Resolve(Removed(fs, p), q) == if p <= q then None else Resolve(fs, q)
  {
    var i := Resolve(fs, p).value;
    var fs1 := SetLinks(fs, i, Dec32(Links(fs, i)));
    SetLinksSameShape(fs, i, Dec32(Links(fs, i)));
    SameShapeKeepsForest(fs, fs1);
    SameEntriesSameWalk(fs, fs1, ROOT, q);
    SameEntriesSameWalk(fs, fs1, ROOT, p);
    SameEntriesSameWalk(fs, fs1, ROOT, DropLast(p));
    ResolveAfterDel(fs1, p, q);
  }

  lemma RemovedKeepsInv(fs: FS, p: Path, dir: bool)
    requires Inv(fs) && p != [] && Removable(fs, p, dir)
    ensures Inv(Removed(fs, p))
  {
    var i := Resolve(fs, p).value;
    var fs1 := SetLinks(fs, i, Dec32(Links(fs, i)));
    var fs' := Removed(fs, p);
    SetLinksSameShape(fs, i, Dec32(Links(fs, i)));
    SameShapeKeepsForest(fs, fs1);
    DelKeepsForest(fs1, Parent(fs, p), Last(p));
    CountsAfterDel(fs, Parent(fs, p), Last(p), i);
    forall j | j in fs'.tab && fs'.tab[j].chld.Keys != {} ensures Reachable(fs', j) {
      assert fs.tab[j].chld.Keys != {};
      assert Reachable(fs, j);
      var q :| Resolve(fs, q) == Some(j);
      RemovedResolves(fs, p, q);
      if p <= q {
        // nothing but `p` itself goes through the removed node, and that node is empty
        if p != q {
          assert q == p + q[|p|..];
          WalkAppend(fs, ROOT, p, q[|p|..]);
          LeafWalk(fs, i, q[|p|..]);
        }
        assert false;
      }
    }
  }

  lemma RemoveNodeKeepsInv(fs: FS, p: Path, dir: bool)
    requires Inv(fs)
    ensures Inv(RemoveNode(fs, p, dir).0)
  {
    RemoveNodeEffect(fs, p, dir);
    if Removable(fs, p, dir) {
      if p == [] {
        SetLinksSameShape(fs, ROOT, Dec32(Links(fs, ROOT)));
        SameShapeKeepsInv(fs, RootDropped(fs));
      } else {
        RemovedKeepsInv(fs, p, dir);
      }
    }
  }

  // --------------------------------------------------------------------- Link

  /** Link finds its source and a free name under an existing parent. */
  ghost predicate LinkGoes(fs: FS, source: Path, target: Path) {
    && Lookup(fs, source, None).Found? && Resolve(fs, source).Some?
    && Lookup(fs, target, None).Found? && target != []
    && Resolve(fs, target).None? && Resolve(fs, DropLast(target)).Some?
  }

  lemma LinkEffect(fs: FS, source: Path, target: Path)
    requires WellFormed(fs) && Spellable(target)
    ensures var (fs', r) := Link(fs, source, target);
            if !LinkGoes(fs, source, target) then r.Failed() && fs' == fs
            else
              var i := Resolve(fs, source).value;
              if IsDir(fs, Parent(fs, target)) then
                r == Return(0) && Vacant(fs, target) && fs' == Linked(fs, target, i)
              else r == Panic(RuntimeError) && fs' == SetLinks(fs, i, Inc32(Links(fs, i)))
  {
    LookupMeans(fs, source);
    LookupMeans(fs, target);
    if LinkGoes(fs, source, target) {
      VacantLookup(fs, target);
    }
  }

  /** What link may be asked for: not a new name for a directory, and not a name under
      something that is not a directory. */
  ghost predicate LinkAllowed(fs: FS, source: Path, target: Path)
    requires LinkGoes(fs, source, target)
  {
    if IsDir(fs, Parent(fs, target)) then !IsDir(fs, Resolve(fs, source).value)
    else Resolve(fs, source) == Some(ROOT)
  }

  lemma ResolvedHasEntry(fs: FS, p: Path)
    requires p != [] && Resolve(fs, p).Some?
    ensures Resolve(fs, DropLast(p)).Some? && Child(fs, Parent(fs, p), Last(p)) == Resolve(fs, p)
    ensures (Parent(fs, p), Last(p)) in Entries(fs, Resolve(fs, p).value)
    ensures |Entries(fs, Resolve(fs, p).value)| > 0
    ensures RootUnnamed(fs) ==> Resolve(fs, p) != Some(ROOT)
  {
    assert (Parent(fs, p), Last(p)) in Entries(fs, Resolve(fs, p).value);
  }

  lemma FileIsLeaf(fs: FS, i: Ino)
    requires WellFormed(fs) && i in fs.tab && !IsDir(fs, i)
    ensures fs.tab[i].chld == map[]
  {
    forall n ensures n !in fs.tab[i].chld {
      assert Child(fs, i, n).None?;
    }
  }

  /** Link keeps the invariant exactly for the requests it may be asked. */
  lemma LinkKeepsInvExactly(fs: FS, source: Path, target: Path)
    requires Inv(fs) && Spellable(target)
    ensures Inv(Link(fs, source, target).0) <==>
            (LinkGoes(fs, source, target) ==> LinkAllowed(fs, source, target))
  {
    LinkEffect(fs, source, target);
    if LinkGoes(fs, source, target) {
      WalkInTable(fs, ROOT, source);
      if IsDir(fs, Parent(fs, target)) {
        LinkIntoDirectory(fs, source, target);
      } else {
        LinkUnderFile(fs, source, target);
      }
    }
  }

  lemma LinkIntoDirectory(fs: FS, source: Path, target: Path)
    requires Inv(fs) && Vacant(fs, target) && Resolve(fs, source).Some? && Resolve(fs, source).value in fs.tab
    ensures Inv(Linked(fs, target, Resolve(fs, source).value)) <==> !IsDir(fs, Resolve(fs, source).value)
  {
    var i := Resolve(fs, source).value;
    if !IsDir(fs, i) {
      FileIsLeaf(fs, i);
      LinkedKeepsInv(fs, target, i);
    } else {
      var fs1 := SetLinks(fs, i, Inc32(Links(fs, i)));
      var fs' := Linked(fs, target, i);
      EntriesSame(fs, fs1, i);
      EntriesAfterAdd(fs1, Parent(fs, target), Last(target), i, i);
      assert IsDir(fs', i);
      if source != [] {
        ResolvedHasEntry(fs, source);
        assert |Entries(fs', i)| > 1;
      }
    }
  }

  lemma LinkUnderFile(fs: FS, source: Path, target: Path)
    requires Inv(fs) && Resolve(fs, source).Some? && Resolve(fs, source).value in fs.tab
    ensures var i := Resolve(fs, source).value;
            Inv(SetLinks(fs, i, Inc32(Links(fs, i)))) <==> i == ROOT
  {
    var i := Resolve(fs, source).value;
    var fs' := SetLinks(fs, i, Inc32(Links(fs, i)));
    SetLinksSameShape(fs, i, Inc32(Links(fs, i)));
    if i == ROOT {
      SameShapeKeepsInv(fs, fs');
    } else {
      EntriesSame(fs, fs', i);
      assert Counted(fs, i);
      assert !Counted(fs', i);
    }
  }
}
