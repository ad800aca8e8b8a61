/** The abstract file system: an inode table whose directories map names to inode
    numbers.  This file defines path walks, the global invariant of the table, and
    how adding or deleting one directory entry changes what paths resolve to. */
module Inodes {
  import opened Fuse

  type Ino = nat
  type Name = string
  type Path = seq<Name>

  const ROOT: Ino := 1

  datatype Inode = Inode(mode: bv32, nlink: nat, xatr: map<Bytes, Bytes>,
                         chld: map<Name, Ino>, data: Bytes, opencnt: nat)

  /** `ino` is the last inode number given out; `limit` is the largest slice the
      Go run time is able to make. */
  datatype FS = FS(ino: nat, tab: map<Ino, Inode>, limit: nat)

  predicate GoodName(n: Name) {
    0 < |n| <= 255 && '/' !in n
  }

  predicate IsDir(fs: FS, i: Ino) {
    i in fs.tab && IsDirMode(fs.tab[i].mode)
  }

  function Child(fs: FS, d: Ino, n: Name): Option<Ino> {
    if d in fs.tab && n in fs.tab[d].chld then Some(fs.tab[d].chld[n]) else None
  }

  function DropLast(p: Path): Path
    requires p != []
  {
    p[..|p| - 1]
  }

  function Last(p: Path): Name
    requires p != []
  {
    p[|p| - 1]
  }

  /** The node that path `p` names when followed from `s`. */
  function Walk(fs: FS, s: Ino, p: Path): Option<Ino>
    decreases |p|
  {
    if p == [] then Some(s)
    else match Walk(fs, s, DropLast(p))
      case None => None
      case Some(u) => Child(fs, u, Last(p))
  }

  function Resolve(fs: FS, p: Path): Option<Ino> {
    Walk(fs, ROOT, p)
  }

  // ---------------------------------------------------------------- invariant

  /** Entries lead to nodes of the table, only directories have them, and their
      names are ones a path can spell. */
  ghost predicate WellFormed(fs: FS) {
    && IsDir(fs, ROOT)
    && (forall i :: i in fs.tab ==> 1 <= i <= fs.ino)
    && (forall d, n :: Child(fs, d, n).Some? ==>
          Child(fs, d, n).value in fs.tab && IsDir(fs, d) && GoodName(n))
  }

  ghost function AllEntries(fs: FS): (all: set<(Ino, Name)>)
    ensures forall e :: e in all <==> Child(fs, e.0, e.1).Some?
  {
    set d, n | d in fs.tab && n in fs.tab[d].chld :: (d, n)
  }

  /** The entries that point to `i`. */
  ghost function Entries(fs: FS, i: Ino): set<(Ino, Name)> {
    set e | e in AllEntries(fs) && Child(fs, e.0, e.1) == Some(i)
  }

  /** No directory has two entries. */
  ghost predicate SingleParents(fs: FS) {
    forall i {:trigger Entries(fs, i)} :: IsDir(fs, i) ==> |Entries(fs, i)| <= 1
  }

  ghost predicate RootUnnamed(fs: FS) {
    Entries(fs, ROOT) == {}
  }

  ghost predicate Reachable(fs: FS, i: Ino) {
    exists p :: Resolve(fs, p) == Some(i)
  }

  ghost predicate OrphansEmpty(fs: FS) {
    forall i {:trigger Reachable(fs, i)} :: i in fs.tab && fs.tab[i].chld.Keys != {} ==> Reachable(fs, i)
  }

  ghost predicate Forest(fs: FS) {
    WellFormed(fs) && SingleParents(fs) && RootUnnamed(fs)
  }

  ghost predicate Tree(fs: FS) {
    Forest(fs) && OrphansEmpty(fs)
  }

  /** stat.Nlink is a uint32, so it counts the entries modulo 2^32. */
  ghost predicate Counted(fs: FS, i: Ino)
    requires i in fs.tab
  {
    fs.tab[i].nlink == |Entries(fs, i)| % TWO_32
  }

  ghost predicate LinksCounted(fs: FS) {
    && (forall i {:trigger Counted(fs, i)} :: i in fs.tab && i != ROOT ==> Counted(fs, i))
    && (ROOT in fs.tab ==> fs.tab[ROOT].nlink < TWO_32)
  }

  ghost predicate Inv(fs: FS) {
    Tree(fs) && LinksCounted(fs)
  }

  // ------------------------------------------------------------- facts on walks

  lemma {:induction false} WalkAppend(fs: FS, s: Ino, p: Path, q: Path)
    ensures Walk(fs, s, p + q) ==
            match Walk(fs, s, p) case None => None case Some(u) => Walk(fs, u, q)
    decreases |q|
  {
    if q == [] {
      assert p + q == p;
    } else {
      WalkAppend(fs, s, p, DropLast(q));
      assert DropLast(p + q) == p + DropLast(q);
    }
  }

  lemma {:induction false} WalkInTable(fs: FS, s: Ino, p: Path)
    requires WellFormed(fs) && s in fs.tab && Walk(fs, s, p).Some?
    ensures Walk(fs, s, p).value in fs.tab
    ensures forall k :: 0 <= k < |p| ==> Walk(fs, s, p[..k]).Some? && IsDir(fs, Walk(fs, s, p[..k]).value)
    decreases |p|
  {
    if p != [] {
      WalkInTable(fs, s, DropLast(p));
      forall k | 0 <= k < |p|
        ensures Walk(fs, s, p[..k]).Some? && IsDir(fs, Walk(fs, s, p[..k]).value)
      {
        if k < |p| - 1 {
          assert DropLast(p)[..k] == p[..k];
        }
      }
    } else {
      assert p[..|p|] == p;
    }
  }

  lemma OneEntryOnly(fs: FS, d: Ino, n: Name, d': Ino, n': Name)
    requires SingleParents(fs)
    requires Child(fs, d, n).Some? && Child(fs, d, n) == Child(fs, d', n')
    requires IsDir(fs, Child(fs, d, n).value)
    ensures d == d' && n == n'
  {
    var i := Child(fs, d, n).value;
    if (d, n) != (d', n') {
      assert {(d, n), (d', n')} <= Entries(fs, i);
      SubsetSize({(d, n), (d', n')}, Entries(fs, i));
    }
  }

  lemma SubsetSize<T>(a: set<T>, b: set<T>)
    requires a <= b
    ensures |a| <= |b|
  {
    assert b == a + (b - a);
  }

  lemma RootHasNoEntry(fs: FS, d: Ino, n: Name)
    requires RootUnnamed(fs)
    ensures Child(fs, d, n) != Some(ROOT)
  {
    assert (d, n) !in Entries(fs, ROOT);
  }

  /** A directory is named by one path only. */
  lemma {:induction false} DirectoryPathUnique(fs: FS, p: Path, q: Path)
    requires Forest(fs)
    requires Resolve(fs, p).Some? && Resolve(fs, p) == Resolve(fs, q)
    requires IsDir(fs, Resolve(fs, p).value)
    ensures p == q
    decreases |p|
  {
    if p != [] && q != [] {
      var u, v := Walk(fs, ROOT, DropLast(p)).value, Walk(fs, ROOT, DropLast(q)).value;
      OneEntryOnly(fs, u, Last(p), v, Last(q));
      DirectoryPathUnique(fs, DropLast(p), DropLast(q));
      assert p == DropLast(p) + [Last(p)] && q == DropLast(q) + [Last(q)];
    } else if p != [] {
      RootHasNoEntry(fs, Walk(fs, ROOT, DropLast(p)).value, Last(p));
    } else if q != [] {
      RootHasNoEntry(fs, Walk(fs, ROOT, DropLast(q)).value, Last(q));
    }
  }

  lemma {:induction false} WalkStartsInDirectory(fs: FS, d: Ino, r: Path)
    requires WellFormed(fs) && r != [] && Walk(fs, d, r).Some?
    ensures IsDir(fs, d) && fs.tab[d].chld.Keys != {}
    decreases |r|
  {
    if |r| > 1 {
      WalkStartsInDirectory(fs, d, DropLast(r));
    } else {
      assert DropLast(r) == [];
      assert Child(fs, d, Last(r)).Some?;
    }
  }

  /** Directories form a tree: no walk along at least one entry returns to its start. */
  lemma NoCycles(fs: FS, d: Ino, r: Path)
    requires Tree(fs) && Walk(fs, d, r) == Some(d)
    ensures r == []
  {
    if r != [] {
      WalkStartsInDirectory(fs, d, r);
      assert Reachable(fs, d);
      var p :| Resolve(fs, p) == Some(d);
      WalkAppend(fs, ROOT, p, r);
      DirectoryPathUnique(fs, p, p + r);
    }
  }

  /** Every directory that has an entry is found from the root, by exactly one path. */
  lemma LinkedDirectoryHasOnePath(fs: FS, d: Ino, n: Name) returns (p: Path)
    requires Tree(fs) && Child(fs, d, n).Some?
    ensures p != [] && Last(p) == n && Resolve(fs, DropLast(p)) == Some(d)
    ensures Resolve(fs, p) == Child(fs, d, n)
    ensures IsDir(fs, Child(fs, d, n).value) ==> forall q :: Resolve(fs, q) == Child(fs, d, n) ==> q == p
  {
    assert Reachable(fs, d);
    var p0 :| Resolve(fs, p0) == Some(d);
    p := p0 + [n];
    assert DropLast(p) == p0;
    if IsDir(fs, Child(fs, d, n).value) {
      forall q | Resolve(fs, q) == Child(fs, d, n) ensures q == p {
        DirectoryPathUnique(fs, q, p);
      }
    }
  }

  // -------------------------------------------------------------- entry updates

  function SetInode(fs: FS, i: Ino, node: Inode): FS {
    fs.(tab := fs.tab[i := node])
  }

  function DelEntry(fs: FS, d: Ino, n: Name): FS {
    if d in fs.tab then SetInode(fs, d, fs.tab[d].(chld := fs.tab[d].chld - {n})) else fs
  }

  function AddEntry(fs: FS, d: Ino, n: Name, i: Ino): FS {
    if d in fs.tab then SetInode(fs, d, fs.tab[d].(chld := fs.tab[d].chld[n := i])) else fs
  }

  /** The two file systems have the same entries (and perhaps different nodes). */
  ghost predicate SameEntries(fs: FS, fs': FS) {
    forall d, n :: Child(fs', d, n) == Child(fs, d, n)
  }

  lemma {:induction false} SameEntriesSameWalk(fs: FS, fs': FS, s: Ino, p: Path)
    requires SameEntries(fs, fs')
    ensures Walk(fs', s, p) == Walk(fs, s, p)
    decreases |p|
  {
    if p != [] {
      SameEntriesSameWalk(fs, fs', s, DropLast(p));
    }
  }

  lemma ChildAfterDel(fs: FS, d: Ino, n: Name)
    requires d in fs.tab
    ensures forall e, m :: Child(DelEntry(fs, d, n), e, m) ==
                           if e == d && m == n then None else Child(fs, e, m)
  {
  }

  lemma ChildAfterAdd(fs: FS, d: Ino, n: Name, i: Ino)
    requires d in fs.tab
    ensures forall e, m :: Child(AddEntry(fs, d, n, i), e, m) ==
                           if e == d && m == n then Some(i) else Child(fs, e, m)
  {
  }

  lemma PrefixOfDropLast(p: Path, q: Path)
    requires q != []
    ensures p <= q <==> p <= DropLast(q) || p == q
  {
    if p <= q && p != q {
      assert |p| <= |q| - 1;
      assert p == q[..|p|] == DropLast(q)[..|p|];
    }
    if p <= DropLast(q) {
      assert p == DropLast(q)[..|p|] == q[..|p|];
    }
  }

  /** Deleting the last entry of path `p` cuts off exactly the paths that extend `p`. */
  lemma {:induction false} ResolveAfterDel(fs: FS, p: Path, q: Path)
    requires Forest(fs) && p != [] && Resolve(fs, p).Some?
    ensures Resolve(fs, DropLast(p)).Some? && Resolve(fs, DropLast(p)).value in fs.tab
    ensures var fs' := DelEntry(fs, Resolve(fs, DropLast(p)).value, Last(p));
            Resolve(fs', q) == if p <= q then None else Resolve(fs, q)
    decreases |q|
  {
    WalkInTable(fs, ROOT, DropLast(p));
    var d := Resolve(fs, DropLast(p)).value;
    if q != [] {
      ResolveAfterDel(fs, p, DropLast(q));
      PrefixOfDropLast(p, q);
      ChildAfterDel(fs, d, Last(p));
      var u := Resolve(fs, DropLast(q));
      if !(p <= DropLast(q)) && u == Some(d) && Last(q) == Last(p) {
        assert IsDir(fs, d);
        DirectoryPathUnique(fs, DropLast(q), DropLast(p));
        assert q == DropLast(q) + [Last(q)] && p == DropLast(p) + [Last(p)];
      }
    }
  }

  /** A new last entry for path `p` changes exactly the paths that extend `p`. */
  lemma {:induction false} ResolveAfterAdd(fs: FS, p: Path, i: Ino, q: Path)
    requires Forest(fs) && p != []
    requires Resolve(fs, DropLast(p)).Some? && IsDir(fs, Resolve(fs, DropLast(p)).value)
    ensures var fs' := AddEntry(fs, Resolve(fs, DropLast(p)).value, Last(p), i);
            Resolve(fs', q) == if p <= q then Walk(fs', i, q[|p|..]) else Resolve(fs, q)
    decreases |q|
  {
    var d := Resolve(fs, DropLast(p)).value;
    var fs' := AddEntry(fs, d, Last(p), i);
    if q != [] {
      ResolveAfterAdd(fs, p, i, DropLast(q));
      PrefixOfDropLast(p, q);
      ChildAfterAdd(fs, d, Last(p), i);
      if p <= DropLast(q) {
        assert DropLast(q)[|p|..] == DropLast(q[|p|..]);
      } else if Resolve(fs, DropLast(q)) == Some(d) && Last(q) == Last(p) {
        DirectoryPathUnique(fs, DropLast(q), DropLast(p));
        assert q == DropLast(q) + [Last(q)] && p == DropLast(p) + [Last(p)];
        assert q[|p|..] == [];
      } else if p == q {
        assert false;
      }
    }
  }

  // ------------------------------------------------------------- entry counting

  lemma EntriesSame(fs: FS, fs': FS, i: Ino)
    requires SameEntries(fs, fs')
    ensures Entries(fs', i) == Entries(fs, i)
  {
    forall e: (Ino, Name) ensures e in Entries(fs, i) <==> e in Entries(fs', i) {
      assert Child(fs', e.0, e.1) == Child(fs, e.0, e.1);
    }
  }

  /** `fs'` has the entries of `fs` except the one called `n` in `d`. */
  lemma OneEntryLess(fs: FS, fs': FS, d: Ino, n: Name, j: Ino)
    requires Child(fs, d, n).Some?
    requires forall e, m :: Child(fs', e, m) == if e == d && m == n then None else Child(fs, e, m)
    ensures |Entries(fs', j)| == |Entries(fs, j)| - if Child(fs, d, n) == Some(j) then 1 else 0
  {
    if Child(fs, d, n) == Some(j) {
      assert Entries(fs, j) == Entries(fs', j) + {(d, n)};
    } else {
      assert Entries(fs, j) == Entries(fs', j);
    }
  }

  lemma EntriesAfterDel(fs: FS, d: Ino, n: Name, j: Ino)
    requires Child(fs, d, n).Some?
    ensures |Entries(DelEntry(fs, d, n), j)| == |Entries(fs, j)| - if Child(fs, d, n) == Some(j) then 1 else 0
  {
    ChildAfterDel(fs, d, n);
    OneEntryLess(fs, DelEntry(fs, d, n), d, n, j);
  }

  lemma EntriesAfterAdd(fs: FS, d: Ino, n: Name, i: Ino, j: Ino)
    requires d in fs.tab && Child(fs, d, n).None?
    ensures |Entries(AddEntry(fs, d, n, i), j)| == |Entries(fs, j)| + if j == i then 1 else 0
  {
    ChildAfterAdd(fs, d, n, i);
    if j == i {
      assert Entries(AddEntry(fs, d, n, i), j) == Entries(fs, j) + {(d, n)};
    } else {
      assert Entries(AddEntry(fs, d, n, i), j) == Entries(fs, j);
    }
  }

  lemma NoEntries(fs: FS, i: Ino)
    requires forall d, n :: Child(fs, d, n) != Some(i)
    ensures Entries(fs, i) == {}
  {
  }
}
