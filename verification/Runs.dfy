/** Whole runs: any sequence of requests, starting from the file system NewMemfs makes. */
module Runs {
  import opened Fuse
  import opened Inodes
  import opened Paths
  import opened Operations
  import opened Lookups
  import opened Namespace
  import opened Renames
  import Files

  datatype Op =
    | OpMknod(path: string, mode: bv32)
    | OpMkdir(path: string, mode: bv32)
    | OpSymlink(link: Bytes, path: string)
    | OpUnlink(path: string)
    | OpRmdir(path: string)
    | OpLink(source: string, target: string)
    | OpRename(source: string, target: string)
    | OpRename3(source: string, target: string, flags: bv32)
    | OpChmod(path: string, mode: bv32, fh: nat)
    | OpOpen(path: string, dir: bool)
    | OpRelease(fh: nat)
    | OpTruncate(path: string, size: nat, fh: nat)
    | OpWrite(path: string, buff: Bytes, ofst: nat, fh: nat)
    | OpCopy(pathIn: string, fhIn: nat, offIn: nat, path: string, fhOut: nat, offOut: nat, size: nat)
    | OpFallocate(path: string, fmode: int, off: nat, length: nat, fh: nat)
    | OpSetxattr(path: string, name: Bytes, value: Bytes, xflags: int)
    | OpRemovexattr(path: string, name: Bytes)

  function Step(fs: FS, op: Op): (FS, Outcome) {
    match op
    case OpMknod(path, mode) => MakeNode(fs, Components(path), mode, [])
    case OpMkdir(path, mode) => MakeNode(fs, Components(path), S_IFDIR | (mode & PERMISSIONS), [])
    case OpSymlink(link, path) => MakeNode(fs, Components(path), S_IFLNK | 0x1FF, link)
    case OpUnlink(path) => RemoveNode(fs, Components(path), false)
    case OpRmdir(path) => RemoveNode(fs, Components(path), true)
    case OpLink(source, target) => Link(fs, Components(source), Components(target))
    case OpRename(source, target) => Rename(fs, Components(source), Components(target))
    case OpRename3(source, target, flags) => Rename3(fs, Components(source), Components(target), flags)
    case OpChmod(path, mode, fh) => Chmod(fs, Components(path), mode, fh)
    case OpOpen(path, dir) => var (fs', o, fh) := OpenNode(fs, Components(path), dir); (fs', o)
    case OpRelease(fh) => CloseNode(fs, fh)
    case OpTruncate(path, size, fh) => Truncate(fs, Components(path), size, fh)
    case OpWrite(path, buff, ofst, fh) => Write(fs, Components(path), buff, ofst, fh)
    case OpCopy(pathIn, fhIn, offIn, path, fhOut, offOut, size) =>
      CopyFileRange(fs, Components(pathIn), fhIn, offIn, Components(path), fhOut, offOut, size)
    case OpFallocate(path, mode, off, length, fh) => Fallocate(fs, Components(path), mode, off, length, fh)
    case OpSetxattr(path, name, value, flags) => Setxattr(fs, Components(path), name, value, flags)
    case OpRemovexattr(path, name) => Removexattr(fs, Components(path), name)
  }

  function After(fs: FS, op: Op): FS {
    Step(fs, op).0
  }

  function Run(fs: FS, ops: seq<Op>): FS
    decreases |ops|
  {
    if ops == [] then fs else After(Run(fs, ops[..|ops| - 1]), ops[|ops| - 1])
  }

  // The state that NewMemfs makes.
  function Initial(limit: nat): FS {
    FS(ROOT, map[ROOT := NewInode(S_IFDIR | 0x1FF, [])], limit)
  }

  /** What the kernel sees to before it passes a request on: no new name for a directory,
      no name under something that is not a directory, and no move of the root. */
  ghost predicate Admissible(fs: FS, op: Op) {
    match op
    case OpLink(source, target) =>
      var s, t := Components(source), Components(target);
      LinkGoes(fs, s, t) ==> IsDir(fs, Parent(fs, t)) && !IsDir(fs, Resolve(fs, s).value)
    case OpRename(source, target) =>
      var s, t := Components(source), Components(target);
      Goes(fs, s, t, false) ==> Proper(fs, s, t, false)
    case OpRename3(source, target, flags) =>
      var s, t := Components(source), Components(target);
      var noreplace := flags & RENAME_NOREPLACE == RENAME_NOREPLACE;
      Goes(fs, s, t, noreplace) ==> Proper(fs, s, t, noreplace)
    case _ => true
  }

  ghost predicate AllAdmissible(fs: FS, ops: seq<Op>) {
    forall k :: 0 <= k < |ops| ==> Admissible(Run(fs, ops[..k]), ops[k])
  }

  lemma AllAdmissiblePrefix(fs: FS, ops: seq<Op>)
    requires ops != [] && AllAdmissible(fs, ops)
    ensures AllAdmissible(fs, ops[..|ops| - 1])
    ensures Admissible(Run(fs, ops[..|ops| - 1]), ops[|ops| - 1])
  {
    var front := ops[..|ops| - 1];
    forall k | 0 <= k < |front| ensures Admissible(Run(fs, front[..k]), front[k]) {
      assert front[..k] == ops[..k];
    }
  }

  // ------------------------------------------------------------- the invariant

  lemma InitialInv(limit: nat)
    ensures Inv(Initial(limit))
  {
    var fs := Initial(limit);
    assert IsDirMode(S_IFDIR | 0x1FF);
    assert forall d, n :: Child(fs, d, n).None?;
    forall i ensures Entries(fs, i) == {} {
      NoEntries(fs, i);
    }
  }

  /** The requests that touch neither entries nor link counts. */
  ghost predicate Local(op: Op) {
    op.OpChmod? || op.OpOpen? || op.OpRelease? || op.OpTruncate? || op.OpWrite? || op.OpCopy? ||
    op.OpFallocate? || op.OpSetxattr? || op.OpRemovexattr?
  }

  ghost predicate ByteOp(op: Op) {
    op.OpTruncate? || op.OpWrite? || op.OpCopy? || op.OpFallocate?
  }

  /** A local request changes at most one node, and of it only bytes, permission bits,
      attributes or the open count. */
  ghost predicate LocalTo(fs: FS, fs': FS, op: Op, i: Ino) {
    fs' == fs ||
    (&& i in fs.tab && i in fs'.tab && fs' == SetInode(fs, i, fs'.tab[i])
     && fs'.tab[i].chld == fs.tab[i].chld && fs'.tab[i].nlink == fs.tab[i].nlink
     && IsDirMode(fs'.tab[i].mode) == IsDirMode(fs.tab[i].mode)
     && (!ByteOp(op) ==> fs'.tab[i].data == fs.tab[i].data)
     && (!op.OpSetxattr? && !op.OpRemovexattr? ==> fs'.tab[i].xatr == fs.tab[i].xatr)
     && (!op.OpOpen? && !op.OpRelease? ==> fs'.tab[i].opencnt == fs.tab[i].opencnt))
  }

  lemma ByteOpIsLocal(fs: FS, op: Op) returns (i: Ino)
    requires ByteOp(op)
    ensures LocalTo(fs, After(fs, op), op, i)
  {
    var fh := if op.OpCopy? then op.fhOut else op.fh;
    var t := GetNode(fs, Components(op.path), fh);
    i := if t.At? then t.i else ROOT;
    if op.OpCopy? {
      assert LocalTo(fs, After(fs, op), op, i);
    }
  }

  lemma HandleOpIsLocal(fs: FS, op: Op) returns (i: Ino)
    requires op.OpOpen? || op.OpRelease?
    ensures LocalTo(fs, After(fs, op), op, i)
  {
    if op.OpOpen? {
      var t := NodeAt(fs, Components(op.path));
      i := if t.At? then t.i else ROOT;
    } else {
      i := op.fh;
    }
  }

  lemma AttributeOpIsLocal(fs: FS, op: Op) returns (i: Ino)
    requires op.OpChmod? || op.OpSetxattr? || op.OpRemovexattr?
    ensures LocalTo(fs, After(fs, op), op, i)
  {
    var t := if op.OpChmod? then GetNode(fs, Components(op.path), op.fh) else NodeAt(fs, Components(op.path));
    i := if t.At? then t.i else ROOT;
    if op.OpChmod? && t.At? {
      ChmodBitsMean(fs.tab[i].mode, op.mode);
    }
  }

  lemma LocalOpIsLocal(fs: FS, op: Op) returns (i: Ino)
    requires Local(op)
    ensures LocalTo(fs, After(fs, op), op, i)
  {
    if ByteOp(op) {
      i := ByteOpIsLocal(fs, op);
    } else if op.OpOpen? || op.OpRelease? {
      i := HandleOpIsLocal(fs, op);
    } else {
      i := AttributeOpIsLocal(fs, op);
    }
  }

  lemma LocalKeepsShape(fs: FS, op: Op)
    requires Local(op)
    ensures SameShape(fs, After(fs, op)) && After(fs, op).limit == fs.limit
    ensures forall i :: i in fs.tab ==> After(fs, op).tab[i].nlink == fs.tab[i].nlink
  {
    var i := LocalOpIsLocal(fs, op);
    LocalToKeepsShape(fs, After(fs, op), op, i);
  }

  lemma LocalToKeepsShape(fs: FS, fs': FS, op: Op, i: Ino)
    requires LocalTo(fs, fs', op, i)
    ensures SameShape(fs, fs') && fs'.limit == fs.limit
    ensures forall j :: j in fs.tab ==> fs'.tab[j].nlink == fs.tab[j].nlink
  {
  }

  ghost predicate SameButEntries(fs: FS, fs': FS, i: Ino)
    requires i in fs.tab
  {
    && i in fs'.tab && fs'.tab[i].mode == fs.tab[i].mode && fs'.tab[i].data == fs.tab[i].data
    && fs'.tab[i].opencnt == fs.tab[i].opencnt && fs'.tab[i].xatr == fs.tab[i].xatr
  }

  /** The other requests leave everything of a node but its entries and its link count. */
  ghost predicate SameRest(fs: FS, fs': FS) {
    forall i {:trigger SameButEntries(fs, fs', i)} :: i in fs.tab ==> SameButEntries(fs, fs', i)
  }

  ghost predicate OnlyEntries(fs: FS, fs': FS) {
    SameRest(fs, fs') && fs'.tab.Keys == fs.tab.Keys && fs'.ino == fs.ino
  }

  lemma LinksKeepRest(fs: FS, i: Ino, links: nat)
    ensures OnlyEntries(fs, SetLinks(fs, i, links))
  {
  }

  lemma DelKeepsRest(fs: FS, d: Ino, n: Name)
    ensures OnlyEntries(fs, DelEntry(fs, d, n))
  {
  }

  lemma AddKeepsRest(fs: FS, d: Ino, n: Name, i: Ino)
    ensures OnlyEntries(fs, AddEntry(fs, d, n, i))
  {
  }

  lemma RemoveKeepsRest(fs: FS, p: Path, dir: bool)
    ensures OnlyEntries(fs, RemoveNode(fs, p, dir).0)
  {
    var l := Lookup(fs, p, None);
    if l.Found? && l.prnt.Some? && l.node.Some? {
      var d, i := l.prnt.value, l.node.value;
      var fs1 := SetLinks(fs, i, Dec32(Links(fs, i)));
      LinksKeepRest(fs, i, Dec32(Links(fs, i)));
      DelKeepsRest(fs1, d, l.name);
      RestTwice(fs, fs1, DelEntry(fs1, d, l.name));
    }
  }

  lemma RestTwice(fs0: FS, fs1: FS, fs2: FS)
    requires OnlyEntries(fs0, fs1) && OnlyEntries(fs1, fs2)
    ensures OnlyEntries(fs0, fs2)
  {
    forall i | i in fs0.tab ensures SameButEntries(fs0, fs2, i) {
      assert SameButEntries(fs0, fs1, i) && SameButEntries(fs1, fs2, i);
    }
  }

  lemma MoveKeepsRest(fs: FS, od: Ino, on: Name, nd: Ino, nn: Name, i: Ino)
    ensures OnlyEntries(fs, MoveEntry(fs, od, on, nd, nn, i).0)
  {
    var fs1 := DelEntry(fs, od, on);
    DelKeepsRest(fs, od, on);
    AddKeepsRest(fs1, nd, nn, i);
    RestTwice(fs, fs1, AddEntry(fs1, nd, nn, i));
  }

  lemma RenameKeepsRest(fs: FS, s: Path, t: Path, noreplace: bool)
    ensures OnlyEntries(fs, RenameEntry(fs, s, t, noreplace).0)
  {
    var l := Lookup(fs, s, None);
    if l.Found? && l.prnt.Some? && l.node.Some? {
      var i := l.node.value;
      var k := Lookup(fs, t, Some(i));
      if k.Found? && k.prnt.Some? {
        var fs1 := RemoveNode(fs, t, IsDir(fs, i)).0;
        RemoveKeepsRest(fs, t, IsDir(fs, i));
        MoveKeepsRest(fs, l.prnt.value, l.name, k.prnt.value, k.name, i);
        MoveKeepsRest(fs1, l.prnt.value, l.name, k.prnt.value, k.name, i);
        RestTwice(fs, fs1, MoveEntry(fs1, l.prnt.value, l.name, k.prnt.value, k.name, i).0);
      }
    }
  }

  lemma LinkKeepsRest(fs: FS, s: Path, t: Path)
    ensures OnlyEntries(fs, Link(fs, s, t).0)
  {
    var l, k := Lookup(fs, s, None), Lookup(fs, t, None);
    if l.Found? && l.node.Some? && k.Found? && k.prnt.Some? {
      var i := l.node.value;
      var fs1 := SetLinks(fs, i, Inc32(Links(fs, i)));
      LinksKeepRest(fs, i, Inc32(Links(fs, i)));
      AddKeepsRest(fs1, k.prnt.value, k.name, i);
      RestTwice(fs, fs1, AddEntry(fs1, k.prnt.value, k.name, i));
    }
  }

  /** What a namespace request does to the table: perhaps one new, unopened node, and new
      entries and link counts. */
  ghost predicate NamespaceTo(fs: FS, fs': FS) {
    && SameRest(fs, fs') && fs.ino <= fs'.ino
    && (forall i {:trigger i in fs'.tab} ::
          i in fs'.tab && i !in fs.tab ==>
            i == fs'.ino == fs.ino + 1 && fs'.tab[i].opencnt == 0 && fs'.tab[i].xatr == map[])
  }

  lemma MakeKeepsRest(fs: FS, p: Path, mode: bv32, data: Bytes)
    requires WellFormed(fs)
    ensures NamespaceTo(fs, MakeNode(fs, p, mode, data).0)
  {
  }

  lemma NamespaceKeepsRest(fs: FS, op: Op)
    requires WellFormed(fs) && !Local(op)
    ensures NamespaceTo(fs, After(fs, op))
  {
    if op.OpLink? {
      LinkKeepsRest(fs, Components(op.source), Components(op.target));
    } else if op.OpRename? || op.OpRename3? {
      RenameKeepsRest(fs, Components(op.source), Components(op.target),
                      op.OpRename3? && op.flags & RENAME_NOREPLACE == RENAME_NOREPLACE);
    } else if op.OpUnlink? || op.OpRmdir? {
      RemoveKeepsRest(fs, Components(op.path), op.OpRmdir?);
    } else {
      var mode := CreationMode(op);
      MakeKeepsRest(fs, Components(op.path), mode, if op.OpSymlink? then op.link else []);
    }
  }

  lemma LinkKeepsInv(fs: FS, op: Op)
    requires Inv(fs) && op.OpLink? && Admissible(fs, op)
    ensures Inv(After(fs, op))
  {
    ComponentsSpellable(op.target);
    LinkKeepsInvExactly(fs, Components(op.source), Components(op.target));
  }

  lemma RenameKeepsInv(fs: FS, op: Op)
    requires Inv(fs) && (op.OpRename? || op.OpRename3?) && Admissible(fs, op)
    ensures Inv(After(fs, op))
  {
    ComponentsSpellable(op.target);
    var noreplace := op.OpRename3? && op.flags & RENAME_NOREPLACE == RENAME_NOREPLACE;
    RenameKeepsInvExactly(fs, Components(op.source), Components(op.target), noreplace);
  }

  function CreationMode(op: Op): bv32 {
    if op.OpMknod? then op.mode
    else if op.OpMkdir? then S_IFDIR | (op.mode & PERMISSIONS)
    else S_IFLNK | 0x1FF
  }

  lemma StepKeepsInv(fs: FS, op: Op)
    requires Inv(fs) && Admissible(fs, op)
    ensures Inv(After(fs, op))
  {
    if Local(op) {
      LocalKeepsShape(fs, op);
      SameShapeKeepsInv(fs, After(fs, op));
    } else if op.OpLink? {
      LinkKeepsInv(fs, op);
    } else if op.OpRename? || op.OpRename3? {
      RenameKeepsInv(fs, op);
    } else if op.OpUnlink? || op.OpRmdir? {
      RemoveNodeKeepsInv(fs, Components(op.path), op.OpRmdir?);
    } else {
      ComponentsSpellable(op.path);
      var mode := CreationMode(op);
      MakeNodeKeepsInv(fs, Components(op.path), mode, if op.OpSymlink? then op.link else []);
    }
  }

  /** In every state that requests can lead to, the directories form a tree, directories
      out of reach are empty, and link counts are the numbers of entries. */
  lemma {:induction false} RunKeepsInv(fs: FS, ops: seq<Op>)
    requires Inv(fs) && AllAdmissible(fs, ops)
    ensures Inv(Run(fs, ops))
    decreases |ops|
  {
    if ops != [] {
      AllAdmissiblePrefix(fs, ops);
      RunKeepsInv(fs, ops[..|ops| - 1]);
      StepKeepsInv(Run(fs, ops[..|ops| - 1]), ops[|ops| - 1]);
    }
  }

  /** No walk returns to its start, no two paths name one directory, every entry is found
      from the root, and what cannot be found is empty. */
  ghost predicate DirectoryTree(fs: FS) {
    && (forall d: Ino, r: Path :: Walk(fs, d, r) == Some(d) ==> r == [])
    && (forall p, q :: SameDirectory(fs, p, q) ==> p == q)
    && (forall d: Ino, n: Name :: Child(fs, d, n).Some? ==> Reachable(fs, Child(fs, d, n).value))
    && (forall i :: i in fs.tab && !Reachable(fs, i) ==> fs.tab[i].chld == map[])
  }

  ghost predicate SameDirectory(fs: FS, p: Path, q: Path) {
    Resolve(fs, p).Some? && Resolve(fs, p) == Resolve(fs, q) && IsDir(fs, Resolve(fs, p).value)
  }

  lemma TreeIsDirectoryTree(fs: FS)
    requires Tree(fs)
    ensures DirectoryTree(fs)
  {
    forall d: Ino, r: Path | Walk(fs, d, r) == Some(d) ensures r == [] {
      NoCycles(fs, d, r);
    }
    forall p, q | SameDirectory(fs, p, q) ensures p == q {
      DirectoryPathUnique(fs, p, q);
    }
    forall d: Ino, n: Name | Child(fs, d, n).Some? ensures Reachable(fs, Child(fs, d, n).value) {
      var p := LinkedDirectoryHasOnePath(fs, d, n);
    }
  }

  /** Whatever has been requested of the file system that NewMemfs makes: its directories
      form a tree, and every link count is the number of the node's entries, as far as 32
      bits reach. */
  lemma DirectoriesFormATree(limit: nat, ops: seq<Op>, i: Ino)
    requires AllAdmissible(Initial(limit), ops)
    ensures var fs := Run(Initial(limit), ops);
            DirectoryTree(fs) && (i in fs.tab && i != ROOT ==> fs.tab[i].nlink == |Entries(fs, i)| % TWO_32)
  {
    InitialInv(limit);
    RunKeepsInv(Initial(limit), ops);
    var fs := Run(Initial(limit), ops);
    TreeIsDirectoryTree(fs);
    assert i in fs.tab && i != ROOT ==> Counted(fs, i);
  }

  // ----------------------------------------------------------- all or nothing

  lemma FailedLinkChangesNothing(fs: FS, op: Op)
    requires WellFormed(fs) && op.OpLink? && Admissible(fs, op) && Step(fs, op).1.Failed()
    ensures After(fs, op).tab == fs.tab
  {
    ComponentsSpellable(op.target);
    LinkEffect(fs, Components(op.source), Components(op.target));
  }

  lemma FailedRenameChangesNothing(fs: FS, op: Op)
    requires WellFormed(fs) && (op.OpRename? || op.OpRename3?) && Admissible(fs, op) && Step(fs, op).1.Failed()
    ensures After(fs, op).tab == fs.tab
  {
    ComponentsSpellable(op.target);
    var noreplace := op.OpRename3? && op.flags & RENAME_NOREPLACE == RENAME_NOREPLACE;
    var s, t := Components(op.source), Components(op.target);
    RenameEffect(fs, s, t, noreplace);
    if Goes(fs, s, t, noreplace) {
      ProperEffect(fs, s, t, noreplace);
    }
  }

  /** A request that fails changes nothing at all of any node. */
  lemma FailureChangesNothing(fs: FS, op: Op)
    requires WellFormed(fs) && Admissible(fs, op) && Step(fs, op).1.Failed()
    ensures After(fs, op).tab == fs.tab
  {
    if op.OpLink? {
      FailedLinkChangesNothing(fs, op);
    } else if op.OpRename? || op.OpRename3? {
      FailedRenameChangesNothing(fs, op);
    } else if op.OpUnlink? || op.OpRmdir? {
      RemoveNodeEffect(fs, Components(op.path), op.OpRmdir?);
    }
  }

  /** Link fails half way, with the count already raised, exactly when the target's parent
      is not a directory. */
  lemma LinkAllOrNothingExactly(fs: FS, s: Path, t: Path)
    requires Inv(fs) && Spellable(t)
    ensures (Link(fs, s, t).1.Failed() ==> Link(fs, s, t).0.tab == fs.tab) <==>
            (LinkGoes(fs, s, t) ==> IsDir(fs, Parent(fs, t)))
  {
    LinkEffect(fs, s, t);
    if LinkGoes(fs, s, t) && !IsDir(fs, Parent(fs, t)) {
      WalkInTable(fs, ROOT, s);
      var i := Resolve(fs, s).value;
      assert i != ROOT ==> Counted(fs, i);
      assert Link(fs, s, t).0.tab[i].nlink != fs.tab[i].nlink;
    }
  }

  /** Rename fails half way, with the source already deleted, exactly when something other
      than the root is moved under something that is not a directory. */
  lemma RenameAllOrNothingExactly(fs: FS, s: Path, t: Path, noreplace: bool)
    requires Inv(fs) && Spellable(t)
    ensures (RenameEntry(fs, s, t, noreplace).1.Failed() ==> RenameEntry(fs, s, t, noreplace).0.tab == fs.tab) <==>
            (Goes(fs, s, t, noreplace) ==> s == [] || IsDir(fs, Parent(fs, t)))
  {
    RenameEffect(fs, s, t, noreplace);
    if Goes(fs, s, t, noreplace) && !IsDir(fs, Parent(fs, t)) {
      NothingUnderAFile(fs, s, t, noreplace);
      if s == [] {
        assert Child(fs, ROOT, "").None?;
        assert fs.tab[ROOT].chld - {""} == fs.tab[ROOT].chld;
      } else {
        ResolvedHasEntry(fs, s);
        var d := SourceParent(fs, s);
        assert Last(s) !in RenameEntry(fs, s, t, noreplace).0.tab[d].chld;
      }
    }
  }

  // ------------------------------------------------------- Rename and Rename3

  lemma Rename3WithoutFlags(fs: FS, s: Path, t: Path)
    ensures Rename3(fs, s, t, 0) == Rename(fs, s, t)
  {
  }

  /** With NOREPLACE no link count changes, an existing target gives EEXIST with nothing
      changed, and otherwise the call is a Rename. */
  lemma NoReplaceRemovesNothing(fs: FS, s: Path, t: Path)
    requires WellFormed(fs) && Spellable(t)
    ensures var (fs', r) := Rename3(fs, s, t, RENAME_NOREPLACE);
            && (r == Err(EEXIST) ==> fs' == fs && Resolve(fs, t).Some?)
            && (r != Err(EEXIST) ==> (fs', r) == Rename(fs, s, t))
            && (Resolve(fs, t).None? ==> (fs', r) == Rename(fs, s, t))
            && (forall i :: i in fs.tab ==> i in fs'.tab && fs'.tab[i].nlink == fs.tab[i].nlink)
  {
    RenameEffect(fs, s, t, true);
    if BothFound(fs, s, t) {
      RenameLookups(fs, s, t);
    } else {
      LookupMeans(fs, s);
    }
  }

  // ------------------------------------------------------- nodes and handles

  /** Nodes are never dropped or renumbered, keep their kind, and a new node has a number
      beyond all earlier ones. */
  ghost predicate NodesKept(fs: FS, fs': FS) {
    && fs.ino <= fs'.ino
    && (forall i {:trigger IsDir(fs', i)} :: i in fs.tab ==> i in fs'.tab && IsDir(fs', i) == IsDir(fs, i))
    && (forall i {:trigger i in fs'.tab} :: i in fs'.tab && i !in fs.tab ==> i == fs'.ino == fs.ino + 1)
  }

  lemma ShapeKeepsNodes(fs: FS, fs': FS)
    requires SameShape(fs, fs')
    ensures NodesKept(fs, fs')
  {
  }

  lemma RestKeepsNodes(fs: FS, fs': FS)
    requires NamespaceTo(fs, fs')
    ensures NodesKept(fs, fs')
  {
    forall i | i in fs.tab ensures i in fs'.tab && IsDir(fs', i) == IsDir(fs, i) {
      assert SameButEntries(fs, fs', i);
    }
  }

  lemma StepKeepsNodes(fs: FS, op: Op)
    requires WellFormed(fs)
    ensures NodesKept(fs, After(fs, op))
  {
    if Local(op) {
      LocalKeepsShape(fs, op);
      ShapeKeepsNodes(fs, After(fs, op));
    } else {
      NamespaceKeepsRest(fs, op);
      RestKeepsNodes(fs, After(fs, op));
    }
  }

  ghost predicate NumbersKept(fs: FS, fs': FS, i: Ino) {
    && fs.ino <= fs'.ino
    && (i in fs.tab ==> i in fs'.tab && IsDir(fs', i) == IsDir(fs, i))
    && (i in fs'.tab && i !in fs.tab ==> fs.ino < i <= fs'.ino)
  }

  lemma NumbersStayKept(fs: FS, fs1: FS, fs2: FS, i: Ino)
    requires NumbersKept(fs, fs1, i) && NodesKept(fs1, fs2)
    ensures NumbersKept(fs, fs2, i)
  {
    if i in fs.tab {
      assert IsDir(fs2, i) == IsDir(fs1, i);
    }
  }

  /** Over every run numbers are never reused: a node keeps its number and its kind, and a
      node made in the run has a number beyond all that were given out before it. */
  lemma {:induction false} RunKeepsNodes(fs: FS, ops: seq<Op>, i: Ino)
    requires Inv(fs) && AllAdmissible(fs, ops)
    ensures NumbersKept(fs, Run(fs, ops), i)
    decreases |ops|
  {
    if ops != [] {
      var fs1, op := Run(fs, ops[..|ops| - 1]), ops[|ops| - 1];
      StepKeepsWellFormed(fs, ops);
      RunKeepsNodes(fs, ops[..|ops| - 1], i);
      StepKeepsNodes(fs1, op);
      NumbersStayKept(fs, fs1, After(fs1, op), i);
    }
  }

  // ------------------------------------------------------- attribute names

  /** No attribute has a name with a NUL in it. */
  ghost predicate CleanNames(fs: FS) {
    forall i: Ino, n: Bytes {:trigger n in fs.tab[i].xatr} :: i in fs.tab && n in fs.tab[i].xatr ==> 0 !in n
  }

  /** Names come from C strings, and so have no NUL. */
  predicate FromC(op: Op) {
    op.OpSetxattr? ==> 0 !in op.name
  }

  lemma StepKeepsCleanNames(fs: FS, op: Op)
    requires WellFormed(fs) && CleanNames(fs) && FromC(op)
    ensures CleanNames(After(fs, op))
  {
    if op.OpSetxattr? || op.OpRemovexattr? {
      AttributeOpCleanNames(fs, op);
    } else if Local(op) {
      var i := LocalOpIsLocal(fs, op);
      LocalKeepsAttributes(fs, After(fs, op), op, i);
    } else {
      NamespaceKeepsRest(fs, op);
      NamespaceKeepsCleanNames(fs, After(fs, op));
    }
  }

  lemma AttributeOpCleanNames(fs: FS, op: Op)
    requires CleanNames(fs) && FromC(op) && (op.OpSetxattr? || op.OpRemovexattr?)
    ensures CleanNames(After(fs, op))
  {
    var t := NodeAt(fs, Components(op.path));
    if t.At? {
      var xatr := fs.tab[t.i].xatr;
      SetCleanNames(fs, t.i, if op.OpSetxattr? then xatr[op.name := op.value] else xatr - {op.name});
    }
  }

  lemma SetCleanNames(fs: FS, i: Ino, xatr: map<Bytes, Bytes>)
    requires CleanNames(fs) && i in fs.tab && forall n: Bytes :: n in xatr ==> 0 !in n
    ensures CleanNames(SetInode(fs, i, fs.tab[i].(xatr := xatr)))
  {
  }

  lemma LocalKeepsAttributes(fs: FS, fs': FS, op: Op, i: Ino)
    requires CleanNames(fs) && LocalTo(fs, fs', op, i) && !op.OpSetxattr? && !op.OpRemovexattr?
    ensures CleanNames(fs')
  {
  }

  lemma NamespaceKeepsCleanNames(fs: FS, fs': FS)
    requires CleanNames(fs) && NamespaceTo(fs, fs')
    ensures CleanNames(fs')
  {
    forall i: Ino, n: Bytes | i in fs'.tab && n in fs'.tab[i].xatr ensures 0 !in n {
      assert SameButEntries(fs, fs', i);
    }
  }

  /** Over every run of requests whose names come from C strings. */
  lemma {:induction false} RunKeepsCleanNames(fs: FS, ops: seq<Op>)
    requires Inv(fs) && AllAdmissible(fs, ops) && CleanNames(fs)
    requires forall k :: 0 <= k < |ops| ==> FromC(ops[k])
    ensures CleanNames(Run(fs, ops))
    decreases |ops|
  {
    if ops != [] {
      StepKeepsWellFormed(fs, ops);
      RunKeepsCleanNames(fs, ops[..|ops| - 1]);
      StepKeepsCleanNames(Run(fs, ops[..|ops| - 1]), ops[|ops| - 1]);
    }
  }

  // ------------------------------------------------------------- open counts

  /** How a request changes the number of times handle `h` is open. */
  function Opened(fs: FS, op: Op, h: nat): int {
    match op
    case OpOpen(path, dir) =>
      var (_, o, fh) := OpenNode(fs, Components(path), dir);
      if o == Return(0) && fh == h then 1 else 0
    case OpRelease(fh) => if fh == h && CloseNode(fs, fh).1 == Return(0) then -1 else 0
    case _ => 0
  }

  /** Successful opens that returned `h`, less successful releases of `h`. */
  function Balance(fs: FS, ops: seq<Op>, h: nat): int
    decreases |ops|
  {
    if ops == [] then 0
    else Balance(fs, ops[..|ops| - 1], h) + Opened(Run(fs, ops[..|ops| - 1]), ops[|ops| - 1], h)
  }

  function OpenCount(fs: FS, h: nat): nat {
    if h in fs.tab then fs.tab[h].opencnt else 0
  }

  lemma StepOpenCount(fs: FS, op: Op, h: nat)
    requires WellFormed(fs)
    ensures OpenCount(After(fs, op), h) == OpenCount(fs, h) + Opened(fs, op, h)
  {
    if op.OpOpen? || op.OpRelease? {
      StepOwnOpenCount(fs, op, h);
    } else if Local(op) {
      var i := LocalOpIsLocal(fs, op);
      LocalKeepsOpenCount(fs, After(fs, op), op, i, h);
    } else {
      NamespaceKeepsRest(fs, op);
      RestKeepsOpenCount(fs, After(fs, op), h);
    }
  }

  lemma LocalKeepsOpenCount(fs: FS, fs': FS, op: Op, i: Ino, h: nat)
    requires LocalTo(fs, fs', op, i) && !op.OpOpen? && !op.OpRelease?
    ensures OpenCount(fs', h) == OpenCount(fs, h)
  {
  }

  lemma RestKeepsOpenCount(fs: FS, fs': FS, h: nat)
    requires NamespaceTo(fs, fs')
    ensures OpenCount(fs', h) == OpenCount(fs, h)
  {
    assert h in fs.tab ==> SameButEntries(fs, fs', h);
  }

  lemma StepOwnOpenCount(fs: FS, op: Op, h: nat)
    requires op.OpOpen? || op.OpRelease?
    ensures OpenCount(After(fs, op), h) == OpenCount(fs, h) + Opened(fs, op, h)
  {
  }

  lemma StepKeepsWellFormed(fs: FS, ops: seq<Op>)
    requires Inv(fs) && AllAdmissible(fs, ops) && ops != []
    ensures Inv(Run(fs, ops[..|ops| - 1])) && AllAdmissible(fs, ops[..|ops| - 1])
  {
    AllAdmissiblePrefix(fs, ops);
    RunKeepsInv(fs, ops[..|ops| - 1]);
  }

  /** Over every run the open count of a handle is the balance of opens and releases. */
  lemma {:induction false} OpenCountIsBalance(fs: FS, ops: seq<Op>, h: nat)
    requires Inv(fs) && AllAdmissible(fs, ops)
    ensures OpenCount(Run(fs, ops), h) == OpenCount(fs, h) + Balance(fs, ops, h)
    decreases |ops|
  {
    if ops != [] {
      StepKeepsWellFormed(fs, ops);
      OpenCountIsBalance(fs, ops[..|ops| - 1], h);
      StepOpenCount(Run(fs, ops[..|ops| - 1]), ops[|ops| - 1], h);
    }
  }

  /** A successful open returns the number of the node its path resolves to, and from then
      on requests with that handle reach that node. */
  lemma OpenReturnsTheNode(fs: FS, p: Path, dir: bool, q: Path)
    requires WellFormed(fs) && fs.ino < NO_HANDLE
    ensures var (fs', o, h) := OpenNode(fs, p, dir);
            && (o == Return(0) <==> NodeAt(fs, p).At? && IsDir(fs, NodeAt(fs, p).i) == dir)
            && (o == Return(0) ==> Resolve(fs, p) == Some(h) && GetNode(fs', q, h) == At(h))
            && (o != Return(0) ==> fs' == fs && h == NO_HANDLE)
  {
    LookupMeans(fs, p);
  }

  // ------------------------------------------------------ bytes over whole runs

  /** The change a request makes to the bytes of node `h`, if any. */
  function Changed(fs: FS, op: Op, h: nat): seq<Files.Change>
    requires h in fs.tab
  {
    if Step(fs, op).1.Failed() then []
    else match op
      case OpTruncate(path, size, fh) =>
        if GetNode(fs, Components(path), fh) == At(h) then [Files.Resize(size)] else []
      case OpWrite(path, buff, ofst, fh) =>
        if GetNode(fs, Components(path), fh) == At(h) then [Files.Put(ofst, buff)] else []
      case OpFallocate(path, _, off, length, fh) =>
        if GetNode(fs, Components(path), fh) == At(h) then [Files.Grow(off + length)] else []
      case OpCopy(pathIn, fhIn, offIn, path, fhOut, offOut, size) =>
        var i := GetNode(fs, Components(pathIn), fhIn);
        if i.At? && GetNode(fs, Components(path), fhOut) == At(h) && Window(fs.tab[i.i].data, offIn, size) != []
        then [Files.Put(offOut, Window(fs.tab[i.i].data, offIn, size))] else []
      case _ => []
  }

  lemma StepBytes(fs: FS, op: Op, h: nat)
    requires WellFormed(fs) && h in fs.tab
    ensures h in After(fs, op).tab
    ensures After(fs, op).tab[h].data == Files.ApplyAll(fs.tab[h].data, Changed(fs, op, h))
  {
    var cs := Changed(fs, op, h);
    if cs != [] {
      assert cs[..|cs| - 1] == [];
      assert Files.ApplyAll(fs.tab[h].data, cs) == Files.Apply(fs.tab[h].data, cs[0]);
    }
    if ByteOp(op) {
      ByteOpBytes(fs, op, h);
    } else if Local(op) {
      var i := LocalOpIsLocal(fs, op);
      LocalKeepsBytes(fs, After(fs, op), op, i, h);
    } else {
      NamespaceKeepsRest(fs, op);
      assert SameButEntries(fs, After(fs, op), h);
    }
  }

  lemma LocalKeepsBytes(fs: FS, fs': FS, op: Op, i: Ino, h: nat)
    requires LocalTo(fs, fs', op, i) && !ByteOp(op) && h in fs.tab
    ensures h in fs'.tab && fs'.tab[h].data == fs.tab[h].data
  {
  }

  /** The bytes of node `h` after the request, `cs` being what the request does to them. */
  ghost predicate BytesBy(fs: FS, fs': FS, h: nat, cs: seq<Files.Change>)
    requires h in fs.tab
  {
    h in fs'.tab && fs'.tab[h].data == if cs == [] then fs.tab[h].data else Files.Apply(fs.tab[h].data, cs[0])
  }

  lemma WriteBytes(fs: FS, op: Op, h: nat)
    requires h in fs.tab && op.OpWrite?
    ensures BytesBy(fs, After(fs, op), h, Changed(fs, op, h))
  {
  }

  lemma CopyBytes(fs: FS, op: Op, h: nat)
    requires h in fs.tab && op.OpCopy?
    ensures BytesBy(fs, After(fs, op), h, Changed(fs, op, h))
  {
  }

  lemma SizeOpBytes(fs: FS, op: Op, h: nat)
    requires h in fs.tab && (op.OpTruncate? || op.OpFallocate?)
    ensures BytesBy(fs, After(fs, op), h, Changed(fs, op, h))
  {
  }

  lemma ByteOpBytes(fs: FS, op: Op, h: nat)
    requires h in fs.tab && ByteOp(op)
    ensures BytesBy(fs, After(fs, op), h, Changed(fs, op, h))
  {
    if op.OpWrite? {
      WriteBytes(fs, op, h);
    } else if op.OpCopy? {
      CopyBytes(fs, op, h);
    } else {
      SizeOpBytes(fs, op, h);
    }
  }

  function Changes(fs: FS, ops: seq<Op>, h: nat): seq<Files.Change>
    decreases |ops|
  {
    if ops == [] then []
    else
      var fs1 := Run(fs, ops[..|ops| - 1]);
      Changes(fs, ops[..|ops| - 1], h) + if h in fs1.tab then Changed(fs1, ops[|ops| - 1], h) else []
  }

  lemma {:induction false} ApplyAllAppend(data: Bytes, cs: seq<Files.Change>, ds: seq<Files.Change>)
    ensures Files.ApplyAll(data, cs + ds) == Files.ApplyAll(Files.ApplyAll(data, cs), ds)
    decreases |ds|
  {
    if ds == [] {
      assert cs + ds == cs;
    } else {
      ApplyAllAppend(data, cs, ds[..|ds| - 1]);
      assert (cs + ds)[..|cs + ds| - 1] == cs + ds[..|ds| - 1];
    }
  }

  /** Over every run the bytes of a node are those that its own truncations, writes,
      copies and allocations make, whatever happens to the names of the node. */
  lemma {:induction false} BytesOverRun(fs: FS, ops: seq<Op>, h: nat)
    requires Inv(fs) && AllAdmissible(fs, ops) && h in fs.tab
    ensures h in Run(fs, ops).tab
    ensures Run(fs, ops).tab[h].data == Files.ApplyAll(fs.tab[h].data, Changes(fs, ops, h))
    decreases |ops|
  {
    if ops != [] {
      var front := ops[..|ops| - 1];
      StepKeepsWellFormed(fs, ops);
      BytesOverRun(fs, front, h);
      StepBytes(Run(fs, front), ops[|ops| - 1], h);
      ApplyAllAppend(fs.tab[h].data, Changes(fs, front, h), Changed(Run(fs, front), ops[|ops| - 1], h));
    }
  }

  /** A byte read by an open handle after any run is the byte last put at its offset
      through any handle or name of the node, or zero. */
  lemma ReadByHandleAfterRun(fs: FS, ops: seq<Op>, h: nat, q: Path, n: nat, ofst: nat)
    requires Inv(fs) && AllAdmissible(fs, ops) && h in fs.tab && h != NO_HANDLE
    requires 0 < OpenCount(fs, h) + Balance(fs, ops, h)
    ensures ReadsLastBytes(Run(fs, ops), fs.tab[h].data, Changes(fs, ops, h), q, n, ofst, h)
  {
    var after, cs := Run(fs, ops), Changes(fs, ops, h);
    assert Open(after, h) && after.tab[h].data == Files.ApplyAll(fs.tab[h].data, cs) by {
      OpenCountIsBalance(fs, ops, h);
      BytesOverRun(fs, ops, h);
    }
    ReadOpenHandle(after, fs.tab[h].data, cs, q, n, ofst, h);
  }

  /** A read of node `h` gives the bytes that the changes `cs` last left in `data`, as far
      as the changed file reaches. */
  ghost predicate ReadsLastBytes(fs: FS, data: Bytes, cs: seq<Files.Change>, q: Path, n: nat, ofst: nat, h: nat) {
    var (r, bytes) := Read(fs, q, n, ofst, h);
    && r == Return(|bytes|)
    && |bytes| == Files.Max(0, Files.Min(n, |Files.ApplyAll(data, cs)| - ofst))
    && forall k: nat :: k < |bytes| ==> bytes[k] == Files.LastByte(data, cs, ofst + k)
  }

  lemma ReadOpenHandle(fs: FS, data: Bytes, cs: seq<Files.Change>, q: Path, n: nat, ofst: nat, h: nat)
    requires Open(fs, h) && h != NO_HANDLE && fs.tab[h].data == Files.ApplyAll(data, cs)
    ensures ReadsLastBytes(fs, data, cs, q, n, ofst, h)
  {
    WindowOfChanged(data, cs, ofst, n);
  }

  lemma ByteOfChanged(data: Bytes, cs: seq<Files.Change>, ofst: nat, n: nat, k: nat)
    requires k < |Window(Files.ApplyAll(data, cs), ofst, n)|
    ensures Window(Files.ApplyAll(data, cs), ofst, n)[k] == Files.LastByte(data, cs, ofst + k)
  {
    Files.WindowBytes(Files.ApplyAll(data, cs), ofst, n);
    Files.NoStaleBytes(data, cs, ofst + k);
  }

  lemma WindowOfChanged(data: Bytes, cs: seq<Files.Change>, ofst: nat, n: nat)
    ensures var w := Window(Files.ApplyAll(data, cs), ofst, n);
            && |w| == Files.Max(0, Files.Min(n, |Files.ApplyAll(data, cs)| - ofst))
            && forall k: nat :: k < |w| ==> w[k] == Files.LastByte(data, cs, ofst + k)
  {
    var w := Window(Files.ApplyAll(data, cs), ofst, n);
    Files.WindowBytes(Files.ApplyAll(data, cs), ofst, n);
    forall k: nat | k < |w| ensures w[k] == Files.LastByte(data, cs, ofst + k) {
      ByteOfChanged(data, cs, ofst, n, k);
    }
  }

  /** What a handle has written it reads back, whatever is unlinked, renamed, replaced or
      released meanwhile, as long as the handle stays open and nothing else changes the
      bytes of its node. */
  lemma WriteThenRead(fs: FS, buff: Bytes, ofst: nat, h: nat, p: Path, ops: seq<Op>, q: Path)
    requires Inv(fs) && h != NO_HANDLE && Open(fs, h)
    requires ofst + |buff| <= |fs.tab[h].data| || CanAllocate(fs, ofst + |buff|)
    requires AllAdmissible(Write(fs, p, buff, ofst, h).0, ops)
    requires 0 < OpenCount(fs, h) + Balance(Write(fs, p, buff, ofst, h).0, ops, h)
    requires Changes(Write(fs, p, buff, ofst, h).0, ops, h) == []
    ensures Write(fs, p, buff, ofst, h).1 == Return(|buff|)
    ensures Read(Run(Write(fs, p, buff, ofst, h).0, ops), q, |buff|, ofst, h) == (Return(|buff|), buff)
  {
    var fs1 := Write(fs, p, buff, ofst, h).0;
    assert SameShape(fs, fs1);
    SameShapeKeepsInv(fs, fs1);
    OpenCountIsBalance(fs1, ops, h);
    BytesOverRun(fs1, ops, h);
    Files.ReadWritten(fs.tab[h].data, ofst, buff);
  }
}
