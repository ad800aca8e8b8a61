/** The in-memory file system itself: nodes on the heap, updated in place.  Every method
    is proved to do to the abstract file system what Operations says. */
module Memfs {
  import opened Fuse
  import opened Inodes
  import opened Paths
  import opened Operations
  import opened Slices
  import Runs

  class Node {
    const ino: Ino
    const hasChildren: bool  // the map of children is not nil
    var mode: bv32
    var nlink: nat
    var xatr: map<Bytes, Bytes>
    var chld: map<Name, Node>
    var data: Slice
    var size: nat  // stat.Size
    var opencnt: nat
    ghost var allocs: nat  // how often data has been given a new array
    ghost var onlyGrown: bool  // made without bytes, and never cut shorter since

    ghost predicate Valid()
      reads this
    {
      && data.Valid() && size == data.len
      && hasChildren == IsDirMode(mode)
      && (!hasChildren ==> chld == map[])
    }

    /** This heap node is what `inode` describes. */
    ghost predicate Represents(inode: Inode)
      reads this, data.arr
    {
      && Valid()
      && inode.mode == mode && inode.nlink == nlink && inode.xatr == xatr && inode.opencnt == opencnt
      && inode.data == data.Contents()
      && inode.chld.Keys == chld.Keys
      && forall n :: n in chld ==> chld[n].ino == inode.chld[n]
    }

    function GetStat(): Stat
      reads this
    {
      Stat(ino, mode, nlink, size)
    }

    method Bind(r: Slice)
      modifies this`data, this`size, this`allocs
      ensures data == r && size == r.len
      ensures allocs == old(allocs) + if r.arr == old(data.arr) then 0 else 1
    {
      allocs := allocs + if r.arr == data.arr then 0 else 1;
      data := r;
      size := r.len;
    }

    constructor (ino: Ino, mode: bv32)
      ensures this.ino == ino && fresh(data.arr) && data.arr.Length == 0 && allocs == 0 && onlyGrown
      ensures Represents(NewInode(mode, []))
    {
      this.ino := ino;
      this.hasChildren := IsDirMode(mode);
      this.mode := mode;
      this.nlink := 1;
      this.xatr := map[];
      this.chld := map[];
      var arr := new byte[0];
      this.data := Slice(arr, 0);
      this.size := 0;
      this.opencnt := 0;
      this.allocs := 0;
      this.onlyGrown := true;
    }
  }

  lemma SetTwice(fs0: FS, fs1: FS, fs2: FS, i: Ino)
    requires i in fs1.tab && fs1 == SetInode(fs0, i, fs1.tab[i])
    requires i in fs2.tab && fs2 == SetInode(fs1, i, fs2.tab[i])
    ensures fs2 == SetInode(fs0, i, fs2.tab[i])
  {
  }

  method MakeNewNode(ino: Ino, mode: bv32, data: Bytes) returns (n: Node)
    ensures fresh(n) && fresh(n.data.arr) && n.ino == ino && n.data.arr.Length == |data|
    ensures n.onlyGrown == (data == []) && (n.onlyGrown ==> Lean(n))
    ensures n.Represents(NewInode(mode, data))
  {
    n := new Node(ino, mode);
    var arr := new byte[|data|](k requires 0 <= k < |data| => data[k]);
    assert arr[..] == data;
    n.data := Slice(arr, |data|);
    n.size := |data|;
    n.onlyGrown := data == [];
  }

  /** The capacity is the size rounded up, and every array given to the node so far has
      added at least one unit to it. */
  ghost predicate Lean(n: Node)
    reads n
  {
    n.allocs * UNIT <= n.data.arr.Length == RoundUp(n.size)
  }

  /** The node is still like that once it has been given slice `r`. */
  ghost predicate LeanWith(n: Node, r: Slice)
    reads n
  {
    (n.allocs + if r.arr == n.data.arr then 0 else 1) * UNIT <= r.arr.Length == RoundUp(r.len)
  }

  lemma RoundUpGrows(size: nat, end: nat)
    requires size <= end
    ensures RoundUp(end) == RoundUp(size) || RoundUp(size) + UNIT <= RoundUp(end)
  {
    assert (size + UNIT - 1) / UNIT <= (end + UNIT - 1) / UNIT;
  }

  lemma StaysLean(n: Node, r: Slice)
    requires Lean(n) && n.size <= r.len && r.arr.Length == RoundUp(r.len)
    requires r.arr == n.data.arr <==> n.data.arr.Length == RoundUp(r.len)
    ensures LeanWith(n, r)
  {
    RoundUpGrows(n.size, r.len);
  }

  ghost function Ref(n: Node?): Option<Ino> {
    if n == null then None else Some(n.ino)
  }

  class Memfs {
    const limit: nat
    var ino: nat
    var root: Node
    var openmap: map<nat, Node>
    ghost var nodes: map<Ino, Node>  // every node ever made
    ghost var owner: map<array<byte>, Ino>  // the node whose bytes an array holds
    ghost var fs: FS  // the abstract file system
    ghost var Repr: set<object>

    ghost predicate Has(n: Node)
      reads this
    {
      n.ino in nodes && nodes[n.ino] == n
    }

    ghost predicate NodeOk(i: Ino)
      requires i in nodes
      reads this, nodes[i], nodes[i].data.arr
    {
      var n := nodes[i];
      && 1 <= i <= ino && n.ino == i
      && i in fs.tab && n.Represents(fs.tab[i])
      && (forall m :: m in n.chld ==> Has(n.chld[m]))
      && (i in openmap <==> 0 < n.opencnt)
      && (i in openmap ==> openmap[i] == n)
      && (n.onlyGrown ==> Lean(n))
      && n.data.arr.Length <= limit
      && n.data.arr in owner && owner[n.data.arr] == i
    }

    ghost predicate Valid()
      reads this, Repr
      ensures Valid() ==> this in Repr
    {
      && this in Repr
      && fs.tab.Keys == nodes.Keys && fs.ino == ino && fs.limit == limit < TWO_63
      && openmap.Keys <= nodes.Keys
      && (forall i :: i in nodes ==> nodes[i] in Repr && nodes[i].data.arr in Repr)
      && (forall i {:trigger NodeOk(i)} :: i in nodes ==> NodeOk(i))
      && Has(root) && root.ino == ROOT
    }

    /** Earlier nodes are still the same objects, and all others are new ones. */
    twostate predicate KeepsNodes()
      reads this
    {
      && (forall i :: i in old(nodes) ==> i in nodes && nodes[i] == old(nodes[i]))
      && (forall i :: i in nodes && i !in old(nodes) ==> fresh(nodes[i]))
    }

    /** In every state of every file system, a node that was made without bytes and has
        never been cut shorter was given at most one array per allocation unit of its
        size, and wastes less than one unit. */
    lemma GrowthBound(i: Ino)
      requires Valid() && i in nodes && nodes[i].onlyGrown
      ensures var n := nodes[i];
              n.allocs <= (n.size + UNIT - 1) / UNIT && n.data.len <= n.data.arr.Length < n.data.len + UNIT
    {
      assert NodeOk(i);
    }

    constructor (limit: nat)
      requires limit < TWO_63
      ensures Valid() && fresh(Repr)
      ensures fs == Runs.Initial(limit)
    {
      this.limit := limit;
      this.ino := 1;
      var r := new Node(1, S_IFDIR | 0x1FF);
      this.root := r;
      this.openmap := map[];
      this.nodes := map[1 := r];
      this.owner := map[r.data.arr := 1];
      this.fs := FS(ROOT, map[ROOT := NewInode(S_IFDIR | 0x1FF, [])], limit);
      this.Repr := {this, r, r.data.arr};
    }

    method LookupNode(path: string, ancestor: Node?)
      returns (panic: bool, prnt: Node?, name: Name, node: Node?)
      requires Valid() && (ancestor != null ==> Has(ancestor))
      ensures Lookup(fs, Components(path), Ref(ancestor)) ==
              if panic then TooLong else Found(Ref(prnt), name, Ref(node))
      ensures prnt != null ==> Has(prnt)
      ensures node != null ==> Has(node) && prnt != null
    {
      prnt, name, node, panic := root, "", root, false;
      var parts := Split(path);
      var i := 0;
      while i < |parts|
        invariant 0 <= i <= |parts| && !panic
        invariant prnt != null ==> Has(prnt)
        invariant node != null ==> Has(node) && prnt != null
        invariant LookupFrom(fs, Ref(prnt), name, Ref(node), NonBlank(parts[i..]), Ref(ancestor)) ==
                  Lookup(fs, Components(path), Ref(ancestor))
      {
        var c := parts[i];
        assert parts[i..][1..] == parts[i + 1..];
        if c != "" {
          assert NonBlank(parts[i..])[1..] == NonBlank(parts[i + 1..]);
          if MAX_NAME < |c| {
            panic := true;
            return;
          }
          prnt, name := node, c;
          if node == null {
            return;
          }
          assert NodeOk(node.ino);
          node := if c in node.chld then node.chld[c] else null;
          assert Ref(node) == Child(fs, prnt.ino, c);
          if ancestor != null && node == ancestor {
            name := "";
            return;
          }
        }
        i := i + 1;
      }
    }

    // ------------------------------------------- single assignments on the heap
    //
    // The helpers below carry out one or two Go statements each, and are where the
    // invariant is re-established; the operations further down only call them.

    /** A node whose fields and bytes have not changed still satisfies the invariant. */
    twostate lemma StillOk(i: Ino)
      requires i in old(nodes) && i in nodes && nodes[i] == old(nodes[i])
      requires old(NodeOk(i)) && unchanged(nodes[i]) && unchanged(nodes[i].data.arr)
      requires i in fs.tab && fs.tab[i] == old(fs.tab[i])
      requires old(ino) <= ino
      requires if i in openmap then i in old(openmap) && openmap[i] == old(openmap[i]) else i !in old(openmap)
      requires forall a :: a in old(owner) ==> a in owner && owner[a] == old(owner[a])
      requires forall j :: j in old(nodes) ==> j in nodes && nodes[j] == old(nodes[j])
      ensures NodeOk(i)
    {
    }

    /** Only node `n`, old or new, and what is recorded of it have changed, and they agree again. */
    twostate lemma OnlyChanged(n: Node)
      requires old(Valid()) && root == old(root) && old(ino) <= ino
      requires nodes == old(nodes)[n.ino := n] && (n.ino in old(nodes) ==> old(nodes)[n.ino] == n)
      requires fs.tab.Keys == nodes.Keys && fs.ino == ino && fs.limit == limit
      requires forall i :: i in nodes && nodes[i] != n ==> unchanged(nodes[i])
      requires forall a :: a in old(owner) && old(owner[a]) != n.ino ==> unchanged(a)
      requires forall i :: i in nodes && i != n.ino ==> fs.tab[i] == old(fs.tab[i])
      requires openmap.Keys <= nodes.Keys
      requires forall i :: i in nodes && i != n.ino ==>
                 if i in openmap then i in old(openmap) && openmap[i] == old(openmap[i]) else i !in old(openmap)
      requires forall a :: a in old(owner) ==> a in owner && owner[a] == old(owner[a])
      requires old(Repr) <= Repr && n in Repr && n.data.arr in Repr && NodeOk(n.ino)
      ensures Valid()
    {
      forall i | i in nodes ensures NodeOk(i) {
        if i != n.ino {
          assert old(NodeOk(i));
          assert nodes[i] != n && old(owner[nodes[i].data.arr]) == i;
          StillOk(i);
        }
      }
    }

    /** Only fields of node `n` other than its bytes, and the open table at `n`, have changed. */
    twostate lemma OnlyFields(n: Node)
      requires old(Valid()) && old(Has(n)) && root == old(root) && ino == old(ino)
      requires nodes == old(nodes) && owner == old(owner) && Repr == old(Repr)
      requires forall i :: i in nodes && nodes[i] != n ==> unchanged(nodes[i])
      requires forall a :: a in owner ==> unchanged(a)
      requires n.data == old(n.data) && n.size == old(n.size) && n.allocs == old(n.allocs)
      requires n.onlyGrown ==> old(n.onlyGrown)
      requires n.hasChildren == IsDirMode(n.mode) && (!n.hasChildren ==> n.chld == map[])
      requires forall m :: m in n.chld ==> Has(n.chld[m])
      requires forall i :: i != n.ino ==>
                 if i in openmap then i in old(openmap) && openmap[i] == old(openmap[i]) else i !in old(openmap)
      requires (n.ino in openmap <==> 0 < n.opencnt) && (n.ino in openmap ==> openmap[n.ino] == n)
      requires n.ino in fs.tab && n.ino in old(fs).tab && fs == SetInode(old(fs), n.ino, fs.tab[n.ino])
      requires var inode := fs.tab[n.ino];
               && inode.mode == n.mode && inode.nlink == n.nlink && inode.xatr == n.xatr && inode.opencnt == n.opencnt
               && inode.data == old(fs).tab[n.ino].data && inode.chld.Keys == n.chld.Keys
               && forall m :: m in n.chld ==> n.chld[m].ino == inode.chld[m]
      ensures Valid()
    {
      assert old(NodeOk(n.ino));
      assert n.data.arr in owner;
      assert n.data.Contents() == old(n.data.Contents());
      assert NodeOk(n.ino);
      OnlyChanged(n);
    }

    method AdvanceIno()
      requires Valid()
      modifies this`ino, this`fs
      ensures Valid() && fs == old(fs).(ino := old(fs).ino + 1)
    {
      ino := ino + 1;
      fs := fs.(ino := ino);
      OthersStillOk();
    }

    /** A new node joins the set of nodes; no entry points to it yet. */
    method Register(n: Node, ghost inode: Inode)
      requires Valid() && n.ino == ino + 1 && n !in Repr && n.data.arr !in Repr && n.data.arr !in owner
      requires n.Represents(inode) && n.chld == map[] && n.opencnt == 0 && n.data.arr.Length <= limit
      requires n.onlyGrown ==> Lean(n)
      modifies this`ino, this`fs, this`nodes, this`owner, this`Repr
      ensures Valid() && Repr == old(Repr) + {n, n.data.arr} && Has(n)
      ensures n.ino !in old(nodes) && nodes == old(nodes)[n.ino := n]
      ensures fs == SetInode(old(fs).(ino := n.ino), n.ino, inode)
    {
      NumbersGivenOut();
      ino := ino + 1;
      nodes := nodes[ino := n];
      owner := owner[n.data.arr := ino];
      Repr := Repr + {n, n.data.arr};
      fs := SetInode(fs.(ino := ino), ino, inode);
      Registered(n);
    }

    lemma NumbersGivenOut()
      requires Valid()
      ensures forall i :: i in nodes ==> i <= ino
    {
      forall i | i in nodes ensures i <= ino {
        assert NodeOk(i);
      }
    }

    twostate lemma Registered(n: Node)
      requires old(Valid()) && n.ino == old(ino) + 1 == ino && openmap == old(openmap) && root == old(root)
      requires ino in fs.tab && n.Represents(fs.tab[ino])
      requires n.chld == map[] && n.opencnt == 0 && n.data.arr.Length <= limit && (n.onlyGrown ==> Lean(n))
      requires forall i :: i in old(nodes) ==> i < n.ino
      requires forall i :: i in old(nodes) ==> unchanged(old(nodes[i]))
      requires forall a :: a in old(owner) ==> unchanged(a)
      requires n.data.arr !in old(owner) && nodes == old(nodes)[ino := n] && owner == old(owner)[n.data.arr := ino]
      requires Repr == old(Repr) + {n, n.data.arr} && fs == SetInode(old(fs).(ino := ino), ino, fs.tab[ino])
      ensures Valid() && n.ino !in old(nodes)
    {
      assert NodeOk(n.ino);
      OnlyChanged(n);
    }

    twostate lemma OthersStillOk()
      requires old(Valid()) && old(ino) <= ino && openmap == old(openmap)
      requires forall i :: i in old(nodes) ==> i in nodes && nodes[i] == old(nodes[i])
      requires forall i :: i in old(nodes) ==> unchanged(nodes[i]) && i in fs.tab && fs.tab[i] == old(fs.tab[i])
      requires forall a :: a in old(owner) ==> unchanged(a) && a in owner && owner[a] == old(owner[a])
      ensures forall i :: i in old(nodes) ==> NodeOk(i)
    {
      forall i | i in old(nodes) ensures NodeOk(i) {
        assert old(NodeOk(i));
        StillOk(i);
      }
    }

    method StoreLinks(n: Node, nlink: nat)
      requires Valid() && Has(n)
      modifies n`nlink, this`fs
      ensures Valid() && fs == SetLinks(old(fs), n.ino, nlink)
      ensures nodes == old(nodes) && Repr == old(Repr)
    {
      assert NodeOk(n.ino);
      n.nlink := nlink;
      fs := SetLinks(fs, n.ino, nlink);
      OnlyFields(n);
    }

    method DeleteChild(d: Node, name: Name)
      requires Valid() && Has(d)
      modifies d`chld, this`fs
      ensures Valid() && fs == DelEntry(old(fs), d.ino, name)
      ensures nodes == old(nodes) && Repr == old(Repr)
    {
      assert NodeOk(d.ino);
      d.chld := d.chld - {name};
      fs := DelEntry(fs, d.ino, name);
      OnlyFields(d);
    }

    method AssignChild(d: Node, name: Name, n: Node)
      requires Valid() && Has(d) && Has(n) && d.hasChildren
      modifies d`chld, this`fs
      ensures Valid() && fs == AddEntry(old(fs), d.ino, name, n.ino)
      ensures nodes == old(nodes) && Repr == old(Repr)
    {
      assert NodeOk(d.ino);
      d.chld := d.chld[name := n];
      fs := AddEntry(fs, d.ino, name, n.ino);
      OnlyFields(d);
    }

    // ------------------------------------------------------------- namespace

    method RemoveNode(path: string, dir: bool) returns (o: Outcome)
      requires Valid()
      modifies this`fs, nodes.Values`nlink, nodes.Values`chld
      ensures Valid()
      ensures (fs, o) == Operations.RemoveNode(old(fs), Components(path), dir)
    {
      var panic, prnt, name, node := LookupNode(path, null);
      if panic {
        o := NAME_TOO_LONG;
      } else if node == null {
        o := Err(ENOENT);
      } else {
        assert NodeOk(node.ino);
        if !dir && IsDirMode(node.mode) {
          o := Err(EISDIR);
        } else if dir && !IsDirMode(node.mode) {
          o := Err(ENOTDIR);
        } else if node.chld.Keys != {} {
          o := Err(ENOTEMPTY);
        } else {
          StoreLinks(node, Dec32(node.nlink));
          DeleteChild(prnt, name);
          o := Return(0);
        }
      }
    }

    method AddNode(mode: bv32, data: Bytes) returns (n: Node)
      requires Valid() && |data| <= limit
      modifies this`ino, this`fs, this`nodes, this`owner, this`Repr
      ensures Valid() && fresh(Repr - old(Repr)) && KeepsNodes()
      ensures Has(n) && fresh(n) && n.ino == old(fs).ino + 1 && n.onlyGrown == (data == [])
      ensures fs == SetInode(old(fs).(ino := old(fs).ino + 1), n.ino, NewInode(mode, data))
    {
      n := MakeNewNode(ino + 1, mode, data);
      Register(n, NewInode(mode, data));
    }

    method AttachNewNode(d: Node, name: Name, mode: bv32, data: Bytes)
      requires Valid() && Has(d) && d.hasChildren && |data| <= limit
      modifies this`ino, this`fs, this`nodes, this`owner, this`Repr, d`chld
      ensures Valid() && fresh(Repr - old(Repr)) && KeepsNodes()
      ensures fs.ino in nodes && (data == [] ==> nodes[fs.ino].onlyGrown)
      ensures fs == AddEntry(SetInode(old(fs).(ino := old(fs).ino + 1), old(fs).ino + 1, NewInode(mode, data)),
                             d.ino, name, old(fs).ino + 1)
    {
      var made := AddNode(mode, data);
      AssignChild(d, name, made);
    }

    method Populate(d: Node, name: Name, mode: bv32, data: Bytes) returns (o: Outcome)
      requires Valid() && Has(d)
      modifies this`ino, this`fs, this`nodes, this`owner, this`Repr, d`chld
      ensures Valid() && fresh(Repr - old(Repr)) && KeepsNodes()
      ensures o == Return(0) ==> fs.ino in nodes && (data == [] ==> nodes[fs.ino].onlyGrown)
      ensures (fs, o) ==
              var fs1 := old(fs).(ino := old(fs).ino + 1);
              if old(fs).limit < |data| || !IsDir(old(fs), d.ino) then (fs1, Panic(RuntimeError))
              else (AddEntry(SetInode(fs1, fs1.ino, NewInode(mode, data)), d.ino, name, fs1.ino), Return(0))
    {
      assert IsDir(fs, d.ino) == d.hasChildren by {
        assert NodeOk(d.ino);
      }
      if limit < |data| || !d.hasChildren {
        AdvanceIno();
        o := Panic(RuntimeError);
      } else {
        AttachNewNode(d, name, mode, data);
        o := Return(0);
      }
    }

    method MakeNode(path: string, mode: bv32, data: Bytes) returns (o: Outcome)
      requires Valid() && ino + 1 < NO_HANDLE
      modifies this`ino, this`fs, this`nodes, this`owner, this`Repr, nodes.Values`chld
      ensures Valid() && fresh(Repr - old(Repr)) && KeepsNodes()
      ensures o == Return(0) ==> fs.ino in nodes && (data == [] ==> nodes[fs.ino].onlyGrown)
      ensures (fs, o) == Operations.MakeNode(old(fs), Components(path), mode, data)
    {
      var panic, prnt, name, node := LookupNode(path, null);
      if panic {
        o := NAME_TOO_LONG;
      } else if prnt == null {
        o := Err(ENOENT);
      } else if node != null {
        o := Err(EEXIST);
      } else {
        o := Populate(prnt, name, mode, data);
      }
    }

    method Mknod(path: string, mode: bv32) returns (o: Outcome)
      requires Valid() && ino + 1 < NO_HANDLE
      modifies this`ino, this`fs, this`nodes, this`owner, this`Repr, nodes.Values`chld
      ensures Valid() && fresh(Repr - old(Repr)) && KeepsNodes()
      ensures o == Return(0) ==> fs.ino in nodes && nodes[fs.ino].onlyGrown
      ensures (fs, o) == Runs.Step(old(fs), Runs.OpMknod(path, mode))
    {
      o := MakeNode(path, mode, []);
    }

    method Mkdir(path: string, mode: bv32) returns (o: Outcome)
      requires Valid() && ino + 1 < NO_HANDLE
      modifies this`ino, this`fs, this`nodes, this`owner, this`Repr, nodes.Values`chld
      ensures Valid() && fresh(Repr - old(Repr)) && KeepsNodes()
      ensures o == Return(0) ==> fs.ino in nodes && nodes[fs.ino].onlyGrown
      ensures (fs, o) == Runs.Step(old(fs), Runs.OpMkdir(path, mode))
    {
      o := MakeNode(path, S_IFDIR | (mode & PERMISSIONS), []);
    }

    method Symlink(target: Bytes, path: string) returns (o: Outcome)
      requires Valid() && ino + 1 < NO_HANDLE
      modifies this`ino, this`fs, this`nodes, this`owner, this`Repr, nodes.Values`chld
      ensures Valid() && fresh(Repr - old(Repr)) && KeepsNodes()
      ensures o == Return(0) ==> fs.ino in nodes && (target == [] ==> nodes[fs.ino].onlyGrown)
      ensures (fs, o) == Runs.Step(old(fs), Runs.OpSymlink(target, path))
    {
      o := MakeNode(path, S_IFLNK | 0x1FF, target);
    }

    method Unlink(path: string) returns (o: Outcome)
      requires Valid()
      modifies this`fs, nodes.Values`nlink, nodes.Values`chld
      ensures Valid()
      ensures (fs, o) == Runs.Step(old(fs), Runs.OpUnlink(path))
    {
      o := RemoveNode(path, false);
    }

    method Rmdir(path: string) returns (o: Outcome)
      requires Valid()
      modifies this`fs, nodes.Values`nlink, nodes.Values`chld
      ensures Valid()
      ensures (fs, o) == Runs.Step(old(fs), Runs.OpRmdir(path))
    {
      o := RemoveNode(path, true);
    }

    method Link(source: string, target: string) returns (o: Outcome)
      requires Valid()
      modifies this`fs, nodes.Values`nlink, nodes.Values`chld
      ensures Valid()
      ensures (fs, o) == Operations.Link(old(fs), Components(source), Components(target))
    {
      var panic1, prnt1, name1, oldnode := LookupNode(source, null);
      if panic1 {
        return NAME_TOO_LONG;
      }
      if oldnode == null {
        return Err(ENOENT);
      }
      var panic2, newprnt, newname, newnode := LookupNode(target, null);
      if panic2 {
        o := NAME_TOO_LONG;
      } else if newprnt == null {
        o := Err(ENOENT);
      } else if newnode != null {
        o := Err(EEXIST);
      } else {
        assert IsDir(fs, newprnt.ino) == newprnt.hasChildren && Links(fs, oldnode.ino) == oldnode.nlink by {
          assert NodeOk(newprnt.ino) && NodeOk(oldnode.ino);
        }
        StoreLinks(oldnode, Inc32(oldnode.nlink));
        if newprnt.hasChildren {
          AssignChild(newprnt, newname, oldnode);
          o := Return(0);
        } else {
          o := Panic(RuntimeError);
        }
      }
    }

    /** The last two statements of a rename. */
    method MoveEntry(oldprnt: Node, oldname: Name, newprnt: Node, newname: Name, node: Node) returns (o: Outcome)
      requires Valid() && Has(oldprnt) && Has(newprnt) && Has(node)
      modifies this`fs, oldprnt`chld, newprnt`chld
      ensures Valid()
      ensures (fs, o) ==
              Operations.MoveEntry(old(fs), oldprnt.ino, oldname, newprnt.ino, newname, node.ino)
    {
      assert IsDir(fs, newprnt.ino) == newprnt.hasChildren by {
        assert NodeOk(newprnt.ino);
      }
      DeleteChild(oldprnt, oldname);
      if newprnt.hasChildren {
        AssignChild(newprnt, newname, node);
        o := Return(0);
      } else {
        o := Panic(RuntimeError);
      }
    }

    /** The rest of a rename once both ends are known: replace the target, then move. */
    method MoveOver(target: string, replace: bool, oldprnt: Node, oldname: Name,
                    newprnt: Node, newname: Name, node: Node) returns (o: Outcome)
      requires Valid() && Has(oldprnt) && Has(newprnt) && Has(node)
      modifies this`fs, nodes.Values`nlink, nodes.Values`chld
      ensures Valid()
      ensures (fs, o) ==
              var (fs1, r) := if !replace then (old(fs), Return(0))
                              else Operations.RemoveNode(old(fs), Components(target), IsDir(old(fs), node.ino));
              if r != Return(0) then (fs1, r)
              else Operations.MoveEntry(fs1, oldprnt.ino, oldname, newprnt.ino, newname, node.ino)
    {
      if replace {
        assert IsDir(fs, node.ino) == IsDirMode(node.mode) by {
          assert NodeOk(node.ino);
        }
        o := RemoveNode(target, IsDirMode(node.mode));
        if o != Return(0) {
          return;
        }
      }
      o := MoveEntry(oldprnt, oldname, newprnt, newname, node);
    }

    method Rename(source: string, target: string) returns (o: Outcome)
      requires Valid()
      modifies this`fs, nodes.Values`nlink, nodes.Values`chld
      ensures Valid()
      ensures (fs, o) == Operations.Rename(old(fs), Components(source), Components(target))
    {
      var panic1, oldprnt, oldname, oldnode := LookupNode(source, null);
      if panic1 {
        return NAME_TOO_LONG;
      }
      if oldnode == null {
        return Err(ENOENT);
      }
      var panic2, newprnt, newname, newnode := LookupNode(target, oldnode);
      if panic2 {
        return NAME_TOO_LONG;
      }
      if newprnt == null {
        return Err(ENOENT);
      }
      if newname == "" {
        return Err(EINVAL);
      }
      if oldprnt == newprnt && oldname == newname {
        return Return(0);
      }
      o := MoveOver(target, newnode != null, oldprnt, oldname, newprnt, newname, oldnode);
    }

    method Rename3(source: string, target: string, flags: bv32) returns (o: Outcome)
      requires Valid()
      modifies this`fs, nodes.Values`nlink, nodes.Values`chld
      ensures Valid()
      ensures (fs, o) == Operations.Rename3(old(fs), Components(source), Components(target), flags)
    {
      if flags & !RENAME_NOREPLACE != 0 {
        return Err(EINVAL);
      }
      var panic1, oldprnt, oldname, oldnode := LookupNode(source, null);
      if panic1 {
        return NAME_TOO_LONG;
      }
      if oldnode == null {
        return Err(ENOENT);
      }
      var panic2, newprnt, newname, newnode := LookupNode(target, oldnode);
      if panic2 {
        return NAME_TOO_LONG;
      }
      if newprnt == null {
        return Err(ENOENT);
      }
      if newname == "" {
        return Err(EINVAL);
      }
      if oldprnt == newprnt && oldname == newname {
        return Return(0);
      }
      if newnode != null && flags & RENAME_NOREPLACE == RENAME_NOREPLACE {
        return Err(EEXIST);
      }
      o := MoveOver(target, newnode != null, oldprnt, oldname, newprnt, newname, oldnode);
    }

    // ---------------------------------------------------- nodes and handles

    /** What GetNode and a lookup without ancestor come back with. */
    ghost function Reached(panic: bool, n: Node?): Target {
      if panic then LongName else if n == null then Missing else At(n.ino)
    }

    method NodeAt(path: string) returns (panic: bool, n: Node?)
      requires Valid()
      ensures Reached(panic, n) == Operations.NodeAt(fs, Components(path))
      ensures n != null ==> Has(n) && !panic
    {
      var prnt, name, node;
      panic, prnt, name, node := LookupNode(path, null);
      n := if panic then null else node;
      assert n != null ==> NodeOk(n.ino);
    }

    method GetNode(path: string, fh: nat) returns (panic: bool, n: Node?)
      requires Valid()
      ensures Reached(panic, n) == Operations.GetNode(fs, Components(path), fh)
      ensures n != null ==> Has(n) && !panic
    {
      if fh == NO_HANDLE {
        panic, n := NodeAt(path);
      } else {
        panic, n := false, if fh in openmap then openmap[fh] else null;
        assert fh in nodes ==> NodeOk(fh);
      }
    }

    function Failure(panic: bool): Outcome {
      if panic then NAME_TOO_LONG else Err(ENOENT)
    }

    method OpenNode(path: string, dir: bool) returns (o: Outcome, fh: nat)
      requires Valid()
      modifies this`fs, this`openmap, nodes.Values`opencnt
      ensures Valid()
      ensures (fs, o, fh) == Operations.OpenNode(old(fs), Components(path), dir)
      ensures nodes == old(nodes) && ino == old(ino) && Repr == old(Repr)
    {
      var panic, node := NodeAt(path);
      if node == null {
        o, fh := Failure(panic), NO_HANDLE;
      } else {
        assert NodeOk(node.ino);
        o, fh := OpenFound(node, dir);
      }
    }

    method OpenFound(node: Node, dir: bool) returns (o: Outcome, fh: nat)
      requires Valid() && Has(node) && node.ino in fs.tab
      modifies this`fs, this`openmap, node`opencnt
      ensures Valid()
      ensures (fs, o, fh) == Operations.OpenFound(old(fs), node.ino, dir)
    {
      assert IsDir(fs, node.ino) == IsDirMode(node.mode) by {
        assert NodeOk(node.ino);
      }
      if !dir && IsDirMode(node.mode) {
        o, fh := Err(EISDIR), NO_HANDLE;
      } else if dir && !IsDirMode(node.mode) {
        o, fh := Err(ENOTDIR), NO_HANDLE;
      } else {
        IncrementOpens(node);
        o, fh := Return(0), node.ino;
      }
    }

    method IncrementOpens(n: Node)
      requires Valid() && Has(n)
      modifies this`fs, this`openmap, n`opencnt
      ensures Valid()
      ensures fs == SetInode(old(fs), n.ino, old(fs).tab[n.ino].(opencnt := old(fs).tab[n.ino].opencnt + 1))
    {
      assert NodeOk(n.ino);
      n.opencnt := n.opencnt + 1;
      if n.opencnt == 1 {
        openmap := openmap[n.ino := n];
      }
      fs := SetInode(fs, n.ino, fs.tab[n.ino].(opencnt := n.opencnt));
      OnlyFields(n);
    }

    method CloseNode(fh: nat) returns (o: Outcome)
      requires Valid()
      modifies this`fs, this`openmap, nodes.Values`opencnt
      ensures Valid()
      ensures (fs, o) == Operations.CloseNode(old(fs), fh)
    {
      assert fh in nodes ==> NodeOk(fh);
      if fh !in openmap {
        return Panic(RuntimeError);
      }
      var node := openmap[fh];
      node.opencnt := node.opencnt - 1;
      if node.opencnt == 0 {
        openmap := openmap - {node.ino};
      }
      fs := Operations.CloseNode(fs, fh).0;
      OnlyFields(node);
      o := Return(0);
    }

    method Chmod3(path: string, mode: bv32, fh: nat) returns (o: Outcome)
      requires Valid()
      modifies this`fs, nodes.Values`mode
      ensures Valid()
      ensures (fs, o) == Operations.Chmod(old(fs), Components(path), mode, fh)
    {
      var panic, node := GetNode(path, fh);
      if node == null {
        return Failure(panic);
      }
      assert NodeOk(node.ino);
      var bits := ChmodBits(node.mode, mode);
      assert IsDirMode(bits) == IsDirMode(node.mode) by {
        ChmodBitsMean(node.mode, mode);
      }
      StoreMode(node, bits);
      o := Return(0);
    }

    method StoreMode(n: Node, mode: bv32)
      requires Valid() && Has(n) && IsDirMode(mode) == IsDirMode(n.mode)
      modifies this`fs, n`mode
      ensures Valid()
      ensures fs == SetInode(old(fs), n.ino, old(fs).tab[n.ino].(mode := mode))
    {
      assert NodeOk(n.ino);
      n.mode := mode;
      fs := SetInode(fs, n.ino, fs.tab[n.ino].(mode := mode));
      OnlyFields(n);
    }

    method Readlink(path: string) returns (o: Outcome, target: Bytes)
      requires Valid()
      ensures (o, target) == Operations.Readlink(fs, Components(path))
    {
      var panic, node := NodeAt(path);
      if node == null {
        return Failure(panic), [];
      }
      assert NodeOk(node.ino);
      if !IsLnkMode(node.mode) {
        return Err(EINVAL), [];
      }
      return Return(0), node.data.arr[..node.data.len];
    }

    // ------------------------------------------------- extended attributes

    method StoreAttributes(n: Node, xatr: map<Bytes, Bytes>)
      requires Valid() && Has(n)
      modifies this`fs, n`xatr
      ensures Valid()
      ensures fs == SetInode(old(fs), n.ino, old(fs).tab[n.ino].(xatr := xatr))
    {
      assert NodeOk(n.ino);
      n.xatr := xatr;
      fs := SetInode(fs, n.ino, fs.tab[n.ino].(xatr := xatr));
      OnlyFields(n);
    }

    method Setxattr(path: string, name: Bytes, value: Bytes, flags: int) returns (o: Outcome)
      requires Valid()
      modifies this`fs, nodes.Values`xatr
      ensures Valid()
      ensures (fs, o) == Operations.Setxattr(old(fs), Components(path), name, value, flags)
    {
      var panic, node := NodeAt(path);
      if node == null {
        return Failure(panic);
      }
      assert NodeOk(node.ino);
      if name == RESOURCE_FORK {
        o := Err(ENOTSUP);
      } else if flags == XATTR_CREATE && name in node.xatr {
        o := Err(EEXIST);
      } else if flags == XATTR_REPLACE && name !in node.xatr {
        o := Err(ENOATTR);
      } else {
        StoreAttributes(node, node.xatr[name := value]);
        o := Return(0);
      }
    }

    method Getxattr(path: string, name: Bytes) returns (o: Outcome, value: Bytes)
      requires Valid()
      ensures (o, value) == Operations.Getxattr(fs, Components(path), name)
    {
      var panic, node := NodeAt(path);
      if node == null {
        return Failure(panic), [];
      }
      assert NodeOk(node.ino);
      if name == RESOURCE_FORK {
        return Err(ENOTSUP), [];
      }
      if name !in node.xatr {
        return Err(ENOATTR), [];
      }
      return Return(0), node.xatr[name];
    }

    method Removexattr(path: string, name: Bytes) returns (o: Outcome)
      requires Valid()
      modifies this`fs, nodes.Values`xatr
      ensures Valid()
      ensures (fs, o) == Operations.Removexattr(old(fs), Components(path), name)
    {
      var panic, node := NodeAt(path);
      if node == null {
        return Failure(panic);
      }
      assert NodeOk(node.ino);
      if name == RESOURCE_FORK {
        o := Err(ENOTSUP);
      } else if name !in node.xatr {
        o := Err(ENOATTR);
      } else {
        StoreAttributes(node, node.xatr - {name});
        o := Return(0);
      }
    }

    // ------------------------------------------------------------ file bytes

    /** resize(node.data, size, true), which may already write into the array's spare capacity. */
    method ResizeData(n: Node, size: nat) returns (ok: bool, r: Slice)
      requires Valid() && Has(n) && size < TWO_63
      modifies n.data.arr
      ensures Valid() && n.data.len <= n.data.arr.Length
      ensures ok <==> CanAllocate(fs, size)
      ensures ok ==> r.Valid() && r.arr.Length == RoundUp(size) <= limit
      ensures ok ==> r.Contents() == Resized(fs.tab[n.ino].data, size)
      ensures ok ==> r.arr == n.data.arr || (fresh(r.arr) && r.arr !in owner)
      ensures ok ==> (r.arr == n.data.arr <==> n.data.arr.Length == RoundUp(size))
      ensures ok && n.onlyGrown && n.size <= size ==> LeanWith(n, r)
      ensures ok ==> n.ino in fs.tab && r.len == size
    {
      assert NodeOk(n.ino);
      ok, r := Resize(n.data, size, true, limit);
      assert NodeOk(n.ino);
      OnlyChanged(n);
      if ok && n.onlyGrown && n.size <= size {
        StaysLean(n, r);
      }
    }

    /** node.data = r, node.stat.Size = size, for a slice of the same array or of a new one */
    method StoreSlice(n: Node, r: Slice)
      requires Valid() && Has(n) && r.Valid() && r.arr.Length <= limit
      requires r.arr == n.data.arr || r.arr !in owner
      requires n.onlyGrown ==> LeanWith(n, r)
      modifies this`fs, this`owner, this`Repr, n`data, n`size, n`allocs
      ensures nodes == old(nodes)
      ensures Valid() && Repr == old(Repr) + {r.arr}
      ensures fs == SetInode(old(fs), n.ino, old(fs).tab[n.ino].(data := r.Contents()))
      ensures n.size == r.len && n.data == r
      ensures n.allocs == old(n.allocs) + if r.arr == old(n.data).arr then 0 else 1
    {
      assert n.ino in fs.tab by {
        assert NodeOk(n.ino);
      }
      n.Bind(r);
      owner := owner[r.arr := n.ino];
      Repr := Repr + {r.arr};
      fs := SetInode(fs, n.ino, fs.tab[n.ino].(data := r.Contents()));
      OnlyStored(n);
    }

    twostate lemma OnlyStored(n: Node)
      requires old(Valid()) && old(Has(n)) && root == old(root) && ino == old(ino)
      requires nodes == old(nodes) && openmap == old(openmap)
      requires forall i :: i in nodes && nodes[i] != n ==> unchanged(nodes[i])
      requires forall a :: a in old(owner) && a != old(n.data.arr) ==> unchanged(a)
      requires n.data.Valid() && n.size == n.data.len && n.data.arr.Length <= limit && (n.onlyGrown ==> Lean(n))
      requires n.mode == old(n.mode) && n.nlink == old(n.nlink) && n.xatr == old(n.xatr)
      requires n.chld == old(n.chld) && n.opencnt == old(n.opencnt)
      requires n.data.arr == old(n.data.arr) || n.data.arr !in old(owner)
      requires owner == old(owner)[n.data.arr := n.ino] && Repr == old(Repr) + {n.data.arr}
      requires fs == SetInode(old(fs), n.ino, old(fs).tab[n.ino].(data := n.data.Contents()))
      ensures Valid()
    {
      assert old(NodeOk(n.ino));
      assert NodeOk(n.ino);
      OnlyChanged(n);
    }

    method ResizeNode(n: Node, size: nat) returns (ok: bool)
      requires Valid() && Has(n) && size < TWO_63 && (n.onlyGrown ==> n.size <= size)
      modifies this`fs, this`owner, this`Repr, n`data, n`size, n`allocs, n.data.arr
      ensures nodes == old(nodes)
      ensures Valid() && fresh(Repr - old(Repr)) && (n.data.arr == old(n.data.arr) || fresh(n.data.arr))
      ensures ok <==> CanAllocate(old(fs), size)
      ensures fs == if ok
                    then SetInode(old(fs), n.ino, old(fs).tab[n.ino].(data := Resized(old(fs).tab[n.ino].data, size)))
                    else old(fs)
      ensures ok ==> n.size == size && n.data.arr.Length == RoundUp(size)
      ensures ok ==> n.allocs == old(n.allocs) + if old(n.data.arr).Length == RoundUp(size) then 0 else 1
      ensures !ok ==> n.size == old(n.size) && n.allocs == old(n.allocs) && n.data == old(n.data)
    {
      var r;
      ok, r := ResizeData(n, size);
      if ok {
        StoreSlice(n, r);
      }
    }

    /** copy(node.data[ofst:ofst+len(bytes)], bytes) */
    method StoreBytes(n: Node, ofst: nat, bytes: array<byte>, from: nat, count: nat)
      requires Valid() && Has(n) && ofst + count <= n.data.len && from + count <= bytes.Length
      modifies this`fs, n.data.arr
      ensures nodes == old(nodes)
      ensures Valid()
      ensures |old(fs).tab[n.ino].data| == old(n.data.len)
      ensures fs == SetInode(old(fs), n.ino, old(fs).tab[n.ino].(
                data := Overwritten(old(fs).tab[n.ino].data, ofst, old(bytes[from..from + count]))))
    {
      assert NodeOk(n.ino);
      ghost var was, put := n.data.Contents(), bytes[from..from + count];
      CopyBytes(n.data.arr, ofst, bytes, from, count);
      assert n.data.Contents() == Overwritten(was, ofst, put);
      assert owner == owner[n.data.arr := n.ino] && Repr == Repr + {n.data.arr};
      fs := SetInode(fs, n.ino, fs.tab[n.ino].(data := Overwritten(was, ofst, put)));
      OnlyStored(n);
    }

    /** The arrays that hold the bytes of the nodes. */
    ghost function Arrays(): set<array<byte>>
      reads this, nodes.Values
    {
      set i | i in nodes :: nodes[i].data.arr
    }

    ghost method StopGrowing(n: Node)
      requires Valid() && Has(n)
      modifies n`onlyGrown
      ensures Valid() && !n.onlyGrown
    {
      assert NodeOk(n.ino);
      n.onlyGrown := false;
      assert SetInode(fs, n.ino, fs.tab[n.ino]) == fs;
      OnlyFields(n);
    }

    /** Node `i` is what the request reaches, and is made shorter by it. */
    ghost predicate Shortens(p: Path, size: nat, fh: nat, i: Ino)
      reads this
    {
      && Operations.GetNode(fs, p, fh) == At(i) && CanAllocate(fs, size)
      && i in fs.tab && size < |fs.tab[i].data|
    }

    method TruncateNode(n: Node, size: nat) returns (o: Outcome)
      requires Valid() && Has(n) && size < TWO_63
      modifies this`fs, this`owner, this`Repr, n`data, n`size, n`allocs, n`onlyGrown, n.data.arr
      ensures Valid() && fresh(Repr - old(Repr))
      ensures n.ino in old(fs).tab && n.ino in old(nodes)
      ensures (fs, o) == Store(old(fs), n.ino, size, true, Resized(old(fs).tab[n.ino].data, size), 0)
      ensures n.onlyGrown == old(n.onlyGrown && !(CanAllocate(fs, size) && size < |fs.tab[n.ino].data|))
    {
      assert NodeOk(n.ino);
      if size < n.size && CanAllocate(fs, size) {
        StopGrowing(n);
      }
      var ok := ResizeNode(n, size);
      o := if ok then Return(0) else NO_SPACE;
    }

    lemma NodesAreDistinct()
      requires Valid()
      ensures forall i :: i in nodes ==> nodes[i].ino == i
    {
      forall i | i in nodes ensures nodes[i].ino == i {
        assert NodeOk(i);
      }
    }

    method Truncate(path: string, size: nat, fh: nat) returns (o: Outcome)
      requires Valid() && size < TWO_63
      modifies this`fs, this`owner, this`Repr, nodes.Values`data, nodes.Values`size, nodes.Values`allocs, Arrays()
      modifies nodes.Values`onlyGrown
      ensures Valid() && fresh(Repr - old(Repr))
      ensures (fs, o) == Operations.Truncate(old(fs), Components(path), size, fh)
      ensures forall i :: i in nodes ==>
                nodes[i].onlyGrown == old(nodes[i].onlyGrown && !Shortens(Components(path), size, fh, i))
    {
      NodesAreDistinct();
      var panic, node := GetNode(path, fh);
      if node == null {
        o := Failure(panic);
      } else {
        o := TruncateNode(node, size);
      }
    }

    method Read(path: string, buff: array<byte>, ofst: nat, fh: nat) returns (o: Outcome)
      requires Valid() && buff !in Repr && ofst + buff.Length < TWO_63
      modifies buff
      ensures Valid()
      ensures var (r, bytes) := Operations.Read(fs, Components(path), buff.Length, ofst, fh);
              o == r && |bytes| <= buff.Length && buff[..] == bytes + old(buff[..])[|bytes|..]
    {
      var panic, node := GetNode(path, fh);
      if node == null {
        return Failure(panic);
      }
      assert NodeOk(node.ino);
      var endofst := ofst + buff.Length;
      if endofst > node.size {
        endofst := node.size;
      }
      if endofst < ofst {
        return Return(0);
      }
      CopyBytes(buff, 0, node.data.arr, ofst, endofst - ofst);
      return Return(endofst - ofst);
    }

    /** The step that Write, CopyFileRange and Fallocate share: grow when the end is beyond the size. */
    method GrowNode(n: Node, end: nat) returns (ok: bool)
      requires Valid() && Has(n) && end < TWO_63
      modifies this`fs, this`owner, this`Repr, n`data, n`size, n`allocs, n.data.arr
      ensures nodes == old(nodes)
      ensures Valid() && fresh(Repr - old(Repr)) && (n.data.arr == old(n.data.arr) || fresh(n.data.arr))
      ensures |old(fs).tab[n.ino].data| == old(n.size)
      ensures ok <==> (old(n.size) < end ==> CanAllocate(old(fs), end))
      ensures fs == if ok
                    then SetInode(old(fs), n.ino, old(fs).tab[n.ino].(data := Grown(old(fs).tab[n.ino].data, end)))
                    else old(fs)
      ensures ok ==> end <= n.data.len
      ensures old(Lean(n)) ==> Lean(n)
    {
      assert NodeOk(n.ino);
      ok := true;
      if end > n.size {
        RoundUpGrows(n.size, end);
        ok := ResizeNode(n, end);
      } else {
        assert SetInode(fs, n.ino, fs.tab[n.ino]) == fs;
      }
      assert NodeOk(n.ino);
    }

    method Write(path: string, buff: array<byte>, ofst: nat, fh: nat) returns (o: Outcome)
      requires Valid() && buff !in Repr && ofst + buff.Length < TWO_63
      modifies this`fs, this`owner, this`Repr, nodes.Values`data, nodes.Values`size, nodes.Values`allocs, Arrays()
      ensures Valid() && fresh(Repr - old(Repr))
      ensures (fs, o) == Operations.Write(old(fs), Components(path), buff[..], ofst, fh)
      ensures forall i :: i in nodes && old(Lean(nodes[i])) ==> Lean(nodes[i])
    {
      var panic, node := GetNode(path, fh);
      if node == null {
        return Failure(panic);
      }
      o := WriteNode(node, buff, ofst);
    }

    method WriteNode(n: Node, buff: array<byte>, ofst: nat) returns (o: Outcome)
      requires Valid() && Has(n) && buff !in Repr && ofst + buff.Length < TWO_63
      modifies this`fs, this`owner, this`Repr, n`data, n`size, n`allocs, n.data.arr
      ensures Valid() && fresh(Repr - old(Repr))
      ensures (fs, o) ==
              var data, end := old(fs).tab[n.ino].data, ofst + buff.Length;
              Store(old(fs), n.ino, end, |data| < end, Written(data, ofst, buff[..]), buff.Length)
      ensures old(Lean(n)) ==> Lean(n)
    {
      assert n.ino in fs.tab;
      var endofst := ofst + buff.Length;
      var ok := GrowNode(n, endofst);
      if !ok {
        return NO_SPACE;
      }
      ghost var grown := fs;
      StoreBytes(n, ofst, buff, 0, buff.Length);
      assert buff[0..0 + buff.Length] == buff[..];
      SetTwice(old(fs), grown, fs, n.ino);
      return Return(buff.Length);
    }

    method CopyFileRange(pathIn: string, fhIn: nat, offIn: nat,
                         pathOut: string, fhOut: nat, offOut: nat, size: nat) returns (o: Outcome)
      requires Valid() && offIn + size < TWO_63 && offOut + size < TWO_63
      modifies this`fs, this`owner, this`Repr, nodes.Values`data, nodes.Values`size, nodes.Values`allocs, Arrays()
      ensures Valid() && fresh(Repr - old(Repr))
      ensures (fs, o) == Operations.CopyFileRange(old(fs), Components(pathIn), fhIn, offIn,
                                                  Components(pathOut), fhOut, offOut, size)
    {
      var panicIn, nodeIn := GetNode(pathIn, fhIn);
      if panicIn {
        return NAME_TOO_LONG;
      }
      var panicOut, nodeOut := GetNode(pathOut, fhOut);
      if panicOut {
        return NAME_TOO_LONG;
      }
      if nodeIn == null || nodeOut == null {
        return Err(ENOENT);
      }
      assert NodeOk(nodeIn.ino) && NodeOk(nodeOut.ino);
      o := CopyNodes(nodeIn, offIn, nodeOut, offOut, size);
    }

    method CopyNodes(nodeIn: Node, offIn: nat, nodeOut: Node, offOut: nat, size: nat) returns (o: Outcome)
      requires Valid() && Has(nodeIn) && Has(nodeOut)
      requires nodeIn.ino in fs.tab && nodeOut.ino in fs.tab
      requires offIn + size < TWO_63 && offOut + size < TWO_63
      modifies this`fs, this`owner, this`Repr, nodeOut`data, nodeOut`size, nodeOut`allocs, nodeOut.data.arr
      ensures Valid() && fresh(Repr - old(Repr))
      ensures (fs, o) == Operations.CopyNodes(old(fs), nodeIn.ino, offIn, nodeOut.ino, offOut, size)
    {
      assert NodeOk(nodeIn.ino);
      var endIn := offIn + size;
      if endIn > nodeIn.size {
        endIn := nodeIn.size;
      }
      if endIn <= offIn {
        return Return(0);
      }
      var n := endIn - offIn;
      assert Window(fs.tab[nodeIn.ino].data, offIn, size) == fs.tab[nodeIn.ino].data[offIn..offIn + n];
      o := CopyRange(nodeIn, offIn, nodeOut, offOut, n);
    }

    method CopyRange(nodeIn: Node, offIn: nat, nodeOut: Node, offOut: nat, n: nat) returns (o: Outcome)
      requires Valid() && Has(nodeIn) && Has(nodeOut) && offIn + n <= |fs.tab[nodeIn.ino].data|
      requires offOut + n < TWO_63
      modifies this`fs, this`owner, this`Repr, nodeOut`data, nodeOut`size, nodeOut`allocs, nodeOut.data.arr
      ensures Valid() && fresh(Repr - old(Repr))
      ensures (fs, o) ==
              var src, dst := old(fs).tab[nodeIn.ino].data[offIn..offIn + n], old(fs).tab[nodeOut.ino].data;
              Store(old(fs), nodeOut.ino, offOut + n, |dst| < offOut + n, Written(dst, offOut, src), n)
    {
      var ok := GrowNode(nodeOut, offOut + n);
      if !ok {
        return NO_SPACE;
      }
      assert fs.tab[nodeIn.ino].data[offIn..offIn + n] == old(fs).tab[nodeIn.ino].data[offIn..offIn + n];
      ghost var grown := fs;
      StoreRange(nodeIn, offIn, nodeOut, offOut, n);
      SetTwice(old(fs), grown, fs, nodeOut.ino);
      return Return(n);
    }

    /** copy(nodeOut.data[offOut:offOut+n], nodeIn.data[offIn:offIn+n]), perhaps of one node onto itself. */
    method StoreRange(nodeIn: Node, offIn: nat, nodeOut: Node, offOut: nat, n: nat)
      requires Valid() && Has(nodeIn) && Has(nodeOut)
      requires offIn + n <= |fs.tab[nodeIn.ino].data| && offOut + n <= |fs.tab[nodeOut.ino].data|
      modifies this`fs, nodeOut.data.arr
      ensures Valid()
      ensures fs == SetInode(old(fs), nodeOut.ino, old(fs).tab[nodeOut.ino].(
                data := Overwritten(old(fs).tab[nodeOut.ino].data, offOut,
                                    old(fs).tab[nodeIn.ino].data[offIn..offIn + n])))
    {
      assert NodeOk(nodeIn.ino) && NodeOk(nodeOut.ino);
      PartOfSlice(nodeIn.data, offIn, offIn + n);
      StoreBytes(nodeOut, offOut, nodeIn.data.arr, offIn, n);
    }

    method Fallocate(path: string, mode: int, off: nat, length: nat, fh: nat) returns (o: Outcome)
      requires Valid() && off + length < TWO_63
      modifies this`fs, this`owner, this`Repr, nodes.Values`data, nodes.Values`size, nodes.Values`allocs, Arrays()
      ensures Valid() && fresh(Repr - old(Repr))
      ensures (fs, o) == Operations.Fallocate(old(fs), Components(path), mode, off, length, fh)
      ensures forall i :: i in nodes && old(Lean(nodes[i])) ==> Lean(nodes[i])
    {
      var panic, node := GetNode(path, fh);
      if node == null {
        return Failure(panic);
      }
      if mode != 0 {
        return Err(ENOSYS);
      }
      var ok := GrowNode(node, off + length);
      if !ok {
        return NO_SPACE;
      }
      return Return(0);
    }

    lemma StatOfNode(n: Node)
      requires Valid() && Has(n)
      ensures n.ino in fs.tab && n.GetStat() == StatOf(fs, n.ino)
    {
      assert NodeOk(n.ino);
    }

    lemma ChildOfNode(n: Node, m: Name)
      requires Valid() && Has(n) && n.ino in fs.tab && m in n.chld
      ensures m in fs.tab[n.ino].chld && fs.tab[n.ino].chld[m] in fs.tab
      ensures n.chld[m].GetStat() == StatOf(fs, fs.tab[n.ino].chld[m])
    {
      assert NodeOk(n.ino);
      StatOfNode(n.chld[m]);
    }

    method Getattr(path: string, fh: nat) returns (o: Outcome, stat: Option<Stat>)
      requires Valid()
      ensures (o, stat) == Operations.Getattr(fs, Components(path), fh)
    {
      var panic, node := GetNode(path, fh);
      if node == null {
        return Failure(panic), None;
      }
      StatOfNode(node);
      return Return(0), Some(node.GetStat());
    }

    /** Readdir: `offered` is what the filler is called with, and `takes(k)` what it
        answers to its call number `k`.  The children come in any order. */
    method Readdir(fh: nat, takes: nat -> bool) returns (o: Outcome, offered: seq<Entry>)
      requires Valid()
      ensures if !Open(fs, fh) then o == Panic(RuntimeError) && offered == []
              else o == Return(0) && Offers(fs, fh, takes, offered)
    {
      assert fh in nodes ==> NodeOk(fh);
      if fh !in openmap {
        return Panic(RuntimeError), [];
      }
      var node := openmap[fh];
      StatOfNode(node);
      offered := [(".", Some(node.GetStat())), ("..", None)];
      offered := OfferChildren(node, takes, offered);
      return Return(0), offered;
    }

    method OfferChildren(node: Node, takes: nat -> bool, dots: seq<Entry>) returns (offered: seq<Entry>)
      requires Valid() && Has(node) && node.ino in fs.tab
      ensures |dots| <= |offered| && offered[..|dots|] == dots
      ensures ChildrenOffered(fs, fs.tab[node.ino].chld, takes, |dots|, offered[|dots|..])
    {
      ghost var chld := fs.tab[node.ino].chld;
      assert chld.Keys == node.chld.Keys by {
        assert NodeOk(node.ino);
      }
      var children, rest, more := [], node.chld.Keys, true;
      while rest != {} && more
        invariant rest <= chld.Keys && OnlyChildren(fs, chld, chld.Keys - rest, children)
        invariant forall k :: |dots| <= k < |dots| + |children| - 1 ==> takes(k)
        invariant more == (children == [] || takes(|dots| + |children| - 1))
        decreases rest
      {
        var m :| m in rest;
        ChildOfNode(node, m);
        var entry := (m, Some(node.chld[m].GetStat()));
        OneMoreChild(fs, chld, chld.Keys - rest, children, entry);
        assert chld.Keys - rest + {m} == chld.Keys - (rest - {m});
        rest, children := rest - {m}, children + [entry];
        more := takes(|dots| + |children| - 1);
      }
      assert rest == {} ==> chld.Keys - rest == chld.Keys;
      offered := dots + children;
      assert offered[|dots|..] == children;
    }
  }

  type Entry = (Name, Option<Stat>)

  /** The entries are the children named `done`, each once and with its own stat. */
  ghost predicate OnlyChildren(fs: FS, chld: map<Name, Ino>, done: set<Name>, entries: seq<Entry>) {
    && done <= chld.Keys
    && (forall k :: 0 <= k < |entries| ==>
          && entries[k].0 in done && chld[entries[k].0] in fs.tab
          && entries[k].1 == Some(StatOf(fs, chld[entries[k].0])))
    && (forall j, k :: 0 <= j < k < |entries| ==> entries[j].0 != entries[k].0)
    && (forall m :: m in done ==> exists k :: 0 <= k < |entries| && entries[k].0 == m)
  }

  lemma OneMoreChild(fs: FS, chld: map<Name, Ino>, done: set<Name>, entries: seq<Entry>, entry: Entry)
    requires OnlyChildren(fs, chld, done, entries) && entry.0 in chld && entry.0 !in done
    requires chld[entry.0] in fs.tab && entry.1 == Some(StatOf(fs, chld[entry.0]))
    ensures OnlyChildren(fs, chld, done + {entry.0}, entries + [entry])
  {
    var more := entries + [entry];
    forall m | m in done + {entry.0} ensures exists k :: 0 <= k < |more| && more[k].0 == m {
      if m == entry.0 {
        assert more[|entries|].0 == m;
      } else {
        var k :| 0 <= k < |entries| && entries[k].0 == m;
        assert more[k].0 == m;
      }
    }
  }

  /** From its call number `start` on the filler is offered `children`, each at most once
      and with its own stat: all there are, or those up to the first it does not take. */
  ghost predicate ChildrenOffered(fs: FS, chld: map<Name, Ino>, takes: nat -> bool, start: nat, children: seq<Entry>) {
    && (exists done :: OnlyChildren(fs, chld, done, children))
    && (forall k :: start <= k < start + |children| - 1 ==> takes(k))
    && (OnlyChildren(fs, chld, chld.Keys, children) || (children != [] && !takes(start + |children| - 1)))
  }

  /** The two dots, whatever the filler answers to them, and the children. */
  ghost predicate Offers(fs: FS, fh: Ino, takes: nat -> bool, offered: seq<Entry>)
    requires fh in fs.tab
  {
    && 2 <= |offered| && offered[..2] == [(".", Some(StatOf(fs, fh))), ("..", None)]
    && ChildrenOffered(fs, fs.tab[fh].chld, takes, 2, offered[2..])
  }
}
