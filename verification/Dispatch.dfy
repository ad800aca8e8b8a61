/** The callbacks that pack what a file system returns into the fixed buffers of the FUSE
    library, and the composed requests (Create, Rename) that they make of a Memfs. */
module Dispatch {
  import opened Fuse
  import opened Inodes
  import opened Paths
  import opened Operations
  import opened Lookups
  import opened Namespace
  import Runs
  import M = Memfs

  const TWO_31 := 0x8000_0000

  /** Conversion to a C int. */
  function CInt(n: int): int {
    (n + TWO_31) % TWO_32 - TWO_31
  }

  lemma CIntExact(n: int)
    ensures CInt(n) == n <==> -TWO_31 <= n < TWO_31
  {
  }

  /** What the library is told of an outcome: the number returned, the number that a panic
      carries, EIO for any other panic; zero for success only, and a negative number for
      every failure. */
  ghost predicate Reports(errc: int, o: Outcome) {
    && (o.Return? ==> errc == o.val)
    && (o == Panic(RuntimeError) ==> errc == -EIO)
    && (o.Panic? && o.value.FuseError? ==> errc == o.value.code)
    && (errc == 0 <==> o == Return(0))
    && (o.Failed() ==> errc < 0)
  }

  /** Success, or a failure with a number that a C int holds. */
  ghost predicate Ordinary(o: Outcome) {
    match o
    case Return(val) => -TWO_31 <= val <= 0
    case Panic(FuseError(code)) => -TWO_31 <= code < 0
    case Panic(RuntimeError) => true
  }

  lemma OrdinaryReports(o: Outcome)
    requires Ordinary(o)
    ensures Reports(CInt(RecoverAsErrno(o)), o)
  {
    CIntExact(RecoverAsErrno(o));
  }

  // ------------------------------------------------------------ C strings

  /** The bytes before the first NUL, when there is one. */
  function CString(b: Bytes): (s: Option<Bytes>)
    ensures s.Some? ==> |s.value| < |b|
  {
    if b == [] then None
    else if b[0] == 0 then Some([])
    else match CString(b[1..])
      case None => None
      case Some(rest) => Some([b[0]] + rest)
  }

  lemma {:induction false} CStringOfTerminated(s: Bytes, rest: Bytes)
    requires 0 !in s
    ensures CString(s + [0] + rest) == Some(s)
  {
    if s == [] {
      assert s + [0] + rest == [0] + rest;
    } else {
      CStringOfTerminated(s[1..], rest);
      assert (s + [0] + rest)[1..] == s[1..] + [0] + rest;
      assert s == [s[0]] + s[1..];
    }
  }

  lemma {:induction false} CStringOfUnterminated(s: Bytes, rest: Bytes)
    requires 0 !in s
    ensures CString(s + rest) == match CString(rest) case None => None case Some(t) => Some(s + t)
  {
    if s == [] {
      assert s + rest == rest;
      match CString(rest)
      case None =>
      case Some(t) => assert s + t == t;
    } else {
      CStringOfUnterminated(s[1..], rest);
      assert (s + rest)[1..] == s[1..] + rest;
      match CString(rest)
      case None =>
      case Some(t) => assert [s[0]] + (s[1..] + t) == s + t;
    }
  }

  /** c_GoString: the loop that looks for the terminator. */
  method GoString(q: array<byte>) returns (s: Bytes)
    requires exists k :: 0 <= k < q.Length && q[k] == 0
    ensures CString(q[..]) == Some(s) && 0 !in s
  {
    var l := 0;
    while q[l] != 0
      invariant 0 <= l < q.Length && 0 !in q[..l]
      invariant exists k :: l <= k < q.Length && q[k] == 0
      decreases q.Length - l
    {
      l := l + 1;
    }
    s := q[..l];
    CStringOfTerminated(s, q[l + 1..]);
    assert q[..] == s + [0] + q[l + 1..];
  }

  // ------------------------------------------------------------ readlink

  /** What hostReadlink leaves in a buffer of `size` bytes that held `was`. */
  function LinkBuffer(was: Bytes, target: Bytes): Bytes {
    if was == [] then was
    else if |target| < |was| then target + [0] + was[|target| + 1..]
    else target[..|was| - 1] + was[|was| - 1..]
  }

  method HostReadlink(fs: M.Memfs, path: string, buff: array<byte>, size: nat) returns (errc: int)
    requires fs.Valid() && buff !in fs.Repr && size <= buff.Length
    modifies buff
    ensures fs.Valid()
    ensures var (o, target) := Readlink(fs.fs, Components(path));
            && Reports(errc, o)
            && buff[..] == if o.Panic? then old(buff[..])
                           else LinkBuffer(old(buff[..size]), target) + old(buff[size..])
  {
    var o, target := fs.Readlink(path);
    OrdinaryReports(o);
    errc := CInt(RecoverAsErrno(o));
    if o.Return? && 0 < size {
      PutLink(buff, size, target);
    }
  }

  method PutLink(buff: array<byte>, size: nat, target: Bytes)
    requires 0 < size <= buff.Length
    modifies buff
    ensures buff[..] == LinkBuffer(old(buff[..size]), target) + old(buff[size..])
  {
    ghost var was := buff[..];
    var n := if |target| < size - 1 then |target| else size - 1;
    PutBytes(buff, 0, target[..n]);
    assert buff[..] == target[..n] + was[n..];
    if |target| < size {
      buff[|target|] := 0;
      assert buff[..] == target + [0] + was[n + 1..];
    }
    LinkBufferInside(was, size, target);
  }

  lemma LinkBufferInside(was: Bytes, size: nat, target: Bytes)
    requires 0 < size <= |was|
    ensures LinkBuffer(was[..size], target) + was[size..] ==
            if |target| < size then target + [0] + was[|target| + 1..] else target[..size - 1] + was[size - 1..]
  {
    if |target| < size {
      assert was[..size][|target| + 1..] + was[size..] == was[|target| + 1..];
    } else {
      assert was[..size][size - 1..] + was[size..] == was[size - 1..];
    }
  }

  /** Byte by byte: the target as far as it fits before the last byte, a NUL after a target
      that is shorter than the buffer, and everything else as it was. */
  lemma LinkBufferBytes(was: Bytes, target: Bytes)
    ensures var b := LinkBuffer(was, target);
            && |b| == |was|
            && forall k: nat :: k < |was| ==>
                 b[k] == if k < |target| && k < |was| - 1 then target[k] else if k == |target| then 0 else was[k]
  {
  }

  /** The link target can be read back from the buffer exactly when it is shorter than the
      buffer, or when the byte that the callback does not write happened to end the
      truncated target, which then is not the target. */
  lemma ReadlinkTerminatesExactly(was: Bytes, target: Bytes)
    requires was != [] && 0 !in target
    ensures CString(LinkBuffer(was, target)) == Some(target) <==> |target| < |was|
    ensures |target| >= |was| ==>
              CString(LinkBuffer(was, target)) ==
              if was[|was| - 1] == 0 then Some(target[..|was| - 1]) else None
  {
    if |target| < |was| {
      CStringOfTerminated(target, was[|target| + 1..]);
    } else {
      var t, last := target[..|was| - 1], was[|was| - 1..];
      CStringOfUnterminated(t, last);
      assert last[1..] == [];
      assert t + [] == t;
    }
  }

  /** A link reads back the target it was made with. */
  lemma SymlinkThenReadlink(fs: FS, p: Path, target: Bytes)
    requires Inv(fs) && Spellable(p) && MakeNode(fs, p, S_IFLNK | 0x1FF, target).1 == Return(0)
    ensures Readlink(MakeNode(fs, p, S_IFLNK | 0x1FF, target).0, p) == (Return(0), target)
  {
    var mode := S_IFLNK | 0x1FF;
    MakeNodeEffect(fs, p, mode, target);
    MakeNodeKeepsInv(fs, p, mode, target);
    CreatedResolves(fs, p, mode, target, p);
    var fs' := MakeNode(fs, p, mode, target).0;
    ResolvedLookup(fs', p);
    assert fs'.tab[fs.ino + 1].mode == mode && fs'.tab[fs.ino + 1].data == target by {
      BlankKeepsVacant(fs, p, mode, target);
    }
    assert IsLnkMode(mode);
  }

  // ------------------------------------------------------------ attribute values

  lemma AttributeOpsAreOrdinary(fs: FS, p: Path, name: Bytes, value: Bytes, flags: int)
    ensures Ordinary(Setxattr(fs, p, name, value, flags).1) && Ordinary(Getxattr(fs, p, name).0)
  {
  }

  /** hostSetxattr: the name is a C string, and so has no NUL. */
  method HostSetxattr(fs: M.Memfs, path: string, name: array<byte>, buff: array<byte>, size: nat, flags: int)
    returns (errc: int)
    requires fs.Valid() && size <= buff.Length
    requires exists k :: 0 <= k < name.Length && name[k] == 0
    modifies fs`fs, fs.nodes.Values`xatr
    ensures fs.Valid()
    ensures var cname := CString(name[..]);
            && cname.Some? && 0 !in cname.value
            && var (fs', o) := Setxattr(old(fs.fs), Components(path), cname.value, buff[..size], flags);
               fs.fs == fs' && Reports(errc, o)
  {
    var cname := GoString(name);
    var o := fs.Setxattr(path, cname, buff[..size], flags);
    AttributeOpsAreOrdinary(old(fs.fs), Components(path), cname, old(buff[..size]), flags);
    OrdinaryReports(o);
    errc := CInt(RecoverAsErrno(o));
  }

  method HostGetxattr(fs: M.Memfs, path: string, name: Bytes, buff: array<byte>, size: nat) returns (nbyt: int)
    requires fs.Valid() && buff !in fs.Repr && size <= buff.Length
    modifies buff
    ensures fs.Valid()
    ensures var (o, value) := Getxattr(fs.fs, Components(path), name);
            if o != Return(0) then nbyt < 0 && Reports(nbyt, o) && buff[..] == old(buff[..])
            else if size == 0 then nbyt == CInt(|value|) && buff[..] == old(buff[..])
            else if size < |value| then nbyt == -ERANGE && buff[..] == old(buff[..])
            else nbyt == CInt(|value|) && buff[..] == value + old(buff[|value|..])
    ensures var (o, value) := Getxattr(fs.fs, Components(path), name);
            o == Return(0) && (size == 0 || |value| <= size) ==> (nbyt == |value| <==> |value| < TWO_31)
  {
    var o, value := fs.Getxattr(path, name);
    AttributeOpsAreOrdinary(fs.fs, Components(path), name, [], 0);
    if o != Return(0) {
      OrdinaryReports(o);
      return CInt(RecoverAsErrno(o));
    }
    if size != 0 {
      if |value| > size {
        return -ERANGE;
      }
      PutBytes(buff, 0, value);
    }
    CIntExact(|value|);
    nbyt := CInt(|value|);
  }

  /** A value set is the value got, other attributes of the node are as before, and
      removing a new attribute restores the file system. */
  lemma SetThenGet(fs: FS, p: Path, name: Bytes, value: Bytes, flags: int, other: Bytes)
    requires Setxattr(fs, p, name, value, flags).1 == Return(0)
    ensures var fs' := Setxattr(fs, p, name, value, flags).0;
            && Getxattr(fs', p, name) == (Return(0), value)
            && (other != name ==> Getxattr(fs', p, other) == Getxattr(fs, p, other))
            && (Getxattr(fs, p, name).0 == Err(ENOATTR) ==> Removexattr(fs', p, name) == (fs, Return(0)))
    ensures flags == XATTR_CREATE ==> Getxattr(fs, p, name).0 == Err(ENOATTR)
    ensures flags == XATTR_REPLACE ==> Getxattr(fs, p, name).0 == Return(0)
  {
    var i := NodeAt(fs, p).i;
    var fs' := WithAttribute(fs, i, name, value);
    WithAttributeKeepsLookup(fs, i, name, value, p);
    if name !in fs.tab[i].xatr {
      WithoutAttribute(fs, i, name, value);
    }
  }

  function WithAttribute(fs: FS, i: Ino, name: Bytes, value: Bytes): FS
    requires i in fs.tab
  {
    SetInode(fs, i, fs.tab[i].(xatr := fs.tab[i].xatr[name := value]))
  }

  lemma WithAttributeKeepsLookup(fs: FS, i: Ino, name: Bytes, value: Bytes, p: Path)
    requires i in fs.tab
    ensures NodeAt(WithAttribute(fs, i, name, value), p) == NodeAt(fs, p)
  {
    SameShapeKeepsForestLookup(fs, WithAttribute(fs, i, name, value), p);
  }

  lemma WithoutAttribute(fs: FS, i: Ino, name: Bytes, value: Bytes)
    requires i in fs.tab && name !in fs.tab[i].xatr
    ensures var fs' := WithAttribute(fs, i, name, value);
            SetInode(fs', i, fs'.tab[i].(xatr := fs'.tab[i].xatr - {name})) == fs
  {
    assert fs.tab[i].xatr[name := value] - {name} == fs.tab[i].xatr;
  }

  lemma SameShapeKeepsForestLookup(fs: FS, fs': FS, p: Path)
    requires SameShape(fs, fs')
    ensures Lookup(fs', p, None) == Lookup(fs, p, None) && NodeAt(fs', p) == NodeAt(fs, p)
  {
    assert SameEntries(fs, fs');
    SameLookup(fs, fs', Some(ROOT), "", Some(ROOT), p);
  }

  lemma {:induction false} SameLookup(fs: FS, fs': FS, prnt: Option<Ino>, name: Name, node: Option<Ino>, p: Path)
    requires SameEntries(fs, fs')
    ensures LookupFrom(fs', prnt, name, node, p, None) == LookupFrom(fs, prnt, name, node, p, None)
    decreases |p|
  {
    if p != [] && node.Some? {
      SameLookup(fs, fs', node, p[0], Child(fs, node.value, p[0]), p[1..]);
    }
  }

  // ------------------------------------------------------------ attribute lists

  function Pack(names: seq<Bytes>): Bytes {
    if names == [] then [] else names[0] + [0] + Pack(names[1..])
  }

  /** Cutting a buffer at its NULs. */
  function Unpack(b: Bytes): seq<Bytes>
    decreases |b|
  {
    match CString(b)
    case None => []
    case Some(name) => [name] + Unpack(b[|name| + 1..])
  }

  /** Cutting at the NULs gives the packed names back, in order. */
  lemma {:induction false} UnpackPack(names: seq<Bytes>)
    requires forall k :: 0 <= k < |names| ==> 0 !in names[k]
    ensures Unpack(Pack(names)) == names
  {
    if names != [] {
      var first, rest := names[0], Pack(names[1..]);
      CStringOfTerminated(first, rest);
      assert (first + [0] + rest)[|first| + 1..] == rest;
      UnpackPack(names[1..]);
    }
  }

  lemma {:induction false} PackLast(order: seq<Bytes>, name: Bytes)
    ensures Pack(order + [name]) == Pack(order) + name + [0]
  {
    var more := order + [name];
    if order == [] {
      assert more[1..] == [];
    } else {
      PackLast(order[1..], name);
      assert more[1..] == order[1..] + [name];
    }
  }

  /** The bytes that all names take, each with its terminator. */
  ghost function Total(names: set<Bytes>): nat {
    if names == {} then 0
    else var n :| n in names; |n| + 1 + Total(names - {n})
  }

  lemma {:induction false} TotalWithout(names: set<Bytes>, n: Bytes)
    requires n in names
    ensures Total(names) == |n| + 1 + Total(names - {n})
    decreases |names|
  {
    var m :| m in names && Total(names) == |m| + 1 + Total(names - {m});
    if m != n {
      TotalWithout(names - {m}, n);
      TotalWithout(names - {n}, m);
      assert names - {m} - {n} == names - {n} - {m};
    }
  }

  /** `order` lists each of `names` once. */
  ghost predicate Enumerates(order: seq<Bytes>, names: set<Bytes>) {
    && (forall k :: 0 <= k < |order| ==> order[k] in names)
    && (forall n :: n in names ==> n in order)
    && (forall j, k :: 0 <= j < k < |order| ==> order[j] != order[k])
  }

  /** What listing `names` into a buffer of `size` bytes returns and leaves there: the number
      of bytes for a size query, ERANGE for too small a size, and otherwise each name once,
      with its NUL; a caller that cuts at the NULs has the names back. */
  ghost predicate Listed(names: set<Bytes>, size: nat, nbyt: int, order: seq<Bytes>, buff: Bytes, was: Bytes) {
    var total := Total(names);
    if size == 0 then nbyt == CInt(total) && buff == was
    else if size < total then nbyt == -ERANGE
    else
      && nbyt == CInt(total) && Enumerates(order, names) && |Pack(order)| == total
      && total <= |was| && buff == Pack(order) + was[total..]
      && ((forall name: Bytes :: name in names ==> 0 !in name) ==> Unpack(buff[..total]) == order)
  }

  /** hostListxattr together with the loop of Memfs.Listxattr that calls its filler: the
      names come in any order, and `order` records it. */
  method HostListxattr(fs: M.Memfs, path: string, buff: array<byte>, size: nat)
    returns (nbyt: int, ghost order: seq<Bytes>)
    requires fs.Valid() && buff !in fs.Repr && size <= buff.Length
    modifies buff
    ensures fs.Valid() && buff[size..] == old(buff[size..])
    ensures match NodeAt(fs.fs, Components(path))
            case LongName => nbyt == -ENAMETOOLONG && buff[..] == old(buff[..])
            case Missing => nbyt == -ENOENT && buff[..] == old(buff[..])
            case At(i) => Listed(fs.fs.tab[i].xatr.Keys, size, nbyt, order, buff[..], old(buff[..]))
  {
    order := [];
    var panic, node := fs.NodeAt(path);
    if node == null {
      return if panic then -ENAMETOOLONG else -ENOENT, [];
    }
    assert fs.fs.tab[node.ino].xatr == node.xatr by {
      assert fs.NodeOk(node.ino);
    }
    nbyt, order := FillNames(node.xatr.Keys, buff, size);
  }

  /** After every run of requests, a list that fits is cut at its NULs into the names of the
      node, each once. */
  lemma ListSplitsIntoNames(limit: nat, ops: seq<Runs.Op>, i: Ino, size: nat, nbyt: int, order: seq<Bytes>,
                            buff: Bytes, was: Bytes)
    requires Runs.AllAdmissible(Runs.Initial(limit), ops)
    requires forall k :: 0 <= k < |ops| ==> Runs.FromC(ops[k])
    requires i in Runs.Run(Runs.Initial(limit), ops).tab
    requires Listed(Runs.Run(Runs.Initial(limit), ops).tab[i].xatr.Keys, size, nbyt, order, buff, was)
    ensures var names := Runs.Run(Runs.Initial(limit), ops).tab[i].xatr.Keys;
            0 < size && Total(names) <= size ==>
              Total(names) <= |buff| && Enumerates(Unpack(buff[..Total(names)]), names)
  {
    Runs.InitialInv(limit);
    Runs.RunKeepsCleanNames(Runs.Initial(limit), ops);
    var fs := Runs.Run(Runs.Initial(limit), ops);
    assert forall name: Bytes :: name in fs.tab[i].xatr ==> 0 !in name;
  }

  /** The counts that hostListxattr and hostGetxattr return are exact up to 2^31 - 1; a
      larger one comes out as another number. */
  lemma ListedCountExact(names: set<Bytes>, size: nat, nbyt: int, order: seq<Bytes>, buff: Bytes, was: Bytes)
    requires Listed(names, size, nbyt, order, buff, was) && (size == 0 || Total(names) <= size)
    ensures nbyt == Total(names) <==> Total(names) < TWO_31
  {
    CIntExact(Total(names));
  }

  /** After the fills for the names `done`, in the order `order`: `n` bytes are counted,
      and when the size is not zero they are in the buffer that held `was`. */
  ghost predicate Filled(order: seq<Bytes>, done: set<Bytes>, n: nat, size: nat, buff: Bytes, was: Bytes) {
    && Enumerates(order, done) && |Pack(order)| == n
    && if size == 0 then buff == was else n <= size <= |was| && buff == Pack(order) + was[n..]
  }

  /** What one more fill leaves in the buffer. */
  function WithName(buff: Bytes, at: nat, name: Bytes): Bytes
    requires at + |name| < |buff|
  {
    buff[..at] + name + [0] + buff[at + |name| + 1..]
  }

  lemma EnumeratesMore(order: seq<Bytes>, done: set<Bytes>, name: Bytes)
    requires Enumerates(order, done) && name !in done
    ensures Enumerates(order + [name], done + {name})
  {
    var more := order + [name];
    forall n | n in done + {name} ensures n in more {
      if n == name {
        assert more[|order|] == name;
      }
    }
  }

  lemma PackMore(packed: Bytes, name: Bytes, was: Bytes)
    requires |packed| + |name| + 1 <= |was|
    ensures WithName(packed + was[|packed|..], |packed|, name) == packed + name + [0] + was[|packed| + |name| + 1..]
  {
  }

  lemma FilledMore(order: seq<Bytes>, done: set<Bytes>, n: nat, size: nat, buff: Bytes, was: Bytes, name: Bytes)
    requires Filled(order, done, n, size, buff, was) && name !in done
    requires size != 0 ==> n + |name| + 1 <= size
    ensures Filled(order + [name], done + {name}, n + |name| + 1, size,
                   if size == 0 then buff else WithName(buff, n, name), was)
  {
    EnumeratesMore(order, done, name);
    PackLast(order, name);
    if size != 0 {
      PackMore(Pack(order), name, was);
    }
  }

  lemma FilledKeepsRest(order: seq<Bytes>, done: set<Bytes>, n: nat, size: nat, buff: Bytes, was: Bytes)
    requires Filled(order, done, n, size, buff, was) && size <= |buff|
    ensures |buff| == |was| && buff[size..] == was[size..]
  {
  }

  lemma FilledIsListed(order: seq<Bytes>, names: set<Bytes>, n: nat, size: nat, buff: Bytes, was: Bytes)
    requires Filled(order, names, n, size, buff, was) && n == Total(names) && size <= |buff|
    ensures Listed(names, size, CInt(n), order, buff, was) && buff[size..] == was[size..]
  {
    FilledKeepsRest(order, names, n, size, buff, was);
    if size != 0 {
      assert buff[..n] == Pack(order);
      if forall name: Bytes :: name in names ==> 0 !in name {
        UnpackPack(order);
      }
    }
  }

  /** copy(buff[at:at+len(name)], name), buff[at+len(name)] = 0 */
  method PutName(buff: array<byte>, at: nat, name: Bytes)
    requires at + |name| < buff.Length
    modifies buff
    ensures buff[..] == WithName(old(buff[..]), at, name)
  {
    PutBytes(buff, at, name);
    buff[at + |name|] := 0;
  }

  method PutBytes(buff: array<byte>, at: nat, bytes: Bytes)
    requires at + |bytes| <= buff.Length
    modifies buff
    ensures buff[..] == old(buff[..at]) + bytes + old(buff[at + |bytes|..])
  {
    forall k | 0 <= k < |bytes| {
      buff[at + k] := bytes[k];
    }
  }

  /** The filler: counts one more name and, when there is a size, packs it. */
  method Fill(name: Bytes, buff: array<byte>, size: nat, n: nat, ghost order: seq<Bytes>, ghost done: set<Bytes>,
              ghost was: Bytes) returns (ok: bool, n': nat)
    requires size <= buff.Length && name !in done && Filled(order, done, n, size, buff[..], was)
    modifies buff
    ensures ok <==> size == 0 || n + |name| + 1 <= size
    ensures ok ==> n' == n + |name| + 1 && Filled(order + [name], done + {name}, n', size, buff[..], was)
    ensures !ok ==> n' == n && buff[..] == old(buff[..])
  {
    FilledKeepsRest(order, done, n, size, buff[..], was);
    if size != 0 && n + |name| + 1 > size {
      return false, n;
    }
    FilledMore(order, done, n, size, buff[..], was, name);
    if size != 0 {
      PutName(buff, n, name);
    }
    return true, n + |name| + 1;
  }

  method FillNames(names: set<Bytes>, buff: array<byte>, size: nat) returns (nbyt: int, ghost order: seq<Bytes>)
    requires size <= buff.Length
    modifies buff
    ensures buff[size..] == old(buff[size..])
    ensures Listed(names, size, nbyt, order, buff[..], old(buff[..]))
  {
    ghost var was := buff[..];
    var rest: set<Bytes>, n: nat := names, 0;
    order := [];
    while rest != {}
      invariant rest <= names && n + Total(rest) == Total(names)
      invariant Filled(order, names - rest, n, size, buff[..], was)
      decreases rest
    {
      var name :| name in rest;
      TotalWithout(rest, name);
      assert names - rest + {name} == names - (rest - {name});
      var ok;
      ok, n := Fill(name, buff, size, n, order, names - rest, was);
      if !ok {
        FilledKeepsRest(order, names - rest, n, size, buff[..], was);
        return -ERANGE, order;
      }
      rest, order := rest - {name}, order + [name];
    }
    assert names - rest == names;
    FilledIsListed(order, names, n, size, buff[..], was);
    nbyt := CInt(n);
  }

  // ------------------------------------------------------------ create

  /** FileSystemBase.Create answers ENOSYS, so Create is Mknod and then Open. */
  function CreateMode(mode: bv32): bv32 {
    S_IFREG | mode
  }

  function Create(fs: FS, p: Path, mode: bv32): (FS, Outcome, nat) {
    var (fs1, o) := MakeNode(fs, p, CreateMode(mode), []);
    if o == Return(0) then OpenNode(fs1, p, false) else (fs1, o, NO_HANDLE)
  }

  method MakeAndOpen(fs: M.Memfs, path: string, mode: bv32) returns (o: Outcome, fh: nat)
    requires fs.Valid() && fs.ino + 1 < NO_HANDLE
    modifies fs`ino, fs`fs, fs`nodes, fs`owner, fs`Repr, fs`openmap
    modifies fs.nodes.Values`chld, fs.nodes.Values`opencnt
    ensures fs.Valid() && fresh(fs.Repr - old(fs.Repr)) && fs.KeepsNodes()
    ensures (fs.fs, o, fh) == Create(old(fs.fs), Components(path), mode)
    ensures o == Return(0) ==> fs.ino in fs.nodes && fs.nodes[fs.ino].onlyGrown
  {
    o := fs.MakeNode(path, CreateMode(mode), []);
    fh := NO_HANDLE;
    if o == Return(0) {
      o, fh := fs.OpenNode(path, false);
    }
  }

  /** `was` is what the file information held before; a panic leaves it there. */
  method HostCreate(fs: M.Memfs, path: string, mode: bv32, was: nat) returns (errc: int, fh: nat)
    requires fs.Valid() && fs.ino + 1 < NO_HANDLE
    modifies fs`ino, fs`fs, fs`nodes, fs`owner, fs`Repr, fs`openmap
    modifies fs.nodes.Values`chld, fs.nodes.Values`opencnt
    ensures fs.Valid() && fresh(fs.Repr - old(fs.Repr)) && fs.KeepsNodes()
    ensures var (fs', o, h) := Create(old(fs.fs), Components(path), mode);
            && fs.fs == fs' && Reports(errc, o) && (fh == if o.Panic? then was else h)
            && (o == Return(0) ==> fs.ino in fs.nodes && fs.nodes[fs.ino].onlyGrown)
  {
    var o;
    o, fh := MakeAndOpen(fs, path, mode);
    CreateIsOrdinary(old(fs.fs), Components(path), mode);
    OrdinaryReports(o);
    errc := CInt(RecoverAsErrno(o));
    if o.Panic? {
      fh := was;
    }
  }

  lemma CreateIsOrdinary(fs: FS, p: Path, mode: bv32)
    ensures Ordinary(Create(fs, p, mode).1)
  {
  }

  lemma CreateModeIsNoDirectory(mode: bv32)
    ensures !IsDirMode(CreateMode(mode)) && CreateMode(mode) == 0x8000 | mode
  {
  }

  /** Create makes a new empty file at a vacant path and opens it once, under a handle no
      node had before; or it fails and every node is as it was. */
  lemma CreateEffect(fs: FS, p: Path, mode: bv32)
    requires Inv(fs) && Spellable(p)
    ensures var (fs', o, h) := Create(fs, p, mode);
            if o.Failed() then fs'.tab == fs.tab && h == NO_HANDLE
            else
              && o == Return(0) && Vacant(fs, p) && h == fs.ino + 1 && h !in fs.tab
              && h in fs'.tab && fs'.tab[h] == Inode(0x8000 | mode, 1, map[], map[], [], 1)
              && SameShape(Created(fs, p, CreateMode(mode), []), fs')
  {
    var (fs1, o1) := MakeNode(fs, p, CreateMode(mode), []);
    MakeNodeEffect(fs, p, CreateMode(mode), []);
    if o1 == Return(0) {
      MakeNodeKeepsInv(fs, p, CreateMode(mode), []);
      CreatedResolves(fs, p, CreateMode(mode), [], p);
      ResolvedLookup(fs1, p);
      CreateModeIsNoDirectory(mode);
      CreatedNode(fs, p, CreateMode(mode));
    }
  }

  /** After Create the new path leads to the new handle's node, every other path where it
      led before, and the invariant holds. */
  lemma CreateResolves(fs: FS, p: Path, mode: bv32, q: Path)
    requires Inv(fs) && Spellable(p) && Create(fs, p, mode).1 == Return(0)
    ensures var (fs', _, h) := Create(fs, p, mode);
            Inv(fs') && Resolve(fs', q) == if q == p then Some(h) else Resolve(fs, q)
  {
    CreateEffect(fs, p, mode);
    var fs1, fs' := Created(fs, p, CreateMode(mode), []), Create(fs, p, mode).0;
    MakeNodeEffect(fs, p, CreateMode(mode), []);
    MakeNodeKeepsInv(fs, p, CreateMode(mode), []);
    CreatedResolves(fs, p, CreateMode(mode), [], q);
    assert SameEntries(fs1, fs');
    SameEntriesSameWalk(fs1, fs', ROOT, q);
    OpenKeepsInv(fs1, p);
  }

  lemma OpenKeepsInv(fs: FS, p: Path)
    requires Inv(fs)
    ensures Inv(OpenNode(fs, p, false).0)
  {
    assert SameShape(fs, OpenNode(fs, p, false).0);
    SameShapeKeepsInv(fs, OpenNode(fs, p, false).0);
  }

  lemma CreatedNode(fs: FS, p: Path, mode: bv32)
    requires WellFormed(fs) && Vacant(fs, p)
    ensures fs.ino + 1 !in fs.tab && fs.ino + 1 in Created(fs, p, mode, []).tab
    ensures Created(fs, p, mode, []).tab[fs.ino + 1] == NewInode(mode, [])
  {
    BlankKeepsVacant(fs, p, mode, []);
  }

  // ------------------------------------------------------------ rename

  lemma RenameIsOrdinary(fs: FS, s: Path, t: Path, flags: bv32)
    ensures Ordinary(Rename(fs, s, t).1) && Ordinary(Rename3(fs, s, t, flags).1)
  {
  }

  /** hostRename: file systems without Rename3 refuse every flag. */
  method HostRename(fs: M.Memfs, source: string, target: string, flags: bv32, rename3: bool) returns (errc: int)
    requires fs.Valid()
    modifies fs`fs, fs.nodes.Values`nlink, fs.nodes.Values`chld
    ensures fs.Valid()
    ensures var (fs', o) := if rename3 then Rename3(old(fs.fs), Components(source), Components(target), flags)
                            else if flags != 0 then (old(fs.fs), Err(EINVAL))
                            else Rename(old(fs.fs), Components(source), Components(target));
            fs.fs == fs' && Reports(errc, o)
  {
    RenameIsOrdinary(fs.fs, Components(source), Components(target), flags);
    var o;
    if rename3 {
      o := fs.Rename3(source, target, flags);
    } else if flags != 0 {
      o := Err(EINVAL);
    } else {
      o := fs.Rename(source, target);
    }
    OrdinaryReports(o);
    errc := CInt(RecoverAsErrno(o));
  }
}
