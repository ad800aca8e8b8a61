/** What the lookup loop finds, said with path resolution instead of with a loop. */
module Lookups {
  import opened Fuse
  import opened Inodes
  import opened Operations

  /** One of the first `n` steps of the walk along `p` arrives at `x`. */
  ghost predicate TouchesBy(fs: FS, p: Path, n: nat, x: Ino)
    requires n <= |p|
  {
    exists k :: 1 <= k <= n && Resolve(fs, p[..k]) == Some(x)
  }

  ghost predicate Touches(fs: FS, p: Path, x: Ino) {
    TouchesBy(fs, p, |p|, x)
  }

  ghost predicate StoppedBy(fs: FS, p: Path, n: nat, ancestor: Option<Ino>)
    requires n <= |p|
  {
    ancestor.Some? && TouchesBy(fs, p, n, ancestor.value)
  }

  /** Name `k` of the path is too long, and the lookup gets as far as reading it: the
      name before it was looked up in an existing node, and the ancestor was not met. */
  ghost predicate Overlong(fs: FS, p: Path, ancestor: Option<Ino>, k: nat) {
    && k < |p| && MAX_NAME < |p[k]|
    && (k > 0 ==> Resolve(fs, p[..k - 1]).Some?)
    && !StoppedBy(fs, p, k, ancestor)
  }

  /** The answer of a lookup that neither panics nor meets the ancestor. */
  ghost predicate Plain(fs: FS, p: Path, r: LookupResult) {
    && r.Found?
    && r.node == Resolve(fs, p)
    && (p == [] ==> r.prnt == Some(ROOT) && r.name == "")
    && (p != [] ==> r.prnt == Resolve(fs, DropLast(p)) && (r.prnt.Some? ==> r.name == Last(p)))
  }

  lemma {:induction false} ResolveShrinks(fs: FS, p: Path, k: nat, j: nat)
    requires k <= j <= |p|
    ensures Resolve(fs, p[..j]).Some? ==> Resolve(fs, p[..k]).Some?
    decreases j
  {
    if k < j {
      ResolveShrinks(fs, p, k, j - 1);
      assert DropLast(p[..j]) == p[..j - 1];
    }
  }

  function LookupAt(fs: FS, p: Path, k: nat, ancestor: Option<Ino>): LookupResult
    requires k <= |p|
  {
    LookupFrom(fs, if k == 0 then Some(ROOT) else Resolve(fs, p[..k - 1]), if k == 0 then "" else p[k - 1],
               Resolve(fs, p[..k]), p[k..], ancestor)
  }

  lemma LookupAtStep(fs: FS, p: Path, k: nat, ancestor: Option<Ino>)
    requires k < |p| && |p[k]| <= MAX_NAME && Resolve(fs, p[..k]).Some?
    ensures Resolve(fs, p[..k + 1]) == Child(fs, Resolve(fs, p[..k]).value, p[k])
    ensures LookupAt(fs, p, k, ancestor) ==
            if ancestor.Some? && Resolve(fs, p[..k + 1]) == ancestor
            then Found(Resolve(fs, p[..k]), "", ancestor)
            else LookupAt(fs, p, k + 1, ancestor)
  {
    assert DropLast(p[..k + 1]) == p[..k];
    assert p[k..][1..] == p[k + 1..];
  }

  lemma {:induction false} LookupAtMeans(fs: FS, p: Path, k: nat, ancestor: Option<Ino>)
    requires k <= |p| && !StoppedBy(fs, p, k, ancestor)
    requires k > 0 ==> Resolve(fs, p[..k - 1]).Some?
    ensures LookupAt(fs, p, k, ancestor).TooLong? <==> exists i: nat :: k <= i && Overlong(fs, p, ancestor, i)
    ensures var r := LookupAt(fs, p, k, ancestor);
            r.Found? ==>
              if StoppedBy(fs, p, |p|, ancestor) then r.prnt.Some? && r.name == "" && r.node == ancestor
              else Plain(fs, p, r)
    decreases |p| - k
  {
    if k == |p| {
      assert p[..k] == p;
    } else if MAX_NAME < |p[k]| {
      assert Overlong(fs, p, ancestor, k);
    } else if Resolve(fs, p[..k]).None? {
      NothingBeyond(fs, p, k, ancestor);
    } else {
      LookupAtStep(fs, p, k, ancestor);
      if ancestor.Some? && Resolve(fs, p[..k + 1]) == ancestor {
        assert forall i :: k < i <= |p| ==> StoppedBy(fs, p, i, ancestor);
      } else {
        LookupAtMeans(fs, p, k + 1, ancestor);
      }
    }
  }

  /** Past a name that resolves to nothing there is nothing to find. */
  lemma NothingBeyond(fs: FS, p: Path, k: nat, ancestor: Option<Ino>)
    requires k < |p| && Resolve(fs, p[..k]).None? && !StoppedBy(fs, p, k, ancestor)
    ensures Resolve(fs, DropLast(p)).None? && Resolve(fs, p).None?
    ensures !StoppedBy(fs, p, |p|, ancestor)
    ensures forall i: nat :: k < i ==> !Overlong(fs, p, ancestor, i)
  {
    forall j | k <= j <= |p| ensures Resolve(fs, p[..j]).None? {
      ResolveShrinks(fs, p, k, j);
    }
    assert p[..|p|] == p;
  }

  /** The lookup without an ancestor panics exactly when it reads an overlong name, and
      otherwise returns the node, its parent and its last name. */
  lemma LookupMeans(fs: FS, p: Path)
    ensures Lookup(fs, p, None).TooLong? <==> exists i: nat :: Overlong(fs, p, None, i)
    ensures Lookup(fs, p, None).Found? ==> Plain(fs, p, Lookup(fs, p, None))
  {
    LookupAtMeans(fs, p, 0, None);
    assert p[0..] == p;
  }

  /** The lookup with an ancestor returns the empty name exactly when the path has no
      names or its walk meets the ancestor. */
  lemma GuardedLookupMeans(fs: FS, p: Path, x: Ino)
    requires forall k :: 0 <= k < |p| ==> p[k] != ""
    ensures var r := Lookup(fs, p, Some(x));
            && (r.TooLong? <==> exists i: nat :: Overlong(fs, p, Some(x), i))
            && (r.Found? && Touches(fs, p, x) ==> r.prnt.Some? && r.name == "" && r.node == Some(x))
            && (r.Found? && !Touches(fs, p, x) ==> Plain(fs, p, r))
            && (r.Found? && r.prnt.Some? ==> (r.name == "" <==> p == [] || Touches(fs, p, x)))
  {
    LookupAtMeans(fs, p, 0, Some(x));
    assert p[0..] == p;
  }

  /** In a well-formed table a path that resolves has only short names. */
  lemma {:induction false} ResolvedNamesGood(fs: FS, p: Path)
    requires WellFormed(fs) && Resolve(fs, p).Some?
    ensures forall k :: 0 <= k < |p| ==> GoodName(p[k])
    decreases |p|
  {
    if p != [] {
      ResolvedNamesGood(fs, DropLast(p));
    }
  }

  lemma ResolvedLookup(fs: FS, p: Path)
    requires WellFormed(fs) && Resolve(fs, p).Some?
    ensures Lookup(fs, p, None).Found? && Plain(fs, p, Lookup(fs, p, None))
  {
    LookupMeans(fs, p);
    ResolvedNamesGood(fs, p);
  }
}
