/** How a slash-separated path becomes the sequence of names a lookup follows. */
module Paths {
  import opened Inodes

  /** strings.Split(path, "/"). */
  function Split(path: string): (parts: seq<string>)
    ensures parts != []
  {
    if path == "" then [""]
    else
      var rest := Split(path[1..]);
      if path[0] == '/' then [""] + rest
      else [[path[0]] + rest[0]] + rest[1..]
  }

  function NonBlank(parts: seq<string>): Path {
    if parts == [] then []
    else if parts[0] == "" then NonBlank(parts[1..])
    else [parts[0]] + NonBlank(parts[1..])
  }

  function Components(path: string): Path {
    NonBlank(Split(path))
  }

  /** A path string that spells the names of `p`. */
  function Spell(p: Path): string {
    if p == [] then "" else "/" + p[0] + Spell(p[1..])
  }

  predicate Spellable(p: Path) {
    forall k :: 0 <= k < |p| ==> p[k] != "" && '/' !in p[k]
  }

  lemma {:induction false} SplitFirst(a: string, b: string)
    requires '/' !in a
    ensures Split(a + "/" + b) == [a] + Split(b)
  {
    var s := a + "/" + b;
    if a == "" {
      assert s == "/" + b && s[1..] == b;
    } else {
      SplitFirst(a[1..], b);
      assert s[1..] == a[1..] + "/" + b;
      assert [a[0]] + a[1..] == a;
    }
  }

  lemma {:induction false} SplitWhole(a: string)
    requires '/' !in a
    ensures Split(a) == [a]
  {
    if a != "" {
      SplitWhole(a[1..]);
      assert [a[0]] + a[1..] == a;
    }
  }

  lemma {:induction false} SplitHasNoSlash(path: string)
    ensures forall k :: 0 <= k < |Split(path)| ==> '/' !in Split(path)[k]
  {
    if path != "" {
      SplitHasNoSlash(path[1..]);
    }
  }

  lemma {:induction false} NonBlankSpellable(parts: seq<string>)
    requires forall k :: 0 <= k < |parts| ==> '/' !in parts[k]
    ensures Spellable(NonBlank(parts))
  {
    if parts != [] {
      NonBlankSpellable(parts[1..]);
    }
  }

  /** Every path string is read as names that are not blank and hold no slash ... */
  lemma ComponentsSpellable(path: string)
    ensures Spellable(Components(path))
  {
    SplitHasNoSlash(path);
    NonBlankSpellable(Split(path));
  }

  lemma NonBlankFirst(a: string, parts: seq<string>)
    ensures NonBlank([a] + parts) == if a == "" then NonBlank(parts) else [a] + NonBlank(parts)
  {
    assert ([a] + parts)[1..] == parts;
  }

  lemma SplitAfterSlash(a: string)
    ensures Components("/" + a) == NonBlank(Split(a))
  {
    SplitFirst("", a);
    assert "" + "/" + a == "/" + a;
    NonBlankFirst("", Split(a));
  }

  /** ... and every sequence of such names is what some path string is read as. */
  lemma {:induction false} ComponentsOfSpell(p: Path)
    requires Spellable(p)
    ensures Components(Spell(p)) == p
  {
    if p != [] {
      ComponentsOfSpell(p[1..]);
      assert Spell(p) == "/" + (p[0] + Spell(p[1..]));
      SplitAfterSlash(p[0] + Spell(p[1..]));
      SplitSpelled(p[0], p[1..]);
    }
  }

  lemma SplitSpelled(a: string, p: Path)
    requires a != "" && '/' !in a && Spellable(p)
    ensures NonBlank(Split(a + Spell(p))) == [a] + Components(Spell(p))
  {
    if p == [] {
      SplitWhole(a);
      assert a + Spell(p) == a;
      NonBlankFirst(a, []);
      NonBlankFirst("", []);
    } else {
      var tail := p[0] + Spell(p[1..]);
      assert Spell(p) == "/" + tail;
      assert a + Spell(p) == a + "/" + tail;
      SplitFirst(a, tail);
      NonBlankFirst(a, Split(tail));
      SplitAfterSlash(tail);
    }
  }

  /** The character `c` before a path string whose parts are `parts`. */
  function Before(c: char, parts: seq<string>): seq<string>
    requires parts != []
  {
    if c == '/' then [""] + parts else [[c] + parts[0]] + parts[1..]
  }

  lemma SplitCons(c: char, rest: string)
    ensures Split([c] + rest) == Before(c, Split(rest))
  {
    assert ([c] + rest)[1..] == rest;
  }

  lemma BeforeJoin(c: char, p: seq<string>, q: seq<string>)
    requires p != []
    ensures Before(c, p + q) == Before(c, p) + q
  {
    assert (p + q)[1..] == p[1..] + q;
  }

  lemma {:induction false} SplitJoin(a: string, b: string)
    ensures Split(a + "/" + b) == Split(a) + Split(b)
    decreases |a|
  {
    if a == "" {
      SplitCons('/', b);
      assert a + "/" + b == ['/'] + b;
    } else {
      var c, t := a[0], a[1..];
      SplitJoin(t, b);
      SplitCons(c, t);
      SplitCons(c, t + "/" + b);
      BeforeJoin(c, Split(t), Split(b));
      assert a == [c] + t && a + "/" + b == [c] + (t + "/" + b);
    }
  }

  lemma NonBlankStep(a: string, rest: seq<string>, q: seq<string>)
    requires NonBlank(rest + q) == NonBlank(rest) + NonBlank(q)
    ensures NonBlank([a] + rest + q) == NonBlank([a] + rest) + NonBlank(q)
  {
    NonBlankFirst(a, rest);
    NonBlankFirst(a, rest + q);
    assert [a] + rest + q == [a] + (rest + q);
  }

  lemma {:induction false} NonBlankJoin(p: seq<string>, q: seq<string>)
    ensures NonBlank(p + q) == NonBlank(p) + NonBlank(q)
  {
    if p == [] {
      assert p + q == q;
    } else {
      NonBlankJoin(p[1..], q);
      NonBlankStep(p[0], p[1..], q);
      assert [p[0]] + p[1..] == p;
    }
  }

  /** How any path string is read: a slash joins what stands on its sides, a string without
      a slash is one name, and nothing between two slashes is no name. */
  lemma ComponentsJoin(a: string, b: string)
    ensures Components(a + "/" + b) == Components(a) + Components(b)
    ensures '/' !in a ==> Components(a) == if a == "" then [] else [a]
  {
    SplitJoin(a, b);
    NonBlankJoin(Split(a), Split(b));
    if '/' !in a {
      SplitWhole(a);
      NonBlankFirst(a, []);
    }
  }
}
