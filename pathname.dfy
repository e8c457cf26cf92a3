/** The path layer: resolving an absolute path to an inumber by splitting it
    on '/' and looking its components up one directory at a time, starting
    from the root directory. */
module Pathnames {
  import opened DiskImg
  import opened Inodes
  import opened Directories

  /** The component separator '/'. */
  const SLASH: Byte := 0x2F
  /** The inumber of the root directory. */
  const ROOT_DIR_INUMBER: int := 1

  // ---------------------------------------------------------------------------
  // Splitting

  /** `p` holds no separator. */
  predicate NoSlash(p: seq<Byte>) {
    forall k :: 0 <= k < |p| ==> p[k] != SLASH
  }

  /** The tokens successive `strsep(&p, "/")` calls return: every run of
      bytes between separators, empty runs included, so a path with k
      separators has k + 1 tokens. */
  function Split(p: seq<Byte>): (tokens: seq<seq<Byte>>)
    ensures |tokens| >= 1
  {
    if p == [] then [[]]
    else
      var rest := Split(p[1..]);
      if p[0] == SLASH then [[]] + rest
      else [[p[0]] + rest[0]] + rest[1..]
  }

  /** No token holds a separator, and there is one token more than the
      path has separators. */
  lemma {:induction false} SplitTokens(p: seq<Byte>)
    ensures forall k :: 0 <= k < |Split(p)| ==> NoSlash(Split(p)[k])
    ensures |Split(p)| == multiset(p)[SLASH] + 1
  {
    if p != [] {
      SplitTokens(p[1..]);
      assert p == [p[0]] + p[1..];
      assert multiset(p) == multiset([p[0]]) + multiset(p[1..]);
      if p[0] != SLASH {
        assert NoSlash(Split(p[1..])[0]);
      }
    }
  }

  /** Tokens put back together with a separator between each two. */
  function Join(tokens: seq<seq<Byte>>): (p: seq<Byte>)
    requires |tokens| >= 1
  {
    if |tokens| == 1 then tokens[0] else tokens[0] + [SLASH] + Join(tokens[1..])
  }

  /** Joining the tokens gives the path back. */
  lemma {:induction false} JoinSplit(p: seq<Byte>)
    ensures Join(Split(p)) == p
  {
    if p != [] {
      JoinSplit(p[1..]);
      var rest := Split(p[1..]);
      if p[0] == SLASH {
        assert Split(p)[1..] == rest;
        assert p == [SLASH] + p[1..];
      } else {
        var t := Split(p);
        assert t[0] == [p[0]] + rest[0];
        if |rest| == 1 {
          assert p == [p[0]] + p[1..];
        } else {
          assert t[1..] == rest[1..];
          assert p == [p[0]] + p[1..];
        }
      }
    }
  }

  /** A path without a separator is a single token. */
  lemma {:induction false} SplitNoSlash(p: seq<Byte>)
    requires NoSlash(p)
    ensures Split(p) == [p]
  {
    if p != [] {
      SplitNoSlash(p[1..]);
      assert p == [p[0]] + p[1..];
    }
  }

  /** Splitting at a separator: the tokens of `p`, then those of `q`. */
  lemma {:induction false} SplitAppend(p: seq<Byte>, q: seq<Byte>)
    ensures Split(p + [SLASH] + q) == Split(p) + Split(q)
  {
    var pq := p + [SLASH] + q;
    if p == [] {
      assert pq == [SLASH] + q;
      assert pq[1..] == q;
    } else {
      assert pq[0] == p[0];
      assert pq[1..] == p[1..] + [SLASH] + q;
      SplitAppend(p[1..], q);
    }
  }

  /** Splitting the joined tokens, none holding a separator, gives the
      tokens back. */
  lemma {:induction false} SplitJoin(tokens: seq<seq<Byte>>)
    requires |tokens| >= 1
    requires forall k :: 0 <= k < |tokens| ==> NoSlash(tokens[k])
    ensures Split(Join(tokens)) == tokens
  {
    SplitNoSlash(tokens[0]);
    if |tokens| > 1 {
      SplitJoin(tokens[1..]);
      SplitAppend(tokens[0], Join(tokens[1..]));
      assert tokens == [tokens[0]] + tokens[1..];
    }
  }

  // ---------------------------------------------------------------------------
  // Walking

  /** A lookup of a name in a directory: the entry found, or None. */
  type Finder = (int, seq<Byte>) -> Option<Dirent>

  /** `directory_findname` on `disk`. */
  function DirLookup(disk: Image): (find: Finder) {
    (dir, name) => EntryNamed(disk, dir, name)
  }

  /** The walk over the components `comps` from directory `cur`: an empty
      component ends it at `cur`, a component the directory does not hold
      ends it with -1, any other moves to the inumber of the entry found. */
  function Walk(find: Finder, cur: int, comps: seq<seq<Byte>>): (r: int)
    ensures r == cur || r == -1 || 0 <= r < 0x1_0000
    decreases |comps|
  {
    if comps == [] || comps[0] == [] then cur
    else
      match find(cur, comps[0])
      case None => -1
      case Some(e) => Walk(find, e.inumber, comps[1..])
  }

  /** What `pathname_lookup` returns for `path`: the token before the first
      separator is discarded and the walk starts at the root directory. */
  function Resolve(disk: Image, path: seq<Byte>): (r: int)
    ensures r == -1 || 0 <= r < 0x1_0000
  {
    Walk(DirLookup(disk), ROOT_DIR_INUMBER, Split(path)[1..])
  }

  /** `pathname_lookup`: the inumber `pathname` names, or -1. The splitting
      works on a copy: the caller's path is a value the lookup cannot
      change. */
  method LookupPath(disk: Image, pathname: seq<Byte>) returns (r: int)
    ensures r == Resolve(disk, pathname)
  {
    var tokens := Split(pathname);
    // the first token, before the leading '/', is dropped
    ghost var find := DirLookup(disk);
    var dirinumber := ROOT_DIR_INUMBER;
    var t := 1;
    while t < |tokens|
      invariant 1 <= t <= |tokens|
      invariant Walk(find, dirinumber, tokens[t..]) == Resolve(disk, pathname)
    {
      var dirname := tokens[t];
      // an empty component ends the lookup where it is
      if dirname == [] {
        return dirinumber;
      }
      var rc, dirEnt := FindName(disk, dirname, dirinumber, Dirent(0, seq(14, _ => 0)));
      if rc == -1 {
        return -1;
      }
      assert tokens[t..][1..] == tokens[t + 1..];
      dirinumber := dirEnt.inumber;
      t := t + 1;
    }
    return dirinumber;
  }

  // ---------------------------------------------------------------------------
  // Properties of the lookup

  /** "/" names the root directory, and so does the empty path. */
  lemma ResolveRoot(disk: Image)
    ensures Resolve(disk, [SLASH]) == ROOT_DIR_INUMBER
    ensures Resolve(disk, []) == ROOT_DIR_INUMBER
  {
    assert [SLASH][1..] == [];
    assert Split([SLASH]) == [[], []];
  }

  /** The token before the first separator plays no part: the lookup walks
      the tokens after it from the root. */
  lemma ResolveDropsFirstToken(disk: Image, x: seq<Byte>, q: seq<Byte>)
    requires NoSlash(x)
    ensures Resolve(disk, x + [SLASH] + q) == Walk(DirLookup(disk), ROOT_DIR_INUMBER, Split(q))
    ensures Resolve(disk, x + [SLASH] + q) == Resolve(disk, [SLASH] + q)
  {
    SplitAppend(x, q);
    SplitAppend([], q);
    SplitNoSlash(x);
    assert [] + [SLASH] + q == [SLASH] + q;
  }

  /** An empty component ends the walk: what follows it is never looked
      up. */
  lemma {:induction false} WalkStopsAtEmpty(find: Finder, cur: int, a: seq<seq<Byte>>, b: seq<seq<Byte>>)
    ensures Walk(find, cur, a + [[]] + b) == Walk(find, cur, a)
    decreases |a|
  {
    if a == [] {
      assert (a + [[]] + b)[0] == [];
    } else {
      assert (a + [[]] + b)[0] == a[0];
      assert (a + [[]] + b)[1..] == a[1..] + [[]] + b;
      if a[0] != [] {
        match find(cur, a[0])
        case None =>
        case Some(e) => WalkStopsAtEmpty(find, e.inumber, a[1..], b);
      }
    }
  }

  /** A trailing separator changes nothing: "/a/b/" names what "/a/b"
      names. */
  lemma ResolveTrailingSlash(disk: Image, p: seq<Byte>)
    ensures Resolve(disk, p + [SLASH]) == Resolve(disk, p)
  {
    SplitAppend(p, []);
    assert p + [SLASH] + [] == p + [SLASH];
    assert Split(p + [SLASH]) == Split(p) + ([[]] + []);
    WalkTokensStop(DirLookup(disk), Split(p), []);
  }

  /** A doubled separator ends the lookup: "/a//b" names what "/a"
      names. */
  lemma ResolveDoubleSlash(disk: Image, p: seq<Byte>, q: seq<Byte>)
    ensures Resolve(disk, p + [SLASH, SLASH] + q) == Resolve(disk, p)
  {
    SplitAppend(p, [SLASH] + q);
    SplitAppend([], q);
    assert p + [SLASH, SLASH] + q == p + [SLASH] + ([SLASH] + q);
    assert [] + [SLASH] + q == [SLASH] + q;
    WalkTokensStop(DirLookup(disk), Split(p), Split(q));
  }

  /** WalkStopsAtEmpty on the tokens after the first. */
  lemma WalkTokensStop(find: Finder, s: seq<seq<Byte>>, t: seq<seq<Byte>>)
    requires |s| >= 1
    ensures Walk(find, ROOT_DIR_INUMBER, (s + ([[]] + t))[1..]) == Walk(find, ROOT_DIR_INUMBER, s[1..])
  {
    assert (s + ([[]] + t))[1..] == s[1..] + [[]] + t;
    WalkStopsAtEmpty(find, ROOT_DIR_INUMBER, s[1..], t);
  }

  /** Every component is non-empty. */
  predicate AllNonEmpty(comps: seq<seq<Byte>>) {
    forall k :: 0 <= k < |comps| ==> comps[k] != []
  }

  /** Walking two runs of non-empty components one after the other: a
      failure in the first is the result, otherwise the second run is
      walked from where the first ended. */
  lemma {:induction false} WalkAppend(find: Finder, cur: int, a: seq<seq<Byte>>, b: seq<seq<Byte>>)
    requires cur != -1 && AllNonEmpty(a)
    ensures Walk(find, cur, a + b) ==
            if Walk(find, cur, a) == -1 then -1 else Walk(find, Walk(find, cur, a), b)
    decreases |a|
  {
    if a == [] {
      assert a + b == b;
    } else {
      assert (a + b)[0] == a[0];
      assert (a + b)[1..] == a[1..] + b;
      match find(cur, a[0])
      case None =>
      case Some(e) => WalkAppend(find, e.inumber, a[1..], b);
    }
  }

  /** A path whose components after the first token are all non-empty (no
      doubled or trailing separator). */
  predicate Canonical(p: seq<Byte>) {
    AllNonEmpty(Split(p)[1..])
  }

  /** WalkAppend on the tokens after the first: the form a path lookup
      walks. */
  lemma WalkTokensAppend(find: Finder, s: seq<seq<Byte>>, t: seq<seq<Byte>>)
    requires |s| >= 1 && AllNonEmpty(s[1..])
    ensures Walk(find, ROOT_DIR_INUMBER, (s + t)[1..]) ==
            var d := Walk(find, ROOT_DIR_INUMBER, s[1..]);
            if d == -1 then -1 else Walk(find, d, t)
  {
    assert (s + t)[1..] == s[1..] + t;
    WalkAppend(find, ROOT_DIR_INUMBER, s[1..], t);
  }

  /** Lookups compose: extending a canonical path by "/" and more
      components walks those components from the inumber the path names,
      and a path that fails to resolve makes every extension fail. */
  lemma ResolveExtend(disk: Image, p: seq<Byte>, q: seq<Byte>)
    requires Canonical(p)
    ensures Resolve(disk, p + [SLASH] + q) ==
            if Resolve(disk, p) == -1 then -1 else Walk(DirLookup(disk), Resolve(disk, p), Split(q))
  {
    SplitAppend(p, q);
    WalkTokensAppend(DirLookup(disk), Split(p), Split(q));
  }

  /** The path of entry `n` of the directory that `p` names: "/" + n for the
      root "/", p + "/" + n otherwise. */
  function ChildPath(p: seq<Byte>, n: seq<Byte>): (c: seq<Byte>) {
    if p == [SLASH] then [SLASH] + n else p + [SLASH] + n
  }

  /** If `p` names directory d, the child path of a name `n` names the
      inumber of the entry `directory_findname` finds for `n` in d, and
      fails exactly when there is none. */
  lemma ResolveChild(disk: Image, p: seq<Byte>, n: seq<Byte>)
    requires p == [SLASH] || Canonical(p)
    requires n != [] && NoSlash(n)
    requires Resolve(disk, p) != -1
    ensures Resolve(disk, ChildPath(p, n)) ==
            match EntryNamed(disk, Resolve(disk, p), n)
            case None => -1
            case Some(e) => e.inumber
  {
    SplitNoSlash(n);
    if p == [SLASH] {
      ResolveRoot(disk);
      ResolveDropsFirstToken(disk, [], n);
      assert [] + [SLASH] + n == [SLASH] + n;
    } else {
      ResolveExtend(disk, p, n);
    }
    assert [n][1..] == [];
  }

  /** The child path of a name is canonical when its parent is. */
  lemma ChildCanonical(p: seq<Byte>, n: seq<Byte>)
    requires p == [SLASH] || Canonical(p)
    requires n != [] && NoSlash(n)
    ensures Canonical(ChildPath(p, n))
  {
    SplitNoSlash(n);
    if p == [SLASH] {
      SplitAppend([], n);
      assert [] + [SLASH] + n == [SLASH] + n;
      assert Split([SLASH] + n)[1..] == [n];
    } else {
      SplitAppend(p, n);
      assert (Split(p) + [n])[1..] == Split(p)[1..] + [n];
    }
  }

  /** A path component that names no entry makes the lookup fail, and
      every path below it too. */
  lemma ResolveMissing(disk: Image, p: seq<Byte>, n: seq<Byte>, q: seq<Byte>)
    requires p == [SLASH] || Canonical(p)
    requires n != [] && NoSlash(n)
    requires Resolve(disk, p) != -1 && EntryNamed(disk, Resolve(disk, p), n).None?
    ensures Resolve(disk, ChildPath(p, n)) == -1
    ensures Resolve(disk, ChildPath(p, n) + [SLASH] + q) == -1
  {
    ResolveChild(disk, p, n);
    ChildCanonical(p, n);
    ResolveExtend(disk, ChildPath(p, n), q);
  }
}
