/**
  The directory tree of the file server, and what renames and removals do to the
  pathnames of files that are open at the time. An open file is remembered by its
  canonical pathname as well as by its node; the two belong together only while
  the pathname still leads to the node.
*/
module Namespace {
  import opened Efi
  import opened PathCanon

  const ROOT_NODE: nat := 1

  /** The directory entries, by directory node and name. */
  type Tree = map<(nat, Component), nat>

  /** The node that a pathname leads to. */
  function Resolve(t: Tree, path: seq<Component>): Option<nat>
    decreases |path|
  {
    if path == [] then Some(ROOT_NODE)
    else
      var dir := Resolve(t, Parent(path));
      if dir.Some? then Child(t, dir.value, Last(path)) else None
  }

  function Child(t: Tree, dir: nat, name: Component): Option<nat> {
    if (dir, name) in t then Some(t[(dir, name)]) else None
  }

  /** The pathname leads to node n. */
  predicate At(t: Tree, path: seq<Component>, n: nat) {
    Resolve(t, path) == Some(n)
  }

  /** No hard links to directories: a node that has entries is reached by one pathname only. */
  ghost predicate OnePathPerDirectory(t: Tree) {
    forall p, q, n: nat, name :: At(t, p, n) && At(t, q, n) && (n, name) in t ==> p == q
  }

  predicate Extends(t: Tree, t': Tree) {
    forall e :: e in t ==> e in t' && t'[e] == t[e]
  }

  /** New entries do not disturb any pathname. */
  lemma {:induction false} ExtendsKeeps(t: Tree, t': Tree, q: seq<Component>)
    requires Extends(t, t')
    requires Resolve(t, q).Some?
    ensures Resolve(t', q) == Resolve(t, q)
    decreases |q|
  {
    if q != [] {
      ExtendsKeeps(t, t', Parent(q));
    }
  }

  /** Behind a pathname that leads nowhere there is nothing. */
  lemma {:induction false} NothingBelow(t: Tree, p: seq<Component>, q: seq<Component>)
    requires Resolve(t, p) == None && p <= q
    ensures Resolve(t, q) == None
    decreases |q|
  {
    if p != q {
      assert p <= Parent(q);
      NothingBelow(t, p, Parent(q));
    }
  }

  // ----- removal -----

  function RemoveEntry(t: Tree, path: seq<Component>): Tree
    requires path != [] && Resolve(t, Parent(path)).Some?
  {
    t - {(Resolve(t, Parent(path)).value, Last(path))}
  }

  /** Removing an entry cuts off the pathnames through it, and no others. */
  lemma {:induction false} RemoveExact(t: Tree, path: seq<Component>, q: seq<Component>)
    requires OnePathPerDirectory(t) && path != [] && Resolve(t, path).Some?
    requires Resolve(t, q).Some?
    ensures Resolve(RemoveEntry(t, path), q) == if path <= q then None else Resolve(t, q)
    decreases |q|
  {
    var t' := RemoveEntry(t, path);
    if q != [] {
      RemoveExact(t, path, Parent(q));
      if path == q {
        assert !(path <= Parent(q));
      } else if !(path <= q) {
        assert !(path <= Parent(q));
        SameEntrySamePath(t, path, q);
      } else {
        assert path <= Parent(q);
      }
    }
  }

  lemma SamePath(p: seq<Component>, q: seq<Component>)
    requires p != [] && q != [] && Parent(p) == Parent(q) && Last(p) == Last(q)
    ensures p == q
  {
    assert p == Parent(p) + [Last(p)] && q == Parent(q) + [Last(q)];
  }

  lemma SameEntrySamePath(t: Tree, p: seq<Component>, q: seq<Component>)
    requires OnePathPerDirectory(t) && p != [] && q != []
    requires Resolve(t, p).Some?
    ensures Resolve(t, Parent(p)) == Resolve(t, Parent(q)) && Last(p) == Last(q) ==> p == q
  {
    var n := Resolve(t, Parent(p)).value;
    assert At(t, Parent(p), n) && (n, Last(p)) in t;
    if At(t, Parent(q), n) && Last(p) == Last(q) {
      SamePath(p, q);
    }
  }

  // ----- renames -----

  /** FUSE_RENAME2, which never replaces an existing entry. */
  function MoveEntry(t: Tree, src: seq<Component>, dst: seq<Component>): Tree
    requires src != [] && Resolve(t, src).Some?
    requires dst != [] && Resolve(t, Parent(dst)).Some?
  {
    RemoveEntry(t, src)[(Resolve(t, Parent(dst)).value, Last(dst)) := Resolve(t, src).value]
  }

  ghost predicate CanMove(t: Tree, src: seq<Component>, dst: seq<Component>) {
    && OnePathPerDirectory(t)
    && src != [] && Resolve(t, src).Some?
    && dst != [] && Resolve(t, Parent(dst)).Some? && Resolve(t, dst) == None
    && !(src <= dst)
  }

  /** A rename breaks the pathnames at and below the source, and no others. */
  lemma RenameExact(t: Tree, src: seq<Component>, dst: seq<Component>, q: seq<Component>)
    requires CanMove(t, src, dst)
    requires Resolve(t, q).Some?
    ensures Resolve(MoveEntry(t, src, dst), q) == if src <= q then None else Resolve(t, q)
  {
    var removed, t' := RemoveEntry(t, src), MoveEntry(t, src, dst);
    assert Extends(removed, t');
    if src <= q {
      RemoveExact(t, src, Parent(src));
      ExtendsKeeps(removed, t', Parent(src));
      assert Resolve(t', src) == None;
      NothingBelow(t', src, q);
    } else {
      RemoveExact(t, src, q);
      ExtendsKeeps(removed, t', q);
    }
  }

  /** An entry that is moved below itself is cut off, whatever is reached through it included. */
  lemma MovedIntoItself(t: Tree, src: seq<Component>, dst: seq<Component>)
    requires OnePathPerDirectory(t) && src != [] && Resolve(t, src).Some?
    requires dst != [] && Resolve(t, Parent(dst)).Some? && Resolve(t, dst) == None
    requires src <= dst
    ensures Resolve(MoveEntry(t, src, dst), dst) == None
  {
    var removed, t' := RemoveEntry(t, src), MoveEntry(t, src, dst);
    assert Extends(removed, t');
    RemoveExact(t, src, Parent(src));
    ExtendsKeeps(removed, t', Parent(src));
    assert Resolve(t', src) == None;
    NothingBelow(t', src, dst);
  }

  /** Everything at and below the source is found under the destination. */
  lemma {:induction false} SubtreeMoves(t: Tree, src: seq<Component>, dst: seq<Component>, rest: seq<Component>)
    requires CanMove(t, src, dst)
    requires Resolve(t, src + rest).Some?
    ensures Resolve(MoveEntry(t, src, dst), dst + rest) == Resolve(t, src + rest)
    decreases |rest|
  {
    var t' := MoveEntry(t, src, dst);
    if rest == [] {
      assert src + rest == src && dst + rest == dst;
      assert !(src <= Parent(dst));
      RenameExact(t, src, dst, Parent(dst));
    } else {
      var p, q, c := src + Parent(rest), dst + Parent(rest), Last(rest);
      assert Parent(src + rest) == p && Parent(dst + rest) == q;
      SubtreeMoves(t, src, dst, Parent(rest));
      SameEntrySamePath(t, src + rest, src);
      assert src + rest != src;
    }
  }

  // ----- what keeps a tree a tree -----

  /** Entries belong to directories, and each directory is reached by one pathname only. */
  ghost predicate IsTree(t: Tree, dirs: set<nat>) {
    && ROOT_NODE in dirs
    && (forall e :: e in t ==> e.0 in dirs)
    && (forall p, q, n :: At(t, p, n) && At(t, q, n) && n in dirs ==> p == q)
  }

  lemma TreeHasOnePath(t: Tree, dirs: set<nat>)
    requires IsTree(t, dirs)
    ensures OnePathPerDirectory(t)
  {
    forall p, q, n: nat, name | At(t, p, n) && At(t, q, n) && (n, name) in t ensures p == q {
      assert (n, name).0 in dirs;
    }
  }

  /** Removing entries keeps a tree. */
  lemma FewerEntries(t: Tree, t': Tree, dirs: set<nat>)
    requires IsTree(t, dirs) && Extends(t', t)
    ensures IsTree(t', dirs)
  {
    forall p, q, n | At(t', p, n) && At(t', q, n) && n in dirs ensures p == q {
      ExtendsKeeps(t', t, p);
      ExtendsKeeps(t', t, q);
      assert At(t, p, n) && At(t, q, n);
    }
  }

  /** The node occurs nowhere in the tree. */
  predicate FreshNode(t: Tree, n: nat) {
    n != ROOT_NODE && forall e :: e in t ==> e.0 != n && t[e] != n
  }

  /** A pathname that leads somewhere in the larger tree ends in the new entry, or leads there already. */
  lemma {:induction false} NewEntryOnly(t: Tree, d: nat, c: Component, n: nat, p: seq<Component>)
    requires FreshNode(t, n) && (d, c) !in t && d != n
    requires Resolve(t[(d, c) := n], p).Some?
    ensures var r := Resolve(t[(d, c) := n], p);
            r == Resolve(t, p) || (r == Some(n) && p != [] && Resolve(t, Parent(p)) == Some(d) && Last(p) == c)
    decreases |p|
  {
    if p != [] {
      NewEntryOnly(t, d, c, n, Parent(p));
    }
  }

  lemma {:induction false} NeverFresh(t: Tree, n: nat, p: seq<Component>)
    requires FreshNode(t, n)
    ensures Resolve(t, p) != Some(n)
  {
  }

  /** Creating a file or a directory with a fresh node keeps a tree. */
  lemma AddKeepsTree(t: Tree, dirs: set<nat>, d: nat, c: Component, n: nat, dirs': set<nat>)
    requires IsTree(t, dirs) && FreshNode(t, n) && (d, c) !in t && d in dirs && d != n
    requires forall m :: m != n ==> (m in dirs' <==> m in dirs)
    ensures IsTree(t[(d, c) := n], dirs')
  {
    var t' := t[(d, c) := n];
    forall p, q, m | At(t', p, m) && At(t', q, m) && m in dirs' ensures p == q {
      NewEntryOnly(t, d, c, n, p);
      NewEntryOnly(t, d, c, n, q);
      NeverFresh(t, n, p);
      NeverFresh(t, n, q);
      if m == n {
        assert At(t, Parent(p), d) && At(t, Parent(q), d);
        SamePath(p, q);
      } else {
        assert At(t, p, m) && At(t, q, m);
      }
    }
  }

  /** A node that is nowhere in the tree may change its kind. */
  lemma KindOfFresh(t: Tree, dirs: set<nat>, n: nat, dirs': set<nat>)
    requires IsTree(t, dirs) && FreshNode(t, n)
    requires forall m :: m != n ==> (m in dirs' <==> m in dirs)
    ensures IsTree(t, dirs')
  {
    forall p, q, m | At(t, p, m) && At(t, q, m) && m in dirs' ensures p == q {
      NeverFresh(t, n, p);
    }
  }

  /** Where a pathname of the tree after a move pointed before it. */
  function Back(src: seq<Component>, dst: seq<Component>, p: seq<Component>): seq<Component> {
    if dst <= p then src + p[|dst|..] else p
  }

  /** A move changes two entries. */
  lemma ChildAfterMove(t: Tree, src: seq<Component>, dst: seq<Component>, x: nat, c: Component)
    requires src != [] && Resolve(t, src).Some? && dst != [] && Resolve(t, Parent(dst)).Some?
    requires !(Resolve(t, Parent(dst)) == Some(x) && Last(dst) == c)
    ensures Child(MoveEntry(t, src, dst), x, c).Some? ==> Child(MoveEntry(t, src, dst), x, c) == Child(t, x, c)
  {
  }

  lemma MovedChild(t: Tree, src: seq<Component>, dst: seq<Component>, p: seq<Component>)
    requires src != [] && Resolve(t, src).Some? && dst != [] && Resolve(t, Parent(dst)).Some?
    requires p != [] && p != dst && Resolve(MoveEntry(t, src, dst), p).Some?
    requires Resolve(t, Back(src, dst, Parent(p))) == Resolve(MoveEntry(t, src, dst), Parent(p))
    requires !(Resolve(t, Parent(dst)) == Resolve(MoveEntry(t, src, dst), Parent(p)) && Last(dst) == Last(p))
    ensures Resolve(t, Back(src, dst, p)) == Resolve(MoveEntry(t, src, dst), p)
  {
    var x := Resolve(MoveEntry(t, src, dst), Parent(p)).value;
    ChildAfterMove(t, src, dst, x, Last(p));
    BackOneUp(src, dst, p);
    assert Resolve(t, Back(src, dst, p)) == Child(t, x, Last(p));
  }

  /** Every pathname that leads somewhere after a move is an old one, or a moved one. */
  lemma {:induction false} MovedFrom(t: Tree, dirs: set<nat>, src: seq<Component>, dst: seq<Component>, p: seq<Component>)
    requires IsTree(t, dirs) && CanMove(t, src, dst) && Resolve(t, Parent(dst)).value in dirs
    requires Resolve(MoveEntry(t, src, dst), p).Some?
    ensures !(src <= p)
    ensures Resolve(t, Back(src, dst, p)) == Resolve(MoveEntry(t, src, dst), p)
    decreases |p|
  {
    NotTheSource(t, src, dst, p);
    if p == dst {
      MovedItself(t, src, dst);
    } else if p != [] {
      MovedFrom(t, dirs, src, dst, Parent(p));
      NotTheNewEntry(t, dirs, src, dst, p);
      MovedChild(t, src, dst, p);
    }
  }

  lemma MovedItself(t: Tree, src: seq<Component>, dst: seq<Component>)
    requires CanMove(t, src, dst)
    ensures Resolve(t, Back(src, dst, dst)) == Resolve(MoveEntry(t, src, dst), dst)
  {
    assert src + [] == src && dst + [] == dst && dst[|dst|..] == [];
    SubtreeMoves(t, src, dst, []);
  }

  lemma BackOneUp(src: seq<Component>, dst: seq<Component>, p: seq<Component>)
    requires p != [] && p != dst
    ensures Back(src, dst, p) == Back(src, dst, Parent(p)) + [Last(p)]
    ensures var b := Back(src, dst, p); b != [] && Parent(b) == Back(src, dst, Parent(p)) && Last(b) == Last(p)
  {
    var up := Parent(p);
    assert p == up + [Last(p)];
    assert dst <= p <==> dst <= up;
    if dst <= p {
      assert p[|dst|..] == up[|dst|..] + [Last(p)];
    }
  }

  /** After a move, nothing is left at the source. */
  lemma NotTheSource(t: Tree, src: seq<Component>, dst: seq<Component>, p: seq<Component>)
    requires CanMove(t, src, dst) && Resolve(MoveEntry(t, src, dst), p).Some?
    ensures !(src <= p)
  {
    RenameExact(t, src, dst, src);
    if src <= p {
      NothingBelow(MoveEntry(t, src, dst), src, p);
    }
  }

  /** Only the destination itself ends in the new entry. */
  lemma NotTheNewEntry(t: Tree, dirs: set<nat>, src: seq<Component>, dst: seq<Component>, p: seq<Component>)
    requires IsTree(t, dirs) && CanMove(t, src, dst) && Resolve(t, Parent(dst)).value in dirs
    requires p != [] && p != dst && !(src <= Parent(p))
    requires Resolve(t, Back(src, dst, Parent(p))) == Resolve(MoveEntry(t, src, dst), Parent(p))
    ensures Resolve(t, Parent(dst)) == Resolve(MoveEntry(t, src, dst), Parent(p)) ==> Last(p) != Last(dst)
  {
    var up, nd := Parent(p), Resolve(t, Parent(dst)).value;
    assert At(t, Parent(dst), nd);
    if At(t, Back(src, dst, up), nd) && Last(p) == Last(dst) {
      BackIsNotAbove(src, dst, up);
      SamePath(p, dst);
    }
  }

  lemma BackIsNotAbove(src: seq<Component>, dst: seq<Component>, up: seq<Component>)
    requires dst != [] && !(src <= dst)
    ensures Back(src, dst, up) == Parent(dst) ==> up == Parent(dst)
  {
    assert src <= Parent(dst) ==> src <= dst;
    assert dst <= up ==> src <= Back(src, dst, up);
  }

  /** Moving an entry keeps a tree. */
  lemma MoveKeepsTree(t: Tree, dirs: set<nat>, src: seq<Component>, dst: seq<Component>)
    requires IsTree(t, dirs) && CanMove(t, src, dst) && Resolve(t, Parent(dst)).value in dirs
    ensures IsTree(MoveEntry(t, src, dst), dirs)
  {
    var t' := MoveEntry(t, src, dst);
    forall p, q, n | At(t', p, n) && At(t', q, n) && n in dirs ensures p == q {
      MovedFrom(t, dirs, src, dst, p);
      MovedFrom(t, dirs, src, dst, q);
      assert At(t, Back(src, dst, p), n) && At(t, Back(src, dst, q), n);
      BackInjective(src, dst, p, q);
    }
  }

  lemma BackInjective(src: seq<Component>, dst: seq<Component>, p: seq<Component>, q: seq<Component>)
    requires !(src <= p) && !(src <= q) && Back(src, dst, p) == Back(src, dst, q)
    ensures p == q
  {
    if dst <= p {
      assert src <= Back(src, dst, p);
      assert Back(src, dst, p)[|src|..] == p[|dst|..] && p == dst + p[|dst|..];
    }
    if dst <= q {
      assert src <= Back(src, dst, q);
      assert Back(src, dst, q)[|src|..] == q[|dst|..] && q == dst + q[|dst|..];
    }
  }
}
