/** Which entries a path is walked through, and which directories can be walked to from the root. */
module Walks {
  import opened Words
  import opened INodes
  import opened FileViews
  import opened DirectoryLists
  import opened Paths
  import opened Namespace

  // ---- The entries a walk uses -----------------------------------------------------------------

  /** GetINum's loop, started in directory dir, looks entry k up. */
  predicate WalkUses(v: seq<FileView>, dir: word, ts: seq<seq<byte>>, k: Key)
    requires ts != []
    decreases |ts|
  {
    var f := Find(DirAt(v, dir), ts[0]);
    k == Key(dir, ts[0]) || (f.Found? && |ts| > 1 && WalkUses(v, f.inum, ts[1..], k))
  }

  predicate PathUses(v: seq<FileView>, path: seq<byte>, k: Key) {
    Tokens(path, 0) != [] && WalkUses(v, ROOT_INUM, Tokens(path, 0), k)
  }

  lemma {:induction false} WalkWithout(v: seq<FileView>, v': seq<FileView>, k: Key, dir: word, ts: seq<seq<byte>>)
    requires ts != [] && EntryLess(v, v', k)
    ensures Walk(v', dir, ts) == if WalkUses(v, dir, ts, k) then Missing else Walk(v, dir, ts)
    decreases |ts|
  {
    hide DirAt, Find;
    var f := Find(DirAt(v, dir), ts[0]);
    if f.Found? && |ts| > 1 {
      WalkWithout(v, v', k, f.inum, ts[1..]);
    }
  }

  /** Once an entry is gone, exactly the paths that were walked through it resolve to nothing; all others resolve as before. */
  lemma ResolveWithout(v: seq<FileView>, v': seq<FileView>, k: Key, path: seq<byte>)
    requires EntryLess(v, v', k)
    ensures Resolve(v', path) == if PathUses(v, path, k) then Missing else Resolve(v, path)
  {
    hide DirAt, Find;
    if Tokens(path, 0) != [] {
      WalkWithout(v, v', k, ROOT_INUM, Tokens(path, 0));
    }
  }

  /** Whether a rename of `from` to `to` finds no place for its entry any more: to be decided before anything is changed. */
  ghost predicate RenameLoses(v: seq<FileView>, from: seq<byte>, to: seq<byte>) {
    IsDot(LastElement(to)) || NoParent(v, to) || PathUses(v, DirectoryPath(to), EntryKey(v, from))
  }

  lemma NoParentWithout(v: seq<FileView>, v': seq<FileView>, k: Key, path: seq<byte>)
    requires EntryLess(v, v', k) && SameInodes(v, v')
    ensures NoParent(v', path) <==> NoParent(v, path) || PathUses(v, DirectoryPath(path), k)
  {
    hide Resolve, PathUses;
    ResolveWithout(v, v', k, DirectoryPath(path));
  }

  lemma {:induction false} WalkThrough(v: seq<FileView>, dir: word, ts: seq<seq<byte>>, name: seq<byte>, rest: seq<seq<byte>>)
    requires ts != [] ==> Walk(v, dir, ts).Found?
    ensures WalkUses(v, dir, ts + [name] + rest, Key(if ts == [] then dir else Walk(v, dir, ts).inum, name))
    decreases |ts|
  {
    hide DirAt;
    var all := ts + [name] + rest;
    if ts != [] {
      var f := Find(DirAt(v, dir), ts[0]);
      assert all[1..] == ts[1..] + [name] + rest;
      WalkThrough(v, f.inum, ts[1..], name, rest);
    }
  }

  /** A path walked on from `from` is walked through the entry that `from` names. */
  lemma WalkedOn(v: seq<FileView>, from: seq<byte>, path: seq<byte>)
    requires Splits(from) && Resolve(v, DirectoryPath(from)).Found? && Tokens(from, 0) <= Tokens(path, 0)
    ensures PathUses(v, path, EntryKey(v, from))
  {
    hide Tokens, DirAt, WalkUses;
    TokensSplit(from);
    var ts, rest := Tokens(DirectoryPath(from), 0), Tokens(path, 0)[|Tokens(from, 0)|..];
    assert Tokens(path, 0) == ts + [LastElement(from)] + rest;
    WalkThrough(v, ROOT_INUM, ts, LastElement(from), rest);
  }

  /** A rename to a place below the renamed directory itself always loses the entry. */
  lemma RenamedIntoItself(v: seq<FileView>, from: seq<byte>, rest: seq<byte>)
    requires Splits(from) && Resolve(v, DirectoryPath(from)).Found?
    ensures RenameLoses(v, from, from + [SLASH] + rest)
  {
    hide Tokens, PathUses, Resolve;
    var to := from + [SLASH] + rest;
    LastIsLast(to, |from|);
    var dir := DirectoryPath(to);
    if |dir| > |from| {
      TokensPrefix(dir, |from|, 0);
      assert dir[..|from|] == from;
    } else {
      assert dir == from;
    }
    WalkedOn(v, from, dir);
  }

  lemma LastIsLast(path: seq<byte>, k: nat)
    requires k < |path| && path[k] == SLASH
    ensures FindLast(path) >= k
  {
  }

  // ---- Directories reached from the root -------------------------------------------------------

  /** At most n entries lead from the root to d. */
  ghost predicate ReachedIn(tree: Tree, d: word, n: nat)
    decreases n
  {
    d == ROOT_INUM || (n > 0 && exists k :: k in tree && tree[k] == d && ReachedIn(tree, k.dir, n - 1))
  }

  ghost predicate Reached(tree: Tree, d: word) {
    exists n: nat :: ReachedIn(tree, d, n)
  }

  /** No part of the tree hangs by itself: every directory with an entry is reached from the root. */
  ghost predicate Rooted(tree: Tree) {
    forall k :: k in tree ==> Reached(tree, k.dir)
  }

  ghost predicate HasEntries(tree: Tree, d: word) {
    exists k :: k in tree && k.dir == d
  }

  lemma ReachedStep(tree: Tree, k: Key)
    requires k in tree && Reached(tree, k.dir)
    ensures Reached(tree, tree[k])
  {
    var n: nat :| ReachedIn(tree, k.dir, n);
    assert ReachedIn(tree, tree[k], n + 1);
  }

  lemma RootReached(tree: Tree)
    ensures Reached(tree, ROOT_INUM)
  {
    assert ReachedIn(tree, ROOT_INUM, 0);
  }

  /** Then every inode in use is reached, not just counted. */
  lemma InUseReached(v: seq<FileView>, tree: Tree, i: word)
    requires CountsOk(v, tree) && Rooted(tree) && InUse(v, i)
    ensures Reached(tree, i)
  {
    assert Counted(v, tree, i);
    if i == ROOT_INUM {
      RootReached(tree);
    } else {
      var k :| k in LinksTo(tree, i);
      ReachedStep(tree, k);
    }
  }

  lemma {:induction false} WalkReached(v: seq<FileView>, tree: Tree, dir: word, ts: seq<seq<byte>>)
    requires DirsOk(v, IFILE_INUM) && Shown(v, tree) && Reached(tree, dir) && ts != [] && Walk(v, dir, ts).Found?
    ensures Reached(tree, Walk(v, dir, ts).inum)
    decreases |ts|
  {
    hide DirAt, DirsOk, Find, IsDot, Reached, Shown;
    var f := Find(DirAt(v, dir), ts[0]);
    EntryReached(v, tree, dir, ts[0]);
    if |ts| > 1 {
      WalkReached(v, tree, f.inum, ts[1..]);
    }
  }

  lemma EntryReached(v: seq<FileView>, tree: Tree, dir: word, n: seq<byte>)
    requires DirsOk(v, IFILE_INUM) && Shown(v, tree) && Reached(tree, dir) && Find(DirAt(v, dir), n).Found?
    ensures Reached(tree, Find(DirAt(v, dir), n).inum)
  {
    hide Reached;
    if IsDot(n) {
      assert IsDir(v, dir) && dir != IFILE_INUM;
      DirReadable(v, IFILE_INUM, dir);
    } else {
      assert Key(dir, n) in tree;
      ReachedStep(tree, Key(dir, n));
    }
  }

  lemma ResolvedReached(v: seq<FileView>, tree: Tree, path: seq<byte>)
    requires DirsOk(v, IFILE_INUM) && Shown(v, tree) && Resolve(v, path).Found?
    ensures Reached(tree, Resolve(v, path).inum)
  {
    hide DirsOk, Shown, Reached, DirAt;
    RootReached(tree);
    if Tokens(path, 0) != [] {
      WalkReached(v, tree, ROOT_INUM, Tokens(path, 0));
    }
  }

  /** What was reached before a change at inode i still is, if its entries still count. */
  lemma {:induction false} StillReached(tree: Tree, tree': Tree, i: word, d: word, n: nat)
    requires forall k :: k in tree && tree[k] != i && HasEntries(tree', tree[k]) ==> k in tree' && tree'[k] == tree[k]
    requires HasEntries(tree', i) ==> Reached(tree', i)
    requires ReachedIn(tree, d, n) && HasEntries(tree', d)
    ensures Reached(tree', d)
    decreases n
  {
    hide Reached;
    if d == ROOT_INUM {
      RootReached(tree');
    } else if d != i {
      var k :| k in tree && tree[k] == d && ReachedIn(tree, k.dir, n - 1);
      assert k in tree';
      StillReached(tree, tree', i, k.dir, n - 1);
      ReachedStep(tree', k);
    }
  }

  lemma RootedAgain(tree: Tree, tree': Tree, i: word, p: word)
    requires Rooted(tree) && forall k :: k in tree' ==> k in tree || k.dir == p
    requires forall k :: k in tree && tree[k] != i && HasEntries(tree', tree[k]) ==> k in tree' && tree'[k] == tree[k]
    requires HasEntries(tree', i) ==> Reached(tree', i)
    requires (exists k :: k in tree' && k !in tree) ==> Reached(tree', p)
    ensures Rooted(tree')
  {
    hide ReachedIn;
    forall k | k in tree'
      ensures Reached(tree', k.dir)
    {
      if k in tree {
        var n: nat :| ReachedIn(tree, k.dir, n);
        assert HasEntries(tree', k.dir);
        StillReached(tree, tree', i, k.dir, n);
      }
    }
  }

  lemma {:induction false} ReachedMore(tree: Tree, tree': Tree, d: word, n: nat)
    requires (forall k :: k in tree ==> k in tree' && tree'[k] == tree[k]) && ReachedIn(tree, d, n)
    ensures ReachedIn(tree', d, n)
    decreases n
  {
    if d != ROOT_INUM {
      var k :| k in tree && tree[k] == d && ReachedIn(tree, k.dir, n - 1);
      ReachedMore(tree, tree', k.dir, n - 1);
    }
  }

  lemma ReachedToo(tree: Tree, k: Key, i: word, d: word)
    requires k !in tree && Reached(tree, d)
    ensures Reached(tree[k := i], d)
  {
    var n: nat :| ReachedIn(tree, d, n);
    ReachedMore(tree, tree[k := i], d, n);
  }

  /** A new entry is made in a directory that a path leads to. */
  lemma MadeRooted(v: seq<FileView>, tree: Tree, path: seq<byte>, i: word, tree': Tree)
    requires DirsOk(v, IFILE_INUM) && Shown(v, tree) && EntryMade(v, tree, path, i, tree')
    ensures Reached(tree', Resolve(v, DirectoryPath(path)).inum) && Reached(tree', i)
    ensures Rooted(tree) ==> Rooted(tree')
  {
    hide Resolve, DirsOk, Shown, Reached;
    var p := Resolve(v, DirectoryPath(path)).inum;
    ResolvedReached(v, tree, DirectoryPath(path));
    ReachedToo(tree, Key(p, LastElement(path)), i, p);
    ReachedStep(tree', Key(p, LastElement(path)));
    if Rooted(tree) {
      RootedAgain(tree, tree', i, p);
    }
  }

  /** A rename that finds its place leaves no part of the tree behind. */
  lemma RenamedRooted(tree: Tree, k: Key, v1: seq<FileView>, to: seq<byte>, tree': Tree)
    requires k in tree && Rooted(tree)
    requires DirsOk(v1, IFILE_INUM) && Shown(v1, tree - {k}) && EntryMade(v1, tree - {k}, to, tree[k], tree')
    ensures Rooted(tree')
  {
    hide Resolve, DirsOk, Shown, Reached;
    MadeRooted(v1, tree - {k}, to, tree[k], tree');
    RootedAgain(tree, tree', tree[k], Resolve(v1, DirectoryPath(to)).inum);
  }

  /**
   * Before an unlink of entry k: the inode it names has no other entries in it, or goes with its only name, or can still be
   * reached by another.
   */
  ghost predicate StaysRooted(tree: Tree, k: Key)
    requires k in tree
  {
    var i := tree[k];
    !HasEntries(tree - {k}, i) || (i != ROOT_INUM && |LinksTo(tree, i)| == 1) || Reached(tree - {k}, i)
  }

  /** An unlink that keeps the counts in order keeps the tree in one piece exactly on that condition. */
  lemma UnlinkedRooted(v: seq<FileView>, tree: Tree, k: Key, v2: seq<FileView>)
    requires NamespaceOk(v, tree) && k in tree && Rooted(tree) && UnlinkSafe(v, tree, k)
    requires var i := tree[k];
             i != IFILE_INUM && i != ROOT_INUM && v[i - 1].fileType != Symlink ==> (InUse(v2, i) <==> |LinksTo(tree, i)| > 1)
    requires tree[k] == ROOT_INUM ==> InUse(v2, ROOT_INUM)
    ensures Rooted(TreeAfterUnlink(v2, tree - {k}, tree[k])) <==> StaysRooted(tree, k)
  {
    hide Reached, LinksTo, DirsOk, Shown;
    var i, tree1 := tree[k], tree - {k};
    var tree2 := TreeAfterUnlink(v2, tree1, i);
    NoTableEntries(v, tree, IFILE_INUM);
    RootReached(tree1);
    assert Counted(v, tree, i);
    if i != IFILE_INUM && v[i - 1].fileType == Symlink {
      NoTableEntries(v, tree, i);
    }
    if StaysRooted(tree, k) {
      if tree2 == tree1 {
        if HasEntries(tree1, i) && !Reached(tree1, i) {
          OneLink(tree, i, k);
          assert false;
        }
      }
      RootedAgain(tree, tree2, i, i);
    } else {
      var k1 :| k1 in tree1 && k1.dir == i;
      OneLink(tree, i, k);
      assert k1 in tree2;
    }
  }

  /** All that holds once the entry and the link are gone, the shape of the tree included. */
  lemma UnlinkLeaves(bs: nat, v: seq<FileView>, tree: Tree, path: seq<byte>, p: word, v1: seq<FileView>, i: word, v2: seq<FileView>)
    requires Splits(path) && !IsDot(LastElement(path)) && Resolve(v, DirectoryPath(path)) == Found(p)
    requires NamespaceOk(v, tree) && Key(p, LastElement(path)) in tree && tree[Key(p, LastElement(path))] == i
    requires i == IFILE_INUM || InUse(v, i)
    requires DirsOk(v1, IFILE_INUM) && Shown(v1, tree - {Key(p, LastElement(path))}) && TargetsOk(v1, tree - {Key(p, LastElement(path))})
    requires SameInodes(v, v1) && AllFit(bs, v1) && NoNewEntries(v, v1)
    requires CountedBut(v1, tree - {Key(p, LastElement(path))}, i)
    requires |LinksTo(tree - {Key(p, LastElement(path))}, i)| == |LinksTo(tree, i)| - 1
    requires InUse(v, i) ==> InUse(v1, i)
    requires v2 == if i == IFILE_INUM then v1 else AfterUnlink(v1, i)
    ensures var k := Key(p, LastElement(path)); var tree2 := TreeAfterUnlink(v2, tree - {k}, i);
            && Shown(v2, tree2) && Resolve(v2, path) == Missing
            && (NamespaceOk(v2, tree2) && AllFit(bs, v2) <==> UnlinkSafe(v, tree, k))
            && (InUse(v, i) && i != ROOT_INUM && v[i - 1].fileType != Symlink ==> (InUse(v2, i) <==> |LinksTo(tree, i)| > 1))
            && (UnlinkSafe(v, tree, k) && Rooted(tree) ==> (Rooted(tree2) <==> StaysRooted(tree, k)))
  {
    hide DirsOk, Shown, TargetsOk, CountsOk, Resolve, AllFit, LinksTo, CountedBut, SameInodes, NoNewEntries, UnlinkSafe,
         TreeAfterUnlink, AfterUnlink, IsDot, Rooted, StaysRooted, DirAt, Find, FindLast, LastElement, DirectoryPath, Splits;
    UnlinkDone(bs, v, tree, path, p, v1, i, v2);
    var k := Key(p, LastElement(path));
    if UnlinkSafe(v, tree, k) && Rooted(tree) {
      RootInUse(v2);
      UnlinkedRooted(v, tree, k, v2);
    }
  }

  /** Nothing hangs below an empty directory. */
  lemma EmptyStays(v: seq<FileView>, tree: Tree, path: seq<byte>, i: word)
    requires Shown(v, tree) && |DirAt(v, i)| == 2 && Find(DirAt(v, i), DOT) != Missing && Find(DirAt(v, i), DOTDOT) != Missing
    ensures var k := EntryKey(v, path); k in tree && tree[k] == i ==> StaysRooted(tree, k)
  {
    hide DirAt, IsDot, Find, Reached, LinksTo;
    forall k | k in tree
      ensures k.dir != i
    {
      OnlyDots(DirAt(v, i), k.name);
      assert Key(k.dir, k.name) in tree;
    }
  }

  /** Where there is no directory, or for a dot, no entry is named. */
  lemma NoEntry(v: seq<FileView>, tree: Tree, path: seq<byte>)
    requires Shown(v, tree) && (NoParent(v, path) || IsDot(LastElement(path)))
    ensures EntryKey(v, path) !in tree
  {
    hide Resolve, Find;
    NothingIn();
    var k := EntryKey(v, path);
    assert Key(k.dir, k.name) == k;
  }

  lemma OneLink(tree: Tree, i: word, k: Key)
    requires k in tree && tree[k] == i
    ensures |LinksTo(tree, i)| >= 1
  {
    assert k in LinksTo(tree, i);
  }

  lemma NoTableEntries(v: seq<FileView>, tree: Tree, i: word)
    requires Shown(v, tree) && !IsDir(v, i)
    ensures forall k :: k in tree ==> k.dir != i
  {
    NoKeysOf(v, tree, i);
  }
}
