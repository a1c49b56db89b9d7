/** The names of a file system: which directory entries there are, what they lead to, and how they are counted. */
module Namespace {
  import opened Words
  import opened FlashLayer
  import opened Segments
  import opened INodes
  import opened FileModel
  import opened FileViews
  import opened DirectoryLists
  import opened Paths

  /** A directory and a name in it; dot names are left out of trees. */
  datatype Key = Key(dir: word, name: seq<byte>)

  type Tree = map<Key, word>

  /** Link count of the root directory as it is formatted, with no entry naming it. */
  const ROOT_NLINKS: nat := 3

  predicate InUse(v: seq<FileView>, i: int) {
    1 <= i <= |v| && v[i - 1].inUse
  }

  predicate IsDir(v: seq<FileView>, i: int) {
    InUse(v, i) && v[i - 1].fileType == Directory
  }

  /** The entries ReadDirectory finds under inum i; a file, a symlink or an unused inode has none. */
  function DirAt(v: seq<FileView>, i: int): seq<DirEntry> {
    if IsDir(v, i) && WholeDir(v[i - 1].contents) then DecodeDir(v[i - 1].contents).entries else []
  }

  /** Both dot entries name the directory itself, and no name occurs twice. */
  predicate ListOk(i: word, d: DirValue) {
    && d.self.inum == i && NamesOk(d) && Distinct(d.entries)
    && Find(d.entries, DOT) == Found(i) && Find(d.entries, DOTDOT) == Found(i)
  }

  predicate DirOk(i: word, c: seq<byte>) {
    WholeDir(c) && ListOk(i, DecodeDir(c))
  }

  /** Every directory is readable, inum `but` excepted. */
  ghost predicate DirsOk(v: seq<FileView>, but: word) {
    && IsDir(v, ROOT_INUM) && but != ROOT_INUM && |v| < 0x7FFF_FFFF
    && forall i: word :: IsDir(v, i) && i != but ==> DirOk(i, v[i - 1].contents)
  }

  /** The tree is exactly what the directories say. */
  ghost predicate Shown(v: seq<FileView>, tree: Tree) {
    forall d: word, n: seq<byte> ::
      (if Key(d, n) in tree then Found(tree[Key(d, n)]) else Missing) == if IsDot(n) then Missing else Find(DirAt(v, d), n)
  }

  /** Every entry names the table file or an inode in use. */
  ghost predicate TargetsOk(v: seq<FileView>, tree: Tree) {
    forall k :: k in tree ==> tree[k] == IFILE_INUM || InUse(v, tree[k])
  }

  ghost function LinksTo(tree: Tree, i: int): set<Key> {
    set k | k in tree && tree[k] == i
  }

  /** An inode in use counts its entries, and but for the root it has one. */
  ghost predicate Counted(v: seq<FileView>, tree: Tree, i: word) {
    InUse(v, i) ==>
      && v[i - 1].nlinks == |LinksTo(tree, i)| + (if i == ROOT_INUM then ROOT_NLINKS else 0)
      && v[i - 1].nlinks >= 1
  }

  /** Every inode but i is counted right. */
  ghost predicate CountedBut(v: seq<FileView>, tree: Tree, i: word) {
    forall j: word :: j == i || Counted(v, tree, j)
  }

  ghost predicate CountsOk(v: seq<FileView>, tree: Tree) {
    forall i: word :: Counted(v, tree, i)
  }

  /** What lfsck looks for: no dangling entry, no lost inode, no wrong link count. */
  ghost predicate NamespaceOk(v: seq<FileView>, tree: Tree) {
    DirsOk(v, IFILE_INUM) && Shown(v, tree) && TargetsOk(v, tree) && CountsOk(v, tree)
  }

  // ---- Resolving paths -------------------------------------------------------------------------

  /** GetINum's loop from directory dir on. */
  function Walk(v: seq<FileView>, dir: word, ts: seq<seq<byte>>): Lookup
    requires ts != []
    decreases |ts|
  {
    var f := Find(DirAt(v, dir), ts[0]);
    if f.Missing? || |ts| == 1 then f else Walk(v, f.inum, ts[1..])
  }

  function Resolve(v: seq<FileView>, path: seq<byte>): Lookup {
    var ts := Tokens(path, 0);
    if ts == [] then Found(ROOT_INUM) else Walk(v, ROOT_INUM, ts)
  }

  /** The first token is looked for in the root directory. */
  lemma ResolveStarts(v: seq<FileView>, path: seq<byte>)
    ensures var j := SkipSlashes(path, 0); var e := TokenEnd(path, j);
            Resolve(v, path) == if j == |path| then Found(ROOT_INUM)
                                else Walk(v, ROOT_INUM, [path[j..e]] + Tokens(path, AfterToken(path, e)))
  {
  }

  /** One round of GetINum's loop, `at` being where strtok goes on. */
  lemma WalkGoesOn(v: seq<FileView>, dir: word, token: seq<byte>, path: seq<byte>, at: nat)
    requires at <= |path|
    ensures var f := Find(DirAt(v, dir), token);
            var j := SkipSlashes(path, at); var e := TokenEnd(path, j);
            Walk(v, dir, [token] + Tokens(path, at)) ==
              if f.Missing? || j == |path| then f
              else if !IsDir(v, f.inum) then Missing
              else Walk(v, f.inum, [path[j..e]] + Tokens(path, AfterToken(path, e)))
  {
    hide SkipSlashes, TokenEnd, Tokens;
    TokensStep(path, at);
    var ts := [token] + Tokens(path, at);
    assert ts[1..] == Tokens(path, at);
    NothingIn();
  }

  function InDirectory(v: seq<FileView>, dir: Lookup, name: seq<byte>): Lookup {
    match dir
    case Missing => Missing
    case Found(d) => Find(DirAt(v, d), name)
  }

  lemma {:induction false} WalkAppend(v: seq<FileView>, dir: word, ts: seq<seq<byte>>, name: seq<byte>)
    requires ts != []
    ensures Walk(v, dir, ts + [name]) == InDirectory(v, Walk(v, dir, ts), name)
    decreases |ts|
  {
    var f := Find(DirAt(v, dir), ts[0]);
    assert (ts + [name])[1..] == ts[1..] + [name];
    if f.Found? && |ts| > 1 {
      WalkAppend(v, f.inum, ts[1..], name);
    }
  }

  /** Resolving a path is looking its last element up in its directory path. */
  lemma ResolveSplits(v: seq<FileView>, path: seq<byte>)
    requires Splits(path)
    ensures Resolve(v, path) == InDirectory(v, Resolve(v, DirectoryPath(path)), LastElement(path))
  {
    hide Tokens, DirAt;
    TokensSplit(path);
    var ts := Tokens(DirectoryPath(path), 0);
    if ts != [] {
      WalkAppend(v, ROOT_INUM, ts, LastElement(path));
    } else {
      assert [] + [LastElement(path)] == [LastElement(path)];
    }
  }

  /** What an entry of a readable directory leads to can be read in turn, or is no directory. */
  lemma EntryLeads(v: seq<FileView>, tree: Tree, d: word, n: seq<byte>, but: word)
    requires DirsOk(v, but) && Shown(v, tree) && TargetsOk(v, tree) && d != but
    requires but != IFILE_INUM ==> forall k :: k in tree ==> tree[k] != but
    ensures var f := Find(DirAt(v, d), n);
            f.Found? ==> f.inum <= |v| && (f.inum == IFILE_INUM || InUse(v, f.inum)) && (but != IFILE_INUM ==> f.inum != but)
  {
    if Find(DirAt(v, d), n).Found? {
      if IsDot(n) {
        assert IsDir(v, d);
      } else {
        assert Key(d, n) in tree;
      }
    }
  }

  lemma DirReadable(v: seq<FileView>, but: word, d: word)
    requires DirsOk(v, but)
    ensures IsDir(v, ROOT_INUM) && ROOT_INUM != but
    ensures d != but && IsDir(v, d) ==>
              WholeDir(v[d - 1].contents) && ListOk(d, DecodeDir(v[d - 1].contents)) && DirAt(v, d) == DecodeDir(v[d - 1].contents).entries
  {
  }

  // ---- Rewriting one directory -----------------------------------------------------------------

  /** A directory of n entries fits in the largest file. */
  predicate DirFits(bs: nat, n: nat) {
    HEADER_BYTES + ENTRY_BYTES * n <= MaxBlocks(bs) * bs && HEADER_BYTES + ENTRY_BYTES * n < 0x1_0000_0000
  }

  /** WriteDirectory as seen on the files. */
  function Rewritten(bs: nat, v: seq<FileView>, i: word, d: DirValue): seq<FileView>
    requires 1 <= i <= |v| && NamesOk(d)
  {
    v[i - 1 := v[i - 1].(contents := Clamped(bs, Written(v[i - 1].contents, 0, EncodeDir(d))))]
  }

  /** The files after directory p gained entry e, and after it lost a name. */
  function WithEntry(bs: nat, v: seq<FileView>, p: word, e: DirEntry): seq<FileView>
    requires IsDir(v, p) && WholeDir(v[p - 1].contents)
  {
    var d := DecodeDir(v[p - 1].contents);
    var d' := d.(entries := d.entries + [e]);
    if NamesOk(d') then Rewritten(bs, v, p, d') else v
  }

  function WithoutName(bs: nat, v: seq<FileView>, p: word, name: seq<byte>): seq<FileView>
    requires IsDir(v, p) && WholeDir(v[p - 1].contents)
  {
    var d := DecodeDir(v[p - 1].contents);
    if Find(d.entries, name).Found? && NamesOk(d.(entries := Removed(d.entries, name)))
    then Rewritten(bs, v, p, d.(entries := Removed(d.entries, name))) else v
  }

  ghost predicate Gained(bs: nat, v: seq<FileView>, p: word, e: DirEntry, v': seq<FileView>) {
    IsDir(v, p) && WholeDir(v[p - 1].contents) && v' == WithEntry(bs, v, p, e)
  }

  ghost predicate Lost(bs: nat, v: seq<FileView>, p: word, name: seq<byte>, v': seq<FileView>) {
    IsDir(v, p) && WholeDir(v[p - 1].contents) && v' == WithoutName(bs, v, p, name)
  }

  lemma ClampedPrefix(bs: nat, bytes: seq<byte>, rest: seq<byte>)
    requires |bytes| <= MaxBlocks(bs) * bs
    ensures exists rest' :: Clamped(bs, bytes + rest) == bytes + rest'
  {
    hide MaxBlocks;
    var c := Clamped(bs, bytes + rest);
    assert c == bytes + c[|bytes|..];
  }

  /** Reading the directory back gives the list that was written. */
  lemma RewrittenReads(bs: nat, v: seq<FileView>, i: word, d: DirValue)
    requires 1 <= i <= |v| && NamesOk(d) && DirFits(bs, |d.entries|)
    ensures var c := Rewritten(bs, v, i, d)[i - 1].contents; WholeDir(c) && DecodeDir(c) == d
  {
    hide EncodeDir, DecodeDir, WholeDir, MaxBlocks, Clamped;
    var c, bytes := v[i - 1].contents, EncodeDir(d);
    var rest := if |bytes| < |c| then c[|bytes|..] else [];
    assert Written(c, 0, bytes) == bytes + rest;
    ClampedPrefix(bs, bytes, rest);
    var rest' :| Clamped(bs, bytes + rest) == bytes + rest';
    DirRoundTrip(d, rest');
  }

  /** Only inode i may differ. */
  ghost predicate SameBut(v: seq<FileView>, v': seq<FileView>, i: word) {
    1 <= i <= |v| == |v'| && forall j :: 0 <= j < |v| && j != i - 1 ==> v'[j] == v[j]
  }

  lemma ElsewhereSame(v: seq<FileView>, v': seq<FileView>, i: word, j: word)
    requires SameBut(v, v', i) && j != i
    ensures DirAt(v', j) == DirAt(v, j) && InUse(v', j) == InUse(v, j) && IsDir(v', j) == IsDir(v, j)
    ensures InUse(v, j) ==> v'[j - 1] == v[j - 1]
  {
  }

  /** Directory i holds d now, and its inode is otherwise as before. */
  ghost predicate NowHolds(v: seq<FileView>, v': seq<FileView>, i: word, d: DirValue) {
    && SameBut(v, v', i) && IsDir(v', i)
    && WholeDir(v'[i - 1].contents) && DecodeDir(v'[i - 1].contents) == d
    && v'[i - 1].nlinks == v[i - 1].nlinks
  }

  lemma RewrittenHolds(bs: nat, v: seq<FileView>, i: word, d: DirValue)
    requires IsDir(v, i) && NamesOk(d) && DirFits(bs, |d.entries|)
    ensures NowHolds(v, Rewritten(bs, v, i, d), i, d)
  {
    hide DecodeDir, WholeDir, EncodeDir, Clamped, Written, MaxBlocks;
    RewrittenReads(bs, v, i, d);
  }

  lemma HoldsDirs(v: seq<FileView>, v': seq<FileView>, i: word, d: DirValue, but: word)
    requires DirsOk(v, but) && IsDir(v, i) && NowHolds(v, v', i, d) && ListOk(i, d)
    ensures DirsOk(v', if but == i then IFILE_INUM else but)
  {
    hide DecodeDir, WholeDir, ListOk, DirAt;
    ghost var but' := if but == i then IFILE_INUM else but;
    forall j: word | IsDir(v', j) && j != but'
      ensures DirOk(j, v'[j - 1].contents)
    {
      if j != i {
        ElsewhereSame(v, v', i, j);
      }
    }
    if i != ROOT_INUM {
      ElsewhereSame(v, v', i, ROOT_INUM);
    }
  }

  /** The tree after directory i's list was replaced: its keys of directory i are d's, the others stay. */
  lemma HoldsShown(v: seq<FileView>, v': seq<FileView>, i: word, d: DirValue, tree: Tree, tree': Tree)
    requires Shown(v, tree) && NowHolds(v, v', i, d)
    requires forall k: Key :: k.dir != i ==> (k in tree' <==> k in tree) && (k in tree ==> tree'[k] == tree[k])
    requires forall n: seq<byte> :: (if Key(i, n) in tree' then Found(tree'[Key(i, n)]) else Missing) == if IsDot(n) then Missing else Find(d.entries, n)
    ensures Shown(v', tree')
  {
    hide DecodeDir, WholeDir, IsDot, Find;
    assert DirAt(v', i) == d.entries;
    hide DirAt;
    forall j: word, n: seq<byte>
      ensures (if Key(j, n) in tree' then Found(tree'[Key(j, n)]) else Missing) == if IsDot(n) then Missing else Find(DirAt(v', j), n)
    {
      if j != i {
        ElsewhereSame(v, v', i, j);
        var k := Key(j, n);
        assert k.dir != i;
      }
    }
  }

  // ---- Counting --------------------------------------------------------------------------------

  lemma LinkAdded(tree: Tree, k: Key, i: word, j: int)
    requires k !in tree
    ensures |LinksTo(tree[k := i], j)| == |LinksTo(tree, j)| + if j == i then 1 else 0
  {
    if j == i {
      assert LinksTo(tree[k := i], j) == LinksTo(tree, j) + {k};
    } else {
      assert LinksTo(tree[k := i], j) == LinksTo(tree, j);
    }
  }

  lemma LinkRemoved(tree: Tree, k: Key, j: int)
    requires k in tree
    ensures |LinksTo(tree - {k}, j)| == |LinksTo(tree, j)| - if j == tree[k] then 1 else 0
  {
    if j == tree[k] {
      assert LinksTo(tree, j) == LinksTo(tree - {k}, j) + {k};
    } else {
      assert LinksTo(tree - {k}, j) == LinksTo(tree, j);
    }
  }

  // ---- One entry more, one entry less ----------------------------------------------------------

  /** AddFile and WriteDirectory: directory p gains a fresh name, and the tree gains it. */
  lemma EntryAdded(v: seq<FileView>, v': seq<FileView>, tree: Tree, p: word, d: DirValue, e: DirEntry)
    requires Shown(v, tree) && IsDir(v, p) && WholeDir(v[p - 1].contents) && d == DecodeDir(v[p - 1].contents) && ListOk(p, d)
    requires Find(d.entries, e.name) == Missing && NameOk(e.name) && |d.entries| + 1 < 0x1_0000_0000
    requires NowHolds(v, v', p, d.(entries := d.entries + [e]))
    ensures ListOk(p, d.(entries := d.entries + [e]))
    ensures Key(p, e.name) !in tree && Shown(v', tree[Key(p, e.name) := e.inum])
  {
    hide DecodeDir, WholeDir, Distinct, Find, NowHolds;
    var d' := d.(entries := d.entries + [e]);
    FindAdded(d.entries, e, DOT);
    FindAdded(d.entries, e, DOTDOT);
    var tree' := tree[Key(p, e.name) := e.inum];
    assert DirAt(v, p) == d.entries;
    hide DirAt;
    forall n: seq<byte>
      ensures (if Key(p, n) in tree' then Found(tree'[Key(p, n)]) else Missing) == if IsDot(n) then Missing else Find(d'.entries, n)
    {
      FindAdded(d.entries, e, n);
    }
    HoldsShown(v, v', p, d', tree, tree');
  }

  /** RemoveFile and WriteDirectory: directory p loses a name, and the tree loses it. */
  lemma EntryRemoved(v: seq<FileView>, v': seq<FileView>, tree: Tree, p: word, d: DirValue, name: seq<byte>)
    requires Shown(v, tree) && IsDir(v, p) && WholeDir(v[p - 1].contents) && d == DecodeDir(v[p - 1].contents) && ListOk(p, d)
    requires !IsDot(name) && Find(d.entries, name) != Missing
    requires NamesOk(d.(entries := Removed(d.entries, name))) && NowHolds(v, v', p, d.(entries := Removed(d.entries, name)))
    ensures ListOk(p, d.(entries := Removed(d.entries, name)))
    ensures Key(p, name) in tree && Find(d.entries, name) == Found(tree[Key(p, name)]) && Shown(v', tree - {Key(p, name)})
  {
    hide DecodeDir, WholeDir, Distinct, Find, NowHolds, Removed;
    var d' := d.(entries := Removed(d.entries, name));
    FindRemoved(d.entries, name, DOT);
    FindRemoved(d.entries, name, DOTDOT);
    var tree' := tree - {Key(p, name)};
    assert DirAt(v, p) == d.entries;
    hide DirAt;
    forall n: seq<byte>
      ensures (if Key(p, n) in tree' then Found(tree'[Key(p, n)]) else Missing) == if IsDot(n) then Missing else Find(d'.entries, n)
    {
      FindRemoved(d.entries, name, n);
    }
    HoldsShown(v, v', p, d', tree, tree');
  }

  lemma RemovedNames(d: DirValue, name: seq<byte>)
    requires NamesOk(d) && Distinct(d.entries) && Find(d.entries, name) != Missing
    ensures NamesOk(d.(entries := Removed(d.entries, name)))
  {
    hide Removed, Distinct, Find;
    var left := Removed(d.entries, name);
    FindRemoved(d.entries, name, name);
    forall k | 0 <= k < |left|
      ensures NameOk(left[k].name)
    {
      assert left[k] in left;
    }
  }

  /** The inodes in use and their link counts are those of v. */
  ghost predicate SameInodes(v: seq<FileView>, v': seq<FileView>) {
    && |v'| == |v|
    && forall j: word :: InUse(v', j) == InUse(v, j) && (InUse(v, j) ==> v'[j - 1].nlinks == v[j - 1].nlinks && v'[j - 1].fileType == v[j - 1].fileType)
  }

  lemma HoldsInodes(v: seq<FileView>, v': seq<FileView>, i: word, d: DirValue)
    requires IsDir(v, i) && NowHolds(v, v', i, d)
    ensures SameInodes(v, v')
  {
    hide DecodeDir, WholeDir;
  }

  /** An entry more for inode i: i now has one entry more than it counts, every other count is right. */
  lemma AddedCounts(v: seq<FileView>, v': seq<FileView>, tree: Tree, k: Key, i: word)
    requires SameInodes(v, v') && TargetsOk(v, tree) && k !in tree && (i == IFILE_INUM || InUse(v, i))
    requires CountedBut(v, tree, i)
    ensures TargetsOk(v', tree[k := i])
    ensures CountedBut(v', tree[k := i], i)
    ensures |LinksTo(tree[k := i], i)| == |LinksTo(tree, i)| + 1
  {
    hide LinksTo;
    LinkAdded(tree, k, i, i);
    var tree' := tree[k := i];
    forall j: word | j != i
      ensures Counted(v', tree', j)
    {
      assert Counted(v, tree, j);
      LinkAdded(tree, k, i, j);
    }
  }

  /** An entry less for the inode it named. */
  lemma RemovedCounts(v: seq<FileView>, v': seq<FileView>, tree: Tree, k: Key)
    requires SameInodes(v, v') && TargetsOk(v, tree) && k in tree && CountsOk(v, tree)
    ensures TargetsOk(v', tree - {k})
    ensures CountedBut(v', tree - {k}, tree[k])
    ensures |LinksTo(tree - {k}, tree[k])| == |LinksTo(tree, tree[k])| - 1
  {
    hide LinksTo;
    LinkRemoved(tree, k, tree[k]);
    var i, tree' := tree[k], tree - {k};
    forall j: word | j != i
      ensures Counted(v', tree', j)
    {
      assert Counted(v, tree, j);
      LinkRemoved(tree, k, j);
    }
  }

  // ---- New inodes, link counts, freed inodes ---------------------------------------------------

  /** File_Create as seen on the files. */
  function Created(v: seq<FileView>, i: word, f: FileView): seq<FileView>
    requires 1 <= i <= |v| + 1
  {
    if i <= |v| then v[i - 1 := f] else v + [f]
  }

  lemma CreatedOk(v: seq<FileView>, tree: Tree, i: word, t: FileType)
    requires NamespaceOk(v, tree) && 1 <= i <= |v| + 1 < 0x7FFF_FFFF && !InUse(v, i)
    ensures var v' := Created(v, i, FileView(true, t, 1, []));
            && InUse(v', i) && v'[i - 1] == FileView(true, t, 1, []) && DirAt(v', i) == []
            && DirsOk(v', if t == Directory then i else IFILE_INUM) && Shown(v', tree) && TargetsOk(v', tree)
            && CountedBut(v', tree, i)
            && LinksTo(tree, i) == {} && i != ROOT_INUM && (forall k :: k in tree ==> tree[k] != i)
            && forall j: word :: DirAt(v', j) == DirAt(v, j)
  {
    hide DecodeDir, DirOk;
    var v' := Created(v, i, FileView(true, t, 1, []));
    forall j: word
      ensures j != i ==> InUse(v', j) == InUse(v, j) && (InUse(v, j) ==> v'[j - 1] == v[j - 1])
      ensures DirAt(v', j) == DirAt(v, j)
    {
    }
    assert forall k :: k in tree ==> tree[k] != i;
    assert LinksTo(tree, i) == {};
    hide DirAt, LinksTo;
    assert Shown(v', tree);
    assert TargetsOk(v', tree);
    forall j: word | IsDir(v', j) && j != if t == Directory then i else IFILE_INUM
      ensures DirOk(j, v'[j - 1].contents)
    {
      assert j != i && IsDir(v, j);
    }
    assert IsDir(v, ROOT_INUM) && ROOT_INUM != i;
    forall j: word | j != i
      ensures Counted(v', tree, j)
    {
      assert Counted(v, tree, j);
    }
  }

  /** Only a link count differs. */
  lemma RecountedOk(v: seq<FileView>, tree: Tree, i: word, nlinks: word, but: word)
    requires DirsOk(v, but) && Shown(v, tree) && TargetsOk(v, tree) && InUse(v, i)
    requires CountedBut(v, tree, i)
    ensures var v' := v[i - 1 := v[i - 1].(nlinks := nlinks)];
            && DirsOk(v', but) && Shown(v', tree) && TargetsOk(v', tree)
            && CountedBut(v', tree, i)
  {
    hide DecodeDir, DirOk, LinksTo;
    var v' := v[i - 1 := v[i - 1].(nlinks := nlinks)];
    forall j: word
      ensures InUse(v', j) == InUse(v, j) && IsDir(v', j) == IsDir(v, j) && DirAt(v', j) == DirAt(v, j)
      ensures InUse(v, j) ==> v'[j - 1].contents == v[j - 1].contents && (j != i ==> v'[j - 1] == v[j - 1])
    {
    }
    hide DirAt;
    assert Shown(v', tree);
    forall j: word | j != i
      ensures Counted(v', tree, j)
    {
      assert Counted(v, tree, j);
    }
  }

  /** File_Free and File_RemoveLink as seen on the files. */
  function Freed(v: seq<FileView>, i: word): seq<FileView>
    requires 1 <= i <= |v|
  {
    v[i - 1 := v[i - 1].(inUse := false, contents := Zeros(|v[i - 1].contents|))]
  }

  function Unlinked(v: seq<FileView>, i: word): seq<FileView>
    requires 1 <= i <= |v|
  {
    var v' := v[i - 1 := v[i - 1].(nlinks := Wrap(v[i - 1].nlinks - 1))];
    if v'[i - 1].nlinks == 0 then Freed(v', i) else v'
  }

  /** What a directory says goes with it. */
  function WithoutDir(tree: Tree, i: word): Tree {
    map k | k in tree && k.dir != i :: tree[k]
  }

  /** No entry of directory i names an inode that has to be counted. */
  predicate Childless(tree: Tree, i: word) {
    forall k :: k in tree && k.dir == i ==> tree[k] == IFILE_INUM
  }

  lemma WithoutDirCounts(tree: Tree, i: word, j: word)
    ensures LinksTo(WithoutDir(tree, i), j) <= LinksTo(tree, j)
    ensures Childless(tree, i) && j != IFILE_INUM ==> LinksTo(WithoutDir(tree, i), j) == LinksTo(tree, j)
  {
  }

  lemma FreedShows(v: seq<FileView>, v': seq<FileView>, tree: Tree, i: word)
    requires SameBut(v, v', i) && !InUse(v', i) && i != ROOT_INUM
    requires DirsOk(v, IFILE_INUM) && Shown(v, tree)
    ensures DirsOk(v', IFILE_INUM) && Shown(v', WithoutDir(tree, i))
  {
    hide DecodeDir, DirOk, Find;
    ElsewhereSame(v, v', i, ROOT_INUM);
    var tree' := WithoutDir(tree, i);
    forall j: word
      ensures j != i ==> IsDir(v', j) == IsDir(v, j) && DirAt(v', j) == DirAt(v, j)
      ensures IsDir(v', j) ==> DirOk(j, v'[j - 1].contents)
    {
      if j != i {
        ElsewhereSame(v, v', i, j);
        assert IsDir(v, j) ==> DirOk(j, v[j - 1].contents);
      }
    }
    assert DirAt(v', i) == [];
    NothingIn();
    forall j: word, n: seq<byte>
      ensures (if Key(j, n) in tree' then Found(tree'[Key(j, n)]) else Missing) == if IsDot(n) then Missing else Find(DirAt(v', j), n)
    {
      assert (Key(j, n) in tree') == (j != i && Key(j, n) in tree);
    }
  }

  lemma NothingIn()
    ensures forall n: seq<byte> :: Find([], n) == Missing
  {
  }

  /** Freeing an inode leaves the rest in order exactly if no entry names it and it has no entries of its own to count. */
  lemma FreedOk(v: seq<FileView>, v': seq<FileView>, tree: Tree, i: word)
    requires SameBut(v, v', i) && InUse(v, i) && !InUse(v', i) && i != ROOT_INUM
    requires DirsOk(v, IFILE_INUM) && Shown(v, tree) && TargetsOk(v, tree) && CountedBut(v, tree, i)
    requires LinksTo(tree, i) == {} || !IsDir(v, i)
    ensures Shown(v', WithoutDir(tree, i))
    ensures NamespaceOk(v', WithoutDir(tree, i)) <==> LinksTo(tree, i) == {} && Childless(tree, i)
  {
    hide DirOk, Find, DirsOk;
    FreedShows(v, v', tree, i);
    var tree' := WithoutDir(tree, i);
    if LinksTo(tree, i) == {} && Childless(tree, i) {
      FreedCounts(v, v', tree, i);
    } else if k :| k in LinksTo(tree, i) {
      NoKeysOf(v, tree, i);
      assert k in tree' && tree'[k] == i && !InUse(v', i);
    } else {
      var k :| k in tree && k.dir == i && tree[k] != IFILE_INUM;
      LostChild(v, v', tree, i, k);
    }
  }

  lemma NoKeysOf(v: seq<FileView>, tree: Tree, i: word)
    requires Shown(v, tree) && !IsDir(v, i)
    ensures forall k :: k in tree ==> k.dir != i
  {
  }

  lemma FreedCounts(v: seq<FileView>, v': seq<FileView>, tree: Tree, i: word)
    requires SameBut(v, v', i) && !InUse(v', i)
    requires TargetsOk(v, tree) && CountedBut(v, tree, i) && LinksTo(tree, i) == {} && Childless(tree, i)
    ensures TargetsOk(v', WithoutDir(tree, i)) && CountsOk(v', WithoutDir(tree, i))
  {
    var tree' := WithoutDir(tree, i);
    forall k | k in tree'
      ensures tree'[k] == IFILE_INUM || InUse(v', tree'[k])
    {
      assert tree[k] == i ==> k in LinksTo(tree, i);
      if tree[k] != i {
        ElsewhereSame(v, v', i, tree[k]);
      }
    }
    hide LinksTo, WithoutDir;
    forall j: word
      ensures Counted(v', tree', j)
    {
      if j != i {
        ElsewhereSame(v, v', i, j);
        WithoutDirCounts(tree, i, j);
        assert Counted(v, tree, j);
      }
    }
  }

  lemma LostChild(v: seq<FileView>, v': seq<FileView>, tree: Tree, i: word, k: Key)
    requires SameBut(v, v', i) && LinksTo(tree, i) == {}
    requires TargetsOk(v, tree) && CountedBut(v, tree, i)
    requires k in tree && k.dir == i && tree[k] != IFILE_INUM
    ensures !CountsOk(v', WithoutDir(tree, i))
  {
    var j, tree' := tree[k], WithoutDir(tree, i);
    assert j == i ==> k in LinksTo(tree, i);
    ElsewhereSame(v, v', i, j);
    assert Counted(v, tree, j);
    assert k in LinksTo(tree, j) && k !in LinksTo(tree', j);
    WithoutDirCounts(tree, i, j);
    SmallerSet(LinksTo(tree', j), LinksTo(tree, j), k);
    assert !Counted(v', tree', j);
  }

  lemma SmallerSet<T>(a: set<T>, b: set<T>, x: T)
    requires a <= b && x in b && x !in a
    ensures |a| < |b|
  {
    assert b == (a + {x}) + (b - (a + {x}));
    assert |a + {x}| == |a| + 1;
  }

  // ---- Whole operations ------------------------------------------------------------------------

  lemma {:induction false} WalkSame(v: seq<FileView>, v': seq<FileView>, dir: word, ts: seq<seq<byte>>)
    requires ts != [] && forall j: word :: DirAt(v', j) == DirAt(v, j)
    ensures Walk(v', dir, ts) == Walk(v, dir, ts)
    decreases |ts|
  {
    hide DirAt;
    var f := Find(DirAt(v, dir), ts[0]);
    if f.Found? && |ts| > 1 {
      WalkSame(v, v', f.inum, ts[1..]);
    }
  }

  lemma ResolveSame(v: seq<FileView>, v': seq<FileView>, path: seq<byte>)
    requires forall j: word :: DirAt(v', j) == DirAt(v, j)
    ensures Resolve(v', path) == Resolve(v, path)
  {
    hide DirAt;
    if Tokens(path, 0) != [] {
      WalkSame(v, v', ROOT_INUM, Tokens(path, 0));
    }
  }

  /** v' has no directory entry that v has not. */
  ghost predicate NoNewEntries(v: seq<FileView>, v': seq<FileView>) {
    forall j: word, n: seq<byte> :: Find(DirAt(v', j), n) == Find(DirAt(v, j), n) || Find(DirAt(v', j), n) == Missing
  }

  /** v' has the directory entries of v but for k. */
  ghost predicate EntryLess(v: seq<FileView>, v': seq<FileView>, k: Key) {
    forall j: word, n: seq<byte> :: Find(DirAt(v', j), n) == if Key(j, n) == k then Missing else Find(DirAt(v, j), n)
  }

  lemma {:induction false} WalkFewer(v: seq<FileView>, v': seq<FileView>, dir: word, ts: seq<seq<byte>>)
    requires ts != [] && NoNewEntries(v, v')
    ensures Walk(v', dir, ts) == Walk(v, dir, ts) || Walk(v', dir, ts) == Missing
    decreases |ts|
  {
    hide DirAt;
    var f := Find(DirAt(v', dir), ts[0]);
    if f.Found? && |ts| > 1 {
      WalkFewer(v, v', f.inum, ts[1..]);
    }
  }

  /** Removing entries can only make a path stop resolving. */
  lemma ResolveFewer(v: seq<FileView>, v': seq<FileView>, path: seq<byte>)
    requires NoNewEntries(v, v')
    ensures Resolve(v', path) == Resolve(v, path) || Resolve(v', path) == Missing
  {
    hide DirAt;
    if Tokens(path, 0) != [] {
      WalkFewer(v, v', ROOT_INUM, Tokens(path, 0));
    }
  }

  /** Every directory fits in the largest file. */
  ghost predicate AllFit(bs: nat, v: seq<FileView>) {
    forall j: word :: DirFits(bs, |DirAt(v, j)|)
  }

  lemma SmallFits(bs: nat, n: nat)
    requires bs >= SECTOR_SIZE && n <= 2
    ensures DirFits(bs, n)
  {
    MulOrder(4, MaxBlocks(bs), bs);
  }

  lemma FewerFit(bs: nat, n: nat, m: nat)
    requires DirFits(bs, n) && m <= n
    ensures DirFits(bs, m)
  {
  }

  /** The parent that path names, if it is a directory, has no such name yet, and room for it. */
  ghost predicate Enterable(bs: nat, v: seq<FileView>, path: seq<byte>) {
    match Resolve(v, DirectoryPath(path))
    case Missing => true
    case Found(p) => IsDir(v, p) ==> Find(DirAt(v, p), LastElement(path)) == Missing && DirFits(bs, |DirAt(v, p)| + 1)
  }

  lemma EnterableAt(bs: nat, v: seq<FileView>, path: seq<byte>, p: word)
    requires Enterable(bs, v, path) && Resolve(v, DirectoryPath(path)) == Found(p) && IsDir(v, p)
    ensures Find(DirAt(v, p), LastElement(path)) == Missing && DirFits(bs, |DirAt(v, p)| + 1)
  {
  }

  /** Directory p of v' holds the entries of v, and e: everything else the same. */
  lemma Entered(bs: nat, v: seq<FileView>, tree: Tree, p: word, e: DirEntry, but: word)
    requires DirsOk(v, but) && Shown(v, tree) && TargetsOk(v, tree) && AllFit(bs, v) && CountedBut(v, tree, e.inum)
    requires IsDir(v, p) && p != but && Find(DirAt(v, p), e.name) == Missing && DirFits(bs, |DirAt(v, p)| + 1)
    requires NameOk(e.name) && (e.inum == IFILE_INUM || InUse(v, e.inum))
    ensures WholeDir(v[p - 1].contents) && ListOk(p, DecodeDir(v[p - 1].contents)) && Key(p, e.name) !in tree
    ensures var d := DecodeDir(v[p - 1].contents);
            var d', tree' := d.(entries := d.entries + [e]), tree[Key(p, e.name) := e.inum];
            && NamesOk(d')
            && var v' := Rewritten(bs, v, p, d');
               && DirsOk(v', but) && Shown(v', tree') && TargetsOk(v', tree') && AllFit(bs, v') && SameInodes(v, v')
               && CountedBut(v', tree', e.inum) && |LinksTo(tree', e.inum)| == |LinksTo(tree, e.inum)| + 1
               && NoNewEntries(v', v) && forall j: word :: j != p ==> DirAt(v', j) == DirAt(v, j)
  {
    hide DecodeDir, WholeDir, Rewritten, NowHolds, LinksTo, Find, Distinct, MaxBlocks;
    assert DirOk(p, v[p - 1].contents);
    var d := DecodeDir(v[p - 1].contents);
    var d' := d.(entries := d.entries + [e]);
    RewrittenHolds(bs, v, p, d');
    var v' := Rewritten(bs, v, p, d');
    EntryAdded(v, v', tree, p, d, e);
    HoldsDirs(v, v', p, d', but);
    HoldsInodes(v, v', p, d');
    AddedCounts(v, v', tree, Key(p, e.name), e.inum);
    HoldsAt(bs, v, v', p, d');
    forall j: word, n: seq<byte>
      ensures Find(DirAt(v, j), n) == Find(DirAt(v', j), n) || Find(DirAt(v, j), n) == Missing
    {
      if j == p {
        FindAdded(d.entries, e, n);
      }
    }
  }

  lemma HoldsAt(bs: nat, v: seq<FileView>, v': seq<FileView>, i: word, d: DirValue)
    requires NowHolds(v, v', i, d)
    ensures DirAt(v', i) == d.entries && forall j: word :: j != i ==> DirAt(v', j) == DirAt(v, j)
    ensures AllFit(bs, v) && DirFits(bs, |d.entries|) ==> AllFit(bs, v')
  {
    hide DecodeDir, WholeDir, DirFits;
    forall j: word | j != i
      ensures DirAt(v', j) == DirAt(v, j)
    {
      ElsewhereSame(v, v', i, j);
    }
  }

  /** Directory p of v' holds the entries of v but for one name: everything else the same. */
  lemma Departed(bs: nat, v: seq<FileView>, tree: Tree, p: word, name: seq<byte>)
    requires NamespaceOk(v, tree) && AllFit(bs, v) && IsDir(v, p) && !IsDot(name) && Find(DirAt(v, p), name) != Missing
    ensures WholeDir(v[p - 1].contents) && ListOk(p, DecodeDir(v[p - 1].contents)) && Key(p, name) in tree
    ensures Find(DirAt(v, p), name) == Found(tree[Key(p, name)])
    ensures var d, i := DecodeDir(v[p - 1].contents), tree[Key(p, name)];
            var d', tree' := d.(entries := Removed(d.entries, name)), tree - {Key(p, name)};
            && NamesOk(d')
            && var v' := Rewritten(bs, v, p, d');
               && DirsOk(v', IFILE_INUM) && Shown(v', tree') && TargetsOk(v', tree') && AllFit(bs, v') && SameInodes(v, v')
               && CountedBut(v', tree', i) && |LinksTo(tree', i)| == |LinksTo(tree, i)| - 1
               && NoNewEntries(v, v') && EntryLess(v, v', Key(p, name))
               && |DirAt(v', p)| < |DirAt(v, p)| && forall j: word :: j != p ==> DirAt(v', j) == DirAt(v, j)
  {
    hide DecodeDir, WholeDir, Rewritten, NowHolds, LinksTo, Find, Distinct, MaxBlocks, Removed;
    assert DirOk(p, v[p - 1].contents);
    var d := DecodeDir(v[p - 1].contents);
    assert d.entries == DirAt(v, p);
    var d' := d.(entries := Removed(d.entries, name));
    RemovedNames(d, name);
    FewerFit(bs, |d.entries|, |d'.entries|);
    RewrittenHolds(bs, v, p, d');
    var v' := Rewritten(bs, v, p, d');
    EntryRemoved(v, v', tree, p, d, name);
    HoldsDirs(v, v', p, d', IFILE_INUM);
    HoldsInodes(v, v', p, d');
    RemovedCounts(v, v', tree, Key(p, name));
    HoldsAt(bs, v, v', p, d');
    forall j: word, n: seq<byte>
      ensures Find(DirAt(v', j), n) == if Key(j, n) == Key(p, name) then Missing else Find(DirAt(v, j), n)
    {
      if j == p {
        FindRemoved(d.entries, name, n);
      }
    }
  }

  /** Rewriting a file that is no directory changes no name. */
  lemma DataWritten(bs: nat, v: seq<FileView>, tree: Tree, i: word, c: seq<byte>)
    requires NamespaceOk(v, tree) && AllFit(bs, v) && InUse(v, i) && !IsDir(v, i)
    ensures var v' := v[i - 1 := v[i - 1].(contents := c)];
            NamespaceOk(v', tree) && AllFit(bs, v') && forall j: word :: DirAt(v', j) == DirAt(v, j)
  {
    hide DecodeDir, DirOk, LinksTo, DirFits;
    var v' := v[i - 1 := v[i - 1].(contents := c)];
    forall j: word
      ensures InUse(v', j) == InUse(v, j) && IsDir(v', j) == IsDir(v, j) && DirAt(v', j) == DirAt(v, j)
      ensures InUse(v, j) ==> v'[j - 1].nlinks == v[j - 1].nlinks && (j != i ==> v'[j - 1] == v[j - 1])
    {
    }
    hide DirAt;
    assert Shown(v', tree);
    forall j: word
      ensures Counted(v', tree, j)
    {
      assert Counted(v, tree, j);
    }
  }

  /** The list of a new directory. */
  function Fresh(name: seq<byte>, i: word): DirValue {
    Dir(DirEntry(name, i), [DirEntry(DOT, i), DirEntry(DOTDOT, i)])
  }

  lemma FreshOk(name: seq<byte>, i: word, n: seq<byte>)
    requires NameOk(name)
    ensures ListOk(i, Fresh(name, i))
    ensures !IsDot(n) ==> Find(Fresh(name, i).entries, n) == Missing
  {
    var es := Fresh(name, i).entries;
    PositionIs(es, DOT, 0);
    PositionIs(es, DOTDOT, 1);
    if !IsDot(n) {
      PositionIs(es, n, 2);
    }
  }

  /** A new directory's own list completes the namespace. */
  lemma DirectoryMade(bs: nat, v: seq<FileView>, tree: Tree, i: word, name: seq<byte>)
    requires DirsOk(v, i) && Shown(v, tree) && TargetsOk(v, tree) && CountsOk(v, tree) && AllFit(bs, v)
    requires IsDir(v, i) && DirAt(v, i) == [] && NameOk(name) && bs >= SECTOR_SIZE
    ensures NamesOk(Fresh(name, i))
    ensures NamespaceOk(Rewritten(bs, v, i, Fresh(name, i)), tree) && AllFit(bs, Rewritten(bs, v, i, Fresh(name, i)))
  {
    hide DecodeDir, WholeDir, Rewritten, NowHolds, Fresh, Find, LinksTo, Distinct;
    var d := Fresh(name, i);
    FreshOk(name, i, DOT);
    assert |d.entries| == 2 by { FreshSize(name, i); }
    SmallFits(bs, 2);
    RewrittenHolds(bs, v, i, d);
    var v' := Rewritten(bs, v, i, d);
    HoldsDirs(v, v', i, d, i);
    HoldsInodes(v, v', i, d);
    HoldsAt(bs, v, v', i, d);
    hide DirAt;
    NothingIn();
    forall n: seq<byte>
      ensures (if Key(i, n) in tree then Found(tree[Key(i, n)]) else Missing) == if IsDot(n) then Missing else Find(d.entries, n)
    {
      FreshOk(name, i, n);
    }
    HoldsShown(v, v', i, d, tree, tree);
    forall j: word
      ensures Counted(v', tree, j)
    {
      assert Counted(v, tree, j);
    }
  }

  lemma FreshSize(name: seq<byte>, i: word)
    ensures |Fresh(name, i).entries| == 2
  {
  }

  function NewFile(t: FileType): FileView {
    FileView(true, t, 1, [])
  }

  /** The least inum that was free is in use now, and nothing else changed. */
  ghost predicate InodeMade(v: seq<FileView>, v': seq<FileView>, i: word, t: FileType) {
    1 <= i <= |v| + 1 && !InUse(v, i) && AllInUse(v, i - 1) && v' == Created(v, i, NewFile(t))
  }

  lemma MadeDirs(v: seq<FileView>, v': seq<FileView>, i: word, t: FileType, j: word)
    requires InodeMade(v, v', i, t) && (j == i ==> t != Directory)
    ensures IsDir(v', j) == IsDir(v, j)
    ensures j != i && InUse(v, j) ==> InUse(v', j) && v'[j - 1] == v[j - 1]
  {
  }

  lemma MadeSize(v: seq<FileView>, v': seq<FileView>, i: word, t: FileType)
    requires InodeMade(v, v', i, t)
    ensures |v'| <= |v| + 1
  {
  }

  /** The directory that `path` names has a new entry, for inode i. */
  ghost predicate EntryMade(v: seq<FileView>, tree: Tree, path: seq<byte>, i: word, tree': Tree) {
    var p := Resolve(v, DirectoryPath(path));
    p.Found? && IsDir(v, p.inum) && Key(p.inum, LastElement(path)) !in tree && tree' == tree[Key(p.inum, LastElement(path)) := i]
  }

  /** v' is v1 with that entry written into its directory; v is where the path was resolved. */
  ghost predicate NameWritten(bs: nat, v: seq<FileView>, path: seq<byte>, i: word, v1: seq<FileView>, v': seq<FileView>) {
    var p := Resolve(v, DirectoryPath(path));
    p.Found? && Gained(bs, v1, p.inum, DirEntry(LastElement(path), i), v')
  }

  lemma NameEntered(bs: nat, v: seq<FileView>, tree: Tree, path: seq<byte>, p: word, i: word, v1: seq<FileView>, v': seq<FileView>)
    requires Resolve(v, DirectoryPath(path)) == Found(p) && IsDir(v, p) && Key(p, LastElement(path)) !in tree
    requires Gained(bs, v1, p, DirEntry(LastElement(path), i), v')
    ensures EntryMade(v, tree, path, i, tree[Key(p, LastElement(path)) := i]) && NameWritten(bs, v, path, i, v1, v')
  {
    hide Resolve, WithEntry;
  }

  lemma EntryElsewhere(bs: nat, v: seq<FileView>, p: word, e: DirEntry, v': seq<FileView>, j: word)
    requires Gained(bs, v, p, e, v') && InUse(v, j) && j != p
    ensures |v'| == |v| && v'[j - 1] == v[j - 1]
  {
    hide DecodeDir, WholeDir, NamesOk;
  }

  /** The directory path leads to no directory. */
  ghost predicate NoParent(v: seq<FileView>, path: seq<byte>) {
    var p := Resolve(v, DirectoryPath(path)); p.Missing? || !IsDir(v, p.inum)
  }

  /** An inode that counts one link and has none is what a failed creation leaves behind. */
  lemma OrphanMiscounted(v: seq<FileView>, tree: Tree, i: word)
    requires InUse(v, i) && v[i - 1].nlinks == 1 && LinksTo(tree, i) == {} && i != ROOT_INUM
    ensures !CountsOk(v, tree)
  {
    assert !Counted(v, tree, i);
  }

  lemma CountedOnce(v: seq<FileView>, tree: Tree, i: word)
    requires CountedBut(v, tree, i) && InUse(v, i) && i != ROOT_INUM && v[i - 1].nlinks == |LinksTo(tree, i)| >= 1
    ensures CountsOk(v, tree)
  {
  }

  /** Before an unlink: nothing else still needs the inode, and nothing is lost with it. */
  ghost predicate UnlinkSafe(v: seq<FileView>, tree: Tree, k: Key)
    requires k in tree
  {
    var i := tree[k];
    i == IFILE_INUM || (InUse(v, i) &&
      if v[i - 1].fileType == Symlink then v[i - 1].nlinks == 1
      else v[i - 1].nlinks == 1 ==> Childless(tree - {k}, i))
  }

  lemma TargetText(bs: nat, to: seq<byte>)
    ensures Written([], 0, to) == to && Clamped(bs, []) == []
  {
  }

  lemma AnyCounted(v: seq<FileView>, tree: Tree, i: word)
    requires CountsOk(v, tree)
    ensures CountedBut(v, tree, i) && Counted(v, tree, i)
  {
  }

  /** The bytes and the type of every file and symlink but `but` are those of v. */
  ghost predicate DataKept(v: seq<FileView>, v': seq<FileView>, but: word) {
    forall j: word :: InUse(v, j) && !IsDir(v, j) && j != but ==>
      InUse(v', j) && v'[j - 1].fileType == v[j - 1].fileType && v'[j - 1].contents == v[j - 1].contents
  }

  lemma GainedKeeps(bs: nat, v: seq<FileView>, p: word, e: DirEntry, v': seq<FileView>)
    requires Gained(bs, v, p, e, v')
    ensures DataKept(v, v', IFILE_INUM)
  {
    hide DecodeDir, WholeDir, NamesOk;
  }

  lemma LostKeeps(bs: nat, v: seq<FileView>, p: word, name: seq<byte>, v': seq<FileView>)
    requires Lost(bs, v, p, name, v')
    ensures DataKept(v, v', IFILE_INUM)
  {
    hide DecodeDir, WholeDir, NamesOk, Find, Removed;
  }

  lemma KeptChain(v: seq<FileView>, v1: seq<FileView>, v2: seq<FileView>, but: word)
    requires DataKept(v, v1, IFILE_INUM) && DataKept(v1, v2, but)
    ensures DataKept(v, v2, but)
  {
  }

  lemma LinkKeeps(v: seq<FileView>, i: word, nlinks: word)
    requires 1 <= i <= |v|
    ensures DataKept(v, v[i - 1 := v[i - 1].(nlinks := nlinks)], IFILE_INUM)
  {
  }

  lemma UnlinkKeeps(v: seq<FileView>, i: word)
    requires 1 <= i <= |v|
    ensures DataKept(v, AfterUnlink(v, i), if InUse(AfterUnlink(v, i), i) then IFILE_INUM else i)
  {
  }

  lemma ItselfKept(v: seq<FileView>)
    ensures DataKept(v, v, IFILE_INUM)
  {
  }

  /** An inode that was not in use before may hold anything. */
  lemma NewFileKeeps(v: seq<FileView>, v1: seq<FileView>, i: word, c: seq<byte>)
    requires DataKept(v, v1, IFILE_INUM) && !InUse(v, i) && 1 <= i <= |v1|
    ensures DataKept(v, v1[i - 1 := v1[i - 1].(contents := c)], IFILE_INUM)
  {
  }

  /** A directory has no bytes to keep. */
  lemma DirKeeps(v: seq<FileView>, v': seq<FileView>, i: word)
    requires DataKept(v, v', if InUse(v', i) then IFILE_INUM else i) && IsDir(v, i)
    ensures DataKept(v, v', IFILE_INUM)
  {
  }

  /** A new inode, and a directory written into it. */
  lemma MadeKeeps(v: seq<FileView>, v': seq<FileView>, i: word, t: FileType)
    requires InodeMade(v, v', i, t)
    ensures DataKept(v, v', IFILE_INUM)
  {
  }

  lemma FreshKeeps(bs: nat, v: seq<FileView>, i: word, d: DirValue)
    requires IsDir(v, i) && NamesOk(d)
    ensures DataKept(v, Rewritten(bs, v, i, d), IFILE_INUM)
  {
  }

  /** One entry more or less, and the count an inode has not caught up with yet. */
  lemma NewCount(v: seq<FileView>, tree: Tree, v': seq<FileView>, tree': Tree, i: word, change: int)
    requires CountsOk(v, tree) && SameInodes(v, v') && |LinksTo(tree', i)| == |LinksTo(tree, i)| + change
    ensures InUse(v', i) == InUse(v, i)
    ensures InUse(v, i) ==> v'[i - 1].nlinks == v[i - 1].nlinks >= 1 && v'[i - 1].fileType == v[i - 1].fileType
    ensures InUse(v, i) ==> v'[i - 1].nlinks + change == |LinksTo(tree', i)| + if i == ROOT_INUM then ROOT_NLINKS else 0
  {
    hide LinksTo;
    assert Counted(v, tree, i);
  }

  /** The entry that a path names. */
  function EntryKey(v: seq<FileView>, path: seq<byte>): Key {
    match Resolve(v, DirectoryPath(path))
    case Missing => Key(IFILE_INUM, LastElement(path))
    case Found(p) => Key(p, LastElement(path))
  }

  /** What an unlink does to the files once the entry is gone. */
  function AfterUnlink(v: seq<FileView>, i: word): seq<FileView>
    requires 1 <= i <= |v|
  {
    if v[i - 1].fileType == Symlink then Freed(v, i) else Unlinked(v, i)
  }

  function TreeAfterUnlink(v: seq<FileView>, tree: Tree, i: word): Tree {
    if i == IFILE_INUM || InUse(v, i) then tree else WithoutDir(tree, i)
  }

  /** Dropping the link of a removed entry leaves everything in order exactly if the unlink was safe. */
  lemma UnlinkedOk(bs: nat, v: seq<FileView>, tree: Tree, k: Key, v1: seq<FileView>, i: word)
    requires NamespaceOk(v, tree) && k in tree && tree[k] == i && InUse(v, i)
    requires DirsOk(v1, IFILE_INUM) && Shown(v1, tree - {k}) && TargetsOk(v1, tree - {k}) && SameInodes(v, v1) && AllFit(bs, v1)
    requires CountedBut(v1, tree - {k}, i) && |LinksTo(tree - {k}, i)| == |LinksTo(tree, i)| - 1
    ensures var v2 := AfterUnlink(v1, i); var tree2 := TreeAfterUnlink(v2, tree - {k}, i);
            && Shown(v2, tree2) && (NamespaceOk(v2, tree2) <==> UnlinkSafe(v, tree, k))
            && NoNewEntries(v1, v2) && AllFit(bs, v2)
            && (v[i - 1].fileType != Symlink && i != ROOT_INUM ==> (InUse(v2, i) <==> |LinksTo(tree, i)| > 1))
  {
    hide DirsOk, Shown, TargetsOk, LinksTo, DirAt, AllFit, NoNewEntries, Find, CountedBut, Childless;
    var tree1 := tree - {k};
    assert Counted(v, tree, i);
    RootInUse(v1);
    if v1[i - 1].fileType == Symlink || v1[i - 1].nlinks == 1 {
      var v2 := AfterUnlink(v1, i);
      assert SameBut(v1, v2, i) && !InUse(v2, i) && i != ROOT_INUM;
      NoLinks(tree1, i);
      FreedOk(v1, v2, tree1, i);
      FreedFewer(bs, v1, v2, i);
      if v1[i - 1].fileType == Symlink {
        NoKeysOf(v1, tree1, i);
        NoChildren(tree1, i);
      }
    } else {
      RecountedOk(v1, tree1, i, v1[i - 1].nlinks - 1, IFILE_INUM);
      CountedAll(AfterUnlink(v1, i), tree1, i);
      RecountedFewer(bs, v1, AfterUnlink(v1, i), i);
    }
  }

  lemma TableUnlinked(v: seq<FileView>, v1: seq<FileView>, tree: Tree, k: Key)
    requires k in tree && tree[k] == IFILE_INUM
    ensures UnlinkSafe(v, tree, k) && TreeAfterUnlink(v1, tree - {k}, IFILE_INUM) == tree - {k}
  {
  }

  lemma RootInUse(v: seq<FileView>)
    requires DirsOk(v, IFILE_INUM)
    ensures IsDir(v, ROOT_INUM)
  {
  }

  lemma NoLinks(tree: Tree, i: word)
    ensures |LinksTo(tree, i)| == 0 <==> LinksTo(tree, i) == {}
  {
  }

  lemma NoChildren(tree: Tree, i: word)
    requires forall k :: k in tree ==> k.dir != i
    ensures Childless(tree, i)
  {
  }

  lemma CountedAll(v: seq<FileView>, tree: Tree, i: word)
    requires CountedBut(v, tree, i) && Counted(v, tree, i)
    ensures CountsOk(v, tree)
  {
  }

  lemma FreedFewer(bs: nat, v: seq<FileView>, v': seq<FileView>, i: word)
    requires SameBut(v, v', i) && !InUse(v', i) && AllFit(bs, v)
    ensures NoNewEntries(v, v') && AllFit(bs, v')
  {
    hide DecodeDir, WholeDir, Find;
    NothingIn();
    forall j: word
      ensures DirAt(v', j) == DirAt(v, j) || DirAt(v', j) == []
    {
      if j != i {
        ElsewhereSame(v, v', i, j);
      }
    }
    FewerFit(bs, |DirAt(v, 0)|, 0);
    hide DirAt;
  }

  lemma RecountedFewer(bs: nat, v: seq<FileView>, v': seq<FileView>, i: word)
    requires InUse(v, i) && |v'| == |v| && v' == v[i - 1 := v[i - 1].(nlinks := v'[i - 1].nlinks)] && AllFit(bs, v)
    ensures NoNewEntries(v, v') && AllFit(bs, v') && forall j: word :: DirAt(v', j) == DirAt(v, j)
  {
    hide DecodeDir, WholeDir, Find;
    forall j: word
      ensures DirAt(v', j) == DirAt(v, j)
    {
    }
    hide DirAt;
  }

  /** Entries of the tree are what paths resolve to. */
  lemma EntryResolves(v: seq<FileView>, tree: Tree, path: seq<byte>, p: word)
    requires Shown(v, tree) && Splits(path) && Resolve(v, DirectoryPath(path)) == Found(p)
    requires !IsDot(LastElement(path))
    ensures Resolve(v, path) == if Key(p, LastElement(path)) in tree then Found(tree[Key(p, LastElement(path))]) else Missing
  {
    hide Resolve, DirAt, Find, IsDot;
    ResolveSplits(v, path);
    var n := LastElement(path);
    assert (if Key(p, n) in tree then Found(tree[Key(p, n)]) else Missing) == if IsDot(n) then Missing else Find(DirAt(v, p), n);
  }

  lemma MadeResolves(v: seq<FileView>, tree: Tree, path: seq<byte>, p: word, i: word)
    requires Shown(v, tree) && Splits(path) && Resolve(v, DirectoryPath(path)) == Found(p)
    requires Key(p, LastElement(path)) in tree && tree[Key(p, LastElement(path))] == i
    ensures Resolve(v, path) == Found(i)
  {
    hide Resolve, DirAt, Find;
    assert !IsDot(LastElement(path));
    EntryResolves(v, tree, path, p);
  }

  /** What a path resolves to is in use, or the table file. */
  lemma ResolvedInUse(v: seq<FileView>, tree: Tree, path: seq<byte>)
    requires DirsOk(v, IFILE_INUM) && Shown(v, tree) && TargetsOk(v, tree)
    ensures var f := Resolve(v, path); f.Found? ==> f.inum == IFILE_INUM || InUse(v, f.inum)
  {
    if Tokens(path, 0) != [] {
      WalkedInUse(v, tree, ROOT_INUM, Tokens(path, 0));
    }
  }

  lemma {:induction false} WalkedInUse(v: seq<FileView>, tree: Tree, dir: word, ts: seq<seq<byte>>)
    requires DirsOk(v, IFILE_INUM) && Shown(v, tree) && TargetsOk(v, tree) && ts != []
    ensures var f := Walk(v, dir, ts); f.Found? ==> f.inum == IFILE_INUM || InUse(v, f.inum)
    decreases |ts|
  {
    hide DirAt, DirsOk, Shown, TargetsOk;
    var f := Find(DirAt(v, dir), ts[0]);
    if dir == IFILE_INUM {
      NothingUnder(v, ts[0]);
    } else {
      EntryLeads(v, tree, dir, ts[0], IFILE_INUM);
    }
    if f.Found? && |ts| > 1 {
      WalkedInUse(v, tree, f.inum, ts[1..]);
    }
  }

  lemma NothingUnder(v: seq<FileView>, n: seq<byte>)
    ensures Find(DirAt(v, IFILE_INUM), n) == Missing
  {
  }

  lemma OnlyDots(es: seq<DirEntry>, n: seq<byte>)
    requires |es| == 2 && Find(es, DOT) != Missing && Find(es, DOTDOT) != Missing
    ensures IsDot(n) || Find(es, n) == Missing
  {
  }

  /** A directory with two entries has only its dot entries. */
  lemma EmptyChildless(v: seq<FileView>, tree: Tree, i: word)
    requires Shown(v, tree) && |DirAt(v, i)| == 2 && Find(DirAt(v, i), DOT) != Missing && Find(DirAt(v, i), DOTDOT) != Missing
    ensures Childless(tree, i)
  {
    hide DirAt, IsDot, Find;
    forall k | k in tree
      ensures k.dir != i
    {
      OnlyDots(DirAt(v, i), k.name);
      assert Key(k.dir, k.name) in tree;
    }
  }

  /** A path that resolves has a parent to look it up in. */
  lemma FoundParent(v: seq<FileView>, path: seq<byte>)
    requires Splits(path) && Resolve(v, path).Found?
    ensures !NoParent(v, path)
  {
    hide Resolve, DecodeDir, WholeDir;
    ResolveSplits(v, path);
    NothingIn();
  }

  lemma EntryIn(v: seq<FileView>, tree: Tree, p: word, n: seq<byte>)
    requires Shown(v, tree) && Key(p, n) in tree
    ensures Find(DirAt(v, p), n) != Missing
  {
  }

  /** A path that can be written at that offset. */
  ghost predicate Writable(v: seq<FileView>, path: seq<byte>, offset: nat, buffer: seq<byte>) {
    match Resolve(v, path)
    case Missing => false
    case Found(i) => 1 <= i <= |v| && (buffer == [] || offset <= |v[i - 1].contents|)
  }

  /** Once its entry is gone a path resolves to nothing. */
  lemma Vanished(v: seq<FileView>, v': seq<FileView>, tree: Tree, path: seq<byte>, p: word)
    requires Splits(path) && !IsDot(LastElement(path)) && Resolve(v, DirectoryPath(path)) == Found(p)
    requires NoNewEntries(v, v') && Shown(v', tree) && Key(p, LastElement(path)) !in tree
    ensures Resolve(v', path) == Missing
  {
    hide Resolve, DirAt, Find, IsDot, Shown, NoNewEntries;
    ResolveFewer(v, v', DirectoryPath(path));
    ResolveSplits(v', path);
    if Resolve(v', DirectoryPath(path)) == Found(p) {
      EntryResolves(v', tree, path, p);
    }
  }

  /** All that holds once the entry and the link are gone. */
  lemma UnlinkDone(bs: nat, v: seq<FileView>, tree: Tree, path: seq<byte>, p: word, v1: seq<FileView>, i: word, v2: seq<FileView>)
    requires Splits(path) && !IsDot(LastElement(path)) && Resolve(v, DirectoryPath(path)) == Found(p)
    requires NamespaceOk(v, tree) && Key(p, LastElement(path)) in tree && tree[Key(p, LastElement(path))] == i
    requires i == IFILE_INUM || InUse(v, i)
    requires DirsOk(v1, IFILE_INUM) && Shown(v1, tree - {Key(p, LastElement(path))}) && TargetsOk(v1, tree - {Key(p, LastElement(path))})
    requires SameInodes(v, v1) && AllFit(bs, v1) && NoNewEntries(v, v1)
    requires CountedBut(v1, tree - {Key(p, LastElement(path))}, i)
    requires |LinksTo(tree - {Key(p, LastElement(path))}, i)| == |LinksTo(tree, i)| - 1
    requires InUse(v, i) ==> InUse(v1, i)
    requires v2 == if i == IFILE_INUM then v1 else AfterUnlink(v1, i)
    ensures var k := Key(p, LastElement(path)); var tree2 := TreeAfterUnlink(v2, tree - {k}, i);
            && Shown(v2, tree2) && Resolve(v2, path) == Missing
            && (NamespaceOk(v2, tree2) && AllFit(bs, v2) <==> UnlinkSafe(v, tree, k))
            && (InUse(v, i) && i != ROOT_INUM && v[i - 1].fileType != Symlink ==> (InUse(v2, i) <==> |LinksTo(tree, i)| > 1))
  {
    hide DirsOk, Shown, TargetsOk, CountsOk, Resolve, AllFit, LinksTo, CountedBut, SameInodes, NoNewEntries, UnlinkSafe, TreeAfterUnlink;
    hide AfterUnlink, IsDot;
    var k := Key(p, LastElement(path));
    if i == IFILE_INUM {
      CountedAll(v1, tree - {k}, IFILE_INUM);
      TableUnlinked(v, v1, tree, k);
    } else {
      UnlinkedOk(bs, v, tree, k, v1, i);
      FewerChain(v, v1, v2);
    }
    KeyStaysOut(v2, tree - {k}, i, k);
    Vanished(v, v2, TreeAfterUnlink(v2, tree - {k}, i), path, p);
  }

  lemma FewerChain(v: seq<FileView>, v1: seq<FileView>, v2: seq<FileView>)
    requires NoNewEntries(v, v1) && NoNewEntries(v1, v2)
    ensures NoNewEntries(v, v2)
  {
  }

  lemma KeyStaysOut(v: seq<FileView>, tree: Tree, i: word, k: Key)
    requires k !in tree
    ensures k !in TreeAfterUnlink(v, tree, i)
  {
  }

  /** Unlinking a directory that holds only its dot entries is safe. */
  lemma EmptySafe(v: seq<FileView>, tree: Tree, path: seq<byte>, i: word)
    requires NamespaceOk(v, tree) && Splits(path) && Resolve(v, path) == Found(i) && IsDir(v, i)
    requires |DirAt(v, i)| == 2 && Find(DirAt(v, i), DOT) != Missing && Find(DirAt(v, i), DOTDOT) != Missing
    ensures var k := EntryKey(v, path); k in tree && tree[k] == i ==> UnlinkSafe(v, tree, k)
  {
    hide Resolve, DirAt, Find;
    EmptyChildless(v, tree, i);
  }

  lemma SameChain(v: seq<FileView>, v1: seq<FileView>, v2: seq<FileView>)
    requires SameInodes(v, v1) && SameInodes(v1, v2)
    ensures SameInodes(v, v2)
  {
  }

  lemma TargetInUse(v: seq<FileView>, v1: seq<FileView>, tree: Tree, k: Key)
    requires TargetsOk(v, tree) && SameInodes(v, v1) && k in tree
    ensures tree[k] == IFILE_INUM || InUse(v1, tree[k])
  {
  }

  /** A name that was free for the taking still is after an entry went. */
  lemma StillEnterable(bs: nat, v: seq<FileView>, v1: seq<FileView>, p: word, path: seq<byte>)
    requires Enterable(bs, v, path) && NoNewEntries(v, v1) && SameInodes(v, v1)
    requires |DirAt(v1, p)| < |DirAt(v, p)| && forall j: word :: j != p ==> DirAt(v1, j) == DirAt(v, j)
    ensures Enterable(bs, v1, path)
  {
    hide Resolve, DirAt, Find, DirFits;
    ResolveFewer(v, v1, DirectoryPath(path));
    match Resolve(v1, DirectoryPath(path)) {
      case Missing =>
      case Found(q) =>
        if IsDir(v1, q) {
          FewerFit(bs, |DirAt(v, q)| + 1, |DirAt(v1, q)| + 1);
        }
    }
  }

  /** An inode whose entry was taken out and not put back is counted wrong. */
  lemma LostEntry(v: seq<FileView>, tree: Tree, i: word)
    requires CountedBut(v, tree, i)
    requires InUse(v, i) ==> v[i - 1].nlinks - 1 == |LinksTo(tree, i)| + if i == ROOT_INUM then ROOT_NLINKS else 0
    ensures CountsOk(v, tree) <==> !InUse(v, i)
  {
    if InUse(v, i) {
      assert !Counted(v, tree, i);
    }
  }

  /** The link that completes an entry. */
  lemma LinkedOk(bs: nat, v: seq<FileView>, tree: Tree, i: word)
    requires DirsOk(v, IFILE_INUM) && Shown(v, tree) && TargetsOk(v, tree) && AllFit(bs, v) && CountedBut(v, tree, i) && InUse(v, i)
    requires v[i - 1].nlinks + 1 < 0x1_0000_0000
    requires v[i - 1].nlinks + 1 == |LinksTo(tree, i)| + if i == ROOT_INUM then ROOT_NLINKS else 0
    ensures var v' := v[i - 1 := v[i - 1].(nlinks := v[i - 1].nlinks + 1)]; NamespaceOk(v', tree) && AllFit(bs, v')
  {
    hide DirsOk, Shown, TargetsOk, LinksTo, DirAt, AllFit, CountedBut, NoNewEntries;
    var v' := v[i - 1 := v[i - 1].(nlinks := v[i - 1].nlinks + 1)];
    RecountedOk(v, tree, i, v[i - 1].nlinks + 1, IFILE_INUM);
    CountedAll(v', tree, i);
    RecountedFewer(bs, v, v', i);
  }
}
