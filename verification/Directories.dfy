/** The directory layer: names over the file layer, one inode, one entry and one link count at a time. */
module DirectoryLayers {
  import opened Words
  import opened FlashLayer
  import opened INodes
  import opened LogModel
  import opened LogLayer
  import opened FileModel
  import opened InodeTable
  import opened FileViews
  import opened FileLayers
  import opened DirectoryLists
  import opened Paths
  import opened Namespace
  import opened Walks

  const INUM_NOT_FOUND: word := UINT_MAX

  lemma SameSlots(bs: nat, inum: nat, offset: nat, length: nat)
    requires bs > 0 && inum != IFILE_INUM
    ensures FileSlots(bs, inum, offset, length) == FileSlots(bs, ROOT_INUM, offset, length)
  {
  }

  /** Slots a rewrite of a directory of n entries takes at most. */
  function DirSlots(bs: nat, n: nat): nat
    requires bs > 0
  {
    FileSlots(bs, ROOT_INUM, 0, HEADER_BYTES + ENTRY_BYTES * n)
  }

  lemma DirSlotsGrow(bs: nat, n: nat, m: nat)
    requires bs > 0 && n <= m
    ensures DirSlots(bs, n) <= DirSlots(bs, m)
  {
    var k, l := HEADER_BYTES + ENTRY_BYTES * n, HEADER_BYTES + ENTRY_BYTES * m;
    LastBlockEnds(bs, 0, k);
    LastBlockEnds(bs, 0, l);
    LastBlockIs(bs, 0, k);
    LastBlockIs(bs, 0, l);
    hide LastBlock, BlocksTouched;
    if LastBlock(bs, 0, l) < LastBlock(bs, 0, k) {
      Apart(LastBlock(bs, 0, l), LastBlock(bs, 0, k), bs);
    }
  }

  /** Slots it takes at most to rewrite the directory that path names its last element in, `more` entries longer. */
  function ParentSlots(bs: nat, v: seq<FileView>, path: seq<byte>, more: nat): nat
    requires bs > 0
  {
    match Resolve(v, DirectoryPath(path))
    case Missing => 0
    case Found(p) => DirSlots(bs, |DirAt(v, p)| + more)
  }

  /** Where an entry went, no directory has got longer. */
  lemma FewerSlots(bs: nat, v: seq<FileView>, v1: seq<FileView>, p: word, path: seq<byte>, more: nat)
    requires bs > 0 && NoNewEntries(v, v1)
    requires |DirAt(v1, p)| < |DirAt(v, p)| && forall j: word :: j != p ==> DirAt(v1, j) == DirAt(v, j)
    ensures ParentSlots(bs, v1, path, more) <= ParentSlots(bs, v, path, more)
  {
    hide Resolve, DirAt, Find, DirSlots;
    ResolveFewer(v, v1, DirectoryPath(path));
    if Resolve(v1, DirectoryPath(path)).Found? {
      var q := Resolve(v1, DirectoryPath(path)).inum;
      DirSlotsGrow(bs, |DirAt(v1, q)| + more, |DirAt(v, q)| + more);
    }
  }

  lemma SlotsAt(bs: nat, v: seq<FileView>, path: seq<byte>, p: word, more: nat)
    requires bs > 0 && Resolve(v, DirectoryPath(path)) == Found(p)
    ensures ParentSlots(bs, v, path, more) == DirSlots(bs, |DirAt(v, p)| + more)
  {
    hide Resolve, DirAt, DirSlots;
  }

  class DirectoryLayer {
    const files: FileLayer
    /** The entries of all directories, dot names left out. */
    ghost var tree: Tree

    /** Between operations: the names, the inodes and the link counts agree. */
    ghost predicate Valid()
      reads this, files, files.log, files.log.Repr, files.log.cache, files.log.flash, files.log.flash.Repr
    {
      files.Valid() && NamespaceOk(files.Files(), tree) && AllFit(files.blockSizeInBytes, files.Files())
    }

    constructor (files: FileLayer, ghost tree: Tree)
      requires files.Valid() && NamespaceOk(files.Files(), tree) && AllFit(files.blockSizeInBytes, files.Files())
      ensures Valid() && this.files == files && this.tree == tree
    {
      hide FileLayer.Valid, FileLayer.Files, NamespaceOk, AllFit;
      this.files := files;
      this.tree := tree;
    }

    lemma LayerFacts()
      requires files.Valid()
      ensures files.log.cache in files.log.Repr && files !in files.log.Repr && this !in files.log.Repr + files.log.flash.Repr
      ensures files.blockSizeInBytes >= SECTOR_SIZE && |files.Files()| == files.iFileSizeInINodes < 0x7FFF_FFFF
    {
      hide TableOk, LogInv, Log.Structure;
    }

    /** A list in memory is no part of the log. */
    lemma Apart(d: DirectoryList)
      requires files.Valid()
      ensures d !in files.log.Repr + files.log.flash.Repr
    {
      hide TableOk, LogInv, Log.Structure;
    }

    // ---- Directories as files --------------------------------------------------------------------

    /** ReadDirectory: null for a file, a symlink or an unused inode. */
    method ReadDirectory(inum: word) returns (r: Outcome, d: DirectoryList?)
      requires files.Valid()
      requires IsDir(files.Files(), inum) ==> WholeDir(files.Files()[inum - 1].contents)
      modifies files.log.cache
      ensures files.Valid() && files.Files() == old(files.Files())
      ensures r == if inum > |files.Files()| then Thrown else Done
      ensures r == Done ==> (d != null <==> IsDir(files.Files(), inum))
      ensures d != null ==> r == Done && fresh(d) && d.Value() == DecodeDir(files.Files()[inum - 1].contents)
    {
      hide FileLayer.Valid, FileLayer.Files, DecodeDir, FromPieces;
      LayerFacts();
      d := null;
      var t;
      r, t := files.GetFileType(inum);
      if r != Done {
        return Thrown, d;
      }
      if t != Directory {
        return Done, d;
      }
      var header, body;
      r, header := files.Read(inum, 0, HEADER_BYTES);
      if r != Done {
        return Done, d;
      }
      ghost var c := files.Files()[inum - 1].contents;
      PiecesDecode(c);
      assert header == c[..HEADER_BYTES];
      r, body := files.Read(inum, HEADER_BYTES, ENTRY_BYTES * CountIn(header));
      if r != Done {
        return Done, d;
      }
      assert body == c[HEADER_BYTES..HEADER_BYTES + ENTRY_BYTES * CountIn(c)];
      d := new DirectoryList.Load(FromPieces(header, body));
    }

    /** WriteDirectory: the list goes to the start of its own file; the file never gets shorter. */
    method WriteDirectory(d: DirectoryList) returns (r: Outcome)
      requires files.Valid() && NamesOk(d.Value()) && DirFits(files.blockSizeInBytes, |d.entries|)
      requires 1 <= d.self.inum <= |files.Files()|
      modifies files.log.Repr
      ensures r == Done ==>
                files.Valid() && files.Files() == old(Rewritten(files.blockSizeInBytes, files.Files(), d.self.inum, d.Value()))
      ensures Ends(r, false, DirSlots(files.blockSizeInBytes, old(|d.entries|)),
                   old(files.log.Stock()), files.log.Stock(), files.log.Jammed())
    {
      hide FileLayer.Valid, FileLayer.Files, Written, Clamped, BlocksTouched;
      LayerFacts();
      var buffer := EncodeDir(Dir(d.self, d.entries));
      assert |buffer| > 0;
      r := files.Write(d.self.inum, 0, buffer);
    }

    // ---- Paths -----------------------------------------------------------------------------------

    /** A state whose directories can be walked; inode `but` may be a directory without a list, which no entry names. */
    ghost predicate Walkable(but: word)
      reads this, files, files.log, files.log.Repr, files.log.cache, files.log.flash, files.log.flash.Repr
    {
      && files.Valid() && DirsOk(files.Files(), but) && Shown(files.Files(), tree) && TargetsOk(files.Files(), tree)
      && (but != IFILE_INUM ==> forall k :: k in tree ==> tree[k] != but)
    }

    /** GetINum. */
    method GetINum(path: seq<byte>, ghost but: word) returns (r: Outcome, inum: word)
      requires Walkable(but)
      modifies files.log.cache
      ensures Walkable(but) && files.Files() == old(files.Files()) && r == Done
      ensures match Resolve(files.Files(), path)
              case Missing => inum == INUM_NOT_FOUND
              case Found(i) => inum == i && i != INUM_NOT_FOUND && i <= |files.Files()| && i != if but == IFILE_INUM then INUM_NOT_FOUND else but
    {
      hide FileLayer.Valid, FileLayer.Files, DecodeDir, Find, Shown, TargetsOk, ListOk, Resolve, Walk, Tokens,
           SkipSlashes, TokenEnd, DirAt, DirsOk, WholeDir;
      LayerFacts();
      ghost var v := files.Files();
      ResolveStarts(v, path);
      DirReadable(v, but, ROOT_INUM);
      var at := SkipSlashes(path, 0);
      if at == |path| {
        return Done, ROOT_INUM;
      }
      ghost var dir := ROOT_INUM;
      var currDir;
      r, currDir := ReadDirectory(ROOT_INUM);
      var token := path[at..TokenEnd(path, at)];
      at := AfterToken(path, TokenEnd(path, at));
      while true
        invariant Walkable(but) && files.Files() == v && at <= |path|
        invariant currDir != null && fresh(currDir) && IsDir(v, dir) && dir != but && currDir.entries == DirAt(v, dir)
        invariant Resolve(v, path) == Walk(v, dir, [token] + Tokens(path, at))
        decreases |path| - at
      {
        WalkGoesOn(v, dir, token, path, at);
        EntryLeads(v, tree, dir, token, but);
        var contained := currDir.ContainsFile(token);
        if !contained {
          return Done, INUM_NOT_FOUND;
        }
        var next := currDir.GetINum(token);
        var nextToken := SkipSlashes(path, at);
        if nextToken == |path| {
          return Done, next;
        }
        DirReadable(v, but, next);
        r, currDir := ReadDirectory(next);
        if currDir == null {
          return Done, INUM_NOT_FOUND;
        }
        dir := next;
        token := path[nextToken..TokenEnd(path, nextToken)];
        at := AfterToken(path, TokenEnd(path, nextToken));
      }
    }

    // ---- One entry -------------------------------------------------------------------------------

    /** The names are in order but for the counts; inode `but` may be a directory still without a list. */
    ghost predicate Named(but: word)
      reads this, files, files.log, files.log.Repr, files.log.cache, files.log.flash, files.log.flash.Repr
    {
      && files.Valid() && DirsOk(files.Files(), but) && Shown(files.Files(), tree) && TargetsOk(files.Files(), tree)
      && AllFit(files.blockSizeInBytes, files.Files())
    }

    /** AddFile, then WriteDirectory. */
    method AddAndWrite(d: DirectoryList, fileName: seq<byte>, inum: word) returns (r: Outcome)
      requires files.Valid() && NamesOk(d.Value()) && 0 !in fileName
      requires DirFits(files.blockSizeInBytes, |d.entries| + 1) && 1 <= d.self.inum <= |files.Files()|
      modifies d, files.log.Repr
      ensures r == Done ==>
                && NameOk(fileName) && old(NamesOk(d.Value().(entries := d.entries + [DirEntry(fileName, inum)])))
                && files.Valid()
                && files.Files() == old(Rewritten(files.blockSizeInBytes, files.Files(), d.self.inum,
                                                  d.Value().(entries := d.entries + [DirEntry(fileName, inum)])))
      ensures Ends(r, |fileName| >= MAX_FILE_NAME_LENGTH, DirSlots(files.blockSizeInBytes, old(|d.entries|) + 1),
                   old(files.log.Stock()), files.log.Stock(), files.log.Jammed())
    {
      hide FileLayer.Valid, FileLayer.Files, MaxBlocks, Rewritten;
      Apart(d);
      r := d.AddFile(fileName, inum);
      if r == Done {
        r := WriteDirectory(d);
      }
    }

    /** RemoveFile, then WriteDirectory. */
    method RemoveAndWrite(d: DirectoryList, fileName: seq<byte>) returns (r: Outcome)
      requires files.Valid() && NamesOk(d.Value()) && Distinct(d.entries) && !IsDot(fileName)
      requires DirFits(files.blockSizeInBytes, |d.entries|) && 1 <= d.self.inum <= |files.Files()|
      modifies d, files.log.Repr
      ensures r == Done ==>
                && old(Find(d.entries, fileName)) != Missing
                && old(NamesOk(d.Value().(entries := Removed(d.entries, fileName))))
                && files.Valid()
                && files.Files() == old(Rewritten(files.blockSizeInBytes, files.Files(), d.self.inum,
                                                  d.Value().(entries := Removed(d.entries, fileName))))
      ensures Ends(r, old(Find(d.entries, fileName)) == Missing, DirSlots(files.blockSizeInBytes, old(|d.entries|)),
                   old(files.log.Stock()), files.log.Stock(), files.log.Jammed())
    {
      hide FileLayer.Valid, FileLayer.Files, MaxBlocks, Rewritten, Removed, Distinct, Find, NamesOk, DirSlots, DirFits;
      Apart(d);
      LayerFacts();
      ghost var was := d.Value();
      r := d.RemoveFile(fileName);
      if r != Done {
        return Thrown;
      }
      RemovedNames(was, fileName);
      FewerFit(files.blockSizeInBytes, |was.entries|, |d.entries|);
      DirSlotsGrow(files.blockSizeInBytes, |d.entries|, |was.entries|);
      r := WriteDirectory(d);
    }

    /** A name for inum in a directory just read: the namespace gains exactly that entry. */
    method Enter(d: DirectoryList, fileName: seq<byte>, inum: word, ghost but: word) returns (r: Outcome)
      requires Named(but) && CountedBut(files.Files(), tree, inum)
      requires IsDir(files.Files(), d.self.inum) && d.self.inum != but
      requires WholeDir(files.Files()[d.self.inum - 1].contents) && d.Value() == DecodeDir(files.Files()[d.self.inum - 1].contents)
      requires Find(DirAt(files.Files(), d.self.inum), fileName) == Missing && 0 !in fileName
      requires DirFits(files.blockSizeInBytes, |DirAt(files.Files(), d.self.inum)| + 1)
      requires inum == IFILE_INUM || InUse(files.Files(), inum)
      modifies d, files.log.Repr, this`tree
      ensures r == Done ==> Named(but) && CountedBut(files.Files(), tree, inum) && SameInodes(old(files.Files()), files.Files())
      ensures r == Done ==> NameOk(fileName) && Key(old(d.self.inum), fileName) !in old(tree)
      ensures r == Done ==> tree == old(tree)[Key(old(d.self.inum), fileName) := inum]
      ensures r == Done ==> |LinksTo(tree, inum)| == |LinksTo(old(tree), inum)| + 1
      ensures r == Done ==> Gained(files.blockSizeInBytes, old(files.Files()), old(d.self.inum), DirEntry(fileName, inum), files.Files())
      ensures r == Done ==> NoNewEntries(files.Files(), old(files.Files()))
      ensures r == Done ==> forall j: word :: j != old(d.self.inum) ==> DirAt(files.Files(), j) == DirAt(old(files.Files()), j)
      ensures Ends(r, |fileName| >= MAX_FILE_NAME_LENGTH,
                   DirSlots(files.blockSizeInBytes, |DirAt(old(files.Files()), old(d.self.inum))| + 1),
                   old(files.log.Stock()), files.log.Stock(), files.log.Jammed())
    {
      hide FileLayer.Valid, FileLayer.Files, DecodeDir, Find, Shown, TargetsOk, Distinct, DirsOk, WholeDir, AllFit,
           CountedBut, LinksTo, SameInodes, DirFits, NoNewEntries, DirSlots, Ends, Log.Stock, Log.Jammed;
      LayerFacts();
      ghost var v, p, t := files.Files(), d.self.inum, tree;
      ghost var e := DirEntry(fileName, inum);
      DirReadable(v, but, p);
      Apart(d);
      if NameOk(fileName) {
        Entered(files.blockSizeInBytes, v, t, p, e, but);
      }
      r := AddAndWrite(d, fileName, inum);
      tree := t[Key(p, fileName) := inum];
    }

    /** A name gone from a directory just read: the namespace loses exactly that entry. */
    method Leave(d: DirectoryList, fileName: seq<byte>) returns (r: Outcome)
      requires Valid() && IsDir(files.Files(), d.self.inum) && !IsDot(fileName)
      requires WholeDir(files.Files()[d.self.inum - 1].contents) && d.Value() == DecodeDir(files.Files()[d.self.inum - 1].contents)
      modifies d, files.log.Repr, this`tree
      ensures r == Done ==> Named(IFILE_INUM) && SameInodes(old(files.Files()), files.Files())
      ensures r == Done ==> Key(old(d.self.inum), fileName) in old(tree) && tree == old(tree) - {Key(old(d.self.inum), fileName)}
      ensures r == Done ==> var i := old(tree)[Key(old(d.self.inum), fileName)];
                && Find(DirAt(old(files.Files()), old(d.self.inum)), fileName) == Found(i)
                && CountedBut(files.Files(), tree, i) && |LinksTo(tree, i)| == |LinksTo(old(tree), i)| - 1
      ensures r == Done ==> NoNewEntries(old(files.Files()), files.Files())
      ensures r == Done ==> EntryLess(old(files.Files()), files.Files(), Key(old(d.self.inum), fileName))
      ensures r == Done ==> Lost(files.blockSizeInBytes, old(files.Files()), old(d.self.inum), fileName, files.Files())
      ensures r == Done ==> |DirAt(files.Files(), old(d.self.inum))| < |DirAt(old(files.Files()), old(d.self.inum))|
                            && forall j: word :: j != old(d.self.inum) ==> DirAt(files.Files(), j) == DirAt(old(files.Files()), j)
      ensures Ends(r, Key(old(d.self.inum), fileName) !in old(tree),
                   DirSlots(files.blockSizeInBytes, |DirAt(old(files.Files()), old(d.self.inum))|),
                   old(files.log.Stock()), files.log.Stock(), files.log.Jammed())
    {
      hide FileLayer.Valid, FileLayer.Files, DecodeDir, Find, Shown, TargetsOk, Distinct, DirsOk, WholeDir, AllFit,
           CountedBut, LinksTo, SameInodes, DirFits;
      hide NoNewEntries, EntryLess, CountsOk, Removed, Rewritten, NamesOk, IsDot, Ends, Log.Stock, Log.Jammed, DirSlots;
      LayerFacts();
      ghost var v, p, t := files.Files(), d.self.inum, tree;
      DirReadable(v, IFILE_INUM, p);
      Apart(d);
      if Find(DirAt(v, p), fileName) != Missing {
        Departed(files.blockSizeInBytes, v, t, p, fileName);
      }
      if Key(p, fileName) in t {
        EntryIn(v, t, p, fileName);
      }
      RoomAt(files.blockSizeInBytes, v, p, |d.entries|);
      r := RemoveAndWrite(d, fileName);
      tree := t - {Key(p, fileName)};
    }

    // ---- Creating --------------------------------------------------------------------------------

    /** File_Create between operations on names. */
    method MakeInode(fileType: FileType) returns (r: Outcome, inum: word)
      requires Valid() && Fits(files.blockSizeInBytes, |files.Files()| + 1) && |files.Files()| + 1 < 0x7FFF_FFFF
      modifies files.log.Repr, files`iFileSizeInINodes
      ensures r == Done ==> InodeMade(old(files.Files()), files.Files(), inum, fileType) && inum != ROOT_INUM
      ensures r == Done ==> var but := if fileType == Directory then inum else IFILE_INUM;
                Walkable(but) && Named(but) && CountedBut(files.Files(), tree, inum) && LinksTo(tree, inum) == {}
      ensures r == Done ==> InUse(files.Files(), inum) && files.Files()[inum - 1] == NewFile(fileType) && DirAt(files.Files(), inum) == []
      ensures r == Done ==> forall j: word :: DirAt(files.Files(), j) == DirAt(old(files.Files()), j)
      ensures Ends(r, false, RECORD_SLOTS, old(files.log.Stock()), files.log.Stock(), files.log.Jammed())
    {
      hide FileLayer.Valid, FileLayer.Files, Shown, TargetsOk, DirsOk, CountedBut, LinksTo, Fits, CountsOk, DirAt,
           InUse, AllInUse;
      LayerFacts();
      ghost var v := files.Files();
      r, inum := files.Create(fileType);
      if r == Done {
        FreeInum(v, inum);
        CreatedOk(v, tree, inum, fileType);
      }
    }

    /**
     * CreateFile: an inode first, then its entry. If the directory path does not lead to a directory the inode is left
     * behind (`orphan`): in use, with a link count no entry accounts for.
     */
    method CreateFile(path: seq<byte>, fileType: FileType) returns (r: Outcome, inum: word, ghost orphan: bool, ghost made: seq<FileView>)
      requires Valid() && 0 !in path && Enterable(files.blockSizeInBytes, files.Files(), path)
      requires Fits(files.blockSizeInBytes, |files.Files()| + 1) && |files.Files()| + 1 < 0x7FFF_FFFF
      modifies files.log.Repr, files`iFileSizeInINodes, this`tree
      ensures |LastElement(path)| >= MAX_FILE_NAME_LENGTH ==>
                r == Failed && !orphan && Valid() && files.Files() == old(files.Files()) && tree == old(tree)
      ensures orphan ==> r == Failed && files.Valid() && tree == old(tree)
      ensures orphan ==> InodeMade(old(files.Files()), files.Files(), inum, fileType) && NoParent(old(files.Files()), path)
      ensures orphan ==> Shown(files.Files(), tree) && !CountsOk(files.Files(), tree)
      ensures r == Done ==> InodeMade(old(files.Files()), made, inum, fileType)
      ensures r == Done ==> EntryMade(old(files.Files()), old(tree), path, inum, tree)
      ensures r == Done ==> NameWritten(files.blockSizeInBytes, old(files.Files()), path, inum, made, files.Files())
      ensures r == Done ==> Named(if fileType == Directory then inum else IFILE_INUM) && CountsOk(files.Files(), tree)
      ensures r == Done ==> InUse(files.Files(), inum) && files.Files()[inum - 1] == NewFile(fileType) && DirAt(files.Files(), inum) == []
      ensures r == Done && Splits(path) ==> Resolve(files.Files(), path) == Found(inum)
      ensures r == Done ==> |files.Files()| <= |old(files.Files())| + 1 && DataKept(old(files.Files()), files.Files(), IFILE_INUM)
      ensures r == Done && Rooted(old(tree)) ==> Rooted(tree)
      ensures Ends(r, |LastElement(path)| >= MAX_FILE_NAME_LENGTH || orphan,
                   RECORD_SLOTS + ParentSlots(files.blockSizeInBytes, old(files.Files()), path, 1),
                   old(files.log.Stock()), files.log.Stock(), files.log.Jammed())
    {
      hide FileLayer.Valid, FileLayer.Files, DecodeDir, Find, Shown, TargetsOk, Distinct, DirsOk, WholeDir,
           CountedBut, LinksTo;
      hide Resolve, DirFits, InodeMade, WithEntry, Fits, CountsOk, DirAt, AllFit, Rooted, DataKept, DirSlots, ParentSlots,
           NoNewEntries, IsDot, EntryMade, NameWritten, Gained, Ends, Log.Stock, Log.Jammed, Lost, Removed, Rewritten, Enterable;
      orphan, inum, made := false, 0, [];
      LayerFacts();
      ghost var s0, slots := files.log.Stock(), ParentSlots(files.blockSizeInBytes, files.Files(), path, 1);
      var fileName, directoryPath := LastElement(path), DirectoryPath(path);
      if |fileName| >= MAX_FILE_NAME_LENGTH {
        EndsAtOnce(Failed, true, RECORD_SLOTS + slots, s0, files.log.Jammed(), false, false);
        return Failed, inum, false, made;
      }
      ghost var v, t := files.Files(), tree;
      r, inum := MakeInode(fileType);
      ghost var s1, j1 := files.log.Stock(), files.log.Jammed();
      EndsWithin(RECORD_SLOTS, RECORD_SLOTS + slots, r, false, false, s0, s1, j1);
      if r != Done {
        return;
      }
      ghost var v1, but := files.Files(), if fileType == Directory then inum else IFILE_INUM;
      made := v1;
      ResolveSame(v, v1, directoryPath);
      var directoryINum, directory;
      r, directoryINum := GetINum(directoryPath, but);
      if directoryINum == INUM_NOT_FOUND {
        OrphanMiscounted(v1, t, inum);
        EndsFailed(RECORD_SLOTS + slots, s0, s1, j1, Failed, files.log.Jammed());
        return Failed, inum, true, v1;
      }
      MadeDirs(v, v1, inum, fileType, directoryINum);
      MadeSize(v, v1, inum, fileType);
      DirReadable(v1, but, directoryINum);
      r, directory := ReadDirectory(directoryINum);
      if directory == null {
        OrphanMiscounted(v1, t, inum);
        EndsFailed(RECORD_SLOTS + slots, s0, s1, j1, Failed, files.log.Jammed());
        return Failed, inum, true, v1;
      }
      SlotsAt(files.blockSizeInBytes, v, path, directoryINum, 1);
      EnterableAt(files.blockSizeInBytes, v, path, directoryINum);
      r := Enter(directory, fileName, inum, but);
      EndsThen(RECORD_SLOTS, s0, s1, j1, r, false, slots, files.log.Stock(), files.log.Jammed());
      if r == Done {
        FileMade(files.blockSizeInBytes, v, t, path, directoryINum, inum, fileType, v1, files.Files(), tree);
      }
    }

    /** Directory_Mkdir. The name a directory keeps of itself is whatever its freed source still spells: nothing depends on it. */
    method Mkdir(path: seq<byte>, ownName: seq<byte>) returns (r: Outcome, ghost inum: word)
      requires Valid() && 0 !in path && NameOk(ownName) && Enterable(files.blockSizeInBytes, files.Files(), path)
      requires Fits(files.blockSizeInBytes, |files.Files()| + 1) && |files.Files()| + 1 < 0x7FFF_FFFF
      modifies files.log.Repr, files`iFileSizeInINodes, this`tree
      ensures |LastElement(path)| >= MAX_FILE_NAME_LENGTH ==>
                r == Failed && Valid() && files.Files() == old(files.Files()) && tree == old(tree)
      ensures r == Done ==> Valid() && EntryMade(old(files.Files()), old(tree), path, inum, tree) && !InUse(old(files.Files()), inum)
      ensures r == Done ==> IsDir(files.Files(), inum) && DirAt(files.Files(), inum) == Fresh(ownName, inum).entries
      ensures r == Done ==> |files.Files()| <= |old(files.Files())| + 1 && DataKept(old(files.Files()), files.Files(), IFILE_INUM)
      ensures r == Done && Rooted(old(tree)) ==> Rooted(tree)
      ensures Ends(r, |LastElement(path)| >= MAX_FILE_NAME_LENGTH || NoParent(old(files.Files()), path),
                   RECORD_SLOTS + ParentSlots(files.blockSizeInBytes, old(files.Files()), path, 1) + DirSlots(files.blockSizeInBytes, 2),
                   old(files.log.Stock()), files.log.Stock(), files.log.Jammed())
    {
      hide FileLayer.Valid, FileLayer.Files, DecodeDir, Shown, TargetsOk, DirsOk, CountsOk, Resolve, Rewritten, Fresh,
           Fits, DirAt, AllFit, EntryMade, NameWritten, Created, AllInUse, Rooted, DataKept;
      LayerFacts();
      ghost var orphan, made;
      var newINum;
      r, newINum, orphan, made := CreateFile(path, Directory);
      inum := newINum;
      if r != Done {
        return;
      }
      LayerFacts();
      ghost var v := files.Files();
      DirectoryMade(files.blockSizeInBytes, v, tree, newINum, ownName);
      FreshKeeps(files.blockSizeInBytes, v, newINum, Fresh(ownName, newINum));
      KeptChain(old(files.Files()), v, Rewritten(files.blockSizeInBytes, v, newINum, Fresh(ownName, newINum)), IFILE_INUM);
      var directory := new DirectoryList(ownName, newINum);
      FreshIs(ownName, newINum);
      r := WriteFresh(directory, ownName, newINum);
    }

    /** WriteDirectory of a new list. */
    method WriteFresh(d: DirectoryList, ghost name: seq<byte>, ghost inum: word) returns (r: Outcome)
      requires files.Valid() && NameOk(name) && d.Value() == Fresh(name, inum) && NamesOk(Fresh(name, inum)) && IsDir(files.Files(), inum)
      modifies files.log.Repr
      ensures r == Done ==> files.Valid() && files.Files() == old(Rewritten(files.blockSizeInBytes, files.Files(), inum, Fresh(name, inum)))
      ensures r == Done ==> IsDir(files.Files(), inum) && DirAt(files.Files(), inum) == Fresh(name, inum).entries
      ensures Ends(r, false, DirSlots(files.blockSizeInBytes, 2), old(files.log.Stock()), files.log.Stock(), files.log.Jammed())
    {
      hide FileLayer.Valid, FileLayer.Files, DecodeDir, Rewritten, Find, Distinct, EncodeDir, WholeDir, MaxBlocks;
      LayerFacts();
      SmallFits(files.blockSizeInBytes, 2);
      RewrittenHolds(files.blockSizeInBytes, files.Files(), inum, Fresh(name, inum));
      r := WriteDirectory(d);
    }

    /** Directory_Write on anything but a directory: one splice of the file the path resolves to. */
    method WritePath(path: seq<byte>, offset: nat, buffer: seq<byte>) returns (r: Outcome)
      requires Valid() && offset + |buffer| < 0x1_0000_0000
      requires Resolve(files.Files(), path).Found? ==> !IsDir(files.Files(), Resolve(files.Files(), path).inum)
      modifies files.log.Repr
      ensures r == Done ==> Valid()
      ensures Resolve(old(files.Files()), path) in {Missing, Found(IFILE_INUM)} ==>
                r == Failed && Valid() && files.Files() == old(files.Files())
      ensures r == Done ==> var v, f := old(files.Files()), Resolve(old(files.Files()), path);
                && f.Found? && InUse(v, f.inum)
                && (buffer == [] ==> files.Files() == v)
                && (buffer != [] ==>
                      && offset <= |v[f.inum - 1].contents|
                      && files.Files() == v[f.inum - 1 := v[f.inum - 1].(contents :=
                           Clamped(files.blockSizeInBytes, Written(v[f.inum - 1].contents, offset, buffer)))])
      ensures Ends(r, !Writable(old(files.Files()), path, offset, buffer),
                   FileSlots(files.blockSizeInBytes, ROOT_INUM, offset, |buffer|),
                   old(files.log.Stock()), files.log.Stock(), files.log.Jammed())
    {
      hide FileLayer.Valid, FileLayer.Files, DirsOk, Shown, CountsOk, Resolve, AllFit, Clamped, Written, Ends, Flowing, Log.Stock, Log.Jammed,
           Log.Flows, FileSlots;
      LayerFacts();
      ghost var v := files.Files();
      var inum;
      r, inum := GetINum(path, IFILE_INUM);
      EndsAtOnce(Failed, true, FileSlots(files.blockSizeInBytes, ROOT_INUM, offset, |buffer|), files.log.Stock(), files.log.Jammed(), false, false);
      if inum == IFILE_INUM || inum == INUM_NOT_FOUND {
        return Failed;
      }
      ResolvedInUse(v, tree, path);
      if buffer != [] && offset <= |v[inum - 1].contents| {
        DataWritten(files.blockSizeInBytes, v, tree, inum, Clamped(files.blockSizeInBytes, Written(v[inum - 1].contents, offset, buffer)));
      }
      SameSlots(files.blockSizeInBytes, inum, offset, |buffer|);
      r := files.Write(inum, offset, buffer);
    }

    /** Directory_Symlink: a symlink inode whose bytes are the target path. */
    method Symlink(to: seq<byte>, from: seq<byte>) returns (r: Outcome, ghost inum: word)
      requires Valid() && 0 !in from && Splits(from) && Enterable(files.blockSizeInBytes, files.Files(), from) && |to| < 0x1_0000_0000
      requires Fits(files.blockSizeInBytes, |files.Files()| + 1) && |files.Files()| + 1 < 0x7FFF_FFFF
      modifies files.log.Repr, files`iFileSizeInINodes, this`tree
      ensures |LastElement(from)| >= MAX_FILE_NAME_LENGTH ==>
                r == Failed && Valid() && files.Files() == old(files.Files()) && tree == old(tree)
      ensures r == Done ==> Valid() && EntryMade(old(files.Files()), old(tree), from, inum, tree) && !InUse(old(files.Files()), inum)
      ensures r == Done ==> InUse(files.Files(), inum)
                            && files.Files()[inum - 1] == FileView(true, FileType.Symlink, 1, Clamped(files.blockSizeInBytes, to))
      ensures r == Done ==> DataKept(old(files.Files()), files.Files(), IFILE_INUM)
      ensures r == Done && Rooted(old(tree)) ==> Rooted(tree)
      ensures Ends(r, |LastElement(from)| >= MAX_FILE_NAME_LENGTH || NoParent(old(files.Files()), from),
                   RECORD_SLOTS + ParentSlots(files.blockSizeInBytes, old(files.Files()), from, 1)
                   + FileSlots(files.blockSizeInBytes, ROOT_INUM, 0, |to|),
                   old(files.log.Stock()), files.log.Stock(), files.log.Jammed())
    {
      hide FileLayer.Valid, FileLayer.Files, DecodeDir, Shown, TargetsOk, DirsOk, CountsOk, Resolve, Fits, DirAt,
           AllFit, Clamped, Rooted, DataKept, ParentSlots, FileSlots;
      LayerFacts();
      ghost var orphan, made;
      var newINum;
      r, newINum, orphan, made := CreateFile(from, FileType.Symlink);
      inum := newINum;
      if r != Done {
        return;
      }
      LayerFacts();
      TargetText(files.blockSizeInBytes, to);
      NewFileKeeps(old(files.Files()), files.Files(), newINum, Clamped(files.blockSizeInBytes, Written([], 0, to)));
      r := WritePath(from, 0, to);
    }

    // ---- Linking and unlinking -------------------------------------------------------------------

    /** Looking up the directory that `path` names and reading it, as Link, Unlink and Rename do. */
    method ReadParent(path: seq<byte>) returns (r: Outcome, d: DirectoryList?)
      requires Named(IFILE_INUM)
      modifies files.log.cache
      ensures Named(IFILE_INUM) && files.Files() == old(files.Files()) && (r == Done || r == Failed)
      ensures r == Done <==> !NoParent(files.Files(), path)
      ensures r == Done ==> d != null && fresh(d) && IsDir(files.Files(), d.self.inum)
                            && Resolve(files.Files(), DirectoryPath(path)) == Found(d.self.inum)
                            && WholeDir(files.Files()[d.self.inum - 1].contents)
                            && d.Value() == DecodeDir(files.Files()[d.self.inum - 1].contents)
    {
      hide FileLayer.Valid, FileLayer.Files, DecodeDir, Shown, TargetsOk, DirsOk, Resolve, AllFit, WholeDir;
      LayerFacts();
      d := null;
      var inum;
      r, inum := GetINum(DirectoryPath(path), IFILE_INUM);
      if inum == INUM_NOT_FOUND {
        return Failed, d;
      }
      DirReadable(files.Files(), IFILE_INUM, inum);
      r, d := ReadDirectory(inum);
      if d == null {
        return Failed, d;
      }
    }

    /** Directory_Link: an entry more, then a link more. */
    method Link(from: seq<byte>, to: seq<byte>) returns (r: Outcome)
      requires Valid() && 0 !in to && Enterable(files.blockSizeInBytes, files.Files(), to)
      requires forall i: word :: InUse(files.Files(), i) ==> files.Files()[i - 1].nlinks < UINT_MAX
      modifies files.log.Repr, this`tree
      ensures Resolve(old(files.Files()), from) == Missing || NoParent(old(files.Files()), to) ==>
                r == Failed && Valid() && files.Files() == old(files.Files()) && tree == old(tree)
      ensures r == Done ==> Valid() && Resolve(old(files.Files()), from).Found?
      ensures r == Done ==> EntryMade(old(files.Files()), old(tree), to, Resolve(old(files.Files()), from).inum, tree)
      ensures r == Done ==> DataKept(old(files.Files()), files.Files(), IFILE_INUM)
      ensures r == Done && Rooted(old(tree)) ==> Rooted(tree)
      ensures Ends(r, Resolve(old(files.Files()), from) == Missing || NoParent(old(files.Files()), to) || |LastElement(to)| >= MAX_FILE_NAME_LENGTH,
                   ParentSlots(files.blockSizeInBytes, old(files.Files()), to, 1) + RECORD_SLOTS,
                   old(files.log.Stock()), files.log.Stock(), files.log.Jammed())
    {
      hide FileLayer.Valid, FileLayer.Files, DecodeDir, Shown, TargetsOk, DirsOk, CountsOk, Resolve, AllFit, DirAt,
           Find, LinksTo, WholeDir, DirFits;
      hide CountedBut, SameInodes, NoNewEntries, Rooted, Reached, DataKept, Gained, ParentSlots, DirSlots, Ends, Log.Stock, Log.Jammed,
           Enterable;
      LayerFacts();
      ghost var v, t, s0, slots := files.Files(), tree, files.log.Stock(), ParentSlots(files.blockSizeInBytes, files.Files(), to, 1);
      var fromINum, toDirectory;
      r, fromINum := GetINum(from, IFILE_INUM);
      EndsAtOnce(Failed, true, slots + RECORD_SLOTS, s0, files.log.Jammed(), false, false);
      if fromINum == INUM_NOT_FOUND {
        return Failed;
      }
      r, toDirectory := ReadParent(to);
      EndsAtOnce(Failed, true, slots + RECORD_SLOTS, s0, files.log.Jammed(), false, false);
      if r != Done {
        return Failed;
      }
      ResolvedInUse(v, t, from);
      AnyCounted(v, t, fromINum);
      SlotsAt(files.blockSizeInBytes, v, to, toDirectory.self.inum, 1);
      EnterableAt(files.blockSizeInBytes, v, to, toDirectory.self.inum);
      r := Enter(toDirectory, LastElement(to), fromINum, IFILE_INUM);
      ghost var s1, j1 := files.log.Stock(), files.log.Jammed();
      EndsWithin(slots, slots + RECORD_SLOTS, r, |LastElement(to)| >= MAX_FILE_NAME_LENGTH, |LastElement(to)| >= MAX_FILE_NAME_LENGTH,
                 s0, s1, j1);
      if r != Done {
        return;
      }
      LayerFacts();
      MadeRooted(v, t, to, fromINum, tree);
      ghost var v1, p := files.Files(), Resolve(v, DirectoryPath(to)).inum;
      GainedKeeps(files.blockSizeInBytes, v, p, DirEntry(LastElement(to), fromINum), v1);
      NewCount(v, t, files.Files(), tree, fromINum, 1);
      InRange(files.Files(), fromINum);
      if fromINum == IFILE_INUM {
        CountedAll(files.Files(), tree, IFILE_INUM);
      } else {
        LinkedOk(files.blockSizeInBytes, files.Files(), tree, fromINum);
        WrapSmall(files.Files()[fromINum - 1].nlinks + 1);
        LinkKeeps(v1, fromINum, Wrap(v1[fromINum - 1].nlinks + 1));
      }
      r := files.AddLink(fromINum);
      EndsThen(slots, s0, s1, j1, r, false, RECORD_SLOTS, files.log.Stock(), files.log.Jammed());
      if r == Done {
        ItselfKept(v1);
        KeptChain(v, v1, files.Files(), IFILE_INUM);
      }
    }

    /** File_Free of a symlink, whatever its count; File_RemoveLink of anything else. */
    method DropLink(inum: word) returns (r: Outcome)
      requires files.Valid() && (inum == IFILE_INUM || InUse(files.Files(), inum))
      modifies files.log.Repr
      ensures r == Done ==> files.Valid()
      ensures r == Done ==> files.Files() == if inum == IFILE_INUM then old(files.Files()) else old(AfterUnlink(files.Files(), inum))
      ensures Ends(r, inum == IFILE_INUM, 2 * RECORD_SLOTS, old(files.log.Stock()), files.log.Stock(), files.log.Jammed())
    {
      hide FileLayer.Valid, FileLayer.Files;
      LayerFacts();
      InRange(files.Files(), inum);
      var fileType;
      r, fileType := files.GetFileType(inum);
      if fileType == FileType.Symlink {
        r := files.Free(inum);
      } else {
        r := files.RemoveLink(inum);
      }
    }

    /**
     * Directory_Unlink: an entry less, then a link less. What is left is in order exactly if the unlink was safe: no
     * further name of a symlink, and no named child in a directory that goes.
     */
    method Unlink(path: seq<byte>) returns (r: Outcome)
      requires Valid() && 0 !in path && Splits(path)
      modifies files.log.Repr, this`tree
      ensures Resolve(old(files.Files()), path) == Missing || IsDot(LastElement(path)) ==>
                r == Failed && Valid() && files.Files() == old(files.Files()) && tree == old(tree)
      ensures r == Done ==> files.Valid() && Shown(files.Files(), tree) && Resolve(files.Files(), path) == Missing
      ensures r == Done ==> var f := Resolve(old(files.Files()), path); var k := EntryKey(old(files.Files()), path);
                && k in old(tree) && f == Found(old(tree)[k])
                && tree == TreeAfterUnlink(files.Files(), old(tree) - {k}, f.inum)
                && (Valid() <==> UnlinkSafe(old(files.Files()), old(tree), k))
                && (Valid() && Rooted(old(tree)) ==> (Rooted(tree) <==> StaysRooted(old(tree), k)))
      ensures r == Done ==> var i := Resolve(old(files.Files()), path).inum;
                InUse(old(files.Files()), i) && i != ROOT_INUM && old(files.Files())[i - 1].fileType != FileType.Symlink ==>
                  (InUse(files.Files(), i) <==> |LinksTo(old(tree), i)| > 1)
      ensures r == Done ==> var i := Resolve(old(files.Files()), path).inum;
                DataKept(old(files.Files()), files.Files(), if InUse(files.Files(), i) then IFILE_INUM else i)
      ensures Ends(r, Resolve(old(files.Files()), path) in {Missing, Found(IFILE_INUM)} || IsDot(LastElement(path)),
                   ParentSlots(files.blockSizeInBytes, old(files.Files()), path, 0) + 2 * RECORD_SLOTS,
                   old(files.log.Stock()), files.log.Stock(), files.log.Jammed())
    {
      hide FileLayer.Valid, FileLayer.Files, DecodeDir, Shown, TargetsOk, DirsOk, CountsOk, Resolve, AllFit, DirAt,
           Find, LinksTo, WholeDir, DirFits;
      hide CountedBut, SameInodes, NoNewEntries, UnlinkSafe, TreeAfterUnlink, AfterUnlink, IsDot, EntryLess, Rooted,
           StaysRooted, DataKept, Lost, ParentSlots, DirSlots, Ends, Log.Stock, Log.Jammed, Removed, Rewritten, Gained, LastElement,
           DirectoryPath, Splits, NoParent, InUse, Wrap;
      LayerFacts();
      ghost var v, t, s0, slots := files.Files(), tree, files.log.Stock(), ParentSlots(files.blockSizeInBytes, files.Files(), path, 0);
      var inum, directory;
      r, inum := GetINum(path, IFILE_INUM);
      EndsAtOnce(Failed, true, slots + 2 * RECORD_SLOTS, s0, files.log.Jammed(), false, false);
      if inum == INUM_NOT_FOUND {
        return Failed;
      }
      FoundParent(v, path);
      r, directory := ReadParent(path);
      EndsAtOnce(Failed, true, slots + 2 * RECORD_SLOTS, s0, files.log.Jammed(), false, false);
      if r != Done || IsDot(LastElement(path)) {
        return Failed;
      }
      ghost var p := directory.self.inum;
      ghost var k := Key(p, LastElement(path));
      EntryResolves(v, t, path, p);
      ResolvedInUse(v, t, path);
      SlotsAt(files.blockSizeInBytes, v, path, p, 0);
      r := Leave(directory, LastElement(path));
      ghost var s1, j1 := files.log.Stock(), files.log.Jammed();
      EndsWithin(slots, slots + 2 * RECORD_SLOTS, r, false, inum == IFILE_INUM, s0, s1, j1);
      if r != Done {
        return;
      }
      LayerFacts();
      ghost var v1 := files.Files();
      NewCount(v, t, v1, t - {k}, inum, -1);
      LostKeeps(files.blockSizeInBytes, v, p, LastElement(path), v1);
      r := DropLink(inum);
      EndsThen(slots, s0, s1, j1, r, inum == IFILE_INUM, 2 * RECORD_SLOTS, files.log.Stock(), files.log.Jammed());
      if r != Done {
        return;
      }
      DroppedKeeps(v, v1, inum, files.Files());
      UnlinkLeaves(files.blockSizeInBytes, v, t, path, p, v1, inum, files.Files());
      tree := TreeAfterUnlink(files.Files(), t - {k}, inum);
    }

    /** Directory_Rmdir: only a directory with nothing but its dot entries goes, so nothing is lost. */
    method Rmdir(path: seq<byte>) returns (r: Outcome)
      requires Valid() && 0 !in path && Splits(path)
      modifies files.log.Repr, this`tree
      ensures var f := Resolve(old(files.Files()), path);
              f == Missing || !IsDir(old(files.Files()), f.inum) || |DirAt(old(files.Files()), f.inum)| != 2 || IsDot(LastElement(path)) ==>
                r == Failed && Valid() && files.Files() == old(files.Files()) && tree == old(tree)
      ensures r == Done ==> Valid() && Resolve(files.Files(), path) == Missing
      ensures r == Done ==> var k := EntryKey(old(files.Files()), path);
                k in old(tree) && tree == TreeAfterUnlink(files.Files(), old(tree) - {k}, old(tree)[k])
      ensures r == Done ==> DataKept(old(files.Files()), files.Files(), IFILE_INUM)
      ensures r == Done && Rooted(old(tree)) ==> Rooted(tree)
      ensures var f := Resolve(old(files.Files()), path);
              Ends(r, f == Missing || !IsDir(old(files.Files()), f.inum) || |DirAt(old(files.Files()), f.inum)| != 2
                      || IsDot(LastElement(path)),
                   ParentSlots(files.blockSizeInBytes, old(files.Files()), path, 0) + 2 * RECORD_SLOTS,
                   old(files.log.Stock()), files.log.Stock(), files.log.Jammed())
    {
      hide FileLayer.Valid, FileLayer.Files, DecodeDir, Shown, TargetsOk, DirsOk, CountsOk, Resolve, AllFit, DirAt,
           Find, LinksTo, WholeDir, TreeAfterUnlink;
      hide IsDot, Rooted, StaysRooted, DataKept, ParentSlots;
      LayerFacts();
      ghost var v := files.Files();
      var inum, directory;
      r, inum := GetINum(path, IFILE_INUM);
      if inum == INUM_NOT_FOUND {
        return Failed;
      }
      ResolvedInUse(v, tree, path);
      DirReadable(v, IFILE_INUM, inum);
      r, directory := ReadDirectory(inum);
      if directory == null {
        return Failed;
      }
      var empty := directory.IsEmpty();
      if !empty {
        return Failed;
      }
      EmptySafe(v, tree, path, inum);
      EmptyStays(v, tree, path, inum);
      r := Unlink(path);
      if r == Done {
        DirKeeps(v, files.Files(), inum);
      }
    }

    /** The second half of Directory_Rename: an entry for inum under a fresh name, if there is a directory to take it. */
    method EnterAt(to: seq<byte>, inum: word) returns (r: Outcome, missing: bool)
      requires Named(IFILE_INUM) && CountedBut(files.Files(), tree, inum) && (inum == IFILE_INUM || InUse(files.Files(), inum))
      requires 0 !in to && Enterable(files.blockSizeInBytes, files.Files(), to)
      modifies files.log.Repr, this`tree
      ensures missing <==> NoParent(old(files.Files()), to) || IsDot(LastElement(to))
      ensures missing ==> r == Failed && Named(IFILE_INUM) && files.Files() == old(files.Files()) && tree == old(tree)
      ensures r == Done ==> Named(IFILE_INUM) && CountedBut(files.Files(), tree, inum) && SameInodes(old(files.Files()), files.Files())
      ensures r == Done ==> EntryMade(old(files.Files()), old(tree), to, inum, tree)
      ensures r == Done ==> |LinksTo(tree, inum)| == |LinksTo(old(tree), inum)| + 1
      ensures r == Done ==> DataKept(old(files.Files()), files.Files(), IFILE_INUM)
      ensures Ends(r, missing || |LastElement(to)| >= MAX_FILE_NAME_LENGTH,
                   ParentSlots(files.blockSizeInBytes, old(files.Files()), to, 1),
                   old(files.log.Stock()), files.log.Stock(), files.log.Jammed())
    {
      hide FileLayer.Valid, FileLayer.Files, DecodeDir, Shown, TargetsOk, DirsOk, CountsOk, Resolve, AllFit, DirAt,
           Find, LinksTo, WholeDir;
      hide CountedBut, SameInodes, NoNewEntries, IsDot, DirFits, DataKept, Gained, ParentSlots, DirSlots;
      LayerFacts();
      ghost var v := files.Files();
      var toDirectory;
      r, toDirectory := ReadParent(to);
      missing := r != Done || IsDot(LastElement(to));
      if missing {
        return Failed, true;
      }
      ghost var p := toDirectory.self.inum;
      SlotsAt(files.blockSizeInBytes, v, to, p, 1);
      r := Enter(toDirectory, LastElement(to), inum, IFILE_INUM);
      if r == Done {
        GainedKeeps(files.blockSizeInBytes, v, p, DirEntry(LastElement(to), inum), files.Files());
      }
    }

    /**
     * Directory_Rename onto a fresh name: the entry is taken out first and put in afterwards. The entry is `lost` exactly if
     * the target's name is a dot, its directory path leads to no directory, or that path is walked through the entry itself.
     */
    method Rename(from: seq<byte>, to: seq<byte>) returns (r: Outcome, ghost lost: bool)
      requires Valid() && 0 !in from && 0 !in to && Splits(from) && Enterable(files.blockSizeInBytes, files.Files(), to)
      modifies files.log.Repr, this`tree
      ensures NoParent(old(files.Files()), from) || IsDot(LastElement(from)) ==>
                r == Failed && !lost && Valid() && files.Files() == old(files.Files()) && tree == old(tree)
      ensures r == Done || lost ==> EntryKey(old(files.Files()), from) in old(tree)
      ensures r == Done ==> Valid() && tree == (old(tree) - {EntryKey(old(files.Files()), from)})
                                                 [EntryKey(old(files.Files()), to) := old(tree)[EntryKey(old(files.Files()), from)]]
      ensures lost ==> r == Failed && Named(IFILE_INUM) && tree == old(tree) - {EntryKey(old(files.Files()), from)}
      ensures lost ==> (Valid() <==> old(tree)[EntryKey(old(files.Files()), from)] == IFILE_INUM)
      ensures r == Done || lost ==> DataKept(old(files.Files()), files.Files(), IFILE_INUM)
                                    && SameInodes(old(files.Files()), files.Files())
      ensures lost ==> RenameLoses(old(files.Files()), from, to)
      ensures r == Done ==> !RenameLoses(old(files.Files()), from, to)
      ensures EntryKey(old(files.Files()), from) in old(tree) && RenameLoses(old(files.Files()), from, to) && !lost ==>
                Ends(r, false, ParentSlots(files.blockSizeInBytes, old(files.Files()), from, 0),
                     old(files.log.Stock()), files.log.Stock(), files.log.Jammed())
      ensures r == Done && Rooted(old(tree)) ==> Rooted(tree)
      ensures Ends(r, Resolve(old(files.Files()), from) == Missing || IsDot(LastElement(from)) || lost || |LastElement(to)| >= MAX_FILE_NAME_LENGTH,
                   ParentSlots(files.blockSizeInBytes, old(files.Files()), from, 0) + ParentSlots(files.blockSizeInBytes, old(files.Files()), to, 1),
                   old(files.log.Stock()), files.log.Stock(), files.log.Jammed())
    {
      hide FileLayer.Valid, FileLayer.Files, DecodeDir, Shown, TargetsOk, DirsOk, CountsOk, Resolve, AllFit, DirAt,
           Find, LinksTo, WholeDir;
      hide CountedBut, SameInodes, NoNewEntries, IsDot, DirFits, EntryLess, Rooted, PathUses, DataKept, Lost, ParentSlots, DirSlots;
      LayerFacts();
      lost := false;
      ghost var bs, v, t, k := files.blockSizeInBytes, files.Files(), tree, EntryKey(files.Files(), from);
      var fromINum, fromDirectory;
      r, fromINum := GetINum(from, IFILE_INUM);
      if fromINum != INUM_NOT_FOUND {
        FoundParent(v, from);
      }
      r, fromDirectory := ReadParent(from);
      if r != Done || IsDot(LastElement(from)) {
        NoEntry(v, t, from);
        return Failed, false;
      }
      EntryResolves(v, t, from, fromDirectory.self.inum);
      SlotsAt(bs, v, from, fromDirectory.self.inum, 0);
      r := Leave(fromDirectory, LastElement(from));
      if r != Done {
        return;
      }
      LayerFacts();
      ghost var v1 := files.Files();
      NewCount(v, t, v1, t - {k}, fromINum, -1);
      StillEnterable(bs, v, v1, k.dir, to);
      FewerSlots(bs, v, v1, k.dir, to, 1);
      TargetInUse(v, v1, t, k);
      LostEntry(v1, t - {k}, fromINum);
      LostKeeps(bs, v, k.dir, k.name, v1);
      ResolveFewer(v, v1, DirectoryPath(to));
      NoParentWithout(v, v1, k, to);
      r, lost := EnterAt(to, fromINum);
      if r == Done {
        LayerFacts();
        SameChain(v, v1, files.Files());
        KeptChain(v, v1, files.Files(), IFILE_INUM);
        NewCount(v, t, files.Files(), tree, fromINum, 0);
        CountedAll(files.Files(), tree, fromINum);
        if Rooted(t) {
          RenamedRooted(t, k, v1, to, tree);
        }
      }
    }
  }

  /** What a new inode and its entry make of the names. */
  lemma FileMade(bs: nat, v: seq<FileView>, t: Tree, path: seq<byte>, p: word, i: word, fileType: FileType,
                 v1: seq<FileView>, v2: seq<FileView>, t2: Tree)
    requires DirsOk(v, IFILE_INUM) && Shown(v, t) && Resolve(v, DirectoryPath(path)) == Found(p) && IsDir(v, p)
    requires InodeMade(v, v1, i, fileType) && InUse(v1, i) && v1[i - 1] == NewFile(fileType) && i != ROOT_INUM
    requires forall j: word :: DirAt(v1, j) == DirAt(v, j)
    requires Gained(bs, v1, p, DirEntry(LastElement(path), i), v2)
    requires Key(p, LastElement(path)) !in t && t2 == t[Key(p, LastElement(path)) := i]
    requires NoNewEntries(v2, v1) && Shown(v2, t2) && CountedBut(v2, t2, i) && |LinksTo(t2, i)| == 1
    ensures EntryMade(v, t, path, i, t2) && NameWritten(bs, v, path, i, v1, v2)
    ensures |v2| <= |v| + 1 && InUse(v2, i) && v2[i - 1] == NewFile(fileType) && CountsOk(v2, t2)
    ensures DataKept(v, v2, IFILE_INUM) && (Rooted(t) ==> Rooted(t2))
    ensures Splits(path) ==> Resolve(v2, path) == Found(i)
  {
    hide Find, Shown, DirsOk, CountedBut, LinksTo, Resolve, CountsOk, DirAt, Rooted, DataKept, NoNewEntries, EntryMade, NameWritten, Gained,
         Splits, LastElement, DirectoryPath;
    FreshInum(v, v1, p, i, fileType);
    MadeKeeps(v, v1, i, fileType);
    MadeSize(v, v1, i, fileType);
    hide InodeMade, InUse;
    GainedKeeps(bs, v1, p, DirEntry(LastElement(path), i), v2);
    KeptChain(v, v1, v2, IFILE_INUM);
    EntryElsewhere(bs, v1, p, DirEntry(LastElement(path), i), v2, i);
    SameView(v1, v2, i);
    CountedOnce(v2, t2, i);
    NameEntered(bs, v, t, path, p, i, v1, v2);
    MadeRooted(v, t, path, i, t2);
    ResolveSame(v, v1, DirectoryPath(path));
    if Splits(path) {
      ResolveFewer(v2, v1, DirectoryPath(path));
      MadeResolves(v2, t2, path, p, i);
    }
  }

  lemma FreshInum(v: seq<FileView>, v1: seq<FileView>, p: word, i: word, fileType: FileType)
    requires InodeMade(v, v1, i, fileType) && IsDir(v, p)
    ensures p != i
  {
  }

  lemma SameView(v: seq<FileView>, v': seq<FileView>, i: word)
    requires InUse(v, i) && |v'| == |v| && v'[i - 1] == v[i - 1]
    ensures InUse(v', i)
  {
  }

  lemma FreshIs(name: seq<byte>, i: word)
    ensures Fresh(name, i) == Dir(DirEntry(name, i), [DirEntry(DOT, i), DirEntry(DOTDOT, i)])
  {
  }

  /** Dropping the link after its entry is gone. */
  lemma DroppedKeeps(v: seq<FileView>, v1: seq<FileView>, i: word, v2: seq<FileView>)
    requires DataKept(v, v1, IFILE_INUM) && (i == IFILE_INUM || InUse(v1, i))
    requires v2 == if i == IFILE_INUM then v1 else AfterUnlink(v1, i)
    ensures DataKept(v, v2, if InUse(v2, i) then IFILE_INUM else i)
  {
    hide AfterUnlink, DataKept;
    if i != IFILE_INUM {
      UnlinkKeeps(v1, i);
      KeptChain(v, v1, v2, if InUse(v2, i) then IFILE_INUM else i);
    }
  }

  lemma InRange(v: seq<FileView>, i: word)
    requires i == IFILE_INUM || InUse(v, i)
    ensures i <= |v|
  {
  }

  lemma FreeInum(v: seq<FileView>, i: word)
    requires 1 <= i && (i <= |v| ==> !v[i - 1].inUse)
    ensures !InUse(v, i)
  {
  }

  lemma RoomAt(bs: nat, v: seq<FileView>, p: word, n: nat)
    requires AllFit(bs, v) && n <= |DirAt(v, p)|
    ensures DirFits(bs, n)
  {
    FewerFit(bs, |DirAt(v, p)|, n);
  }
}
