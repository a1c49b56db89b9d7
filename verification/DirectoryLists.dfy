/** Directories as lists of names, in memory and as the bytes of a directory file. */
module DirectoryLists {
  import opened Words
  import opened Segments
  import opened LogLayer

  const MAX_FILE_NAME_LENGTH: nat := 255
  /** sizeof(DirectoryEntry) and sizeof(DirectoryList): the list's last field is a host pointer that is not read back. */
  const ENTRY_BYTES: nat := 260
  const HEADER_BYTES: nat := 272

  const DOT: seq<byte> := [0x2E]
  const DOTDOT: seq<byte> := [0x2E, 0x2E]

  datatype DirEntry = DirEntry(name: seq<byte>, inum: word)

  datatype DirValue = Dir(self: DirEntry, entries: seq<DirEntry>)

  datatype Lookup = Missing | Found(inum: word)

  predicate IsDot(name: seq<byte>) {
    name == DOT || name == DOTDOT
  }

  /** Fits a char[255] with its terminator. */
  predicate NameOk(name: seq<byte>) {
    |name| < MAX_FILE_NAME_LENGTH && 0 !in name
  }

  predicate NamesOk(d: DirValue) {
    |d.entries| < 0x1_0000_0000 && NameOk(d.self.name) && forall k :: 0 <= k < |d.entries| ==> NameOk(d.entries[k].name)
  }

  // ---- The file format -------------------------------------------------------------------------

  function CString(bytes: seq<byte>): (s: seq<byte>)
    ensures |s| <= |bytes| && 0 !in s
  {
    if bytes == [] || bytes[0] == 0 then [] else [bytes[0]] + CString(bytes[1..])
  }

  lemma {:induction false} CStringPadded(name: seq<byte>, pad: seq<byte>)
    requires 0 !in name && pad != [] && pad[0] == 0
    ensures CString(name + pad) == name
  {
    if name == [] {
      assert name + pad == pad;
    } else {
      assert (name + pad)[1..] == name[1..] + pad;
      CStringPadded(name[1..], pad);
    }
  }

  function EncodeEntry(e: DirEntry): (bytes: seq<byte>)
    requires NameOk(e.name)
    ensures |bytes| == ENTRY_BYTES
  {
    e.name + Zeros(MAX_FILE_NAME_LENGTH + 1 - |e.name|) + EncodeWords([e.inum])
  }

  function DecodeEntry(bytes: seq<byte>): (e: DirEntry)
    requires |bytes| == ENTRY_BYTES
    ensures |e.name| <= MAX_FILE_NAME_LENGTH && 0 !in e.name
  {
    DirEntry(CString(bytes[..MAX_FILE_NAME_LENGTH]), DecodeWords(bytes[MAX_FILE_NAME_LENGTH + 1..])[0])
  }

  lemma EntryRoundTrip(e: DirEntry)
    requires NameOk(e.name)
    ensures DecodeEntry(EncodeEntry(e)) == e
  {
    hide EncodeWords, DecodeWords, CString;
    var bytes, zeros := EncodeEntry(e), Zeros(MAX_FILE_NAME_LENGTH - |e.name|);
    assert bytes[..MAX_FILE_NAME_LENGTH] == e.name + zeros;
    CStringPadded(e.name, zeros);
    assert bytes[MAX_FILE_NAME_LENGTH + 1..] == EncodeWords([e.inum]);
    DecodeEncodeExact([e.inum]);
  }

  function EncodeEntries(es: seq<DirEntry>): (bytes: seq<byte>)
    requires forall k :: 0 <= k < |es| ==> NameOk(es[k].name)
    ensures |bytes| == ENTRY_BYTES * |es|
  {
    if es == [] then [] else EncodeEntries(es[..|es| - 1]) + EncodeEntry(es[|es| - 1])
  }

  function EntryAt(bytes: seq<byte>, k: nat): DirEntry
    requires ENTRY_BYTES * (k + 1) <= |bytes|
  {
    DecodeEntry(bytes[ENTRY_BYTES * k..ENTRY_BYTES * (k + 1)])
  }

  lemma {:induction false} EntriesRoundTrip(es: seq<DirEntry>, rest: seq<byte>, k: nat)
    requires forall j :: 0 <= j < |es| ==> NameOk(es[j].name)
    requires k < |es|
    ensures EntryAt(EncodeEntries(es) + rest, k) == es[k]
  {
    hide EncodeEntry, DecodeEntry;
    var before, last := es[..|es| - 1], EncodeEntry(es[|es| - 1]);
    assert EncodeEntries(es) + rest == EncodeEntries(before) + (last + rest);
    if k < |es| - 1 {
      EntriesRoundTrip(before, last + rest, k);
    } else {
      assert (EncodeEntries(before) + (last + rest))[ENTRY_BYTES * k..ENTRY_BYTES * (k + 1)] == last;
      EntryRoundTrip(es[k]);
    }
  }

  /** The buffer WriteDirectory hands to File_Write. */
  function EncodeDir(d: DirValue): (bytes: seq<byte>)
    requires NamesOk(d)
    ensures |bytes| == HEADER_BYTES + ENTRY_BYTES * |d.entries|
  {
    EncodeEntry(d.self) + EncodeWords([|d.entries|]) + Zeros(8) + EncodeEntries(d.entries)
  }

  function CountIn(c: seq<byte>): word
    requires |c| >= HEADER_BYTES
  {
    DecodeWords(c[ENTRY_BYTES..ENTRY_BYTES + 4])[0]
  }

  /** Long enough for the header and for as many entries as it announces. */
  predicate WholeDir(c: seq<byte>) {
    |c| >= HEADER_BYTES && |c| >= HEADER_BYTES + ENTRY_BYTES * CountIn(c)
  }

  /** What ReadDirectory makes of a directory file. */
  function DecodeDir(c: seq<byte>): (d: DirValue)
    requires WholeDir(c)
    ensures |d.entries| == CountIn(c)
  {
    Dir(DecodeEntry(c[..ENTRY_BYTES]),
        seq(CountIn(c), k requires 0 <= k < CountIn(c) => EntryAt(c[HEADER_BYTES..], k)))
  }

  /** Reading a directory back gives the list that was written, whatever an older, longer list left behind it. */
  lemma DirRoundTrip(d: DirValue, rest: seq<byte>)
    requires NamesOk(d)
    ensures WholeDir(EncodeDir(d) + rest) && DecodeDir(EncodeDir(d) + rest) == d
  {
    hide EncodeEntry, DecodeEntry, EncodeEntries, EncodeWords, DecodeWords, EntryAt;
    var c := EncodeDir(d) + rest;
    assert c[..ENTRY_BYTES] == EncodeEntry(d.self);
    EntryRoundTrip(d.self);
    assert c[ENTRY_BYTES..ENTRY_BYTES + 4] == EncodeWords([|d.entries|]);
    DecodeEncodeExact([|d.entries|]);
    assert c[HEADER_BYTES..] == EncodeEntries(d.entries) + rest;
    forall k | 0 <= k < |d.entries|
      ensures EntryAt(c[HEADER_BYTES..], k) == d.entries[k]
    {
      EntriesRoundTrip(d.entries, rest, k);
    }
  }

  /** ReadDirectory's two reads: the header, then as many entries as it announces. */
  function FromPieces(header: seq<byte>, body: seq<byte>): DirValue
    requires |header| == HEADER_BYTES && |body| == ENTRY_BYTES * CountIn(header)
  {
    Dir(DecodeEntry(header[..ENTRY_BYTES]), seq(CountIn(header), k requires 0 <= k < CountIn(header) => EntryAt(body, k)))
  }

  lemma PiecesDecode(c: seq<byte>)
    requires WholeDir(c)
    ensures CountIn(c[..HEADER_BYTES]) == CountIn(c)
    ensures FromPieces(c[..HEADER_BYTES], c[HEADER_BYTES..HEADER_BYTES + ENTRY_BYTES * CountIn(c)]) == DecodeDir(c)
  {
    hide DecodeEntry, DecodeWords;
    var n := CountIn(c);
    assert c[..HEADER_BYTES][ENTRY_BYTES..ENTRY_BYTES + 4] == c[ENTRY_BYTES..ENTRY_BYTES + 4];
    assert c[..HEADER_BYTES][..ENTRY_BYTES] == c[..ENTRY_BYTES];
    var body := c[HEADER_BYTES..HEADER_BYTES + ENTRY_BYTES * n];
    forall k: nat | k < n
      ensures EntryAt(body, k) == EntryAt(c[HEADER_BYTES..], k)
    {
      var lo, hi := ENTRY_BYTES * k, ENTRY_BYTES * (k + 1);
      SliceOfSlice(c, HEADER_BYTES, HEADER_BYTES + ENTRY_BYTES * n, lo, hi);
      SliceOfSlice(c, HEADER_BYTES, |c|, lo, hi);
      assert c[HEADER_BYTES..] == c[HEADER_BYTES..|c|];
    }
  }

  // ---- Names -----------------------------------------------------------------------------------

  /** First entry of that name, or the length. */
  function Position(es: seq<DirEntry>, name: seq<byte>): (k: nat)
    ensures k <= |es| && (k < |es| ==> es[k].name == name)
    ensures forall j :: 0 <= j < k ==> es[j].name != name
  {
    if es == [] || es[0].name == name then 0 else 1 + Position(es[1..], name)
  }

  function Find(es: seq<DirEntry>, name: seq<byte>): Lookup {
    var k := Position(es, name);
    if k < |es| then Found(es[k].inum) else Missing
  }

  predicate Distinct(es: seq<DirEntry>) {
    forall j, k :: 0 <= j < k < |es| ==> es[j].name != es[k].name
  }

  lemma PositionIs(es: seq<DirEntry>, name: seq<byte>, k: nat)
    requires k <= |es| && (k < |es| ==> es[k].name == name) && forall j :: 0 <= j < k ==> es[j].name != name
    ensures Position(es, name) == k
  {
  }

  /** AddFile on a fresh name is an insertion into the map from names to inums. */
  lemma FindAdded(es: seq<DirEntry>, e: DirEntry, m: seq<byte>)
    requires Find(es, e.name) == Missing
    ensures Find(es + [e], m) == if m == e.name then Found(e.inum) else Find(es, m)
    ensures Distinct(es) ==> Distinct(es + [e])
  {
    var k := Position(es, m);
    if k < |es| {
      PositionIs(es + [e], m, k);
    } else {
      PositionIs(es + [e], m, if m == e.name then |es| else |es| + 1);
    }
    assert forall j :: 0 <= j < |es| ==> (es + [e])[j] == es[j];
    assert forall j :: 0 <= j < |es| ==> es[j].name != e.name;
  }

  /** The entries RemoveFile copies. */
  function Others(es: seq<DirEntry>, name: seq<byte>): (kept: seq<DirEntry>)
    ensures |kept| <= |es|
    ensures Find(es, name) == Missing ==> kept == es
    ensures Find(es, name) != Missing ==> |kept| < |es|
  {
    if es == [] then []
    else
      var kept := Others(es[..|es| - 1], name);
      assert Find(es, name) == Missing ==> Find(es[..|es| - 1], name) == Missing && es[|es| - 1].name != name by {
        if Find(es, name) == Missing {
          PositionIs(es[..|es| - 1], name, |es| - 1);
        }
      }
      assert Find(es, name) != Missing && es[|es| - 1].name != name ==> Find(es[..|es| - 1], name) != Missing by {
        if Find(es, name) != Missing && es[|es| - 1].name != name {
          PositionIs(es[..|es| - 1], name, Position(es, name));
        }
      }
      if es[|es| - 1].name == name then kept else kept + [es[|es| - 1]]
  }

  lemma OthersOfNone(name: seq<byte>)
    ensures Others([], name) == []
  {
  }

  /** One round of RemoveFile's loop. */
  lemma OthersStep(es: seq<DirEntry>, i: nat, name: seq<byte>)
    requires i < |es|
    ensures Others(es[..i + 1], name) == if es[i].name == name then Others(es[..i], name) else Others(es[..i], name) + [es[i]]
  {
    assert es[..i + 1][..i] == es[..i] && es[..i + 1][i] == es[i];
  }

  /** RemoveFile's new array: one entry shorter, the remaining entries first, zeroed entries for further copies of the name. */
  function Removed(es: seq<DirEntry>, name: seq<byte>): (left: seq<DirEntry>)
    requires Find(es, name) != Missing
    ensures |left| == |es| - 1
  {
    var kept := Others(es, name);
    kept + seq(|es| - 1 - |kept|, _ => DirEntry([], 0))
  }

  lemma {:induction false} OthersDistinct(es: seq<DirEntry>, name: seq<byte>, k: nat)
    requires Distinct(es) && k < |es| && es[k].name == name
    ensures Others(es, name) == es[..k] + es[k + 1..]
  {
    hide Find;
    var before, last := es[..|es| - 1], es[|es| - 1];
    if k == |es| - 1 {
      OthersAll(before, name);
      assert es[k + 1..] == [];
    } else {
      OthersDistinct(before, name, k);
      assert last.name != name;
      Rejoined(es, k);
    }
  }

  lemma Rejoined<T>(es: seq<T>, k: nat)
    requires k < |es| - 1
    ensures es[..k] + es[k + 1..] == (es[..|es| - 1][..k] + es[..|es| - 1][k + 1..]) + [es[|es| - 1]]
  {
  }

  lemma OthersAll(es: seq<DirEntry>, name: seq<byte>)
    requires forall j :: 0 <= j < |es| ==> es[j].name != name
    ensures Others(es, name) == es
  {
  }

  /** Looking a name up in a list that lost entry k. */
  lemma FindCut(es: seq<DirEntry>, k: nat, m: seq<byte>)
    requires Distinct(es) && k < |es|
    ensures var left := es[..k] + es[k + 1..];
            && Distinct(left) && (forall e :: e in left ==> e in es)
            && Find(left, m) == if m == es[k].name then Missing else Find(es, m)
  {
    hide Position;
    var left := es[..k] + es[k + 1..];
    assert forall j :: 0 <= j < |left| ==> left[j] == es[if j < k then j else j + 1];
    var p := Position(es, m);
    PositionIs(left, m, if m == es[k].name then |left| else if p < k then p else p - 1);
  }

  /** RemoveFile on a list without duplicates is a removal from the map from names to inums. */
  lemma FindRemoved(es: seq<DirEntry>, name: seq<byte>, m: seq<byte>)
    requires Distinct(es) && Find(es, name) != Missing
    ensures Distinct(Removed(es, name))
    ensures Find(Removed(es, name), m) == if m == name then Missing else Find(es, m)
    ensures forall e :: e in Removed(es, name) ==> e in es
  {
    hide Position, Others, Distinct;
    var k := Position(es, name);
    OthersDistinct(es, name, k);
    assert Removed(es, name) == es[..k] + es[k + 1..];
    FindCut(es, k, m);
  }

  // ---- The list itself -------------------------------------------------------------------------

  class DirectoryList {
    var self: DirEntry
    var entries: seq<DirEntry>

    ghost function Value(): DirValue
      reads this
    {
      Dir(self, entries)
    }

    /** A new directory: both dot entries name the directory itself. */
    constructor (name: seq<byte>, inum: word)
      requires NameOk(name)
      ensures Value() == Dir(DirEntry(name, inum), [DirEntry(DOT, inum), DirEntry(DOTDOT, inum)])
    {
      self := DirEntry(name, inum);
      entries := [DirEntry(DOT, inum), DirEntry(DOTDOT, inum)];
    }

    /** A list filled from a directory file. */
    constructor Load(d: DirValue)
      ensures Value() == d
    {
      self := d.self;
      entries := d.entries;
    }

    /** No check for duplicates; a name that does not fit its field runs over it. */
    method AddFile(fileName: seq<byte>, inum: word) returns (r: Outcome)
      modifies this
      ensures r == Done <==> |fileName| < MAX_FILE_NAME_LENGTH
      ensures r == Done ==> Value() == old(Value()).(entries := old(entries) + [DirEntry(fileName, inum)])
    {
      if |fileName| >= MAX_FILE_NAME_LENGTH {
        return Thrown;
      }
      entries := entries + [DirEntry(fileName, inum)];
      return Done;
    }

    /** The dot entries stay; a name that is not there makes the copy run over the shorter array. */
    method RemoveFile(fileName: seq<byte>) returns (r: Outcome)
      modifies this
      ensures r == Failed <==> IsDot(fileName)
      ensures r == Done <==> !IsDot(fileName) && Find(old(entries), fileName) != Missing
      ensures r == Done ==> Value() == old(Value()).(entries := Removed(old(entries), fileName))
      ensures r != Done ==> Value() == old(Value())
    {
      hide Position, Others;
      if IsDot(fileName) {
        return Failed;
      }
      OthersOfNone(fileName);
      var found := false;
      var newEntries := [];
      var i := 0;
      assert entries[..0] == [];
      while i < |entries|
        invariant i <= |entries| && Value() == old(Value())
        invariant newEntries == Others(entries[..i], fileName)
        invariant found <==> Position(entries, fileName) < i
      {
        OthersStep(entries, i, fileName);
        if entries[i].name == fileName {
          found := true;
        } else {
          newEntries := newEntries + [entries[i]];
        }
        i := i + 1;
      }
      assert entries[..i] == entries;
      if !found {
        return Thrown;
      }
      entries := newEntries + seq(|entries| - 1 - |newEntries|, _ => DirEntry([], 0));
      return Done;
    }

    method ContainsFile(fileName: seq<byte>) returns (found: bool)
      ensures found <==> Find(entries, fileName) != Missing
    {
      var i := 0;
      while i < |entries|
        invariant i <= |entries| && forall j :: 0 <= j < i ==> entries[j].name != fileName
      {
        if entries[i].name == fileName {
          PositionIs(entries, fileName, i);
          return true;
        }
        i := i + 1;
      }
      PositionIs(entries, fileName, i);
      return false;
    }

    method GetINum(fileName: seq<byte>) returns (inum: word)
      ensures inum == match Find(entries, fileName) case Found(i) => i case Missing => UINT_MAX
    {
      var i := 0;
      while i < |entries|
        invariant i <= |entries| && forall j :: 0 <= j < i ==> entries[j].name != fileName
      {
        if entries[i].name == fileName {
          PositionIs(entries, fileName, i);
          return entries[i].inum;
        }
        i := i + 1;
      }
      PositionIs(entries, fileName, i);
      return UINT_MAX;
    }

    method IsEmpty() returns (empty: bool)
      ensures empty <==> |entries| == 2 && Find(entries, DOT) != Missing && Find(entries, DOTDOT) != Missing
    {
      if |entries| != 2 {
        return false;
      }
      var dot := ContainsFile(DOT);
      var dotdot := ContainsFile(DOTDOT);
      return dot && dotdot;
    }
  }
}
