/** Path strings: the strtok scan that resolves a path, and the find_last_of split that names a parent and a last element. */
module Paths {
  import opened Words

  const SLASH: byte := 0x2F

  // ---- find_last_of ----------------------------------------------------------------------------

  /** Position of the last '/', or -1 for npos. */
  function FindLast(path: seq<byte>): (f: int)
    ensures -1 <= f < |path| && (f >= 0 ==> path[f] == SLASH)
    ensures forall k :: f < k < |path| ==> path[k] != SLASH
  {
    if path == [] then -1
    else if path[|path| - 1] == SLASH then |path| - 1
    else FindLast(path[..|path| - 1])
  }

  /** GetLastPathElement: npos + 1 wraps to 0. */
  function LastElement(path: seq<byte>): seq<byte> {
    path[FindLast(path) + 1..]
  }

  /** GetDirectoryPath: substr(0, npos) is the whole string. */
  function DirectoryPath(path: seq<byte>): (dir: seq<byte>) {
    var f := FindLast(path);
    if f == -1 then path else path[..f]
  }

  /** The path has a '/' and does not end in one. */
  predicate Splits(path: seq<byte>) {
    0 <= FindLast(path) < |path| - 1
  }

  // ---- strtok (section 7.24.5.8 of ISO C11) ----------------------------------------------------

  function SkipSlashes(s: seq<byte>, i: nat): (j: nat)
    requires i <= |s|
    ensures i <= j <= |s| && (j < |s| ==> s[j] != SLASH)
    ensures forall k :: i <= k < j ==> s[k] == SLASH
    decreases |s| - i
  {
    if i < |s| && s[i] == SLASH then SkipSlashes(s, i + 1) else i
  }

  function TokenEnd(s: seq<byte>, i: nat): (e: nat)
    requires i <= |s|
    ensures i <= e <= |s| && (e < |s| ==> s[e] == SLASH)
    ensures forall k :: i <= k < e ==> s[k] != SLASH
    decreases |s| - i
  {
    if i < |s| && s[i] != SLASH then TokenEnd(s, i + 1) else i
  }

  /** Where the scan goes on: past the delimiter that strtok overwrote. */
  function AfterToken(s: seq<byte>, e: nat): (i: nat)
    requires e <= |s|
    ensures e <= i <= |s|
  {
    if e < |s| then e + 1 else e
  }

  /** The tokens from position i on. */
  function Tokens(s: seq<byte>, i: nat): (ts: seq<seq<byte>>)
    requires i <= |s|
    ensures forall t :: t in ts ==> t != [] && SLASH !in t
    decreases |s| - i
  {
    var j := SkipSlashes(s, i);
    if j == |s| then [] else
    var e := TokenEnd(s, j);
    assert e > j;
    [s[j..e]] + Tokens(s, AfterToken(s, e))
  }

  lemma TokensStep(s: seq<byte>, i: nat)
    requires i <= |s|
    ensures var j := SkipSlashes(s, i); var e := TokenEnd(s, j);
            Tokens(s, i) == if j == |s| then [] else [s[j..e]] + Tokens(s, AfterToken(s, e))
  {
  }

  lemma SkipUnique(s: seq<byte>, i: nat, j: nat)
    requires i <= j <= |s| && (j < |s| ==> s[j] != SLASH) && forall k :: i <= k < j ==> s[k] == SLASH
    ensures SkipSlashes(s, i) == j
  {
  }

  lemma EndUnique(s: seq<byte>, i: nat, e: nat)
    requires i <= e <= |s| && (e < |s| ==> s[e] == SLASH) && forall k :: i <= k < e ==> s[k] != SLASH
    ensures TokenEnd(s, i) == e
  {
  }

  /** Cut at its last '/', a path scans the same up to there. */
  lemma ScanInDirectory(s: seq<byte>, i: nat)
    requires Splits(s) && i <= FindLast(s) && SkipSlashes(s, i) <= FindLast(s)
    ensures var dir := s[..FindLast(s)]; var j := SkipSlashes(s, i); var e := TokenEnd(s, j);
            && j < e <= |dir| && SkipSlashes(dir, i) == j && TokenEnd(dir, j) == e && dir[j..e] == s[j..e]
            && AfterToken(dir, e) == if AfterToken(s, e) <= |dir| then AfterToken(s, e) else |dir|
  {
    hide FindLast, SkipSlashes, TokenEnd;
    var f, j := FindLast(s), SkipSlashes(s, i);
    var e := TokenEnd(s, j);
    assert j != f && j != e;
    assert e <= f;
    SkipUnique(s[..f], i, j);
    EndUnique(s[..f], j, e);
  }

  /** Only slashes before the last element. */
  lemma ScanLast(s: seq<byte>, i: nat)
    requires Splits(s) && i <= FindLast(s) + 1 && SkipSlashes(s, i) > FindLast(s)
    ensures var f := FindLast(s); var i' := if i <= f then i else f;
            SkipSlashes(s, i) == f + 1 && TokenEnd(s, f + 1) == |s| && SkipSlashes(s[..f], i') == f
  {
    hide FindLast, SkipSlashes, TokenEnd;
    var f, j := FindLast(s), SkipSlashes(s, i);
    assert s[f + 1] != SLASH;
    EndUnique(s, f + 1, |s|);
    SkipUnique(s[..f], if i <= f then i else f, f);
  }

  lemma {:induction false} TokensSplitFrom(s: seq<byte>, i: nat)
    requires Splits(s) && i <= FindLast(s) + 1
    ensures var f := FindLast(s); Tokens(s, i) == Tokens(s[..f], if i <= f then i else f) + [s[f + 1..]]
    decreases |s| - i
  {
    hide Tokens, FindLast, SkipSlashes, TokenEnd;
    var f := FindLast(s);
    var dir, i', j := s[..f], if i <= f then i else f, SkipSlashes(s, i);
    TokensStep(s, i);
    TokensStep(dir, i');
    if j > f {
      ScanLast(s, i);
      TokensStep(s, |s|);
      assert Tokens(s, |s|) == [] && Tokens(dir, i') == [];
      assert s[f + 1..|s|] == s[f + 1..];
    } else {
      ScanInDirectory(s, i);
      TokensSplitFrom(s, AfterToken(s, TokenEnd(s, j)));
    }
  }

  lemma TokensUnsplit(s: seq<byte>)
    requires !Splits(s)
    ensures Tokens(s, 0) != Tokens(DirectoryPath(s), 0) + [LastElement(s)]
  {
    hide Tokens, FindLast;
    var ts := Tokens(DirectoryPath(s), 0) + [LastElement(s)];
    if FindLast(s) == -1 {
      assert |ts| == |Tokens(s, 0)| + 1;
    } else {
      assert ts[|ts| - 1] == LastElement(s) == [];
      NoEmptyToken(s);
    }
  }

  lemma NoEmptyToken(s: seq<byte>)
    ensures [] !in Tokens(s, 0)
  {
  }

  /**
   * The tokens of a path are those of its directory path followed by its last element, for exactly the paths that contain
   * a '/' and do not end in one; repeated slashes do not matter.
   */
  lemma TokensSplit(s: seq<byte>)
    ensures Tokens(s, 0) == Tokens(DirectoryPath(s), 0) + [LastElement(s)] <==> Splits(s)
  {
    hide Tokens, FindLast;
    if Splits(s) {
      TokensSplitFrom(s, 0);
    } else {
      TokensUnsplit(s);
    }
  }

  /** What precedes a '/' is scanned into the same tokens, whatever follows it. */
  lemma {:induction false} TokensPrefix(s: seq<byte>, f: nat, i: nat)
    requires i <= f < |s| && s[f] == SLASH
    ensures Tokens(s[..f], i) <= Tokens(s, i)
    decreases f - i
  {
    hide Tokens, SkipSlashes, TokenEnd;
    var dir, j := s[..f], SkipSlashes(s, i);
    TokensStep(s, i);
    TokensStep(dir, i);
    if j >= f {
      SkipUnique(dir, i, f);
    } else {
      var e := TokenEnd(s, j);
      assert e <= f;
      SkipUnique(dir, i, j);
      EndUnique(dir, j, e);
      assert dir[j..e] == s[j..e];
      if e < f {
        TokensPrefix(s, f, e + 1);
      } else {
        TokensStep(dir, f);
      }
    }
  }

  /** A name put behind a directory path. */
  lemma Joined(dir: seq<byte>, name: seq<byte>)
    requires name != [] && SLASH !in name
    ensures var path := dir + [SLASH] + name; Splits(path) && DirectoryPath(path) == dir && LastElement(path) == name
  {
    var path := dir + [SLASH] + name;
    hide FindLast;
    forall k | |dir| < k < |path|
      ensures path[k] != SLASH
    {
      assert path[k] == name[k - |dir| - 1];
    }
    assert path[|dir|] == SLASH;
  }
}
