/** `path_ext`, the file-extension helper of the image loader.  A C string
    is modelled by the characters before its terminating NUL; reading the
    index just past them yields the NUL. */
module Image {

  /** The character the source reads at index `i` of the C string `path`:
      the NUL terminator at `|path|`. */
  function CharAt(path: seq<char>, i: nat): (c: char)
    requires i <= |path|
    ensures i == |path| ==> c == 0 as char
    ensures i < |path| ==> c == path[i]
  {
    if i < |path| then path[i] else 0 as char
  }

  /** Where the extension starts when only indices in [1, n) are looked
      at: the last `'.'` there, or 0 when there is none.  Index 0 is never
      a candidate. */
  function DotBelow(path: seq<char>, n: nat): (k: nat)
    requires n <= |path|
    ensures k == 0 || 1 <= k < n
    ensures k > 0 ==> path[k] == '.'
    ensures forall j :: k < j < n && 1 <= j ==> path[j] != '.'
    decreases n
  {
    if n <= 1 then 0
    else if path[n - 1] == '.' then n - 1
    else DotBelow(path, n - 1)
  }

  /** Where `path_ext`'s result starts: the last `'.'` at an index of at
      least 1, or 0 when there is none. */
  function ExtStart(path: seq<char>): (k: nat)
    ensures k == 0 || 1 <= k < |path|
    ensures k > 0 ==> path[k] == '.'
    ensures forall j :: k < j < |path| && 1 <= j ==> path[j] != '.'
  {
    DotBelow(path, |path|)
  }

  /** The extension `path_ext` returns: the path from its last dot on (the
      dot included), or the whole path when no dot follows the first
      character. */
  function Ext(path: seq<char>): (ext: seq<char>)
    ensures |ext| <= |path| && ext == path[|path| - |ext|..]
  {
    path[ExtStart(path)..]
  }

  /** `path_ext`: scan back from the terminator for a `'.'` at an index of
      at least 1, counting the characters passed in `size`; then copy the
      `size` characters starting at the stopping index. */
  method PathExt(path: seq<char>) returns (ext: seq<char>)
    requires forall j :: 0 <= j < |path| ==> path[j] != 0 as char
    ensures ext == Ext(path)
  {
    var len := |path|;
    var size := 0;
    var i := len - size;
    while i > 0
      invariant 0 <= size <= len && i == len - size
      invariant forall j :: i < j < len ==> path[j] != '.'
      decreases i
    {
      var c := CharAt(path, i);
      if c == '.' {
        break;
      }
      size := size + 1;
      i := len - size;
    }
    ext := path[i..i + size];
  }

  /** A dot at index j >= 1 with no dot after it starts the extension. */
  lemma ExtLastDot(path: seq<char>, j: int)
    requires 1 <= j < |path| && path[j] == '.'
    requires forall l :: j < l < |path| ==> path[l] != '.'
    ensures Ext(path) == path[j..]
  {
  }

  /** When some character after the first is a dot, the extension starts
      with a dot and is shorter than the path, so it never equals a bare
      suffix such as "ppm". */
  lemma ExtKeepsDot(path: seq<char>, j: int)
    requires 1 <= j < |path| && path[j] == '.'
    ensures 0 < |Ext(path)| < |path| && Ext(path)[0] == '.'
  {
  }

  /** With no dot after the first character, the whole path comes back. */
  lemma ExtWhole(path: seq<char>)
    requires forall j :: 1 <= j < |path| ==> path[j] != '.'
    ensures Ext(path) == path
  {
    assert ExtStart(path) == 0;
  }

  /** The extension holds no dot after its first character. */
  lemma ExtNoLaterDot(path: seq<char>)
    ensures forall j :: 1 <= j < |Ext(path)| ==> Ext(path)[j] != '.'
  {
    var k := ExtStart(path);
    forall j | 1 <= j < |Ext(path)|
      ensures Ext(path)[j] != '.'
    {
      assert Ext(path)[j] == path[k + j];
    }
  }

  /** Taking the extension of an extension changes nothing. */
  lemma ExtIdempotent(path: seq<char>)
    ensures Ext(Ext(path)) == Ext(path)
  {
    ExtNoLaterDot(path);
    ExtWhole(Ext(path));
  }

  /** "a.ppm" gives ".ppm". */
  lemma ExtOfName()
    ensures Ext("a.ppm") == ".ppm"
  {
    ExtLastDot("a.ppm", 1);
  }

  /** ".ppm", whose only dot is at index 0, comes back whole. */
  lemma ExtOfLeadingDot()
    ensures Ext(".ppm") == ".ppm"
  {
    ExtWhole(".ppm");
  }

  /** A path without a dot comes back whole. */
  lemma ExtOfNoDot()
    ensures Ext("image") == "image"
  {
    ExtWhole("image");
  }

  /** Only the last of several dots counts. */
  lemma ExtOfTwoDots()
    ensures Ext("a.tar.gz") == ".gz"
  {
    ExtLastDot("a.tar.gz", 5);
  }

  /** A dot in a directory name counts like any other. */
  lemma ExtOfDirectoryDot()
    ensures Ext("dir.d/file") == ".d/file"
  {
    ExtLastDot("dir.d/file", 3);
  }

  /** The empty path gives the empty result. */
  lemma ExtOfEmpty()
    ensures Ext("") == ""
  {
  }
}
