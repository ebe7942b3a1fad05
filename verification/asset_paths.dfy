/** The pure path and string helpers of the asset-generation script. The
    path separator, which the script picks from the host platform, is a
    parameter; file-system access and the texture packer are not modelled. */
module AssetPaths {
  import opened JsText

  // ---------------------------------------------------------------------------
  // ASCII case mapping
  // ---------------------------------------------------------------------------

  function ToUpperAscii(c: char): (u: char)
    ensures 'a' <= c <= 'z' ==> 'A' <= u <= 'Z' && u as int == c as int - 32
    ensures !('a' <= c <= 'z') ==> u == c
  {
    if 'a' <= c <= 'z' then (c as int - 32) as char else c
  }

  function ToLowerAscii(c: char): (l: char)
    ensures 'A' <= c <= 'Z' ==> 'a' <= l <= 'z' && l as int == c as int + 32
    ensures !('A' <= c <= 'Z') ==> l == c
  {
    if 'A' <= c <= 'Z' then (c as int + 32) as char else c
  }

  function Lower(s: string): (r: string)
    ensures |r| == |s|
    ensures forall i :: 0 <= i < |s| ==> r[i] == ToLowerAscii(s[i])
  {
    if |s| == 0 then "" else [ToLowerAscii(s[0])] + Lower(s[1..])
  }

  lemma LowerOfSuffix(s: string, i: nat)
    requires i <= |s|
    ensures Lower(s[i..]) == Lower(s)[i..]
  {
  }

  // ---------------------------------------------------------------------------
  // capitalize
  // ---------------------------------------------------------------------------

  /** `str.charAt(0).toUpperCase() + str.slice(1)`. */
  function Capitalize(s: string): (r: string)
    ensures |r| == |s|
    ensures |s| > 0 ==> r[0] == ToUpperAscii(s[0])
    ensures forall i :: 1 <= i < |s| ==> r[i] == s[i]
  {
    if |s| == 0 then "" else [ToUpperAscii(s[0])] + s[1..]
  }

  /** Capitalising an already capitalised string changes nothing. */
  lemma CapitalizeIdempotent(s: string)
    ensures Capitalize(Capitalize(s)) == Capitalize(s)
  {
  }

  // ---------------------------------------------------------------------------
  // file names and extensions
  // ---------------------------------------------------------------------------

  predicate EndsWith(s: string, suffix: string) {
    |suffix| <= |s| && s[|s| - |suffix|..] == suffix
  }

  /** `path.slice(path.lastIndexOf(SLASH) + 1, path.length)`: the text after
      the last separator, or the whole path when it has none. */
  function FileNameWithExtension(path: string, slash: char): (r: string)
    ensures slash !in r
    ensures EndsWith(path, r)
    ensures slash in path ==> |r| < |path| && path[|path| - |r| - 1] == slash
    ensures slash !in path ==> r == path
  {
    var from := LastIndexOf(path, slash) + 1;
    var r := Slice(path, from, |path|);
    assert from < |path| ==> r == path[from..];
    r
  }

  /** `path.slice(path.lastIndexOf('.') + 1, path.length)`: the text after the
      last dot, or the whole path when it has none. */
  function FileExtensionFromPath(path: string): (r: string)
    ensures '.' !in r
    ensures EndsWith(path, r)
    ensures '.' in path ==> |r| < |path| && path[|path| - |r| - 1] == '.'
    ensures '.' !in path ==> r == path
  {
    var from := LastIndexOf(path, '.') + 1;
    var r := Slice(path, from, |path|);
    assert from < |path| ==> r == path[from..];
    r
  }

  /** `path.slice(path.lastIndexOf(SLASH) + 1, path.lastIndexOf('.'))`. The
      result is always a leading part of the file name. */
  function FileNameWithoutExtension(path: string, slash: char): (r: string)
    ensures slash !in r
    ensures |r| <= |FileNameWithExtension(path, slash)|
    ensures r == FileNameWithExtension(path, slash)[..|r|]
  {
    var from := LastIndexOf(path, slash) + 1;
    var to := LastIndexOf(path, '.');
    var r := Slice(path, from, to);
    assert r != [] ==> r == path[from..SliceIndex(to, |path|)];
    r
  }

  /** The file name with `slice`'s index arithmetic resolved. */
  lemma FileNameIsTail(path: string, slash: char)
    ensures FileNameWithExtension(path, slash) == path[LastIndexOf(path, slash) + 1..]
  {
  }

  /** The extension with `slice`'s index arithmetic resolved. */
  lemma ExtensionIsTail(path: string)
    ensures FileExtensionFromPath(path) == path[LastIndexOf(path, '.') + 1..]
  {
  }

  /** The bare name with `slice`'s index arithmetic resolved, when it is not empty. */
  lemma BareNameIsMiddle(path: string, slash: char)
    requires LastIndexOf(path, slash) + 1 < LastIndexOf(path, '.')
    ensures FileNameWithoutExtension(path, slash) == path[LastIndexOf(path, slash) + 1..LastIndexOf(path, '.')]
  {
  }

  /** When the last dot belongs to the file name, the name is the bare name,
      a dot, and the extension. */
  lemma NameSplitsAtLastDot(path: string, slash: char)
    requires LastIndexOf(path, '.') > LastIndexOf(path, slash)
    ensures FileNameWithExtension(path, slash)
         == FileNameWithoutExtension(path, slash) + "." + FileExtensionFromPath(path)
  {
    var s := LastIndexOf(path, slash);
    var d := LastIndexOf(path, '.');
    FileNameIsTail(path, slash);
    ExtensionIsTail(path);
    var bare := FileNameWithoutExtension(path, slash);
    if s + 1 == d {
      assert bare == [];
    } else {
      BareNameIsMiddle(path, slash);
    }
    assert bare == path[s + 1..d];
    SliceAround(path, s + 1, d);
  }

  lemma SliceAround<T>(x: seq<T>, a: nat, d: nat)
    requires a <= d < |x|
    ensures x[a..] == x[a..d] + [x[d]] + x[d + 1..]
  {
  }

  /** With no dot at all the end index is -1, which `slice` reads as "one
      before the end": the last character of the file name is cut off. */
  lemma NoDotCutsLastCharacter(path: string, slash: char)
    requires '.' !in path
    ensures var name := FileNameWithExtension(path, slash);
            FileNameWithoutExtension(path, slash) == if |name| == 0 then "" else name[..|name| - 1]
  {
    var s := LastIndexOf(path, slash);
    FileNameIsTail(path, slash);
    var name := FileNameWithExtension(path, slash);
    var r := FileNameWithoutExtension(path, slash);
    assert r == Slice(path, s + 1, -1);
    if |name| >= 2 {
      assert r == path[s + 1..|path| - 1];
    } else {
      assert r == [];
    }
  }

  /** A dot that only occurs in a directory name yields an empty result. */
  lemma DotOnlyInDirectory(path: string, slash: char)
    requires '.' in path
    requires LastIndexOf(path, '.') < LastIndexOf(path, slash)
    ensures FileNameWithoutExtension(path, slash) == ""
  {
  }

  // ---------------------------------------------------------------------------
  // isImage
  // ---------------------------------------------------------------------------

  /** The alternatives of `/\.(gif|jpe?g|tiff?|png|webp|bmp)$/i`, spelled out. */
  const ImageExtensions: seq<string> := ["gif", "jpg", "jpeg", "tif", "tiff", "png", "webp", "bmp"]

  /** What the regular expression tests: the lower-cased path ends in a dot
      followed by one of the extensions. JavaScript's case-insensitive
      matching without the `u` flag folds ASCII letters only. */
  predicate MatchesImagePattern(path: string) {
    exists e | e in ImageExtensions :: EndsWith(Lower(path), "." + e)
  }

  predicate IsImageExtension(ext: string) {
    Lower(ext) in ImageExtensions
  }

  /** `isImage`, computed from the text after the last dot. */
  function IsImage(path: string): (b: bool)
    ensures b <==> MatchesImagePattern(path)
  {
    ImagePatternIsExtension(path);
    '.' in path && IsImageExtension(FileExtensionFromPath(path))
  }

  lemma ImagePatternIsExtension(path: string)
    ensures MatchesImagePattern(path) <==> '.' in path && IsImageExtension(FileExtensionFromPath(path))
  {
    if '.' in path && IsImageExtension(FileExtensionFromPath(path)) {
      ExtensionMatchesPattern(path);
    }
    if MatchesImagePattern(path) {
      var e :| e in ImageExtensions && EndsWith(Lower(path), "." + e);
      NoDotInImageExtensions(e);
      PatternGivesExtension(path, e);
    }
  }

  lemma ExtensionMatchesPattern(path: string)
    requires '.' in path && IsImageExtension(FileExtensionFromPath(path))
    ensures MatchesImagePattern(path)
  {
    var d := LastIndexOf(path, '.');
    ExtensionIsTail(path);
    var e := Lower(path[d + 1..]);
    var low := Lower(path);
    LowerOfSuffix(path, d);
    LowerOfSuffix(path, d + 1);
    assert low[d..] == [low[d]] + low[d + 1..];
    assert EndsWith(low, "." + e);
  }

  lemma PatternGivesExtension(path: string, e: string)
    requires '.' !in e && EndsWith(Lower(path), "." + e)
    ensures '.' in path && Lower(FileExtensionFromPath(path)) == e
  {
    var p := LastDotBeforeSuffix(path, e);
    DropDot(Lower(path), p, e);
    ExtensionAfterDot(path, p, e);
  }

  lemma ExtensionAfterDot(path: string, p: nat, e: string)
    requires p < |path| && LastIndexOf(path, '.') == p && Lower(path)[p + 1..] == e
    ensures '.' in path && Lower(FileExtensionFromPath(path)) == e
  {
    ExtensionIsTail(path);
    LowerOfSuffix(path, p + 1);
  }

  lemma DropDot(low: string, p: nat, e: string)
    requires p == |low| - |e| - 1 && EndsWith(low, "." + e)
    ensures low[p + 1..] == e
  {
    assert low[p..] == "." + e;
    assert low[p + 1..] == low[p..][1..];
  }

  lemma NoDotInImageExtensions(e: string)
    requires e in ImageExtensions
    ensures '.' !in e
  {
  }

  /** Only a dot lower-cases to a dot, so a dot-free suffix after a dot in the
      lower-cased text marks the last dot of the original. */
  lemma LastDotBeforeSuffix(path: string, e: string) returns (p: nat)
    requires '.' !in e && EndsWith(Lower(path), "." + e)
    ensures p == |path| - |e| - 1 && LastIndexOf(path, '.') == p
  {
    var low := Lower(path);
    p := |path| - |e| - 1;
    assert low[p] == ("." + e)[0];
    assert path[p] == '.';
    forall k | p < k < |path| ensures path[k] != '.' {
      assert low[k] == ("." + e)[k - p];
      assert low[k] == e[k - p - 1];
    }
  }

  // ---------------------------------------------------------------------------
  // getShorterPath
  // ---------------------------------------------------------------------------

  /** `path.split(SLASH)`, sliced after the first component equal to
      `fromFolder` (from the start when there is none), joined again. */
  function ShorterPath(path: string, fromFolder: string, slash: char): (r: string)
    ensures fromFolder !in Split(path, slash) ==> r == path
  {
    var dir := Split(path, slash);
    var i := IndexOf(dir, fromFolder);
    JoinSplit(path, slash);
    assert i == -1 ==> Slice(dir, i + 1, |dir|) == dir;
    Join(Slice(dir, i + 1, |dir|), slash)
  }

  /** When `fromFolder` is a component, the result is what follows its first
      occurrence: the path is the components up to and including it, a
      separator, and the result; and the result splits into exactly the
      remaining components. */
  lemma ShorterPathIsRemainder(path: string, fromFolder: string, slash: char)
    requires fromFolder in Split(path, slash)
    ensures var dir := Split(path, slash);
            var i := IndexOf(dir, fromFolder);
            var r := ShorterPath(path, fromFolder, slash);
            && dir[i] == fromFolder && fromFolder !in dir[..i]
            && (i + 1 == |dir| ==> r == "")
            && (i + 1 < |dir| ==>
                  path == Join(dir[..i + 1], slash) + [slash] + r && Split(r, slash) == dir[i + 1..])
  {
    var dir := Split(path, slash);
    var i := IndexOf(dir, fromFolder);
    var r := ShorterPath(path, fromFolder, slash);
    ShorterPathIsJoinedTail(path, fromFolder, slash);
    if i + 1 < |dir| {
      JoinSplit(path, slash);
      JoinAtIndex(dir, i + 1, slash);
      var tail := dir[i + 1..];
      forall k | 0 <= k < |tail| ensures slash !in tail[k] {
        assert tail[k] == dir[i + 1 + k];
      }
      SplitJoin(tail, slash);
    }
  }

  lemma ShorterPathIsJoinedTail(path: string, fromFolder: string, slash: char)
    requires fromFolder in Split(path, slash)
    ensures var dir := Split(path, slash);
            ShorterPath(path, fromFolder, slash) == Join(dir[IndexOf(dir, fromFolder) + 1..], slash)
  {
    var dir := Split(path, slash);
    var i := IndexOf(dir, fromFolder);
    assert Slice(dir, i + 1, |dir|) == dir[i + 1..];
  }

  /** Joining splits around any inner boundary. */
  lemma JoinAtIndex(parts: seq<string>, k: nat, c: char)
    requires 0 < k < |parts|
    ensures Join(parts, c) == Join(parts[..k], c) + [c] + Join(parts[k..], c)
  {
    assert parts == parts[..k] + parts[k..];
    JoinAppend(parts[..k], parts[k..], c);
  }
}
