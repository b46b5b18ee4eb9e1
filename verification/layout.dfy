/** Where the uploader puts things under a caller's `path`: originals in
    "original/", optimized images directly in `path`, thumbnails in
    "thumbnail/". Paths are plain string joins; `path` is expected to end in a
    separator already and is never normalised. */
module Layout {

  const OriginalFolder: string := "original/"
  const ThumbnailFolder: string := "thumbnail/"

  /** A directory entry's name never contains the separator. */
  predicate IsPlainName(name: string) {
    '/' !in name
  }

  function OriginalPath(path: string, filename: string): (p: string)
    ensures |p| == |path| + |OriginalFolder| + |filename|
    ensures p[..|path|] == path && p[|path|..] == OriginalFolder + filename
  {
    path + OriginalFolder + filename
  }

  function OptimizedPath(path: string, filename: string): (p: string)
    ensures |p| == |path| + |filename|
    ensures p[..|path|] == path && p[|path|..] == filename
  {
    path + filename
  }

  function ThumbnailPath(path: string, filename: string): (p: string)
    ensures |p| == |path| + |ThumbnailFolder| + |filename|
    ensures p[..|path|] == path && p[|path|..] == ThumbnailFolder + filename
  {
    path + ThumbnailFolder + filename
  }

  /** For one file, the three images live at three different places. */
  lemma ThreeDistinctPaths(path: string, filename: string)
    ensures OptimizedPath(path, filename) != OriginalPath(path, filename)
    ensures ThumbnailPath(path, filename) != OriginalPath(path, filename)
    ensures OptimizedPath(path, filename) != ThumbnailPath(path, filename)
  {
    assert |OptimizedPath(path, filename)| < |OriginalPath(path, filename)|;
    assert |OptimizedPath(path, filename)| < |ThumbnailPath(path, filename)|;
    assert ThumbnailPath(path, filename)[|path|] == 't';
    assert OriginalPath(path, filename)[|path|] == 'o';
  }

  /** Each kind of path determines the file name it was built from. */
  lemma PathsDetermineFilename(path: string, f: string, g: string)
    ensures OriginalPath(path, f) == OriginalPath(path, g) ==> f == g
    ensures OptimizedPath(path, f) == OptimizedPath(path, g) ==> f == g
    ensures ThumbnailPath(path, f) == ThumbnailPath(path, g) ==> f == g
  {
    if OriginalPath(path, f) == OriginalPath(path, g) {
      assert f == OriginalPath(path, f)[|path| + |OriginalFolder|..];
    }
    if ThumbnailPath(path, f) == ThumbnailPath(path, g) {
      assert f == ThumbnailPath(path, f)[|path| + |ThumbnailFolder|..];
    }
  }

  /** With plain file names no derived image ever lands on an original, and
      an optimized image never lands on a thumbnail, whatever the two names. */
  lemma DerivedNeverHitsAnother(path: string, f: string, g: string)
    requires IsPlainName(f) && IsPlainName(g)
    ensures OptimizedPath(path, f) != OriginalPath(path, g)
    ensures ThumbnailPath(path, f) != OriginalPath(path, g)
    ensures OptimizedPath(path, f) != ThumbnailPath(path, g)
  {
    if |f| == |OriginalFolder| + |g| {
      assert OptimizedPath(path, f)[|path| + 8] == f[8] != '/';
      assert OriginalPath(path, g)[|path| + 8] == '/';
    }
    assert ThumbnailPath(path, f)[|path|] == 't';
    assert OriginalPath(path, g)[|path|] == 'o';
    if |f| == |ThumbnailFolder| + |g| {
      assert OptimizedPath(path, f)[|path| + 9] == f[9] != '/';
      assert ThumbnailPath(path, g)[|path| + 9] == '/';
    }
  }
}
