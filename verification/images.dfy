/** The two derived images (createOptimized and createThumbnail). The image
    library is reduced to what the uploader asks of it: it opens the image at
    a path, which either fails or yields the image's width, and it writes a
    re-encoded copy at a target path. */
module Images {
  import opened Results
  import opened Layout
  import opened Effects

  /** The image library's reading of a file: the width in pixels, or None when
      the file cannot be opened as an image (the library then throws). */
  type ImageReader = string -> Option<nat>

  const OptimizedMaxWidth: nat := 1000
  const OptimizedQuality: nat := 60
  const ThumbnailWidth: nat := 100

  /** widen(1000) with the upsize constraint: wide images shrink to 1000
      pixels, narrower ones keep their width. */
  function OptimizedWidth(width: nat): (w: nat)
    ensures w <= OptimizedMaxWidth && w <= width
    ensures w == width || w == OptimizedMaxWidth
  {
    if width > OptimizedMaxWidth then OptimizedMaxWidth else width
  }

  /** Reads the original of `filename` and writes the optimized copy. */
  function CreateOptimized(path: string, filename: string, read: ImageReader): (r: Result<Effect, Error>)
    ensures r.Failure? <==> read(OriginalPath(path, filename)).None?
    ensures r.Failure? ==> r.error == ImageNotReadable(OriginalPath(path, filename))
    ensures r.Success? ==> (
      && r.value.Saved?
      && r.value.source == OriginalPath(path, filename)
      && r.value.target == OptimizedPath(path, filename)
      && r.value.width == OptimizedWidth(read(OriginalPath(path, filename)).value)
      && r.value.width <= OptimizedMaxWidth
      && r.value.width <= read(OriginalPath(path, filename)).value
      && r.value.quality == Some(OptimizedQuality))
  {
    var source := OriginalPath(path, filename);
    match read(source)
    case None => Failure(ImageNotReadable(source))
    case Some(width) =>
      Success(Saved(source, OptimizedPath(path, filename), OptimizedWidth(width), Some(OptimizedQuality)))
  }

  /** Reads the original of `filename` and writes the thumbnail, always exactly
      100 pixels wide (smaller originals are enlarged), at the library's
      default quality. */
  function CreateThumbnail(path: string, filename: string, read: ImageReader): (r: Result<Effect, Error>)
    ensures r.Failure? <==> read(OriginalPath(path, filename)).None?
    ensures r.Failure? ==> r.error == ImageNotReadable(OriginalPath(path, filename))
    ensures r.Success? ==> (
      && r.value.Saved?
      && r.value.source == OriginalPath(path, filename)
      && r.value.target == ThumbnailPath(path, filename)
      && r.value.width == ThumbnailWidth
      && r.value.quality.None?)
  {
    var source := OriginalPath(path, filename);
    match read(source)
    case None => Failure(ImageNotReadable(source))
    case Some(_) => Success(Saved(source, ThumbnailPath(path, filename), ThumbnailWidth, None))
  }

  /** The optimized image written for `filename`, when its original is readable. */
  function OptimizedWrite(path: string, filename: string, width: nat): Effect {
    Saved(OriginalPath(path, filename), OptimizedPath(path, filename), OptimizedWidth(width), Some(OptimizedQuality))
  }

  /** The thumbnail written for `filename`, when its original is readable. */
  function ThumbnailWrite(path: string, filename: string): Effect {
    Saved(OriginalPath(path, filename), ThumbnailPath(path, filename), ThumbnailWidth, None)
  }

  /** The optimized image and then the thumbnail for one stored file. Both are
      written, optimized first, exactly when the original can be read;
      otherwise nothing is written and the library's exception escapes. */
  function Derive(path: string, filename: string, read: ImageReader): (r: Run<()>)
    ensures read(OriginalPath(path, filename)).Some? ==>
      r == Run([OptimizedWrite(path, filename, read(OriginalPath(path, filename)).value),
                ThumbnailWrite(path, filename)], Success(()))
    ensures read(OriginalPath(path, filename)).None? ==>
      r == Run([], Failure(ImageNotReadable(OriginalPath(path, filename))))
  {
    match CreateOptimized(path, filename, read)
    case Failure(e) => Run([], Failure(e))
    case Success(optimized) =>
      match CreateThumbnail(path, filename, read)
      case Failure(e) => Run([optimized], Failure(e))
      case Success(thumbnail) => Run([optimized, thumbnail], Success(()))
  }

  /** Derived images never overwrite the original they are made from, and the
      two derived images of one file never overwrite each other. */
  lemma DeriveKeepsOriginal(path: string, filename: string, read: ImageReader)
    ensures forall k :: 0 <= k < |Derive(path, filename, read).effects| ==>
      Derive(path, filename, read).effects[k].Saved? &&
      Derive(path, filename, read).effects[k].target != OriginalPath(path, filename)
    ensures |Derive(path, filename, read).effects| == 2 ==>
      Derive(path, filename, read).effects[0].target != Derive(path, filename, read).effects[1].target
  {
    ThreeDistinctPaths(path, filename);
  }
}
