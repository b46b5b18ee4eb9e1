/** The two upload entry points, picture and document: validate in a fixed
    order, build the stored file name from the caller's id, move the file into
    place, and (for pictures) derive the optimized image and the thumbnail. */
module Uploads {
  import opened Results
  import opened Text
  import opened Effects
  import opened Validation
  import opened Layout
  import opened Images

  /** What the uploader reads from an uploaded file. `mimeType` is the type
      guessed from the file's content; an unknown type is the empty string. */
  datatype UploadedFile = UploadedFile(
    size: int,
    clientExtension: string,
    mimeType: string,
    clientOriginalName: string)

  /** The record a successful picture upload returns. `size` and `deleteUrl`
      are always null. */
  datatype PictureRecord = PictureRecord(
    id: int,
    name: string,
    size: Option<int>,
    url: string,
    deleteUrl: Option<string>,
    deleteType: string,
    originalUrl: string,
    optimizedUrl: string,
    thumbnailUrl: string)

  /** A picture is stored as "<id>.<extension>", keeping the client's case:
      the first '.' of the name ends the id's decimal text, which reads back
      as the id, and the extension follows unchanged. */
  function StoredPictureName(id: int, extension: string): (s: string)
    ensures |IntToDecimal(id)| < |s| && s[|IntToDecimal(id)|] == '.'
    ensures '.' !in s[..|IntToDecimal(id)|]
    ensures ParseDecimal(s[..|IntToDecimal(id)|]) == Some(id)
    ensures s[|IntToDecimal(id)| + 1..] == extension
  {
    var digits := IntToDecimal(id);
    DecimalRoundTrip(id);
    assert (digits + "." + extension)[..|digits|] == digits;
    digits + "." + extension
  }

  /** A document is stored as "<id>.<extension>" with the extension
      lower-cased: the part after the first '.' has no capital letter and
      equals the client's extension up to case. */
  function StoredDocumentName(id: int, extension: string): (s: string)
    ensures |IntToDecimal(id)| < |s| && s[|IntToDecimal(id)|] == '.'
    ensures '.' !in s[..|IntToDecimal(id)|]
    ensures ParseDecimal(s[..|IntToDecimal(id)|]) == Some(id)
    ensures IsLowerCase(s[|IntToDecimal(id)| + 1..])
    ensures SameIgnoringCase(s[|IntToDecimal(id)| + 1..], extension)
  {
    DecimalRoundTrip(id);
    ToLowerIdempotent(extension);
    ToLowerEqualIff(ToLower(extension), extension);
    var digits := IntToDecimal(id);
    assert (digits + "." + ToLower(extension))[..|digits|] == digits;
    digits + "." + ToLower(extension)
  }

  /** Reads a stored name back into the id and the extension it was built from. */
  function ParseStoredName(name: string): Option<(int, string)> {
    match SplitFirst(name, '.')
    case None => None
    case Some(parts) =>
      match ParseDecimal(parts.0)
      case None => None
      case Some(id) => Some((id, parts.1))
  }

  /** The three checks a picture must pass, in terms of the allow-lists. */
  predicate PictureAcceptable(file: UploadedFile) {
    && file.size <= MaxSize
    && ToLower(file.clientExtension) in PictureExtensions
    && ToLower(file.mimeType) in PictureMimeTypes
  }

  /** The three checks a document must pass, in terms of the allow-lists. */
  predicate DocumentAcceptable(file: UploadedFile) {
    && ToLower(file.clientExtension) in DocumentExtensions
    && ToLower(file.mimeType) in DocumentMimeTypes
    && file.size <= MaxSize
  }

  /** picture(): size, then extension, then MIME type; the first failing check
      throws before anything is moved. An accepted file is moved into
      "original/" under its stored name; `moved` is the result of that move.
      After a successful move both derived images are made from the original
      (`read` is the image library), and the record of URLs is returned. */
  function Picture(file: UploadedFile, path: string, id: int, moved: bool, read: ImageReader)
    : (r: Run<PictureRecord>)
    ensures file.size > MaxSize ==> r == Run([], Failure(TooLarge(MaxSize)))
    ensures file.size <= MaxSize && ToLower(file.clientExtension) !in PictureExtensions ==>
      r == Run([], Failure(UnapprovedExtension(PictureExtensions)))
    ensures file.size <= MaxSize && ToLower(file.clientExtension) in PictureExtensions
            && ToLower(file.mimeType) !in PictureMimeTypes ==>
      r == Run([], Failure(UnapprovedType(PictureMimeTypes)))
    ensures PictureAcceptable(file) ==>
      |r.effects| >= 1 && r.effects[0] == Moved(path + OriginalFolder, StoredPictureName(id, file.clientExtension))
    ensures PictureAcceptable(file) && !moved ==>
      r == Run([Moved(path + OriginalFolder, StoredPictureName(id, file.clientExtension))],
               Failure(PictureNotUploaded))
    ensures PictureAcceptable(file) && moved
            && read(path + OriginalFolder + StoredPictureName(id, file.clientExtension)).None? ==>
      r == Run([Moved(path + OriginalFolder, StoredPictureName(id, file.clientExtension))],
               Failure(ImageNotReadable(path + OriginalFolder + StoredPictureName(id, file.clientExtension))))
    ensures r.outcome.Success? <==>
      PictureAcceptable(file) && moved
      && read(path + OriginalFolder + StoredPictureName(id, file.clientExtension)).Some?
    ensures r.outcome.Success? ==>
      var name := StoredPictureName(id, file.clientExtension);
      r.outcome.value == PictureRecord(
        id, name, None, path + name, None, "DELETE",
        path + OriginalFolder + name, path + name, path + ThumbnailFolder + name)
  {
    match CheckSize(file.size)
    case Fail(e) => Run([], Failure(e))
    case Pass =>
      match CheckExtension(file.clientExtension, PictureCategory)
      case Fail(e) => Run([], Failure(e))
      case Pass =>
        match CheckMimeType(file.mimeType, PictureCategory)
        case Fail(e) => Run([], Failure(e))
        case Pass =>
          var name := StoredPictureName(id, file.clientExtension);
          var move := Moved(path + OriginalFolder, name);
          if !moved then Run([move], Failure(PictureNotUploaded))
          else
            var derived := Derive(path, name, read);
            if derived.outcome.Failure? then Run([move] + derived.effects, Failure(derived.outcome.error))
            else
              Run([move] + derived.effects, Success(PictureRecord(
                id := id,
                name := name,
                size := None,
                url := path + name,
                deleteUrl := None,
                deleteType := "DELETE",
                originalUrl := path + OriginalFolder + name,
                optimizedUrl := path + name,
                thumbnailUrl := path + ThumbnailFolder + name)))
  }

  /** document(): extension, then MIME type, then size; the first failing
      check throws before anything is moved. An accepted file is moved into
      `path` itself under its stored name; the call returns true when the move
      succeeds and throws otherwise. */
  function Document(file: UploadedFile, path: string, id: int, moved: bool): (r: Run<bool>)
    ensures ToLower(file.clientExtension) !in DocumentExtensions ==>
      r == Run([], Failure(UnapprovedExtension(DocumentExtensions)))
    ensures ToLower(file.clientExtension) in DocumentExtensions
            && ToLower(file.mimeType) !in DocumentMimeTypes ==>
      r == Run([], Failure(UnapprovedType(DocumentMimeTypes)))
    ensures ToLower(file.clientExtension) in DocumentExtensions
            && ToLower(file.mimeType) in DocumentMimeTypes && file.size > MaxSize ==>
      r == Run([], Failure(TooLarge(MaxSize)))
    ensures DocumentAcceptable(file) ==>
      r.effects == [Moved(path, StoredDocumentName(id, file.clientExtension))]
    ensures r.outcome.Success? <==> DocumentAcceptable(file) && moved
    ensures r.outcome.Success? ==> r.outcome.value
    ensures DocumentAcceptable(file) && !moved ==>
      r.outcome == Failure(DocumentNotUploaded(file.clientOriginalName))
  {
    match CheckExtension(file.clientExtension, DocumentCategory)
    case Fail(e) => Run([], Failure(e))
    case Pass =>
      match CheckMimeType(file.mimeType, DocumentCategory)
      case Fail(e) => Run([], Failure(e))
      case Pass =>
        match CheckSize(file.size)
        case Fail(e) => Run([], Failure(e))
        case Pass =>
          var move := Moved(path, StoredDocumentName(id, file.clientExtension));
          if moved then Run([move], Success(true))
          else Run([move], Failure(DocumentNotUploaded(file.clientOriginalName)))
  }

  // ---------------------------------------------------------------------------
  // Properties
  // ---------------------------------------------------------------------------

  /** The URLs a successful picture upload returns point at exactly the files
      it wrote: the original it moved, the optimized image (served as `url`)
      and the thumbnail, both read from that original. */
  lemma PictureUrlsMatchWrites(file: UploadedFile, path: string, id: int, moved: bool, read: ImageReader)
    requires Picture(file, path, id, moved, read).outcome.Success?
    ensures var r := Picture(file, path, id, moved, read);
      var record := r.outcome.value;
      && |r.effects| == 3
      && r.effects[0].Moved? && r.effects[0].directory + r.effects[0].filename == record.originalUrl
      && r.effects[1].Saved? && r.effects[1].source == record.originalUrl
      && r.effects[1].target == record.url == record.optimizedUrl
      && r.effects[2].Saved? && r.effects[2].source == record.originalUrl
      && r.effects[2].target == record.thumbnailUrl
  {
  }

  /** A failed move ends the picture upload: nothing is derived. */
  lemma FailedMoveDerivesNothing(file: UploadedFile, path: string, id: int, read: ImageReader)
    ensures forall k :: 0 <= k < |Picture(file, path, id, false, read).effects| ==>
      Picture(file, path, id, false, read).effects[k].Moved?
    ensures Picture(file, path, id, false, read).outcome.Failure?
  {
  }

  /** The stored picture name gives back the id and the extension exactly as
      the client sent it. */
  lemma PictureNameRoundTrip(id: int, extension: string)
    ensures ParseStoredName(StoredPictureName(id, extension)) == Some((id, extension))
  {
    SplitFirstOfJoin(IntToDecimal(id), '.', extension);
    DecimalRoundTrip(id);
  }

  /** The stored document name gives back the id and the lower-cased extension. */
  lemma DocumentNameRoundTrip(id: int, extension: string)
    ensures ParseStoredName(StoredDocumentName(id, extension)) == Some((id, ToLower(extension)))
  {
    SplitFirstOfJoin(IntToDecimal(id), '.', ToLower(extension));
    DecimalRoundTrip(id);
  }

  /** Different ids never share a stored name, whatever the extensions. */
  lemma StoredNamesDistinguishIds(id1: int, ext1: string, id2: int, ext2: string)
    requires id1 != id2
    ensures StoredPictureName(id1, ext1) != StoredPictureName(id2, ext2)
    ensures StoredDocumentName(id1, ext1) != StoredDocumentName(id2, ext2)
  {
    PictureNameRoundTrip(id1, ext1);
    PictureNameRoundTrip(id2, ext2);
    DocumentNameRoundTrip(id1, ext1);
    DocumentNameRoundTrip(id2, ext2);
  }

  /** Pictures keep the client's case in the stored name; documents do not. */
  lemma StoredNameCase()
    ensures StoredPictureName(7, "JPG") == "7.JPG"
    ensures StoredDocumentName(7, "PDF") == "7.pdf"
  {
    assert IntToDecimal(7) == "7";
    assert ToLower("PDF") == "pdf";
  }

  /** Validation order differs between the two kinds: an oversized file with
      an unknown extension is reported as too large by picture() but as having
      the wrong extension by document(). */
  lemma CheckOrderDiffers(path: string, id: int, moved: bool, read: ImageReader)
    ensures var file := UploadedFile(40000000, "exe", "application/x-msdownload", "setup.exe");
      && Picture(file, path, id, moved, read).outcome == Failure(TooLarge(32000000))
      && Document(file, path, id, moved).outcome == Failure(UnapprovedExtension(["pdf", "doc", "docx", "ppt"]))
  {
    assert ToLower("exe") == "exe";
  }

  /** Both kinds accept a file only if it passes all three checks, so the
      order of the checks decides only which error is reported. */
  lemma AcceptanceIsOrderFree(file: UploadedFile, path: string, id: int, read: ImageReader)
    ensures Picture(file, path, id, true, read).effects != [] <==> PictureAcceptable(file)
    ensures Document(file, path, id, true).effects != [] <==> DocumentAcceptable(file)
    ensures PictureAcceptable(file) <==>
      && CheckSize(file.size).Pass?
      && CheckExtension(file.clientExtension, PictureCategory).Pass?
      && CheckMimeType(file.mimeType, PictureCategory).Pass?
    ensures DocumentAcceptable(file) <==>
      && CheckSize(file.size).Pass?
      && CheckExtension(file.clientExtension, DocumentCategory).Pass?
      && CheckMimeType(file.mimeType, DocumentCategory).Pass?
  {
  }
}
