/** The upload policy of src/Uploader.php: a size limit and, per category, an
    allow-list of extensions and one of MIME types. */
module Validation {
  import opened Results
  import opened Text
  import opened Effects

  /** The size limit; a file of exactly this size is still accepted. */
  const MaxSize: int := 32000000

  const DocumentExtensions: seq<string> := ["pdf", "doc", "docx", "ppt"]
  const PictureExtensions: seq<string> := ["jpg", "gif", "png"]

  const DocumentMimeTypes: seq<string> := [
    "application/pdf",
    "application/msword",
    OpenXmlPrefix + "wordprocessingml.document",
    "application/vnd.ms-powerpoint",
    OpenXmlPrefix + "presentationml.presentation"
  ]

  /** "application/vnd.openxmlformats-officedocument.", kept in short pieces so
      that facts about its characters stay cheap to prove. */
  const OpenXmlPrefix: string := "application/" + "vnd.openxmlformats-" + "officedocument."
  const PictureMimeTypes: seq<string> := ["image/gif", "image/jpeg", "image/png"]

  /** The category names the uploader passes; any other name selects the
      picture lists. */
  const PictureCategory: string := "picture"
  const DocumentCategory: string := "document"

  function CheckSize(size: int): (r: Outcome<Error>)
    ensures r.Pass? <==> size <= MaxSize
    ensures r.Fail? ==> r.error == TooLarge(MaxSize)
  {
    if size > MaxSize then Fail(TooLarge(MaxSize)) else Pass
  }

  /** The extension allow-list a category selects. */
  function ExtensionHaystack(category: string): (h: seq<string>)
    ensures category == DocumentCategory ==> h == DocumentExtensions
    ensures category != DocumentCategory ==> h == PictureExtensions
  {
    match category
    case "picture" => PictureExtensions
    case "document" => DocumentExtensions
    case _ => PictureExtensions
  }

  /** The MIME-type allow-list a category selects. */
  function MimeTypeHaystack(category: string): (h: seq<string>)
    ensures category == DocumentCategory ==> h == DocumentMimeTypes
    ensures category != DocumentCategory ==> h == PictureMimeTypes
  {
    match category
    case "picture" => PictureMimeTypes
    case "document" => DocumentMimeTypes
    case _ => PictureMimeTypes
  }

  function CheckExtension(extension: string, category: string): (r: Outcome<Error>)
    ensures r.Pass? <==> ToLower(extension) in ExtensionHaystack(category)
    ensures r.Fail? ==> r.error == UnapprovedExtension(ExtensionHaystack(category))
  {
    var haystack := ExtensionHaystack(category);
    if ToLower(extension) !in haystack then Fail(UnapprovedExtension(haystack)) else Pass
  }

  function CheckMimeType(mimeType: string, category: string): (r: Outcome<Error>)
    ensures r.Pass? <==> ToLower(mimeType) in MimeTypeHaystack(category)
    ensures r.Fail? ==> r.error == UnapprovedType(MimeTypeHaystack(category))
  {
    var haystack := MimeTypeHaystack(category);
    if ToLower(mimeType) !in haystack then Fail(UnapprovedType(haystack)) else Pass
  }

  // ---------------------------------------------------------------------------
  // Properties
  // ---------------------------------------------------------------------------

  /** The limit itself passes and one byte more fails. */
  lemma SizeBoundary()
    ensures CheckSize(MaxSize) == Pass
    ensures CheckSize(MaxSize + 1) == Fail(TooLarge(32000000))
  {
  }

  /** Every allow-list entry is written in lower case, so lower-casing the
      candidate is the only case handling needed. */
  lemma AllowListsAreLowerCase(category: string)
    ensures forall h :: h in ExtensionHaystack(category) ==> IsLowerCase(h)
    ensures forall h :: h in MimeTypeHaystack(category) ==> IsLowerCase(h)
  {
    WordMimeTypeIsLowerCase();
    PresentationMimeTypeIsLowerCase();
    assert IsLowerCase(DocumentMimeTypes[0]);
    assert IsLowerCase(DocumentMimeTypes[1]);
    assert IsLowerCase(DocumentMimeTypes[3]);
  }

  lemma WordMimeTypeIsLowerCase()
    ensures IsLowerCase(DocumentMimeTypes[2])
  {
    LowerCaseThree("application/", "vnd.openxmlformats-", "officedocument.");
    LowerCaseThree(OpenXmlPrefix, "wordprocessingml.document", "");
  }

  lemma PresentationMimeTypeIsLowerCase()
    ensures IsLowerCase(DocumentMimeTypes[4])
  {
    LowerCaseThree("application/", "vnd.openxmlformats-", "officedocument.");
    LowerCaseThree(OpenXmlPrefix, "presentationml.presentation", "");
  }

  lemma LowerCaseThree(a: string, b: string, c: string)
    requires IsLowerCase(a) && IsLowerCase(b) && IsLowerCase(c)
    ensures IsLowerCase(a + b + c)
  {
  }

  /** An extension is approved exactly when it matches an allow-list entry up
      to the case of its letters. */
  lemma ExtensionApprovedIff(extension: string, category: string)
    ensures CheckExtension(extension, category).Pass?
        <==> exists h :: h in ExtensionHaystack(category) && SameIgnoringCase(extension, h)
  {
    AllowListsAreLowerCase(category);
    var haystack := ExtensionHaystack(category);
    if CheckExtension(extension, category).Pass? {
      var h := ToLower(extension);
      ToLowerIdempotent(extension);
      ToLowerEqualIff(extension, h);
      assert h in haystack && SameIgnoringCase(extension, h);
    } else {
      forall h | h in haystack
        ensures !SameIgnoringCase(extension, h)
      {
        ToLowerOfLowerCase(h);
        ToLowerEqualIff(extension, h);
      }
    }
  }

  /** A MIME type is approved exactly when it matches an allow-list entry up
      to the case of its letters. */
  lemma MimeTypeApprovedIff(mimeType: string, category: string)
    ensures CheckMimeType(mimeType, category).Pass?
        <==> exists h :: h in MimeTypeHaystack(category) && SameIgnoringCase(mimeType, h)
  {
    AllowListsAreLowerCase(category);
    var haystack := MimeTypeHaystack(category);
    if CheckMimeType(mimeType, category).Pass? {
      var h := ToLower(mimeType);
      ToLowerIdempotent(mimeType);
      ToLowerEqualIff(mimeType, h);
      assert h in haystack && SameIgnoringCase(mimeType, h);
    } else {
      forall h | h in haystack
        ensures !SameIgnoringCase(mimeType, h)
      {
        ToLowerOfLowerCase(h);
        ToLowerEqualIff(mimeType, h);
      }
    }
  }

  /** Any category other than "document" is checked against the picture lists. */
  lemma UnknownCategoryIsPicture(category: string, extension: string, mimeType: string)
    requires category != DocumentCategory
    ensures CheckExtension(extension, category) == CheckExtension(extension, PictureCategory)
    ensures CheckMimeType(mimeType, category) == CheckMimeType(mimeType, PictureCategory)
  {
  }

  /** Case is ignored ("JPG" passes) but spelling is not ("jpeg" fails). */
  lemma ExtensionExamples()
    ensures CheckExtension("JPG", PictureCategory) == Pass
    ensures CheckExtension("jpeg", PictureCategory) == Fail(UnapprovedExtension(["jpg", "gif", "png"]))
    ensures CheckExtension("Docx", DocumentCategory) == Pass
    ensures CheckExtension("pdf", "video") == Fail(UnapprovedExtension(["jpg", "gif", "png"]))
    ensures CheckMimeType("IMAGE/PNG", "avatar") == Pass
    ensures CheckMimeType("image/png", DocumentCategory).Fail?
  {
    assert ToLower("JPG") == "jpg";
    assert ToLower("Docx") == "docx";
    assert ToLower("IMAGE/PNG") == "image/png";
    assert ToLower("jpeg") == "jpeg";
    assert ToLower("pdf") == "pdf";
    assert ToLower("image/png") == "image/png";
  }

  /** The rejection messages list the allow-list joined by ", ". */
  lemma PictureExtensionMessage()
    ensures Message(UnapprovedExtension(ExtensionHaystack(PictureCategory)))
         == "File does not have an approved extension: " + "jpg" + ", " + "gif" + ", " + "png"
  {
    assert PictureExtensions[1..] == ["gif", "png"];
    assert PictureExtensions[1..][1..] == ["png"];
    assert Join(["gif", "png"], ", ") == "gif" + ", " + "png";
    assert Join(PictureExtensions, ", ") == "jpg" + ", " + ("gif" + ", " + "png");
  }

  lemma DocumentExtensionMessage()
    ensures Message(UnapprovedExtension(ExtensionHaystack(DocumentCategory)))
         == "File does not have an approved extension: " + "pdf" + ", " + "doc" + ", " + "docx" + ", " + "ppt"
  {
    assert DocumentExtensions[1..] == ["doc", "docx", "ppt"];
    assert DocumentExtensions[1..][1..] == ["docx", "ppt"];
    assert DocumentExtensions[1..][1..][1..] == ["ppt"];
    assert Join(["docx", "ppt"], ", ") == "docx" + ", " + "ppt";
    assert Join(["doc", "docx", "ppt"], ", ") == "doc" + ", " + ("docx" + ", " + "ppt");
    assert Join(DocumentExtensions, ", ") == "pdf" + ", " + ("doc" + ", " + ("docx" + ", " + "ppt"));
  }

  lemma PictureMimeTypeMessage()
    ensures Message(UnapprovedType(MimeTypeHaystack(PictureCategory)))
         == "File does not have an approved type: " + "image/gif" + ", " + "image/jpeg" + ", " + "image/png"
  {
    assert PictureMimeTypes[1..] == ["image/jpeg", "image/png"];
    assert PictureMimeTypes[1..][1..] == ["image/png"];
    assert Join(["image/jpeg", "image/png"], ", ") == "image/jpeg" + ", " + "image/png";
    assert Join(PictureMimeTypes, ", ") == "image/gif" + ", " + ("image/jpeg" + ", " + "image/png");
  }

  /** The size message spells out the limit in decimal. */
  lemma SizeMessage()
    ensures Message(TooLarge(MaxSize))
         == "File size is greater than " + "maximum allowed size of " + "32000000" + "."
  {
    LimitDigits();
  }

  lemma LimitDigits()
    ensures IntToDecimal(32000000) == "32000000"
  {
    assert NatToDecimal(32) == "32";
    assert NatToDecimal(320) == NatToDecimal(32) + ['0'];
    assert NatToDecimal(3200) == NatToDecimal(320) + ['0'];
    assert NatToDecimal(32000) == NatToDecimal(3200) + ['0'];
    assert NatToDecimal(320000) == NatToDecimal(32000) + ['0'];
    assert NatToDecimal(3200000) == NatToDecimal(320000) + ['0'];
    assert NatToDecimal(32000000) == NatToDecimal(3200000) + ['0'];
  }
}
