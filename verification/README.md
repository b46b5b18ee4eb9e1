# Uploader model

A Dafny model of the `Uploader` class of the browner12/uploader Laravel package
(`src/Uploader.php`). It covers the file-upload policy and the derived-image
layout:

- the **validation policy**: a size limit of 32000000, plus per-category allow-lists
  of extensions and MIME types. Candidates are compared after ASCII lower-casing.
  Any category other than `document` falls back to the picture lists.
- the two **upload entry points**. `picture` checks size, then extension, then MIME
  type. `document` checks extension, then MIME type, then size. Both stop at the
  first failure. Both build the stored name `"<id>.<extension>"` and move the file.
  A picture then writes its derived images and returns a record of URLs; a document
  returns `true`.
- the **derived images**. Both are read from `path + "original/" + name`. The
  optimized image is written to `path + name`: at most 1000 pixels wide, never
  enlarged, quality 60. The thumbnail is written to `path + "thumbnail/" + name` at
  exactly 100 pixels wide.
- the **reprocess sweep**. For every directory entry that is not a dot entry, not a
  directory and not a `gitignore` file, it makes the optimized image and then the
  thumbnail, in iteration order.

The collaborators are parameters:

- the result of `UploadedFile::move` is a boolean `moved`;
- the directory listing of `path + "original/"` is an `Option<seq<Entry>>`, where
  `None` means the directory iterator throws;
- the image library's reading of a file is an `ImageReader`. It gives the image width,
  or `None` when the file cannot be opened as an image, in which case the library's
  exception escapes.

Every call yields a `Run`: the ordered list of effects it performed (`Moved`, `Saved`)
and either a value or the exception it raised. `Moved` records the call of the move
whatever its result; a failed move shows in the exception that follows.

Modules: `Results` (Option/Result/Outcome), `Text` (strtolower, implode, integer
rendering), `Effects` (errors, messages, effects), `Validation`, `Layout`, `Images`,
`Uploads` (picture and document), `Reprocess`.

This revision of `Uploader` has no overwrite flag, does not skip existing targets,
returns nothing from `reprocess`, uses fixed folder names with no normalisation,
never sanitises names, prints no human-readable sizes and has no video or audio
category; the model has none of these either. The console command in the same
repository calls `reprocess` with an overwrite argument and reads counts from its
result, which this `reprocess` neither takes nor returns; the model follows
`Uploader`. Unknown categories fall back to the picture lists rather than rejecting
everything. Image-decoding failures are not caught: they stop `reprocess` at the first unreadable
original, after the writes for the entries before it,
and fail `picture` after the file has been moved. The doc comment of `picture`
says optimization failures do not fail the upload, but the code does not catch
them, and the model follows the code.

## Model

| member | source | states |
|---|---|---|
| Validation.CheckSize | src/Uploader.php:239-245 | passes exactly when the size is at most the limit; otherwise throws TooLarge carrying the limit |
| Validation.SizeBoundary | src/Uploader.php:20 | a size equal to 32000000 passes and 32000001 is rejected |
| Validation.ExtensionHaystack | src/Uploader.php:256-273 | "document" selects the document extensions; every other category, "picture" included, selects the picture extensions |
| Validation.MimeTypeHaystack | src/Uploader.php:290-307 | "document" selects the document MIME types; every other category selects the picture MIME types |
| Validation.CheckExtension | src/Uploader.php:254-279 | passes exactly when the lower-cased extension is in the category's list; a failure carries that list |
| Validation.CheckMimeType | src/Uploader.php:288-313 | passes exactly when the lower-cased MIME type is in the category's list; a failure carries that list |
| Validation.AllowListsAreLowerCase | src/Uploader.php:39-68 | every entry of the four hard-coded allow-lists is lower case |
| Validation.ExtensionApprovedIff | src/Uploader.php:276 | an extension is approved iff it equals some allow-list entry up to letter case (both directions) |
| Validation.MimeTypeApprovedIff | src/Uploader.php:310 | a MIME type is approved iff it equals some allow-list entry up to letter case (both directions) |
| Validation.UnknownCategoryIsPicture | src/Uploader.php:269-272 | any category other than "document" gives the same verdicts as "picture" |
| Validation.ExtensionExamples | src/Uploader.php:44 | "JPG" passes and "jpeg" fails as a picture; "pdf" fails under an unknown category; "image/png" fails as a document |
| Validation.PictureExtensionMessage | src/Uploader.php:277 | the picture extension rejection reads "File does not have an approved extension: jpg, gif, png" |
| Validation.DocumentExtensionMessage | src/Uploader.php:277 | the document extension rejection lists "pdf, doc, docx, ppt" joined by ", " |
| Validation.PictureMimeTypeMessage | src/Uploader.php:311 | the picture MIME rejection lists "image/gif, image/jpeg, image/png" joined by ", " |
| Validation.SizeMessage | src/Uploader.php:243 | the size rejection message spells out the limit 32000000 |
| Text.ToLower | src/Uploader.php:276 | strtolower: same length, and each character is lower-cased on its own (ASCII capitals only); Text.ToLowerEqualIff and Text.ToLowerIdempotent relate it to case-insensitive equality |
| Text.JoinEnds | src/Uploader.php:277 | implode of a non-empty list: a one-element list gives that element, and the result starts with the first element and ends with the last; the exact texts are proved in the Validation message lemmas |
| Text.IntToDecimal | src/Uploader.php:110 | an int concatenated to a string: non-empty, no '.', and a leading '-' exactly for negative numbers; Text.DecimalRoundTrip reads it back |
| Text.DecimalRoundTrip | src/Uploader.php:110 | reading back the decimal text PHP makes of an integer id gives that id |
| Text.DecimalInjective | src/Uploader.php:110 | two different ids never render to the same text |
| Text.ToLowerEqualIff | src/Uploader.php:276 | two strings lower-case to the same text iff they differ only in ASCII letter case |
| Text.ToLowerIdempotent | src/Uploader.php:310 | lower-casing leaves no capital letter, and doing it twice changes nothing |
| Layout.OriginalPath | src/Uploader.php:185 | the original path is `path` followed by "original/" and the name; the contract only re-slices that join, and Layout.PathsDetermineFilename and Layout.DerivedNeverHitsAnother give it meaning |
| Layout.OptimizedPath | src/Uploader.php:187 | the optimized path is `path` followed directly by the name; the contract only re-slices that join, and Layout.PathsDetermineFilename and Layout.DerivedNeverHitsAnother give it meaning |
| Layout.ThumbnailPath | src/Uploader.php:198 | the thumbnail path is `path` followed by "thumbnail/" and the name; the contract only re-slices that join, and Layout.PathsDetermineFilename and Layout.DerivedNeverHitsAnother give it meaning |
| Layout.ThreeDistinctPaths | src/Uploader.php:185-198 | for one file, the original, optimized and thumbnail paths are pairwise different |
| Layout.PathsDetermineFilename | src/Uploader.php:185-198 | each kind of path determines the file name it was built from |
| Layout.DerivedNeverHitsAnother | src/Uploader.php:185-198 | for slash-free names, no derived image path equals any original path, and no optimized path equals any thumbnail path |
| Images.OptimizedWidth | src/Uploader.php:185-187 | the optimized width is at most 1000 and at most the original width, and equals one of them |
| Images.CreateOptimized | src/Uploader.php:183-188 | reads the original path; writes the optimized path at exactly min(original width, 1000) at quality 60; fails iff the original is unreadable |
| Images.CreateThumbnail | src/Uploader.php:196-199 | reads the original path; writes the thumbnail path at width exactly 100 with the default quality; fails iff the original is unreadable |
| Images.Derive | src/Uploader.php:115-119 | a readable original gets the optimized image and then the thumbnail; an unreadable one gets nothing and the exception escapes |
| Images.DeriveKeepsOriginal | src/Uploader.php:165-169 | the derived writes of a file never target its original, and the two derived images never share a target |
| Effects.Message | src/Uploader.php:230-243 | the limit in a size rejection parses back to the limit, and the client's file name can be read back from a failed document upload's message |
| Uploads.StoredPictureName | src/Uploader.php:110 | the first '.' of a picture's stored name ends the id's decimal text, which parses back to the id, and the client's extension follows unchanged |
| Uploads.StoredDocumentName | src/Uploader.php:222 | the first '.' of a document's stored name ends the id's decimal text, which parses back to the id, and the extension after it is lower case and equal to the client's up to case |
| Uploads.Picture | src/Uploader.php:98-140 | size, then extension, then MIME failures throw with no move; an accepted file is moved into "original/" as id.ext; a failed move throws; a moved but unreadable original lets the image library's exception escape after the move, with no write; success iff accepted, moved and readable, with url = optimized_url = path+name, original_url, thumbnail_url and delete_type "DELETE" |
| Uploads.Document | src/Uploader.php:210-231 | extension, then MIME, then size failures throw with no move; an accepted file is moved into path itself as id.lower(ext); returns true iff accepted and moved, and otherwise names the client file in the exception |
| Uploads.PictureUrlsMatchWrites | src/Uploader.php:113-131 | after a successful picture upload, exactly three effects happened, and the returned original, optimized and thumbnail URLs are the paths those effects moved to or wrote |
| Uploads.FailedMoveDerivesNothing | src/Uploader.php:138-139 | when the move fails no image is derived and the picture upload fails |
| Uploads.PictureNameRoundTrip | src/Uploader.php:110 | a stored picture name reads back as the id and the extension in the client's own case |
| Uploads.DocumentNameRoundTrip | src/Uploader.php:222 | a stored document name reads back as the id and the lower-cased extension |
| Uploads.StoredNamesDistinguishIds | src/Uploader.php:110 | different ids never share a stored picture or document name, whatever the extensions |
| Uploads.StoredNameCase | src/Uploader.php:222 | id 7 with "JPG" is stored as "7.JPG" for a picture; with "PDF" it is stored as "7.pdf" for a document |
| Uploads.CheckOrderDiffers | src/Uploader.php:212-219 | an oversized .exe is rejected as too large by picture but for its extension by document |
| Uploads.AcceptanceIsOrderFree | src/Uploader.php:100-107 | a file reaches the move exactly when it passes all three checks of its kind, whatever their order |
| Reprocess.Sweep | src/Uploader.php:157-171 | the sweep makes at most two writes per listed entry, and, with every save assumed to succeed, the only exception that can end it is an unreadable image |
| Reprocess.SweepWritesOnlyDerived | src/Uploader.php:163-169 | every write of the sweep is the optimized image or the thumbnail of an eligible entry, read from that entry's original |
| Reprocess.SweepFailsIff | src/Uploader.php:165-169 | the sweep fails iff some eligible original is unreadable (both directions), and the exception names such an original |
| Reprocess.SweepStopsAtFirstUnreadable | src/Uploader.php:157-171 | the sweep stops at the first eligible entry in iteration order whose original is unreadable: the exception names that original, and the writes are exactly the derived images of the eligible entries before it |
| Reprocess.Reprocess | src/Uploader.php:151-172 | a missing original directory throws before any write; otherwise the loop's effects and outcome are those of the recursive sweep |
| Reprocess.Eligible | src/Uploader.php:163 | the entry filter: not a dot entry, not a directory, extension not "gitignore"; a definition without a contract, given meaning by Reprocess.Survivors and Reprocess.SweepIgnoresIneligible |
| Reprocess.Survivors | src/Uploader.php:163 | an entry survives iff it is in the listing and is not dot, not a directory and not a gitignore file |
| Reprocess.Writes | src/Uploader.php:165-169 | for the i-th file, write 2i is its optimized image and write 2i+1 its thumbnail |
| Reprocess.SweepOfReadable | src/Uploader.php:157-171 | when every eligible original is readable, the sweep succeeds and its writes are exactly the survivors' derived images, in iteration order, optimized before thumbnail |
| Reprocess.SweepCount | src/Uploader.php:163-170 | a successful sweep makes exactly two writes per surviving entry |
| Reprocess.SweepAppend | src/Uploader.php:157 | sweeping a + b is sweeping a and then b, unless a already failed |
| Reprocess.SweepIgnoresIneligible | src/Uploader.php:163 | inserting a dot entry, a directory or a gitignore file anywhere in the listing changes nothing |
| Reprocess.SweepCoversSurvivors | src/Uploader.php:163-170 | after a successful sweep every eligible entry has both its optimized image and its thumbnail written |
| Reprocess.SweepKeepsOriginals | src/Uploader.php:154-169 | with slash-free entry names, the sweep never writes over any original file |
| Reprocess.PictureDerivesLikeReprocess | src/Uploader.php:116-119 | an accepted, moved picture derives exactly what reprocess derives for its stored file alone |

## Left out

- Image decoding, resizing and encoding are done by the Intervention image library. An image is reduced to its width, and a write to its source, target, width and quality. Height and aspect ratio are not modelled.
- Images.CreateOptimized, Images.CreateThumbnail, Images.Derive, Reprocess.Sweep, Reprocess.SweepFailsIff, Uploads.Picture, Reprocess.SweepOfReadable, Reprocess.SweepStopsAtFirstUnreadable: every `save` is assumed to succeed. A write that fails is not modelled, for example when `thumbnail/` is missing; nothing in `Uploader` creates that folder. In the program such a failure throws after the optimized image was written, failing `picture` after the move and stopping `reprocess`. So "fails iff the original is unreadable" holds of the model only, and the thumbnail-failure branch of Images.Derive is unreachable in it.
- The thumbnail is saved without a quality argument, so it uses the library's default; the model records that as `None` and does not fix the number.
- `UploadedFile::move` is the boolean `moved`. Where it fails, the library may throw its own exception rather than return a falsy value; that exception is not modelled separately.
- The file system is not modelled: what exists, what a write replaces, and the state a second run would see are not tracked.
- `DirectoryIterator` is the given listing in iteration order, with each entry's dot, directory and extension flags as the iterator reports them. The model does not derive the extension from the name.
- `set_time_limit(30)` gives each entry of the sweep a 30-second budget; an entry that takes longer ends the whole request with a fatal time-out. Execution time is not modelled, so that time-out is not either.
- The ids are modelled as integers rendered the way PHP renders an int. A non-integer id is not modelled.
- `getSize()` returning a non-integer is not modelled. A missing MIME type is modelled as the empty string, which no list contains.
- `in_array` uses loose comparison. Every allow-list entry is a non-numeric string, so it behaves as plain string equality, and the model uses equality.
- `strtolower` is modelled as ASCII lower-casing. Locale-dependent lower-casing of non-ASCII bytes is not modelled.
- The messages of the two foreign exceptions (missing directory, unreadable image) are not modelled; only the kind and the path are kept.
- src/Commands/UploaderReprocessCommand.php is left out. It is console glue, and it passes an overwrite flag and reads counts that this `reprocess` neither takes nor returns.
- src/config/uploader.php is left out because this class never reads it; its lists differ from the hard-coded ones.
- src/UploaderServiceProvider.php, src/UploaderInterface.php and both UploaderException classes are left out. They are framework binding, an interface declaration and trivial exception subclasses.
