/** What an uploader call can do to the outside world, and how it can fail. */
module Effects {
  import opened Results
  import opened Text

  /** Every way a call of the uploader can end in an exception. The first five
      are the package's own UploaderException; the last two are raised by the
      collaborators (the directory iterator and the image library) and are not
      caught anywhere in the uploader. */
  datatype Error =
    | TooLarge(limit: int)
    | UnapprovedExtension(allowed: seq<string>)
    | UnapprovedType(allowed: seq<string>)
    | PictureNotUploaded
    | DocumentNotUploaded(clientName: string)
    | DirectoryMissing(directory: string)
    | ImageNotReadable(source: string)
  {
    predicate IsUploaderException() {
      !DirectoryMissing? && !ImageNotReadable?
    }
  }

  const SizeMessagePrefix: string := "File size is greater than " + "maximum allowed size of "
  const DocumentMessagePrefix: string := "Could not upload document "

  /** The message text of the uploader's own exceptions. The limit of a size
      rejection and the client's file name of a failed document move can be
      read back from the message. */
  function Message(e: Error): (m: string)
    requires e.IsUploaderException()
    ensures e.TooLarge? ==>
      && |SizeMessagePrefix| < |m| && m[|m| - 1] == '.'
      && ParseDecimal(m[|SizeMessagePrefix|..|m| - 1]) == Some(e.limit)
    ensures e.DocumentNotUploaded? ==>
      && |DocumentMessagePrefix| < |m| && m[|m| - 1] == '.'
      && m[|DocumentMessagePrefix|..|m| - 1] == e.clientName
  {
    match e
    case TooLarge(limit) =>
      DecimalRoundTrip(limit);
      SizeMessagePrefix + IntToDecimal(limit) + "."
    case UnapprovedExtension(allowed) =>
      "File does not have an approved extension: " + Join(allowed, ", ")
    case UnapprovedType(allowed) =>
      "File does not have an approved type: " + Join(allowed, ", ")
    case PictureNotUploaded =>
      "Could not upload picture."
    case DocumentNotUploaded(clientName) =>
      DocumentMessagePrefix + clientName + "."
  }

  /** An observable action: a call that moves the uploaded file into place,
      or writing an image derived from `source`, `width` pixels wide, at
      `quality` (None when the library's default quality is used). `Moved`
      records the call of the move whatever its result; whether the file
      actually moved is told by how the run ends. */
  datatype Effect =
    | Moved(directory: string, filename: string)
    | Saved(source: string, target: string, width: nat, quality: Option<nat>)

  /** The actions a call performed, in order, and how it ended. */
  datatype Run<+T> = Run(effects: seq<Effect>, outcome: Result<T, Error>)

  /** `run`, preceded by the actions in `before`. */
  function After<T>(before: seq<Effect>, run: Run<T>): (r: Run<T>)
    ensures r.outcome == run.outcome
    ensures |r.effects| == |before| + |run.effects|
    ensures r.effects[..|before|] == before && r.effects[|before|..] == run.effects
  {
    Run(before + run.effects, run.outcome)
  }
}
