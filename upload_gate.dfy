/**
 * The `uploader` middleware: either skip the upload, or run multer and map
 * its outcome to an accepted file or an HTTP status.
 */
module UploadGate {
  import opened Common
  import opened Text

  /** The kinds of `MulterError` (limits and unexpected fields). */
  datatype MulterCode = LimitFileSize | LimitUnexpectedFile | OtherLimit

  /**
   * What multer stored: the generated `filename`, the client's
   * `originalname` and `mimetype`, and the bytes written (so `size` is their count).
   */
  datatype StoredFile = StoredFile(filename: string, originalName: string, mimetype: string, content: Bytes)
  {
    function Size(): nat { |content| }
  }

  /** How multer's callback was reached: with a `MulterError`, another error, no `req.file`, or a stored file. */
  datatype UploadOutcome = MulterError(code: MulterCode) | UnknownError | NoFile | Stored(file: StoredFile)

  /** The decision of the gate: `next()` without upload, `next(createError(status))`, or `next()` with `req.file`. */
  datatype GateResult = Skipped | Rejected(status: int) | Accepted(file: StoredFile)

  /** The status the gate reports for an outcome that is not a stored file. */
  function RejectionStatus(outcome: UploadOutcome): int
    requires !outcome.Stored?
  {
    match outcome
    case MulterError(_) => 403
    case UnknownError => 500
    case NoFile => 400
  }

  function Gate(skipFileUpload: Option<string>, outcome: UploadOutcome): (g: GateResult)
    ensures g.Skipped? <==> IsTrueFlag(skipFileUpload)
    ensures g.Accepted? <==> !IsTrueFlag(skipFileUpload) && outcome.Stored?
    ensures g.Accepted? ==> g.file == outcome.file
    ensures g == Rejected(403) <==> !IsTrueFlag(skipFileUpload) && outcome.MulterError?
    ensures g == Rejected(500) <==> !IsTrueFlag(skipFileUpload) && outcome.UnknownError?
    ensures g == Rejected(400) <==> !IsTrueFlag(skipFileUpload) && outcome.NoFile?
  {
    if IsTrueFlag(skipFileUpload) then Skipped
    else if outcome.Stored? then Accepted(outcome.file)
    else Rejected(RejectionStatus(outcome))
  }

  /**
   * Client faults (a multer limit, a missing file) are reported in the 4xx
   * class, anything else multer reports is a 500; an exceeded size ceiling in
   * particular is a 403 and never a server error.
   */
  lemma RejectionClasses(skipFileUpload: Option<string>, outcome: UploadOutcome)
    requires Gate(skipFileUpload, outcome).Rejected?
    ensures var c := Gate(skipFileUpload, outcome).status;
      (400 <= c < 500 <==> outcome.MulterError? || outcome.NoFile?) &&
      (c == 500 <==> outcome.UnknownError?) &&
      (outcome == MulterError(LimitFileSize) ==> c == 403)
  {
  }
}
