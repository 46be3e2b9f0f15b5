/**
 * The upload middleware factory: the MIME allow-list decision `fileFilter`
 * and the options `multerMiddleware` hands to multer. The middleware itself
 * (request parsing, buffering, size enforcement) belongs to multer.
 */
module Multer {
  import opened Types

  const InvalidMimeTypeMessage: string := "Invalid mime type"

  /** The parts of an incoming request multer exposes to a file filter. */
  datatype Request = Request(httpMethod: string, url: string, headers: map<string, string>)

  /** `Express.Multer.File` as the filter sees it, before the body is buffered. */
  datatype MulterFile = MulterFile(fieldname: string, originalname: string, encoding: string, mimetype: string)

  /** One invocation of multer's `cb`: `cb(error)` or `cb(null, acceptFile)`. */
  datatype Callback = Callback(error: Option<string>, acceptFile: Option<bool>)

  const AcceptCall: Callback := Callback(None, Some(true))
  const RejectCall: Callback := Callback(Some(InvalidMimeTypeMessage), None)

  /** Memory storage is the only storage the factory uses. */
  datatype Storage = MemoryStorage

  datatype Limits = Limits(fileSize: Option<int>)

  /** The options object passed to `multer(...)`. */
  datatype MulterConfig = MulterConfig(
    storage: Storage,
    fileFilter: (Request, MulterFile) -> seq<Callback>,
    limits: Limits)

  /** The allow-list admits a MIME type: no list admits everything. */
  predicate MimeAllowed(allowedMimes: Option<seq<string>>, mimetype: string) {
    allowedMimes.None? || mimetype in allowedMimes.value
  }

  /** The filter accepted the file: its callback calls include `cb(null, true)`. */
  predicate Accepted(calls: seq<Callback>) {
    AcceptCall in calls
  }

  /**
   * `fileFilter`: the sequence of callback invocations made for one file.
   * No allow-list: accept. MIME type not listed: reject with the
   * "Invalid mime type" error. Otherwise accept. Exactly one call on every path.
   */
  function FileFilter(req: Request, file: MulterFile, allowedMimes: Option<seq<string>>): (calls: seq<Callback>)
    ensures |calls| == 1
    ensures allowedMimes.None? ==> calls[0] == AcceptCall
    ensures allowedMimes.Some? && file.mimetype !in allowedMimes.value ==>
      calls[0].error == Some(InvalidMimeTypeMessage) && calls[0].acceptFile.None?
    ensures allowedMimes.Some? && file.mimetype in allowedMimes.value ==> calls[0] == AcceptCall
  {
    if allowedMimes.None? then [AcceptCall]
    else if file.mimetype !in allowedMimes.value then [RejectCall]
    else [AcceptCall]
  }

  /** `multerMiddleware`: memory storage, the allow-list filter, and `limits.fileSize` set to `maxSize`. */
  function MulterMiddleware(options: MulterOptions): (config: MulterConfig)
    ensures config.limits.fileSize == options.maxSize
    ensures forall req, file :: config.fileFilter(req, file) == FileFilter(req, file, options.allowedMimes)
  {
    MulterConfig(
      MemoryStorage,
      (req, file) => FileFilter(req, file, options.allowedMimes),
      Limits(options.maxSize))
  }

  // ---------------------------------------------------------------- lemmas

  /** The filter accepts exactly the files whose MIME type the allow-list admits. */
  lemma FileFilterAcceptsIffAllowed(req: Request, file: MulterFile, allowedMimes: Option<seq<string>>)
    ensures Accepted(FileFilter(req, file, allowedMimes)) <==> MimeAllowed(allowedMimes, file.mimetype)
  {
    var calls := FileFilter(req, file, allowedMimes);
    assert calls[0] in calls;
  }

  /** A present but empty allow-list rejects every file. */
  lemma EmptyAllowListRejectsAll(req: Request, file: MulterFile)
    ensures FileFilter(req, file, Some([])) == [RejectCall]
    ensures !Accepted(FileFilter(req, file, Some([])))
  {
  }

  /** The decision depends on the file's MIME type and the allow-list only. */
  lemma FileFilterIgnoresRequest(
    req1: Request, req2: Request, file1: MulterFile, file2: MulterFile, allowedMimes: Option<seq<string>>)
    requires file1.mimetype == file2.mimetype
    ensures FileFilter(req1, file1, allowedMimes) == FileFilter(req2, file2, allowedMimes)
  {
  }

  /** The middleware's filter makes the same decision as `fileFilter` for every request and file. */
  lemma MiddlewareFilterAcceptsIffAllowed(options: MulterOptions, req: Request, file: MulterFile)
    ensures Accepted(MulterMiddleware(options).fileFilter(req, file)) <==> MimeAllowed(options.allowedMimes, file.mimetype)
    ensures MulterMiddleware(options).storage == MemoryStorage
  {
    FileFilterAcceptsIffAllowed(req, file, options.allowedMimes);
  }
}
