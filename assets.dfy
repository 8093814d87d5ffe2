/**
 * The file routes as state transitions over three stores: the blob
 * directory, the thumbnail directory and the collection of file documents.
 * Each handler is a function from the stores before the request to the
 * stores after it and the reply sent.
 */
module Assets {
  import opened Common
  import opened Text
  import opened UploadGate

  /** A file on disk: its bytes and its modification time (whole milliseconds). */
  datatype Blob = Blob(content: Bytes, mtime: int)

  /** A file document of the database. */
  datatype FileDoc = FileDoc(
    name: string,
    originalName: string,
    mimetype: string,
    size: nat,
    category: Option<string>,
    description: Option<string>)

  /**
   * `blobs`: the upload directory, by generated name; `thumbs`: the
   * `thumbnails` directory, by basename; `docs`: file documents, by id.
   */
  datatype Stores = Stores(blobs: map<string, Blob>, thumbs: map<string, Blob>, docs: map<string, FileDoc>)

  /** Which file a GET serves. */
  datatype Location = Primary(name: string) | Thumbnail(key: string)

  /** What a handler answers. */
  datatype Reply =
    | Failure(status: int)
    | Document(status: int, id: string, doc: FileDoc)
    | Content(contentType: string, location: Location, body: Bytes)
    | Listing(docs: map<string, FileDoc>)

  /** Every document refers to a stored blob, and no two documents share one. */
  predicate Consistent(s: Stores)
  {
    && (forall id :: id in s.docs ==> s.docs[id].name in s.blobs)
    && (forall i, j :: i in s.docs && j in s.docs && i != j ==> s.docs[i].name != s.docs[j].name)
  }

  // ---------------------------------------------------------------------
  // Thumbnail generation

  /** A thumbnail may be reused only when the source is strictly older than it. */
  predicate IsCurrent(sourceMtime: int, thumbMtime: int)
  {
    sourceMtime < thumbMtime
  }

  datatype ThumbResult = ThumbFailed | ThumbReady(thumbs: map<string, Blob>, key: string)

  /**
   * `generateThumbnail` for the blob called `name`: reuse a current
   * thumbnail under the blob's basename, or encode the source with
   * `encode` (resize and JPEG conversion) and write the result there at
   * time `now`. A missing source or a failed encoding rejects.
   */
  function GenerateThumbnail(blobs: map<string, Blob>, thumbs: map<string, Blob>, name: string,
                             encode: Bytes -> Option<Bytes>, now: int): (r: ThumbResult)
    ensures r.ThumbReady? ==> r.key == Basename(name) && r.key in r.thumbs
  {
    var key := Basename(name);
    if key in thumbs && name in blobs && IsCurrent(blobs[name].mtime, thumbs[key].mtime) then
      ThumbReady(thumbs, key)
    else if name !in blobs then
      ThumbFailed
    else match encode(blobs[name].content)
      case None => ThumbFailed
      case Some(jpeg) => ThumbReady(thumbs[key := Blob(jpeg, now)], key)
  }

  // ---------------------------------------------------------------------
  // Handlers

  /** The `uploader` middleware: multer writes the blob only when it accepts the file. */
  function Upload(s: Stores, skipFileUpload: Option<string>, outcome: UploadOutcome, now: int): (Stores, GateResult)
  {
    var g := Gate(skipFileUpload, outcome);
    if g.Accepted? then (s.(blobs := s.blobs[g.file.filename := Blob(g.file.content, now)]), g)
    else (s, g)
  }

  /** GET `/`: every document. */
  function List(s: Stores): Reply
  {
    Listing(s.docs)
  }

  /** The document POST creates from a stored upload. */
  function NewDocument(f: StoredFile, category: Option<string>, description: Option<string>): FileDoc
  {
    FileDoc(f.filename, f.originalName, f.mimetype, f.Size(), category, description)
  }

  /**
   * POST `/`. Without `req.file` (skip flag) the destructuring throws and the
   * reply is 500; a document id already taken makes `save` fail with 500.
   */
  function Post(s: Stores, skipFileUpload: Option<string>, outcome: UploadOutcome,
                category: Option<string>, description: Option<string>, id: string, now: int): (Stores, Reply)
  {
    var (s1, g) := Upload(s, skipFileUpload, outcome, now);
    match g
    case Rejected(status) => (s1, Failure(status))
    case Skipped => (s1, Failure(500))
    case Accepted(f) =>
      if id in s1.docs then (s1, Failure(500))
      else
        var d := NewDocument(f, category, description);
        (s1.(docs := s1.docs[id := d]), Document(201, id, d))
  }

  /** GET `/:id`, optionally `?thumbnail=true`. */
  function Retrieve(s: Stores, id: string, thumbnail: Option<string>,
                    encode: Bytes -> Option<Bytes>, now: int): (Stores, Reply)
  {
    if id !in s.docs then (s, Failure(404))
    else
      var d := s.docs[id];
      if d.name !in s.blobs then (s, Failure(404))
      else if !IsTrueFlag(thumbnail) then (s, Content(d.mimetype, Primary(d.name), s.blobs[d.name].content))
      else if !IsImageType(d.mimetype) then (s, Failure(403))
      else match GenerateThumbnail(s.blobs, s.thumbs, d.name, encode, now)
        case ThumbFailed => (s, Failure(500))
        case ThumbReady(t, key) => (s.(thumbs := t), Content(d.mimetype, Thumbnail(key), t[key].content))
  }

  /** DELETE `/:id`: remove the document, then unlink its blob, tolerating a missing one. */
  function Remove(s: Stores, id: string): (Stores, Reply)
  {
    if id in s.docs then
      var d := s.docs[id];
      (s.(docs := s.docs - {id}, blobs := s.blobs - {d.name}), Document(200, id, d))
    else (s, Failure(404))
  }

  /**
   * The `findByIdAndUpdate` of PATCH with `omitUndefined`: only the supplied
   * metadata fields change, and the file fields only when a new file was stored.
   */
  function ApplyUpdate(d: FileDoc, category: Option<string>, description: Option<string>,
                       file: Option<StoredFile>): FileDoc
  {
    var meta := d.(category := if category.Some? then category else d.category,
                   description := if description.Some? then description else d.description);
    match file
    case None => meta
    case Some(f) => meta.(name := f.filename, originalName := f.originalName, mimetype := f.mimetype, size := f.Size())
  }

  /**
   * PATCH `/:id`. The document is updated first; the old blob is unlinked
   * afterwards, and only when the stored name changed. A missing document
   * makes `oldFile.name` throw: 500, with a blob the gate stored left behind.
   */
  function Patch(s: Stores, id: string, skipFileUpload: Option<string>, outcome: UploadOutcome,
                 category: Option<string>, description: Option<string>, now: int): (Stores, Reply)
  {
    var (s1, g) := Upload(s, skipFileUpload, outcome, now);
    if g.Rejected? then (s1, Failure(g.status))
    else if id !in s1.docs then (s1, Failure(500))
    else
      var before := s1.docs[id];
      var after := ApplyUpdate(before, category, description, if g.Accepted? then Some(g.file) else None);
      var s2 := s1.(docs := s1.docs[id := after]);
      if before.name != after.name then (s2.(blobs := s2.blobs - {before.name}), Document(200, id, after))
      else (s2, Document(200, id, after))
  }
}
