/**
 * The router of `routes/api/files.js` as an object over the three stores.
 * Each handler updates the stores step by step in the order the route does,
 * and is proved to produce exactly the new stores and reply of its
 * transition function in `Assets`.
 */
module Files {
  import opened Common
  import opened Text
  import opened UploadGate
  import opened Assets

  class FileService {
    var blobs: map<string, Blob>
    var thumbs: map<string, Blob>
    var docs: map<string, FileDoc>

    function State(): Stores
      reads this
    {
      Stores(blobs, thumbs, docs)
    }

    constructor ()
      ensures State() == Stores(map[], map[], map[])
    {
      blobs, thumbs, docs := map[], map[], map[];
    }

    /** The `uploader` middleware; an accepted file has been written by multer at time `now`. */
    method Uploader(skipFileUpload: Option<string>, outcome: UploadOutcome, now: int) returns (g: GateResult)
      modifies this
      ensures (State(), g) == Upload(old(State()), skipFileUpload, outcome, now)
    {
      g := Gate(skipFileUpload, outcome);
      if g.Accepted? {
        blobs := blobs[g.file.filename := Blob(g.file.content, now)];
      }
    }

    /** GET `/`. */
    method ListFiles() returns (r: Reply)
      ensures r.Listing? && r.docs == docs
    {
      r := List(State());
    }

    /** POST `/`. */
    method PostFile(skipFileUpload: Option<string>, outcome: UploadOutcome,
                    category: Option<string>, description: Option<string>, id: string, now: int)
      returns (r: Reply)
      modifies this
      ensures (State(), r) == Post(old(State()), skipFileUpload, outcome, category, description, id, now)
    {
      var g := Uploader(skipFileUpload, outcome, now);
      if g.Rejected? {
        return Failure(g.status);
      }
      if g.Skipped? {
        // destructuring an undefined `req.file` throws
        return Failure(500);
      }
      var document := NewDocument(g.file, category, description);
      if id in docs {
        // `save` fails on a duplicate key
        return Failure(500);
      }
      docs := docs[id := document];
      r := Document(201, id, document);
    }

    /** `generateThumbnail`: `ok` when the thumbnail under `key` is ready. */
    method GenerateThumbnailFor(name: string, encode: Bytes -> Option<Bytes>, now: int)
      returns (ok: bool, key: string)
      modifies this
      ensures var spec := GenerateThumbnail(old(blobs), old(thumbs), name, encode, now);
        && ok == spec.ThumbReady?
        && key == Basename(name)
        && thumbs == (if ok then spec.thumbs else old(thumbs))
        && blobs == old(blobs) && docs == old(docs)
    {
      key := Basename(name);
      if key in thumbs && name in blobs && IsCurrent(blobs[name].mtime, thumbs[key].mtime) {
        return true, key;
      }
      if name !in blobs {
        return false, key;
      }
      var jpeg := encode(blobs[name].content);
      if jpeg.None? {
        return false, key;
      }
      thumbs := thumbs[key := Blob(jpeg.value, now)];
      ok := true;
    }

    /** GET `/:id`. */
    method GetFile(id: string, thumbnail: Option<string>, encode: Bytes -> Option<Bytes>, now: int)
      returns (r: Reply)
      modifies this
      ensures (State(), r) == Retrieve(old(State()), id, thumbnail, encode, now)
    {
      if id !in docs {
        return Failure(404);
      }
      var file := docs[id];
      var filePath := Primary(file.name);
      if file.name !in blobs {
        return Failure(404);
      }
      if IsTrueFlag(thumbnail) {
        if IsImageType(file.mimetype) {
          var ok, key := GenerateThumbnailFor(file.name, encode, now);
          if !ok {
            return Failure(500);
          }
          filePath := Thumbnail(key);
        } else {
          return Failure(403);
        }
      }
      var body := if filePath.Primary? then blobs[file.name].content else thumbs[filePath.key].content;
      r := Content(file.mimetype, filePath, body);
    }

    /** DELETE `/:id`. */
    method DeleteFile(id: string) returns (r: Reply)
      modifies this
      ensures (State(), r) == Remove(old(State()), id)
    {
      if id !in docs {
        return Failure(404);
      }
      var file := docs[id];
      docs := docs - {id};
      // unlinking an already missing blob is not an error
      blobs := blobs - {file.name};
      r := Document(200, id, file);
    }

    /** PATCH `/:id`. */
    method PatchFile(id: string, skipFileUpload: Option<string>, outcome: UploadOutcome,
                     category: Option<string>, description: Option<string>, now: int)
      returns (r: Reply)
      modifies this
      ensures (State(), r) == Patch(old(State()), id, skipFileUpload, outcome, category, description, now)
    {
      var g := Uploader(skipFileUpload, outcome, now);
      if g.Rejected? {
        return Failure(g.status);
      }
      var upload := if g.Accepted? then Some(g.file) else None;
      if id !in docs {
        // `oldFile` is null: reading its name throws
        return Failure(500);
      }
      var oldFile := docs[id];
      docs := docs[id := ApplyUpdate(oldFile, category, description, upload)];
      var newFile := docs[id];
      if oldFile.name != newFile.name {
        blobs := blobs - {oldFile.name};
      }
      r := Document(200, id, newFile);
    }
  }

  /**
   * A client of the service: upload a document, then replace its file:
   * the replacement names the new blob, and the old blob is gone while
   * the new one is served.
   */
  method ReplaceOnce(a: StoredFile, b: StoredFile, t0: int, t1: int) returns (created: Reply, patched: Reply, fetched: Reply)
    requires a.filename != b.filename
    ensures created == Document(201, "f", NewDocument(a, None, None))
    ensures patched == Document(200, "f", FileDoc(b.filename, b.originalName, b.mimetype, |b.content|, None, None))
    ensures fetched == Content(b.mimetype, Primary(b.filename), b.content)
  {
    var service := new FileService();
    created := service.PostFile(None, Stored(a), None, None, "f", t0);
    patched := service.PatchFile("f", None, Stored(b), None, None, t1);
    assert a.filename !in service.blobs;
    fetched := service.GetFile("f", None, _ => None, t1);
  }
}
