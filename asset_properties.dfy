/** What the file routes promise, stated about the transition functions of `Assets`. */
module AssetProperties {
  import opened Common
  import opened Text
  import opened UploadGate
  import opened Assets

  // ---------------------------------------------------------------------
  // POST /

  /**
   * POST answers 201 exactly when the gate accepted a stored file and the id
   * is new; the document names the generated file, copies the upload's
   * metadata, and multer's blob is the only other change.
   */
  lemma PostCreatesDocument(s: Stores, skip: Option<string>, outcome: UploadOutcome,
                            category: Option<string>, description: Option<string>, id: string, now: int)
    ensures var (t, r) := Post(s, skip, outcome, category, description, id, now);
      && (r.Document? <==> !IsTrueFlag(skip) && outcome.Stored? && id !in s.docs)
      && (r.Document? ==>
            var f := outcome.file;
            && r.status == 201 && r.id == id
            && r.doc == FileDoc(f.filename, f.originalName, f.mimetype, |f.content|, category, description)
            && t == Stores(s.blobs[f.filename := Blob(f.content, now)], s.thumbs, s.docs[id := r.doc]))
  {
  }

  /** Every POST that creates nothing leaves the documents and thumbnails as they were. */
  lemma PostFailures(s: Stores, skip: Option<string>, outcome: UploadOutcome,
                     category: Option<string>, description: Option<string>, id: string, now: int)
    ensures var (t, r) := Post(s, skip, outcome, category, description, id, now);
      && (r.Failure? <==> !r.Document?)
      && (r.Failure? ==> t.docs == s.docs && t.thumbs == s.thumbs && r.status in {400, 403, 500})
      && (IsTrueFlag(skip) ==> t == s && r == Failure(500))
      && (!IsTrueFlag(skip) && !outcome.Stored? ==> t == s && r == Failure(RejectionStatus(outcome)))
      && (!IsTrueFlag(skip) && outcome.Stored? && id in s.docs ==>
            r == Failure(500) && outcome.file.filename in t.blobs)
  {
  }

  // ---------------------------------------------------------------------
  // Thumbnails

  /** A current thumbnail is reused as it is. */
  lemma ReuseCurrentThumbnail(blobs: map<string, Blob>, thumbs: map<string, Blob>, name: string,
                              encode: Bytes -> Option<Bytes>, now: int)
    requires name in blobs && Basename(name) in thumbs
    requires blobs[name].mtime < thumbs[Basename(name)].mtime
    ensures GenerateThumbnail(blobs, thumbs, name, encode, now) == ThumbReady(thumbs, Basename(name))
  {
  }

  /**
   * A missing thumbnail, or one not strictly newer than its source (equal
   * times included), is encoded afresh from the source and written at `now`
   * under the source's basename; a failed encoding writes nothing.
   */
  lemma RegenerateStaleThumbnail(blobs: map<string, Blob>, thumbs: map<string, Blob>, name: string,
                                 encode: Bytes -> Option<Bytes>, now: int)
    requires name in blobs
    requires Basename(name) in thumbs ==> thumbs[Basename(name)].mtime <= blobs[name].mtime
    ensures var r := GenerateThumbnail(blobs, thumbs, name, encode, now);
      match encode(blobs[name].content)
      case None => r == ThumbFailed
      case Some(jpeg) => r == ThumbReady(thumbs[Basename(name) := Blob(jpeg, now)], Basename(name))
  {
  }

  /** Generation never touches a thumbnail other than the source's own. */
  lemma ThumbnailTouchesOnlyItsKey(blobs: map<string, Blob>, thumbs: map<string, Blob>, name: string,
                                   encode: Bytes -> Option<Bytes>, now: int, other: string)
    requires other != Basename(name)
    ensures var r := GenerateThumbnail(blobs, thumbs, name, encode, now);
      r.ThumbReady? ==> (other in r.thumbs <==> other in thumbs) &&
                        (other in thumbs ==> r.thumbs[other] == thumbs[other])
  {
    var key := Basename(name);
    if name in blobs && !(key in thumbs && IsCurrent(blobs[name].mtime, thumbs[key].mtime)) {
      var jpeg := encode(blobs[name].content);
      if jpeg.Some? {
        var t := thumbs[key := Blob(jpeg.value, now)];
        assert GenerateThumbnail(blobs, thumbs, name, encode, now) == ThumbReady(t, key);
      }
    }
  }

  /**
   * Once a thumbnail has been produced at a time later than the source's,
   * asking again reuses it: no rewrite, the same bytes.
   */
  lemma {:induction false} SecondGenerationReuses(blobs: map<string, Blob>, thumbs: map<string, Blob>, name: string,
                                                  encode: Bytes -> Option<Bytes>, now: int, later: int)
    requires name in blobs && blobs[name].mtime < now
    ensures var r := GenerateThumbnail(blobs, thumbs, name, encode, now);
      r.ThumbReady? ==> GenerateThumbnail(blobs, r.thumbs, name, encode, later) == r
  {
    var key := Basename(name);
    var r := GenerateThumbnail(blobs, thumbs, name, encode, now);
    if key in thumbs && IsCurrent(blobs[name].mtime, thumbs[key].mtime) {
      ReuseCurrentThumbnail(blobs, thumbs, name, encode, now);
      ReuseCurrentThumbnail(blobs, thumbs, name, encode, later);
    } else {
      var jpeg := encode(blobs[name].content);
      if jpeg.Some? {
        var t := thumbs[key := Blob(jpeg.value, now)];
        RegenerateStaleThumbnail(blobs, thumbs, name, encode, now);
        assert r == ThumbReady(t, key);
        ReuseCurrentThumbnail(blobs, t, name, encode, later);
      }
    }
  }

  // ---------------------------------------------------------------------
  // GET /:id

  /**
   * GET answers 404 without a document or without its blob, 403 for a
   * thumbnail of a non-image, and otherwise the primary blob or the
   * thumbnail under the blob's basename, always with the stored mimetype.
   * Only the thumbnail store can change, and only at that basename.
   */
  lemma RetrieveReplies(s: Stores, id: string, thumbnail: Option<string>,
                        encode: Bytes -> Option<Bytes>, now: int)
    ensures var (t, r) := Retrieve(s, id, thumbnail, encode, now);
      && t.blobs == s.blobs && t.docs == s.docs
      && (id !in s.docs ==> t == s && r == Failure(404))
      && (id in s.docs && s.docs[id].name !in s.blobs ==> t == s && r == Failure(404))
      && (id in s.docs && s.docs[id].name in s.blobs ==>
            var d := s.docs[id];
            && (!IsTrueFlag(thumbnail) ==>
                  t == s && r == Content(d.mimetype, Primary(d.name), s.blobs[d.name].content))
            && (IsTrueFlag(thumbnail) && !IsImageType(d.mimetype) ==> t == s && r == Failure(403))
            && (IsTrueFlag(thumbnail) && IsImageType(d.mimetype) ==>
                  (r == Failure(500) && t == s) ||
                  (r.Content? && r.contentType == d.mimetype && r.location == Thumbnail(Basename(d.name)) &&
                   Basename(d.name) in t.thumbs && r.body == t.thumbs[Basename(d.name)].content))
            && (forall k :: k != Basename(d.name) ==>
                  (k in t.thumbs <==> k in s.thumbs) && (k in s.thumbs ==> t.thumbs[k] == s.thumbs[k])))
      && (id !in s.docs || s.docs[id].name !in s.blobs ==> t.thumbs == s.thumbs)
  {
    if id in s.docs && s.docs[id].name in s.blobs {
      var d := s.docs[id];
      forall k | k != Basename(d.name)
        ensures var t := Retrieve(s, id, thumbnail, encode, now).0;
          (k in t.thumbs <==> k in s.thumbs) && (k in s.thumbs ==> t.thumbs[k] == s.thumbs[k])
      {
        ThumbnailTouchesOnlyItsKey(s.blobs, s.thumbs, d.name, encode, now, k);
      }
    }
  }

  /**
   * GET answers 500 exactly when an image thumbnail is asked for, its
   * document and blob exist, no current thumbnail can be reused, and the
   * encoding fails.
   */
  lemma ThumbnailFailureIs500(s: Stores, id: string, thumbnail: Option<string>,
                              encode: Bytes -> Option<Bytes>, now: int)
    ensures Retrieve(s, id, thumbnail, encode, now).1 == Failure(500) <==>
      && id in s.docs && s.docs[id].name in s.blobs
      && IsTrueFlag(thumbnail) && IsImageType(s.docs[id].mimetype)
      && !(Basename(s.docs[id].name) in s.thumbs &&
           IsCurrent(s.blobs[s.docs[id].name].mtime, s.thumbs[Basename(s.docs[id].name)].mtime))
      && encode(s.blobs[s.docs[id].name].content).None?
  {
  }

  /** In consistent stores a document's blob is always there to be served. */
  lemma ConsistentRetrieveFindsBlob(s: Stores, id: string, thumbnail: Option<string>,
                                    encode: Bytes -> Option<Bytes>, now: int)
    requires Consistent(s) && id in s.docs
    ensures Retrieve(s, id, thumbnail, encode, now).1 != Failure(404)
  {
  }

  /**
   * Two thumbnail requests in a row, the first made after the source was
   * last written: the second gives the same reply and changes nothing.
   */
  lemma {:induction false} RepeatedThumbnailRequest(s: Stores, id: string, thumbnail: Option<string>,
                                                    encode: Bytes -> Option<Bytes>, now: int, later: int)
    requires id in s.docs && s.docs[id].name in s.blobs && s.blobs[s.docs[id].name].mtime < now
    ensures var (t1, r1) := Retrieve(s, id, thumbnail, encode, now);
      r1.Content? ==> Retrieve(t1, id, thumbnail, encode, later) == (t1, r1)
  {
    var d := s.docs[id];
    if IsTrueFlag(thumbnail) && IsImageType(d.mimetype) {
      SecondGenerationReuses(s.blobs, s.thumbs, d.name, encode, now, later);
    }
  }

  /**
   * A thumbnail request for an image whose thumbnail is missing or not newer
   * than the blob answers the encoding of the blob's current bytes and
   * stores it at `now` under the blob's basename.
   */
  lemma {:induction false} StaleThumbnailIsEncoded(s: Stores, id: string, thumbnail: Option<string>,
                                                   encode: Bytes -> Option<Bytes>, now: int)
    requires id in s.docs && s.docs[id].name in s.blobs
    requires IsTrueFlag(thumbnail) && IsImageType(s.docs[id].mimetype)
    requires var key := Basename(s.docs[id].name);
      key in s.thumbs ==> s.thumbs[key].mtime <= s.blobs[s.docs[id].name].mtime
    requires encode(s.blobs[s.docs[id].name].content).Some?
    ensures var d := s.docs[id];
      var key := Basename(d.name);
      var jpeg := encode(s.blobs[d.name].content).value;
      Retrieve(s, id, thumbnail, encode, now)
        == (s.(thumbs := s.thumbs[key := Blob(jpeg, now)]), Content(d.mimetype, Thumbnail(key), jpeg))
  {
    var d := s.docs[id];
    RegenerateStaleThumbnail(s.blobs, s.thumbs, d.name, encode, now);
  }

  // ---------------------------------------------------------------------
  // DELETE /:id

  /**
   * DELETE of an existing document removes it and unlinks its blob,
   * answering 200 with the removed document whether or not the blob was
   * still there; of a missing one, answers 404 and changes nothing.
   * Thumbnails are never removed.
   */
  lemma RemoveReplies(s: Stores, id: string)
    ensures var (t, r) := Remove(s, id);
      && t.thumbs == s.thumbs
      && (id in s.docs ==>
            t.docs == s.docs - {id} && t.blobs == s.blobs - {s.docs[id].name} &&
            r == Document(200, id, s.docs[id]))
      && (id !in s.docs ==> t == s && r == Failure(404))
  {
  }

  /** Deleting twice: the second request finds no document and changes nothing. */
  lemma RemoveTwice(s: Stores, id: string)
    ensures var t := Remove(s, id).0; Remove(t, id) == (t, Failure(404))
  {
  }

  /** After a delete, the document can no longer be retrieved. */
  lemma RetrieveAfterRemove(s: Stores, id: string, thumbnail: Option<string>,
                            encode: Bytes -> Option<Bytes>, now: int)
    ensures Retrieve(Remove(s, id).0, id, thumbnail, encode, now).1 == Failure(404)
  {
  }

  // ---------------------------------------------------------------------
  // PATCH /:id

  /** The update sets exactly the supplied fields, and the file fields only with a new file. */
  lemma UpdateSetsSuppliedFields(d: FileDoc, category: Option<string>, description: Option<string>,
                                 file: Option<StoredFile>)
    ensures var u := ApplyUpdate(d, category, description, file);
      && u.category == (if category.Some? then category else d.category)
      && u.description == (if description.Some? then description else d.description)
      && (file.None? ==> u.name == d.name && u.originalName == d.originalName &&
                         u.mimetype == d.mimetype && u.size == d.size)
      && (file.Some? ==> u.name == file.value.filename && u.originalName == file.value.originalName &&
                         u.mimetype == file.value.mimetype && u.size == |file.value.content|)
  {
  }

  /** Supplying nothing leaves the document as it is; applying the same update twice is applying it once. */
  lemma UpdateIdentityAndIdempotence(d: FileDoc, category: Option<string>, description: Option<string>,
                                     file: Option<StoredFile>)
    ensures ApplyUpdate(d, None, None, None) == d
    ensures var u := ApplyUpdate(d, category, description, file);
      ApplyUpdate(u, category, description, file) == u
  {
  }

  /**
   * PATCH of an existing document: rejected uploads change nothing; else the
   * document is updated, and the old blob is unlinked exactly when the name
   * changed. Without a new file the name stays, so no blob is removed.
   */
  lemma PatchReplies(s: Stores, id: string, skip: Option<string>, outcome: UploadOutcome,
                     category: Option<string>, description: Option<string>, now: int)
    ensures var (t, r) := Patch(s, id, skip, outcome, category, description, now);
      var g := Gate(skip, outcome);
      && t.thumbs == s.thumbs
      && (g.Rejected? ==> t == s && r == Failure(g.status))
      && (!g.Rejected? && id in s.docs ==>
            var before := s.docs[id];
            var file := if g.Accepted? then Some(g.file) else None;
            var after := ApplyUpdate(before, category, description, file);
            var uploaded := if g.Accepted? then s.blobs[g.file.filename := Blob(g.file.content, now)] else s.blobs;
            && r == Document(200, id, after)
            && t.docs == s.docs[id := after]
            && t.blobs == (if before.name != after.name then uploaded - {before.name} else uploaded)
            && (g.Skipped? ==> t.blobs == s.blobs))
  {
  }

  /**
   * PATCH of a missing document answers 500 whenever the gate let the
   * request through: no document changes, every blob that existed before is
   * still there, and a newly stored file stays behind with no document.
   */
  lemma PatchMissingDocumentKeepsBlobs(s: Stores, id: string, skip: Option<string>, outcome: UploadOutcome,
                                       category: Option<string>, description: Option<string>, now: int)
    requires id !in s.docs
    ensures var (t, r) := Patch(s, id, skip, outcome, category, description, now);
      var g := Gate(skip, outcome);
      && (r == Failure(500) || r == Failure(400) || r == Failure(403))
      && t.docs == s.docs
      && (forall n :: n in s.blobs ==> n in t.blobs)
      && (!g.Rejected? ==> r == Failure(500))
      && (g.Accepted? ==> t.blobs == s.blobs[g.file.filename := Blob(g.file.content, now)])
  {
  }

  // ---------------------------------------------------------------------
  // Consistency of documents and blobs

  /** A freshly generated name does not clash with any stored blob. */
  predicate FreshUpload(s: Stores, outcome: UploadOutcome)
  {
    outcome.Stored? ==> outcome.file.filename !in s.blobs
  }

  lemma PostPreservesConsistency(s: Stores, skip: Option<string>, outcome: UploadOutcome,
                                 category: Option<string>, description: Option<string>, id: string, now: int)
    requires Consistent(s) && FreshUpload(s, outcome)
    ensures Consistent(Post(s, skip, outcome, category, description, id, now).0)
  {
  }

  lemma RetrievePreservesConsistency(s: Stores, id: string, thumbnail: Option<string>,
                                     encode: Bytes -> Option<Bytes>, now: int)
    requires Consistent(s)
    ensures Consistent(Retrieve(s, id, thumbnail, encode, now).0)
  {
  }

  lemma RemovePreservesConsistency(s: Stores, id: string)
    requires Consistent(s)
    ensures Consistent(Remove(s, id).0)
  {
  }

  lemma PatchPreservesConsistency(s: Stores, id: string, skip: Option<string>, outcome: UploadOutcome,
                                  category: Option<string>, description: Option<string>, now: int)
    requires Consistent(s) && FreshUpload(s, outcome)
    ensures Consistent(Patch(s, id, skip, outcome, category, description, now).0)
  {
  }

  // ---------------------------------------------------------------------
  // A whole life cycle

  /**
   * Upload an image, then ask twice for its thumbnail: 201; the encoding of
   * the image under the blob's basename; the same reply again, with no rewrite.
   */
  lemma {:induction false} UploadThenThumbnail(s: Stores, id: string, a: StoredFile, thumbnail: Option<string>,
                                               encode: Bytes -> Option<Bytes>, t0: int, t1: int, t2: int)
    requires id !in s.docs && Basename(a.filename) !in s.thumbs
    requires IsTrueFlag(thumbnail) && IsImageType(a.mimetype) && encode(a.content).Some? && t0 < t1
    ensures var d := NewDocument(a, None, None);
      var s1 := Stores(s.blobs[a.filename := Blob(a.content, t0)], s.thumbs, s.docs[id := d]);
      var key := Basename(a.filename);
      var s2 := s1.(thumbs := s1.thumbs[key := Blob(encode(a.content).value, t1)]);
      var r2 := Content(a.mimetype, Thumbnail(key), encode(a.content).value);
      && Post(s, None, Stored(a), None, None, id, t0) == (s1, Document(201, id, d))
      && Retrieve(s1, id, thumbnail, encode, t1) == (s2, r2)
      && Retrieve(s2, id, thumbnail, encode, t2) == (s2, r2)
  {
    var d := NewDocument(a, None, None);
    var s1 := Stores(s.blobs[a.filename := Blob(a.content, t0)], s.thumbs, s.docs[id := d]);
    PostCreatesDocument(s, None, Stored(a), None, None, id, t0);
    StaleThumbnailIsEncoded(s1, id, thumbnail, encode, t1);
    RepeatedThumbnailRequest(s1, id, thumbnail, encode, t1, t2);
  }

  /**
   * Upload a file, replace it by another, then fetch it: 201; 200 with the
   * document naming the new blob and the old blob gone; the new file's bytes.
   */
  lemma {:induction false} ReplaceThenFetch(s: Stores, id: string, a: StoredFile, b: StoredFile,
                                            encode: Bytes -> Option<Bytes>, t0: int, t1: int)
    requires id !in s.docs && a.filename != b.filename
    ensures var (s1, r1) := Post(s, None, Stored(a), None, None, id, t0);
      && r1 == Document(201, id, NewDocument(a, None, None))
      && var (s2, r2) := Patch(s1, id, None, Stored(b), None, None, t1);
      && r2 == Document(200, id, NewDocument(b, None, None))
      && a.filename !in s2.blobs
      && Retrieve(s2, id, None, encode, t1) == (s2, Content(b.mimetype, Primary(b.filename), b.content))
  {
    var d := NewDocument(a, None, None);
    var s1 := Stores(s.blobs[a.filename := Blob(a.content, t0)], s.thumbs, s.docs[id := d]);
    PostCreatesDocument(s, None, Stored(a), None, None, id, t0);
    assert Post(s, None, Stored(a), None, None, id, t0) == (s1, Document(201, id, d));

    var e := NewDocument(b, None, None);
    var s2 := Stores(s1.blobs[b.filename := Blob(b.content, t1)] - {a.filename}, s1.thumbs, s1.docs[id := e]);
    PatchReplies(s1, id, None, Stored(b), None, None, t1);
    assert ApplyUpdate(d, None, None, Some(b)) == e;
    assert Patch(s1, id, None, Stored(b), None, None, t1) == (s2, Document(200, id, e));
    assert s2.blobs[b.filename] == Blob(b.content, t1);
  }
}
