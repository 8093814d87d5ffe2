/**
 * The router serving one request after another: what holds of every
 * sequence of requests, not just of one.
 */
module RequestRuns {
  import opened Common
  import opened Text
  import opened UploadGate
  import opened Assets
  import opened AssetProperties

  /** One request to the file routes, with the inputs its handler reads. */
  datatype Request =
    | ListRequest
    | PostRequest(skip: Option<string>, outcome: UploadOutcome, category: Option<string>,
                  description: Option<string>, id: string, now: int)
    | GetRequest(id: string, thumbnail: Option<string>, now: int)
    | DeleteRequest(id: string)
    | PatchRequest(id: string, skip: Option<string>, outcome: UploadOutcome, category: Option<string>,
                   description: Option<string>, now: int)

  /** The handler a request is routed to. */
  function Step(s: Stores, req: Request, encode: Bytes -> Option<Bytes>): (Stores, Reply)
  {
    match req
    case ListRequest => (s, List(s))
    case PostRequest(skip, outcome, category, description, id, now) =>
      Post(s, skip, outcome, category, description, id, now)
    case GetRequest(id, thumbnail, now) => Retrieve(s, id, thumbnail, encode, now)
    case DeleteRequest(id) => Remove(s, id)
    case PatchRequest(id, skip, outcome, category, description, now) =>
      Patch(s, id, skip, outcome, category, description, now)
  }

  /** The stores after serving `reqs` in order. */
  function Run(s: Stores, reqs: seq<Request>, encode: Bytes -> Option<Bytes>): Stores
    decreases |reqs|
  {
    if reqs == [] then s else Run(Step(s, reqs[0], encode).0, reqs[1..], encode)
  }

  /** The upload a request hands to multer, if any. */
  function UploadOf(req: Request): UploadOutcome
  {
    match req
    case PostRequest(_, outcome, _, _, _, _) => outcome
    case PatchRequest(_, _, outcome, _, _, _) => outcome
    case _ => NoFile
  }

  /** Every name multer generates along the run is new to the blob directory at that point. */
  predicate FreshRun(s: Stores, reqs: seq<Request>, encode: Bytes -> Option<Bytes>)
    decreases |reqs|
  {
    reqs == [] ||
    (FreshUpload(s, UploadOf(reqs[0])) && FreshRun(Step(s, reqs[0], encode).0, reqs[1..], encode))
  }

  lemma StepPreservesConsistency(s: Stores, req: Request, encode: Bytes -> Option<Bytes>)
    requires Consistent(s) && FreshUpload(s, UploadOf(req))
    ensures Consistent(Step(s, req, encode).0)
  {
    match req
    case ListRequest =>
    case PostRequest(skip, outcome, category, description, id, now) =>
      PostPreservesConsistency(s, skip, outcome, category, description, id, now);
    case GetRequest(id, thumbnail, now) =>
      RetrievePreservesConsistency(s, id, thumbnail, encode, now);
    case DeleteRequest(id) =>
      RemovePreservesConsistency(s, id);
    case PatchRequest(id, skip, outcome, category, description, now) =>
      PatchPreservesConsistency(s, id, skip, outcome, category, description, now);
  }

  /**
   * As long as generated names do not collide, every document keeps a blob
   * of its own through any sequence of requests.
   */
  lemma {:induction false} RunPreservesConsistency(s: Stores, reqs: seq<Request>, encode: Bytes -> Option<Bytes>)
    requires Consistent(s) && FreshRun(s, reqs, encode)
    ensures Consistent(Run(s, reqs, encode))
    decreases |reqs|
  {
    if reqs != [] {
      StepPreservesConsistency(s, reqs[0], encode);
      RunPreservesConsistency(Step(s, reqs[0], encode).0, reqs[1..], encode);
    }
  }

  lemma StepKeepsThumbnails(s: Stores, req: Request, encode: Bytes -> Option<Bytes>)
    ensures s.thumbs.Keys <= Step(s, req, encode).0.thumbs.Keys
  {
    match req
    case GetRequest(id, thumbnail, now) =>
      RetrieveReplies(s, id, thumbnail, encode, now);
      if id in s.docs && s.docs[id].name in s.blobs {
        var d := s.docs[id];
        forall k | k in s.thumbs ensures k in Retrieve(s, id, thumbnail, encode, now).0.thumbs {
          if k != Basename(d.name) {
            ThumbnailTouchesOnlyItsKey(s.blobs, s.thumbs, d.name, encode, now, k);
          }
        }
      }
    case _ =>
  }

  /**
   * No request ever removes a thumbnail: once written, a thumbnail outlives
   * its document and its blob.
   */
  lemma {:induction false} RunKeepsThumbnails(s: Stores, reqs: seq<Request>, encode: Bytes -> Option<Bytes>)
    ensures s.thumbs.Keys <= Run(s, reqs, encode).thumbs.Keys
    decreases |reqs|
  {
    if reqs != [] {
      StepKeepsThumbnails(s, reqs[0], encode);
      RunKeepsThumbnails(Step(s, reqs[0], encode).0, reqs[1..], encode);
    }
  }

  lemma StepRemovesOnlyDocumentBlobs(s: Stores, req: Request, encode: Bytes -> Option<Bytes>, n: string)
    requires n in s.blobs && n !in Step(s, req, encode).0.blobs
    ensures exists id :: id in s.docs && s.docs[id].name == n
  {
    match req
    case DeleteRequest(id) =>
      RemoveReplies(s, id);
      assert id in s.docs && s.docs[id].name == n;
    case PatchRequest(id, skip, outcome, category, description, now) =>
      PatchReplies(s, id, skip, outcome, category, description, now);
      assert id in s.docs && s.docs[id].name == n;
    case PostRequest(skip, outcome, category, description, id, now) =>
      PostFailures(s, skip, outcome, category, description, id, now);
      PostCreatesDocument(s, skip, outcome, category, description, id, now);
      assert false;
    case GetRequest(id, thumbnail, now) =>
      RetrieveReplies(s, id, thumbnail, encode, now);
      assert false;
    case ListRequest =>
      assert false;
  }

  /**
   * A blob that is present before a request and gone after it was the file
   * of a document: requests never unlink a blob nobody referred to.
   */
  lemma StepUnlinksOnlyReferencedBlobs(s: Stores, req: Request, encode: Bytes -> Option<Bytes>)
    ensures forall n :: n in s.blobs && n !in Step(s, req, encode).0.blobs ==>
      exists id :: id in s.docs && s.docs[id].name == n
  {
    forall n | n in s.blobs && n !in Step(s, req, encode).0.blobs
      ensures exists id :: id in s.docs && s.docs[id].name == n
    {
      StepRemovesOnlyDocumentBlobs(s, req, encode, n);
    }
  }
}
