# File assets of the competition admin application, in Dafny

This project models the file-asset service of the competition administration
application: the routes in `routes/api/files.js` that accept uploads, store
them as blobs under generated names, keep a file document per upload, serve a
blob or a lazily (re)generated JPEG thumbnail of it, replace a document's file
and delete documents with their blobs.

The model has three stores, held in `Assets.Stores`:

- `blobs`: the upload directory, keyed by the generated name, each with its bytes and modification time;
- `thumbs`: the `thumbnails` directory, keyed by the basename of the source blob;
- `docs`: the file documents, keyed by id, with `name`, `originalName`, `mimetype`, `size`, `category` and `description`.

Layout:

- `common.dfy`: `Option` and `Bytes`.
- `text.dfy`: ASCII lower-casing, the `?flag=true` test, the case-insensitive
  `^image/` mimetype test and POSIX `path.basename`.
- `upload_gate.dfy`: the `uploader` middleware's decision: skip, reject with a status, or accept multer's file.
- `assets.dfy`: each route as a pure transition function from the stores before
  a request to the stores after it and the reply (`Upload`, `List`, `Post`,
  `Retrieve`, `Remove`, `Patch`, with `GenerateThumbnail` and `ApplyUpdate`), and
  the `Consistent` invariant (every document's blob exists, no two documents share one).
- `asset_properties.dfy`: lemmas about those functions: status codes and effects
  of each route, the thumbnail freshness rule, deletion and replacement
  semantics, preservation of `Consistent`, and a whole upload/thumbnail/replace life cycle.
- `request_runs.dfy`: the routes serving a sequence of requests, with what holds
  over every such sequence (documents keep their blobs, thumbnails are never reaped).
- `file_service.dfy`: class `Files.FileService` with the three stores as `map`
  fields and one method per route, written step by step in the route's order
  (document updated before the old blob is unlinked) and proved to produce
  exactly the stores and reply of the corresponding transition function; a
  client method uses the class.

Behaviour of the code that the model keeps as it is:

- A thumbnail is reused only when its source is strictly older than it
  (`mtime` of source `<` `mtime` of thumbnail); equal times regenerate.
- There is no locking around thumbnail generation.
- The 400 reply is for a request where multer stored no file; every
  `MulterError` (a size-limit violation among them) is a 403, any other upload error a 500.
- A thumbnail is served with the document's own mimetype (for instance
  `image/png`), not as JPEG.
- PATCH of a missing document answers 500, and a file that multer stored for
  that request stays on disk with nothing referring to it.
- POST with the skip flag answers 500, because `req.file` is then undefined.

External collaborators are parameters: multer's verdict is an `UploadOutcome`
(a `MulterError` with its code, another error, no file, or the stored file with
its generated name and bytes); sharp's resize-and-encode is a function
`encode: Bytes -> Option<Bytes>` whose `None` is a failed encoding; the file
system's timestamp for a write is the integer `now`.

## Model

| member | source | states |
|---|---|---|
| Text.Lower | routes/api/files.js:41 | the result has the input's length, each character lower-cased when it is an ASCII capital, and no ASCII capital remains |
| Text.TrueFlagSpellings | routes/api/files.js:38-43 | an absent flag is unset; a present one is set exactly when it is one of the sixteen case spellings of "true" |
| Text.ImageTypeIsLowerPrefix | routes/api/files.js:150-151 | a mimetype passes the image test exactly when its lower-cased form starts with "image/" |
| Text.ImageTypeIgnoresCase | routes/api/files.js:150-151 | lower-casing a mimetype does not change whether it passes the image test |
| Text.Basename | routes/api/files.js:74 | the basename contains no `/`, and a name without `/` is its own basename |
| Text.BasenameOfJoin | routes/api/files.js:74 | the basename of a directory joined with a plain name is that name, so a blob's thumbnail key is its stored name |
| UploadGate.Gate | routes/api/files.js:37-65 | skip exactly when the flag lower-cases to "true"; otherwise accept exactly a stored file, and reject with 403 exactly for a MulterError, 500 exactly for another error, 400 exactly when no file was stored |
| UploadGate.RejectionClasses | routes/api/files.js:46-61 | a rejection is a 4xx exactly for client faults (a multer limit or no file) and 500 exactly for other errors; an exceeded size ceiling is a 403 |
| Assets.GenerateThumbnail | routes/api/files.js:68-93 | a ready thumbnail is stored under the basename of its source |
| AssetProperties.PostCreatesDocument | routes/api/files.js:102-124 | POST answers 201 exactly when the gate accepted a file and the id is new; the document's name is the generated filename, originalName, mimetype and size (byte count) come from the upload, category and description from the body; the stores gain that blob and that document and nothing else |
| AssetProperties.PostFailures | routes/api/files.js:102-127 | a failing POST creates no document and no thumbnail; with the skip flag it answers 500 and writes nothing; a rejected upload answers the gate's status and writes nothing; a taken id answers 500 with multer's blob left on disk |
| AssetProperties.ReuseCurrentThumbnail | routes/api/files.js:76-81 | a thumbnail strictly newer than its source is returned and nothing is rewritten |
| AssetProperties.RegenerateStaleThumbnail | routes/api/files.js:82-91 | a missing thumbnail, or one not newer than the source (equal times included), is the encoding of the source's bytes written at the current time under the source's basename; a failed encoding writes nothing |
| AssetProperties.ThumbnailTouchesOnlyItsKey | routes/api/files.js:74-91 | generation leaves every other thumbnail as it was |
| AssetProperties.SecondGenerationReuses | routes/api/files.js:76-91 | after a thumbnail is produced later than its source was written, generating again returns the same thumbnail without rewriting |
| AssetProperties.RetrieveReplies | routes/api/files.js:131-165 | GET answers 404 without a document, 404 without its blob, 403 for a thumbnail of a non-image, the primary blob when no thumbnail is asked for, else the thumbnail at the blob's basename or 500; the mimetype is always the document's; blobs and documents never change; every thumbnail other than the one at the blob's basename is left as it was |
| AssetProperties.ThumbnailFailureIs500 | routes/api/files.js:148-165 | GET answers 500 exactly when an image thumbnail is asked for, its document and blob exist, the thumbnail is missing or not newer than the blob, and the encoding fails |
| AssetProperties.ConsistentRetrieveFindsBlob | routes/api/files.js:137-146 | when every document's blob exists, GET of an existing document never answers 404 |
| AssetProperties.RepeatedThumbnailRequest | routes/api/files.js:148-161 | a second thumbnail request after one made later than the source's write gives the same reply and changes nothing |
| AssetProperties.StaleThumbnailIsEncoded | routes/api/files.js:148-161 | a thumbnail request for an image whose thumbnail is missing or not newer than its blob answers the encoding of the blob's current bytes and stores it at the current time under the blob's basename |
| AssetProperties.RemoveReplies | routes/api/files.js:168-185 | DELETE of an existing document removes it and unlinks its blob (present or not) and answers 200 with the document; of a missing one answers 404 and changes nothing; thumbnails are never removed |
| AssetProperties.RemoveTwice | routes/api/files.js:168-181 | a second DELETE of the same id answers 404 and changes nothing |
| AssetProperties.RetrieveAfterRemove | routes/api/files.js:135-139 | after a DELETE, GET of that id answers 404 |
| AssetProperties.UpdateSetsSuppliedFields | routes/api/files.js:193-209 | the update sets exactly the supplied category and description, and the name, originalName, mimetype and size only from a new file |
| AssetProperties.UpdateIdentityAndIdempotence | routes/api/files.js:194-209 | supplying nothing leaves a document unchanged; repeating an update changes nothing further |
| AssetProperties.PatchReplies | routes/api/files.js:188-220 | a rejected upload changes nothing; otherwise the document becomes its update, the reply is 200 with it, and the old blob is unlinked exactly when the stored name changed; without a new file no blob is removed; thumbnails are untouched |
| AssetProperties.PatchMissingDocumentKeepsBlobs | routes/api/files.js:188-212 | PATCH of a missing document changes no document and keeps every blob that existed; when the gate did not reject, the reply is exactly 500 and a newly stored file stays as an orphan blob |
| AssetProperties.PostPreservesConsistency | routes/api/files.js:102-124 | with a fresh generated name, POST keeps every document's blob present and unshared |
| AssetProperties.RetrievePreservesConsistency | routes/api/files.js:131-165 | GET keeps every document's blob present and unshared |
| AssetProperties.RemovePreservesConsistency | routes/api/files.js:168-185 | DELETE keeps every remaining document's blob present and unshared |
| AssetProperties.PatchPreservesConsistency | routes/api/files.js:188-220 | with a fresh generated name, PATCH keeps every document's blob present and unshared: the unlinked old blob belonged to no other document |
| AssetProperties.UploadThenThumbnail | routes/api/files.js:102-161 | upload an image and ask twice for its thumbnail: 201 with the new document; the encoding of the image, stored under the blob's basename; the same reply again with the stores unchanged |
| AssetProperties.ReplaceThenFetch | routes/api/files.js:102-220 | upload a file, replace it by another, fetch it: 201; 200 with the document now describing the new file and the old blob gone; the new file's bytes with its mimetype |
| RequestRuns.RunPreservesConsistency | routes/api/files.js:96-224 | over any sequence of requests whose generated names do not collide, every document keeps a blob present and shared with no other document |
| RequestRuns.StepKeepsThumbnails | routes/api/files.js:96-224 | no single request removes a thumbnail |
| RequestRuns.RunKeepsThumbnails | routes/api/files.js:96-224 | over any sequence of requests every thumbnail ever written stays, even after its document and blob are deleted |
| RequestRuns.StepUnlinksOnlyReferencedBlobs | routes/api/files.js:168-220 | a blob that a request unlinks was the file of a document before that request |
| Files.FileService.Uploader | routes/api/files.js:37-65 | the gate's decision, with multer's blob written at the current time exactly when the file is accepted |
| Files.FileService.ListFiles | routes/api/files.js:96-99 | GET `/` lists every document under its id |
| Files.FileService.PostFile | routes/api/files.js:102-128 | the new stores and reply are those of `Assets.Post` |
| Files.FileService.GenerateThumbnailFor | routes/api/files.js:68-93 | reports success exactly when `Assets.GenerateThumbnail` does, returns the basename key, leaves blobs and documents alone and changes the thumbnails as that function does |
| Files.FileService.GetFile | routes/api/files.js:131-165 | the new stores and reply are those of `Assets.Retrieve` |
| Files.FileService.DeleteFile | routes/api/files.js:168-185 | the new stores and reply are those of `Assets.Remove` |
| Files.FileService.PatchFile | routes/api/files.js:188-224 | the new stores and reply are those of `Assets.Patch` |
| Files.ReplaceOnce | routes/api/files.js:102-220 | on an empty service, POST gives 201 with the new document, PATCH with a second file gives 200 naming it, and GET serves the second file's bytes |

## Left out

- Express routing, the `Location` header and `sendFile` streaming: a reply is a `Reply` value.
- Multer's multipart parsing, its size limit (16 MiB by default, from `LIMIT_FILESIZE`), the field name `file` and its random names: multer's verdict is the `UploadOutcome` input, and the freshness of a generated name is a hypothesis (`FreshUpload`) of the lemmas that need it, not a requirement of any operation.
- Sharp's resize to 720 pixels and JPEG encoding: the `encode` parameter. A failed `toFile` is modelled as writing nothing.
- Mongoose: documents are a map. Casting a malformed id (a 500) and schema validation are not modelled; `models/file.js` is not part of this model. A duplicate id on `save` is a 500.
- `mtimeMs` is a float; times here are integers supplied as `now`, with no monotonicity assumed.
- `mkdirSync` of the thumbnail directory, and `path.join`'s normalisation: a blob is looked up by its stored name as is.
- The body parsers behind `req.body` and `req.query`: `category`, `description` and the two flags are inputs; a flag given as an array is not modelled.
- The asynchronous callbacks of `fs.unlink` and the promise of `generateThumbnail`: each request runs to completion before the next; concurrency is out of scope.
- Text.Lower: lower-cases ASCII letters only, unlike `toLowerCase` (which, for instance, turns `İ` into `i` followed by a combining dot). Only the flag test compares a `toLowerCase` result, with "true", and no non-ASCII character lower-cases to a string made of the letters of "true". The image test is `^(image\/)` with the non-Unicode `i` flag, under which no non-ASCII character matches an ASCII letter of the pattern, so for "image/" it amounts to ASCII case folding, as the model does.
- Assets.Remove, Assets.Patch: a failing `fs.unlink` (other than a missing file, for instance `EACCES` or `EBUSY`) is not modelled. The route ignores the error and still answers 200, but the blob would stay on disk, orphaned after a DELETE; the model always removes it from `blobs`.
- Assets.Stores: the upload directory and its `thumbnails` subdirectory (`path.join(PATH, 'thumbnails')`) are one directory tree in the code, modelled as two disjoint maps. They stay disjoint only for blob names without `/`, which multer's generated hex names are. A document named `thumbnails/k` would make DELETE unlink thumbnail `k`, which RequestRuns.RunKeepsThumbnails and AssetProperties.RemoveReplies do not capture.
- The React client views and their helpers in `utils`: rendering and HTTP calls with no logic of the service.
