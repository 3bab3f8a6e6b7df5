# Image uploader: model of the selection controller and the upload server

This repository is a small image-upload web application. In the browser, an
`ImageUploader` controller keeps an ordered selection of image files. The user
can add to it, remove from it by index and clear it. The controller posts the
selection as a multipart form under the field `images` and reacts to the
server's reply with a notification. It also shows one gallery image in a
detail modal, from which that image can be deleted.

On the server, Express and multer handle the form:
- multer admits at most ten files per request, only under the `images` field;
- each file must declare an `image/` MIME type and be at most 10 MiB;
- each file is stored as `images-<Date.now()>-<random><extension>`.

The `/upload` handler then builds a manifest entry per stored file, with or
without a thumbnail. `GET /api/images` lists the uploads directory, filtered to
five image extensions, and pairs each image with its `thumb_` thumbnail.
`DELETE /api/images/:filename` removes an image and its thumbnail.

The Dafny model is split into modules:
- `Intake`: the multer stage and the `/upload` handler.
- `Gallery`: the listing, plus an `ImageStore` class whose directories the delete handler changes in place.
- `Client`: the `ImageUploader` class.
- `Flow`: the two sides together.
- `NodePath`: Node's POSIX `path.extname`.
- `Strings` and `Seqs`: helpers, including the decimal rendering of numbers and `Array.prototype.filter`.
- `Layout`: the URL prefixes and the thumbnail naming rule.

Behaviours of the code that the model keeps as they are:
- One rejected file aborts the whole request. multer stops at the first part that fails the field/count check, the filter or the size limit, and Express answers 500. Valid sibling files in the same request are not kept.
- The delete handler joins the name it is given into a path without rejecting separators or `..`.
- A request without a `hash` field stores its files but ends in a 500 reply. This happens because `path.join(uploadsDir, hash)` throws on `undefined` at line 118 of `server.js`. The shipped controller never sends a `hash`, so an upload from it never reports success (`Flow.ShippedClientNeverClears`).

Inputs that come from outside the program are parameters of the model:
- the clock and random draws behind the stored names;
- whether each thumbnail was generated;
- the directory enumeration order;
- the user's answer to the confirm dialog;
- how each request settled.

## Model

| member | source | states |
|---|---|---|
| Strings.DecimalString | server.js:122 | the decimal rendering of a count is never empty, has two or more digits exactly from 10 on, and never starts with a 0 when it has two or more |
| Strings.DecimalStringValue | server.js:122 | the digits of the rendering denote the number rendered |
| Strings.DecimalStringDigits | server.js:28 | a rendered number holds only decimal digits |
| Strings.DecimalStringInjective | server.js:28 | different numbers render as different strings |
| Seqs.Filter | server.js:135-138 | `filter` keeps only elements that pass, each drawn from the input, never lengthening it |
| Seqs.FilterIsSubsequence | server.js:135-138 | `filter` keeps the input order |
| Seqs.FilterCount | public/script.js:91 | `filter` keeps every passing element as often as it occurs, and no failing one |
| Seqs.FilterEmpty | public/script.js:91-93 | `filter` yields nothing exactly when no element passes |
| Seqs.FilterDistinct | server.js:135-138 | filtering a repetition-free sequence gives one |
| NodePath.Extname | server.js:29 | `path.extname` is empty or starts with '.', and is shorter than the path |
| NodePath.ExtnameNonEmpty | server.js:29 | `path.extname` is non-empty exactly when the final segment is not `..` and has a '.' after its first character |
| NodePath.ExtnameShape | server.js:29 | `path.extname` is empty or a dot followed by neither dot nor slash, and is a proper suffix of the last path segment |
| NodePath.ExtnameOfStemAndTail | server.js:29 | the extension of `stem.tail` is `.tail` |
| NodePath.ExtnameWithoutDot | server.js:136 | a name without a dot has no extension |
| Layout.ThumbnailUrl | server.js:100 | the thumbnail URL of a file is `/thumbnails/thumb_` followed by its name |
| Layout.ThumbNameSplits | server.js:86 | a thumbnail name is `thumb_` followed by the stored name, which can be read back from it |
| Layout.ThumbNameInjective | server.js:86 | different files never share a thumbnail name |
| Intake.FileFilter | server.js:33-39 | a file is accepted exactly when its MIME type begins with `image/`; otherwise rejected with "Only image files are allowed!" |
| Intake.UniqueSuffix | server.js:28 | the suffix `Date.now()-draw` consists of digits and '-' only |
| Intake.StoredNameBrackets | server.js:29 | a stored name starts with the field name and a dash and ends with the original's extension |
| Intake.UniqueSuffixInjective | server.js:28 | the suffix `now-draw` determines both the time and the random draw |
| Intake.StoredNamesDistinct | server.js:27-30 | two files stored at different times or with different draws get different names, whatever their original names |
| Intake.StoredNameKeepsExtension | server.js:29 | the stored name has the same `extname` as the original name |
| Intake.FirstRejection | server.js:41-47 | multer raises no error exactly when there are at most ten parts and each is an `images` part with an image type within 10 MiB |
| Intake.Receive | server.js:41-47 | multer aborts with the first refusal exactly when a part is refused; otherwise every part is stored, in order, as an `images` file under the name its suffix gives, keeping its original name, type and size |
| Intake.EntryFor | server.js:94-113 | an entry keeps the file's name, original name, size and type; with a thumbnail and a hash it carries `/uploads/<hash>/<name>` and the thumbnail URL; otherwise `/uploads/<name>`, no thumbnail and the error flag |
| Intake.Manifest | server.js:83-115 | one entry per stored file, in order, each flagged as thumbnail-less exactly when its thumbnail failed or the hash is missing |
| Intake.UploadReply | server.js:73-129 | the reply is a multer abort exactly when a part is refused; 400 "No files uploaded" exactly for an empty request; 500 with the missing-path-argument message for an admitted request without a hash; success exactly for a nonempty admitted request with a hash. On success, the count message names the number of files, with one entry per part in order, each carrying its stored name, original name, size and type; a file with a thumbnail gets `/uploads/<hash>/<name>` and its thumbnail URL, and one without gets `/uploads/<name>` and the thumbnail-error flag |
| Intake.BuildManifest | server.js:83-115 | the loop over the stored files pushes exactly the manifest's entries, one per file, in order |
| Intake.HandleUpload | server.js:73-129 | the handler, composed of multer's stage, the empty-request guard, the manifest loop and the final reply, produces exactly the reply `UploadReply` describes |
| Gallery.IsImageName | server.js:135-138 | a name passes the listing's filter only if its extension is a '.' and three or four more characters |
| Gallery.Describe | server.js:140-153 | the entry for an image name reports its file truthfully: its URL, its size, and a thumbnail URL exactly when the thumbnail file exists |
| Gallery.ListImages | server.js:140-153 | every listed entry describes a stored image: its URL, its size, and a thumbnail URL exactly when the thumbnail file exists |
| Gallery.ListedNamesAreFiltered | server.js:135-138 | the listing's names are the directory's names filtered to the five image extensions, case-insensitively, in enumeration order |
| Gallery.ListingSelectsImages | server.js:132-155 | for a directory enumeration, a name is listed exactly when it is an image file in the uploads directory; the listing keeps enumeration order and lists no name twice |
| Gallery.DeleteRemovesOnlyItsEntry | server.js:163-179 | after a delete, the listing is the previous listing without that file's entry; every other entry, thumbnail included, is unchanged |
| Gallery.ListingEmptyAfterDeletingOnlyImage | server.js:163-179 | deleting the only image of the uploads directory (removing it and its thumbnail, as the delete handler does) leaves an empty listing, whatever non-image entries remain |
| Gallery.ImageStore.constructor | server.js:11-20 | the store starts with the uploads and thumbnails directories as found |
| Gallery.ImageStore.Images | server.js:132-160 | the current listing names each image file of the uploads directory once, and each entry describes its file |
| Gallery.ImageStore.DeleteImage | server.js:163-184 | the file and its `thumb_` thumbnail are gone afterwards, nothing else changes, and the reply is success whether or not they existed |
| Client.ImageFilesExactly | public/script.js:91 | the client's filter keeps every image file with its multiplicity, drops the rest, keeps order, and yields nothing exactly when there is no image |
| Client.ImageFiles | public/script.js:91 | the filtered batch holds only image files drawn from the batch, and is no longer than it |
| Client.OrDefault | public/script.js:176 | JavaScript's `error or fallback` gives the fallback exactly for a missing or empty error (or one equal to it), otherwise the error |
| Client.UploadNotice | public/script.js:171-180 | the notice is a success exactly for a successful upload, and then carries the server's message; a failed reply gives its error or "Upload failed", an exception gives "Upload failed: " and its message, and an error notice is never blank |
| Client.SelectionAfter | public/script.js:171-177 | the selection is emptied only by a successful upload and otherwise kept |
| Client.SpliceStart | public/script.js:140 | where `splice` starts: an in-range index itself, a negative one counted from the end, clamped to 0 below and to the length above |
| Client.Spliced | public/script.js:139-142 | `splice(index, 1)` removes exactly the element at an in-range index and keeps the others in order; a negative index counts from the end; one before the start removes the first element; an index past the end, or an empty selection, changes nothing |
| Client.FormDataOf | public/script.js:156-159 | the form holds one `images` entry per selected file, in selection order |
| Client.ImageUploader.constructor | public/script.js:2-8 | a new controller has no selection and no modal image |
| Client.ImageUploader.AddFiles | public/script.js:90-101 | a batch with images appends its image files after the selection; a batch without images leaves it unchanged and raises "Please select only image files"; only images are ever selected |
| Client.ImageUploader.RemoveFile | public/script.js:139-142 | the selection becomes its `splice(index, 1)` |
| Client.ImageUploader.ClearFiles | public/script.js:144-148 | the selection becomes empty |
| Client.ImageUploader.UploadFiles | public/script.js:150-184 | an empty selection sends nothing and raises "Please select files to upload"; otherwise the form carries the selection in order, success clears it, and the notice is the server's message, its error or "Upload failed", or "Upload failed: " and the exception's message |
| Client.ImageUploader.OpenImageModal | public/script.js:256-262 | the modal's image becomes the one opened |
| Client.ImageUploader.CloseImageModal | public/script.js:264-268 | no image is current afterwards |
| Client.ImageUploader.DeleteCurrentImage | public/script.js:270-295 | without a current image or without confirmation nothing happens; otherwise a DELETE names the current image, success closes the modal with "Image deleted successfully", and a failure keeps it open with the error or "Failed to delete image" |
| Flow.ClientSees | public/script.js:163-180 | the controller sees success, with the server's message, exactly when the server uploaded the files; a JSON error reply is seen as that error, and a multer abort as an exception |
| Flow.DeleteSeen | public/script.js:282-290 | the controller sees a successful delete exactly when the server reports success |
| Flow.StoredUploadListedIffImageName | server.js:135-138 | a stored upload is listed exactly when its original name has an image extension |
| Flow.FiltersAgree | server.js:33-39 | the browser's image filter keeps exactly the files multer's `fileFilter` accepts |
| Flow.FormAdmittedIffWithinLimits | server.js:41-47 | multer admits the controller's form exactly when the selection has at most ten files, each an image within 10 MiB; an eleventh file after ten good ones is an unexpected file |
| Flow.PrefixAdmittedThenCountExceeded | server.js:73 | with more `images` parts than allowed, multer always refuses, and refuses with an unexpected-file error when the allowed ones pass |
| Flow.ShippedClientNeverClears | server.js:118 | without a hash the selection is never cleared, and an admitted selection ends in the missing-path-argument error |
| Flow.UploadWithHashClears | public/script.js:171-174 | with a hash, an admitted selection is cleared and the notice counts its files |
| Flow.UploadRoundTrip | public/script.js:150-184 | an upload round trip clears the selection exactly when the server uploaded the files; for an admitted selection that happens exactly when a hash is present |
| Flow.DeleteRoundTrip | public/script.js:270-295 | a confirmed delete from the modal removes the image and its thumbnail from the store and closes the modal; otherwise nothing changes |

## Left out

- Everything in the DOM: previews, `FileReader`, drag-and-drop events, the progress bar animation, `formatFileSize`, `showNotification`'s timer, and the gallery rendering in `loadGallery`. Only the last notification is kept, as `notification`.
- `loadGallery` and the gallery refresh after an upload or delete: these are network reads with no state of the controller other than the notification "Failed to load gallery".
- Thumbnail generation with sharp (`generateThumbnail`): its success per file is an input.
- `processFiles` and the `python ../trellis-run.py` command it runs: it is fired without being awaited, and its outcome never reaches a reply. The hash directory creation (`mkdir`) is left out too. What is kept is that evaluating its argument, `path.join(uploadsDir, hash)`, throws on a missing hash before `processFiles` runs.
- Startup `mkdir` of the upload directories, static file serving, and `app.listen`.
- The clock, `Math.random` and its rounding: `now` and `draw` are inputs, given as natural numbers.
- Gallery.ListImages: `uploadDate` (the file's mtime) is not modelled, and neither is the 500 "Failed to get images" reply on a filesystem error.
- Gallery.ImageStore.DeleteImage: the 500 "Failed to delete image" reply on a filesystem error is not modelled, and neither are `path.join` normalisation and the traversal it allows (a name holding `/` or `..`).
- Gallery.IsImageName: `toLowerCase` is modelled for ASCII letters only.
- Intake.FirstRejection: multer's checks run as its streams deliver events. The model takes the first failing part in request order as the one that decides the error.
- Intake.UploadReply: the body of Express's default error page after a multer abort is not modelled, only that the request is aborted with the cause.
- Client.ImageUploader.UploadFiles, Client.ImageUploader.DeleteCurrentImage: each request settles with no user action interleaved. In the browser only the upload and clear buttons are disabled while an upload is pending, so `addFiles` and `removeFile` can run before the reply arrives; the success path's `clearFiles` then also drops files added meanwhile, which were never sent. Likewise Escape can close the modal while a delete is pending. The model does not capture these interleavings.
- Client.ImageUploader.DeleteCurrentImage: URL encoding and routing are not modelled; the server is taken to receive the name exactly as the controller placed it in the URL.
- NodePath: only POSIX paths are modelled; Windows separators are not.
