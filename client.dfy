/**
 * The browser controller `ImageUploader`: the ordered selection of files
 * waiting for upload, the image shown in the detail modal, and the last
 * notification shown. Network replies and the confirm() dialog are inputs.
 */
module Client {
  import opened Wrappers
  import opened Strings
  import opened Seqs
  import Gallery

  /** A browser File handle; `mimeType` is the File's `type`. */
  datatype File = File(name: string, mimeType: string, size: nat)

  datatype NoticeKind = SuccessNotice | ErrorNotice

  /** A notification as `showNotification(message, type)` displays it. */
  datatype Notice = Notice(message: string, kind: NoticeKind)

  /** One entry appended to the upload's FormData. */
  datatype FormField = FormField(name: string, file: File)

  /** How the `POST /upload` request settled. */
  datatype UploadOutcome =
    | ServerSuccess(message: string)     // the reply parsed and `result.success` was true
    | ServerError(error: Option<string>) // the reply parsed without success; its `error` field
    | Exception(message: string)         // fetch or `response.json()` threw

  /** How the `DELETE /api/images/:filename` request settled. */
  datatype DeleteOutcome =
    | DeleteSucceeded
    | DeleteRefused(error: Option<string>)
    | DeleteThrew

  /** Form field the upload request carries the files in. */
  const UploadField := "images"

  /** The client's file filter: `file.type.startsWith('image/')`. */
  predicate IsImageFile(f: File) {
    StartsWith(f.mimeType, "image/")
  }

  /** The image files of a batch, in the order given. */
  function ImageFiles(files: seq<File>): (images: seq<File>)
    ensures |images| <= |files|
    ensures forall i :: 0 <= i < |images| ==> IsImageFile(images[i]) && images[i] in files
  {
    Filter(files, IsImageFile)
  }

  /**
   * The filter keeps every image file of the batch (with its multiplicity),
   * drops every other file, keeps the batch order, and yields nothing exactly
   * when the batch holds no image.
   */
  lemma ImageFilesExactly(files: seq<File>)
    ensures forall f :: multiset(ImageFiles(files))[f] == if IsImageFile(f) then multiset(files)[f] else 0
    ensures IsSubsequence(ImageFiles(files), files)
    ensures ImageFiles(files) == [] <==> forall i :: 0 <= i < |files| ==> !IsImageFile(files[i])
  {
    forall f ensures multiset(ImageFiles(files))[f] == if IsImageFile(f) then multiset(files)[f] else 0 {
      FilterCount(files, IsImageFile, f);
    }
    FilterIsSubsequence(files, IsImageFile);
    FilterEmpty(files, IsImageFile);
  }

  /** JavaScript `error || fallback` for an optional string: a missing or empty error falls back. */
  function OrDefault(error: Option<string>, fallback: string): (message: string)
    ensures message == fallback || (error.Some? && message == error.value)
    ensures message == fallback <==> error.None? || error.value == "" || error.value == fallback
  {
    if error.Some? && error.value != "" then error.value else fallback
  }

  /**
   * The notification `uploadFiles` shows once the request settles: a success
   * notice with the server's message, or an error notice that is never blank.
   */
  function UploadNotice(outcome: UploadOutcome): (n: Notice)
    ensures n.kind == SuccessNotice <==> outcome.ServerSuccess?
    ensures outcome.ServerSuccess? ==> n.message == outcome.message
    ensures !outcome.ServerSuccess? ==> n.message != []
    ensures outcome.ServerError? ==> n.message == OrDefault(outcome.error, "Upload failed")
    ensures outcome.Exception? ==> n.message == "Upload failed: " + outcome.message
  {
    match outcome
    case ServerSuccess(message) => Notice(message, SuccessNotice)
    case ServerError(error) => Notice(OrDefault(error, "Upload failed"), ErrorNotice)
    case Exception(message) => Notice("Upload failed: " + message, ErrorNotice)
  }

  /** The selection once an upload with this outcome has settled. */
  function SelectionAfter(outcome: UploadOutcome, selection: seq<File>): (after: seq<File>)
    ensures after == [] <==> outcome.ServerSuccess? || selection == []
    ensures !outcome.ServerSuccess? ==> after == selection
  {
    if outcome.ServerSuccess? then [] else selection
  }

  /** Where `splice(index, 1)` starts: negative indexes count from the end, large ones clamp. */
  function SpliceStart(length: nat, index: int): (start: nat)
    ensures start <= length
    ensures 0 <= index <= length ==> start == index
    ensures index < 0 && length + index >= 0 ==> start == length + index
    ensures length + index < 0 ==> start == 0
    ensures index > length ==> start == length
  {
    if index < 0 then (if length + index < 0 then 0 else length + index)
    else if index > length then length
    else index
  }

  /** The array after `splice(index, 1)`. */
  function Spliced(s: seq<File>, index: int): (r: seq<File>)
    ensures 0 <= index < |s| ==>
      && |r| == |s| - 1
      && (forall j :: 0 <= j < index ==> r[j] == s[j])
      && (forall j :: index <= j < |r| ==> r[j] == s[j + 1])
      && multiset(r) + multiset{s[index]} == multiset(s)
    ensures index >= |s| ==> r == s
    ensures s == [] ==> r == []
    ensures -|s| <= index < 0 ==> |r| == |s| - 1 && r == s[..|s| + index] + s[|s| + index + 1..]
    ensures index < -|s| && s != [] ==> r == s[1..]
  {
    var start := SpliceStart(|s|, index);
    if start < |s| then
      assert s == s[..start] + [s[start]] + s[start + 1..];
      s[..start] + s[start + 1..]
    else s
  }

  /** `new FormData()` with one `images` entry appended per file. */
  method FormDataOf(files: seq<File>) returns (form: seq<FormField>)
    ensures |form| == |files|
    ensures forall i :: 0 <= i < |files| ==> form[i] == FormField(UploadField, files[i])
  {
    form := [];
    for i := 0 to |files|
      invariant |form| == i
      invariant forall k :: 0 <= k < i ==> form[k] == FormField(UploadField, files[k])
    {
      form := form + [FormField(UploadField, files[i])];
    }
  }

  class ImageUploader {
    var selectedFiles: seq<File>
    var currentModalImage: Option<Gallery.GalleryEntry>
    var notification: Option<Notice>

    /** Only image files are ever selected. */
    predicate Valid()
      reads this
    {
      forall i :: 0 <= i < |selectedFiles| ==> IsImageFile(selectedFiles[i])
    }

    constructor ()
      ensures Valid()
      ensures selectedFiles == [] && currentModalImage == None && notification == None
    {
      selectedFiles := [];
      currentModalImage := None;
      notification := None;
    }

    /**
     * `addFiles`: append the batch's image files after the current selection;
     * a batch without images leaves the selection alone and raises an error.
     */
    method AddFiles(files: seq<File>)
      requires Valid()
      modifies this
      ensures Valid()
      ensures ImageFiles(files) == [] ==>
        selectedFiles == old(selectedFiles) && notification == Some(Notice("Please select only image files", ErrorNotice))
      ensures ImageFiles(files) != [] ==>
        selectedFiles == old(selectedFiles) + ImageFiles(files) && notification == old(notification)
      ensures currentModalImage == old(currentModalImage)
    {
      var imageFiles := ImageFiles(files);
      if |imageFiles| == 0 {
        notification := Some(Notice("Please select only image files", ErrorNotice));
        return;
      }
      selectedFiles := selectedFiles + imageFiles;
    }

    /** `removeFile`: `selectedFiles.splice(index, 1)`. */
    method RemoveFile(index: int)
      requires Valid()
      modifies this
      ensures Valid()
      ensures selectedFiles == Spliced(old(selectedFiles), index)
      ensures currentModalImage == old(currentModalImage) && notification == old(notification)
    {
      var start := SpliceStart(|selectedFiles|, index);
      if start < |selectedFiles| {
        selectedFiles := selectedFiles[..start] + selectedFiles[start + 1..];
      }
    }

    /** `clearFiles`: the selection becomes empty whatever it held. */
    method ClearFiles()
      modifies this
      ensures Valid()
      ensures selectedFiles == []
      ensures currentModalImage == old(currentModalImage) && notification == old(notification)
    {
      selectedFiles := [];
    }

    /**
     * `uploadFiles`: with nothing selected, no request and an error; otherwise
     * the request's form carries the selection in order, and the selection is
     * cleared only when the server reports success.
     */
    method UploadFiles(outcome: UploadOutcome) returns (request: Option<seq<FormField>>)
      requires Valid()
      modifies this
      ensures Valid()
      ensures old(selectedFiles) == [] ==>
        && request == None
        && selectedFiles == []
        && notification == Some(Notice("Please select files to upload", ErrorNotice))
      ensures old(selectedFiles) != [] ==>
        && request.Some?
        && |request.value| == |old(selectedFiles)|
        && (forall i :: 0 <= i < |old(selectedFiles)| ==> request.value[i] == FormField(UploadField, old(selectedFiles)[i]))
        && selectedFiles == SelectionAfter(outcome, old(selectedFiles))
        && notification == Some(UploadNotice(outcome))
      ensures currentModalImage == old(currentModalImage)
    {
      if |selectedFiles| == 0 {
        notification := Some(Notice("Please select files to upload", ErrorNotice));
        return None;
      }
      var form := FormDataOf(selectedFiles);
      request := Some(form);
      notification := Some(UploadNotice(outcome));
      if outcome.ServerSuccess? {
        ClearFiles();
      }
    }

    /** `openImageModal`: the modal shows `image`. */
    method OpenImageModal(image: Gallery.GalleryEntry)
      modifies this
      ensures currentModalImage == Some(image)
      ensures selectedFiles == old(selectedFiles) && notification == old(notification)
    {
      currentModalImage := Some(image);
    }

    /** `closeImageModal`: no image is current any more. */
    method CloseImageModal()
      modifies this
      ensures currentModalImage == None
      ensures selectedFiles == old(selectedFiles) && notification == old(notification)
    {
      currentModalImage := None;
    }

    /**
     * `deleteCurrentImage`: without a current image, or when the user does not
     * confirm, nothing happens; otherwise a DELETE request for the image's name
     * is sent, and only a successful reply closes the modal.
     */
    method DeleteCurrentImage(confirmed: bool, outcome: DeleteOutcome) returns (request: Option<string>)
      requires Valid()
      modifies this
      ensures Valid()
      ensures selectedFiles == old(selectedFiles)
      ensures old(currentModalImage).None? || !confirmed ==>
        request == None && currentModalImage == old(currentModalImage) && notification == old(notification)
      ensures old(currentModalImage).Some? && confirmed ==>
        && request == Some("/api/images/" + old(currentModalImage).value.filename)
        && (outcome.DeleteSucceeded? ==>
              currentModalImage == None && notification == Some(Notice("Image deleted successfully", SuccessNotice)))
        && (outcome.DeleteRefused? ==>
              currentModalImage == old(currentModalImage)
              && notification == Some(Notice(OrDefault(outcome.error, "Failed to delete image"), ErrorNotice)))
        && (outcome.DeleteThrew? ==>
              currentModalImage == old(currentModalImage)
              && notification == Some(Notice("Failed to delete image", ErrorNotice)))
    {
      if currentModalImage.None? {
        return None;
      }
      if !confirmed {
        return None;
      }
      request := Some("/api/images/" + currentModalImage.value.filename);
      match outcome {
        case DeleteSucceeded =>
          notification := Some(Notice("Image deleted successfully", SuccessNotice));
          CloseImageModal();
        case DeleteRefused(error) =>
          notification := Some(Notice(OrDefault(error, "Failed to delete image"), ErrorNotice));
        case DeleteThrew =>
          notification := Some(Notice("Failed to delete image", ErrorNotice));
      }
    }
  }
}
