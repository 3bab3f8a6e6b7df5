/**
 * The browser and the server together: the form the controller posts is
 * what multer parses, the reply the server builds is what the controller
 * reacts to, and a confirmed delete reaches the image store.
 */
module Flow {
  import opened Wrappers
  import opened Strings
  import Client
  import Intake
  import Gallery
  import Layout

  /** The part multer parses from one form entry; the browser sends the File's name and type. */
  function PartOf(field: Client.FormField): (p: Intake.Part) {
    Intake.Part(field.name, field.file.name, field.file.mimeType, field.file.size)
  }

  function PartsOf(form: seq<Client.FormField>): (parts: seq<Intake.Part>)
    ensures |parts| == |form|
  {
    seq(|form|, i requires 0 <= i < |form| => PartOf(form[i]))
  }

  /**
   * What `uploadFiles` observes of a reply. A multer abort is answered with
   * Express's HTML error page, on which `response.json()` throws; the
   * browser's message for that is `parseError`.
   */
  function ClientSees(reply: Intake.UploadResponse, parseError: string): (outcome: Client.UploadOutcome)
    ensures outcome.ServerSuccess? <==> reply.Uploaded?
    ensures reply.Uploaded? ==> outcome == Client.ServerSuccess(reply.message)
    ensures reply.Rejected? ==> outcome == Client.ServerError(Some(reply.error))
    ensures reply.Aborted? ==> outcome == Client.Exception(parseError)
  {
    match reply
    case Uploaded(message, _) => Client.ServerSuccess(message)
    case Rejected(_, error) => Client.ServerError(Some(error))
    case Aborted(_) => Client.Exception(parseError)
  }

  /** What `deleteCurrentImage` observes of the server's reply. */
  function DeleteSeen(reply: Gallery.DeleteResponse): (outcome: Client.DeleteOutcome)
    ensures outcome.DeleteSucceeded? <==> reply.success
  {
    if reply.success then Client.DeleteSucceeded else Client.DeleteRefused(Some(reply.message))
  }

  /** The two filters agree: the browser keeps exactly the files multer's `fileFilter` accepts. */
  lemma FiltersAgree(f: Client.File)
    ensures Client.IsImageFile(f) <==> Intake.FileFilter(f.mimeType) == Intake.Accept
  {
  }

  /**
   * A stored upload shows up in the gallery listing exactly when its original
   * name carries an image extension, whatever clock reading and draw named it.
   */
  lemma StoredUploadListedIffImageName(now: nat, draw: nat, originalname: string)
    ensures Gallery.IsImageName(Intake.StoredName(Intake.UploadField, Intake.UniqueSuffix(now, draw), originalname))
        <==> Gallery.IsImageName(originalname)
  {
    Intake.StoredNameKeepsExtension(now, draw, originalname);
  }

  /** A selection multer would take as it stands: few enough files, each an image within the size limit. */
  predicate WithinLimits(selection: seq<Client.File>) {
    && |selection| <= Intake.MaxFiles
    && forall i :: 0 <= i < |selection| ==> Client.IsImageFile(selection[i]) && selection[i].size <= Intake.MaxFileSize
  }

  /**
   * The form the controller builds is admitted by multer exactly when the
   * selection is within the limits; a selection of more than ten files whose
   * first ten pass is refused as an unexpected file.
   */
  lemma {:induction false} FormAdmittedIffWithinLimits(selection: seq<Client.File>, form: seq<Client.FormField>)
    requires |form| == |selection|
    requires forall i :: 0 <= i < |selection| ==> form[i] == Client.FormField(Client.UploadField, selection[i])
    ensures Intake.FirstRejection(PartsOf(form), Intake.MaxFiles) == None <==> WithinLimits(selection)
    ensures |selection| > Intake.MaxFiles && WithinLimits(selection[..Intake.MaxFiles]) ==>
      Intake.FirstRejection(PartsOf(form), Intake.MaxFiles) == Some(Intake.UnexpectedFile(Client.UploadField))
  {
    var parts := PartsOf(form);
    assert forall i :: 0 <= i < |parts| ==> parts[i] == Intake.Part(Intake.UploadField, selection[i].name, selection[i].mimeType, selection[i].size);
    if |selection| > Intake.MaxFiles {
      PrefixAdmittedThenCountExceeded(parts, Intake.MaxFiles);
      if WithinLimits(selection[..Intake.MaxFiles]) {
        assert forall i :: 0 <= i < Intake.MaxFiles ==> selection[..Intake.MaxFiles][i] == selection[i];
      }
    }
  }

  /**
   * Parts all carrying the upload field: past `left` of them multer answers
   * with an unexpected-file error whatever the parts hold, unless an earlier
   * part fails first.
   */
  lemma {:induction false} PrefixAdmittedThenCountExceeded(parts: seq<Intake.Part>, left: nat)
    requires |parts| > left
    requires forall i :: 0 <= i < |parts| ==> parts[i].fieldname == Intake.UploadField
    ensures Intake.FirstRejection(parts, left).Some?
    ensures (forall i :: 0 <= i < left ==> Intake.Admissible(parts[i])) ==>
      Intake.FirstRejection(parts, left) == Some(Intake.UnexpectedFile(Intake.UploadField))
    decreases left
  {
    if left > 0 {
      var rest := parts[1..];
      assert forall i :: 0 <= i < |rest| ==> rest[i] == parts[i + 1];
      PrefixAdmittedThenCountExceeded(rest, left - 1);
    }
  }

  /**
   * The shipped controller never posts a `hash`, so whatever it selects the
   * server never reports success: the selection is kept, and a selection
   * multer admits ends in the 500 reply about the missing path argument.
   */
  lemma ShippedClientNeverClears(
    selection: seq<Client.File>, form: seq<Client.FormField>, suffixes: seq<string>, thumbnailOk: seq<bool>, parseError: string)
    requires |form| == |selection| == |suffixes| == |thumbnailOk|
    requires forall i :: 0 <= i < |selection| ==> form[i] == Client.FormField(Client.UploadField, selection[i])
    ensures var outcome := ClientSees(Intake.UploadReply(PartsOf(form), suffixes, None, thumbnailOk), parseError);
      && Client.SelectionAfter(outcome, selection) == selection
      && (selection != [] && WithinLimits(selection) ==>
            Client.UploadNotice(outcome) == Client.Notice("Upload failed: " + Intake.MissingHashMessage, Client.ErrorNotice))
  {
    FormAdmittedIffWithinLimits(selection, form);
  }

  /**
   * With a `hash`, a selection within the limits is stored whole: the
   * controller reports how many files went up and clears its selection.
   */
  lemma UploadWithHashClears(
    selection: seq<Client.File>, form: seq<Client.FormField>, hash: string, suffixes: seq<string>, thumbnailOk: seq<bool>, parseError: string)
    requires |form| == |selection| == |suffixes| == |thumbnailOk|
    requires forall i :: 0 <= i < |selection| ==> form[i] == Client.FormField(Client.UploadField, selection[i])
    requires selection != [] && WithinLimits(selection)
    ensures var outcome := ClientSees(Intake.UploadReply(PartsOf(form), suffixes, Some(hash), thumbnailOk), parseError);
      && Client.SelectionAfter(outcome, selection) == []
      && Client.UploadNotice(outcome) ==
           Client.Notice(DecimalString(|selection|) + " file(s) uploaded successfully", Client.SuccessNotice)
  {
    FormAdmittedIffWithinLimits(selection, form);
  }

  /**
   * One upload from the controller's point of view: the form it builds is
   * what the `/upload` handler receives, and the handler's reply decides the
   * selection and the notification.
   */
  method UploadRoundTrip(
    uploader: Client.ImageUploader, hash: Option<string>, suffixes: seq<string>, thumbnailOk: seq<bool>, parseError: string)
    returns (reply: Option<Intake.UploadResponse>)
    requires uploader.Valid()
    requires |suffixes| == |thumbnailOk| == |uploader.selectedFiles|
    modifies uploader
    ensures uploader.Valid()
    ensures old(uploader.selectedFiles) == [] <==> reply == None
    ensures reply.Some? && reply.value.Uploaded? ==> uploader.selectedFiles == []
    ensures reply.Some? && !reply.value.Uploaded? ==> uploader.selectedFiles == old(uploader.selectedFiles)
    ensures old(uploader.selectedFiles) != [] && WithinLimits(old(uploader.selectedFiles)) ==>
      && reply.Some?
      && (hash.Some? <==> reply.value.Uploaded?)
      && (hash.None? ==> uploader.notification == Some(Client.Notice("Upload failed: " + Intake.MissingHashMessage, Client.ErrorNotice)))
  {
    var selection := uploader.selectedFiles;
    if selection == [] {
      // with nothing selected `uploadFiles` returns before any request is made,
      // so the outcome passed here is never consulted
      var request := uploader.UploadFiles(Client.ServerSuccess(""));
      return None;
    }
    var form := Client.FormDataOf(selection);
    var response := Intake.HandleUpload(PartsOf(form), suffixes, hash, thumbnailOk);
    var request := uploader.UploadFiles(ClientSees(response, parseError));
    FormAdmittedIffWithinLimits(selection, form);
    reply := Some(response);
  }

  /**
   * One confirmed delete from the modal: the request names the image shown,
   * the store loses that image and its thumbnail, and the modal closes.
   */
  method DeleteRoundTrip(uploader: Client.ImageUploader, store: Gallery.ImageStore, confirmed: bool)
    requires uploader.Valid()
    modifies uploader, store
    ensures uploader.Valid()
    ensures uploader.selectedFiles == old(uploader.selectedFiles)
    ensures old(uploader.currentModalImage).None? || !confirmed ==>
      && store.uploads == old(store.uploads) && store.thumbnails == old(store.thumbnails)
      && uploader.currentModalImage == old(uploader.currentModalImage)
    ensures old(uploader.currentModalImage).Some? && confirmed ==>
      var name := old(uploader.currentModalImage).value.filename;
      && store.uploads == old(store.uploads) - {name}
      && store.thumbnails == old(store.thumbnails) - {Layout.ThumbName(name)}
      && uploader.currentModalImage == None
      && uploader.notification == Some(Client.Notice("Image deleted successfully", Client.SuccessNotice))
  {
    if uploader.currentModalImage.None? || !confirmed {
      // without a current image or a confirmation no request is made, so the
      // outcome passed here is never consulted
      var request := uploader.DeleteCurrentImage(confirmed, Client.DeleteThrew);
      return;
    }
    var name := uploader.currentModalImage.value.filename;
    var response := store.DeleteImage(name);
    var request := uploader.DeleteCurrentImage(confirmed, DeleteSeen(response));
  }
}
