/**
 * The `/upload` route: multer's intake stage (field and count check, MIME
 * filter, size limit, stored-name rule) followed by the handler that builds
 * the per-file manifest.
 */
module Intake {
  import opened Wrappers
  import opened Strings
  import opened Layout
  import NodePath

  /** Form field that `upload.array('images', 10)` accepts files from. */
  const UploadField := "images"

  /** Most files accepted per request. */
  const MaxFiles: nat := 10

  /** Largest accepted file size in bytes (10 MiB); one byte more is rejected. */
  const MaxFileSize: nat := 10 * 1024 * 1024

  /** What `path.join(uploadsDir, undefined)` throws when the form carries no `hash`. */
  const MissingHashMessage := "The \"path\" argument must be of type string. Received undefined"

  /** One file part of the multipart request, as the browser sent it. */
  datatype Part = Part(fieldname: string, originalname: string, mimetype: string, size: nat)

  /** A file multer has stored in the uploads directory under `filename`. */
  datatype ReceivedFile = ReceivedFile(
    fieldname: string, originalname: string, mimetype: string, size: nat, filename: string)

  /** Why multer aborted the whole request (Express then answers 500). */
  datatype MulterError =
    | UnexpectedFile(field: string)   // LIMIT_UNEXPECTED_FILE: wrong field or more than MaxFiles
    | NotAnImage(message: string)     // the error fileFilter passes back
    | FileTooLarge(field: string)     // LIMIT_FILE_SIZE

  datatype FilterDecision = Accept | Reject(message: string)

  /** One entry of the upload manifest. */
  datatype ManifestEntry = ManifestEntry(
    filename: string, originalName: string, size: nat, mimeType: string,
    uploadPath: string, thumbnailPath: Option<string>, thumbnailError: bool)

  datatype UploadResponse =
    | Uploaded(message: string, files: seq<ManifestEntry>)  // 200 {success: true, message, files}
    | Rejected(status: nat, error: string)                 // JSON {error} with that status
    | Aborted(cause: MulterError)                          // Express's default error page, 500

  /** The message of the error `fileFilter` rejects a file with. */
  const NotAnImageMessage := "Only image files are allowed!"

  predicate IsImageMime(mimetype: string) {
    StartsWith(mimetype, "image/")
  }

  /** multer `fileFilter`: only MIME types under "image/" are let through. */
  function FileFilter(mimetype: string): (d: FilterDecision)
    ensures d == Accept <==> |mimetype| >= 6 && mimetype[..6] == "image/"
    ensures d.Reject? ==> d.message == NotAnImageMessage
  {
    if IsImageMime(mimetype) then Accept else Reject(NotAnImageMessage)
  }

  /**
   * `Date.now() + '-' + Math.round(Math.random() * 1E9)` for a given clock
   * reading and draw: made of digits and '-' only.
   */
  function UniqueSuffix(now: nat, draw: nat): (u: string)
    ensures forall i :: 0 <= i < |u| ==> IsSuffixChar(u[i])
  {
    DecimalStringDigits(now);
    DecimalStringDigits(draw);
    DashJoinChars(DecimalString(now), DecimalString(draw));
    DecimalString(now) + "-" + DecimalString(draw)
  }

  /** multer `filename`: `fieldname + '-' + suffix + path.extname(originalname)`. */
  function StoredName(fieldname: string, suffix: string, originalname: string): string {
    fieldname + "-" + suffix + NodePath.Extname(originalname)
  }

  /** The stored name begins with the field name and a '-' and ends with the original's extension. */
  lemma StoredNameBrackets(fieldname: string, suffix: string, originalname: string)
    ensures StartsWith(StoredName(fieldname, suffix, originalname), fieldname + "-")
    ensures EndsWith(StoredName(fieldname, suffix, originalname), NodePath.Extname(originalname))
  {
    var ext := NodePath.Extname(originalname);
    var name := StoredName(fieldname, suffix, originalname);
    assert name == (fieldname + "-") + (suffix + ext);
    assert name[..|fieldname + "-"|] == fieldname + "-";
    assert name[|name| - |ext|..] == ext;
  }

  predicate IsSuffixChar(c: char) {
    IsDigit(c) || c == '-'
  }

  /** Two digit strings joined by a '-' consist of digits and '-' only. */
  lemma DashJoinChars(a: string, b: string)
    requires forall i :: 0 <= i < |a| ==> IsDigit(a[i])
    requires forall i :: 0 <= i < |b| ==> IsDigit(b[i])
    ensures forall i :: 0 <= i < |a + "-" + b| ==> IsSuffixChar((a + "-" + b)[i])
  {
    var u := a + "-" + b;
    forall i | 0 <= i < |u| ensures IsSuffixChar(u[i]) {
      if i < |a| { assert u[i] == a[i]; }
      else if i > |a| { assert u[i] == b[i - |a| - 1]; }
    }
  }

  /** Length of the longest prefix of `w` made of digits and '-'. */
  function SuffixRun(w: string): nat {
    if w == [] || !IsSuffixChar(w[0]) then 0 else 1 + SuffixRun(w[1..])
  }

  lemma {:induction false} SuffixRunOfSplit(s: string, e: string)
    requires forall i :: 0 <= i < |s| ==> IsSuffixChar(s[i])
    requires e == [] || e[0] == '.'
    ensures SuffixRun(s + e) == |s|
  {
    if s == [] {
      assert s + e == e;
    } else {
      assert (s + e)[1..] == s[1..] + e;
      SuffixRunOfSplit(s[1..], e);
    }
  }

  /**
   * A suffix made of digits and '-' followed by an extension (empty or starting
   * with '.') can be split back uniquely.
   */
  lemma SplitSuffixExtension(s1: string, e1: string, s2: string, e2: string)
    requires forall i :: 0 <= i < |s1| ==> IsSuffixChar(s1[i])
    requires forall i :: 0 <= i < |s2| ==> IsSuffixChar(s2[i])
    requires e1 == [] || e1[0] == '.'
    requires e2 == [] || e2[0] == '.'
    requires s1 + e1 == s2 + e2
    ensures s1 == s2 && e1 == e2
  {
    SuffixRunOfSplit(s1, e1);
    SuffixRunOfSplit(s2, e2);
    assert s1 == (s1 + e1)[..|s1|];
    assert s2 == (s2 + e2)[..|s2|];
    assert e1 == (s1 + e1)[|s1|..];
    assert e2 == (s2 + e2)[|s2|..];
  }

  /** Two renderings "now-draw" are equal only for equal clock readings and draws. */
  lemma UniqueSuffixInjective(now1: nat, draw1: nat, now2: nat, draw2: nat)
    requires UniqueSuffix(now1, draw1) == UniqueSuffix(now2, draw2)
    ensures now1 == now2 && draw1 == draw2
  {
    var a1, b1 := DecimalString(now1), DecimalString(draw1);
    var a2, b2 := DecimalString(now2), DecimalString(draw2);
    var u1, u2 := UniqueSuffix(now1, draw1), UniqueSuffix(now2, draw2);
    DecimalStringDigits(now1);
    DecimalStringDigits(now2);
    assert u1[|a1|] == '-' && u2[|a2|] == '-';
    assert |a1| == |a2|;
    assert a1 == u1[..|a1|] && a2 == u2[..|a2|];
    DecimalStringInjective(now1, now2);
    assert b1 == u1[|a1| + 1..] && b2 == u2[|a2| + 1..];
    DecimalStringInjective(draw1, draw2);
  }

  /**
   * Two files stored through the same field get different names whenever
   * their clock readings or draws differ, whatever their original names.
   */
  lemma StoredNamesDistinct(
    fieldname: string, original1: string, now1: nat, draw1: nat,
    original2: string, now2: nat, draw2: nat)
    requires now1 != now2 || draw1 != draw2
    ensures StoredName(fieldname, UniqueSuffix(now1, draw1), original1)
         != StoredName(fieldname, UniqueSuffix(now2, draw2), original2)
  {
    var u1, u2 := UniqueSuffix(now1, draw1), UniqueSuffix(now2, draw2);
    var e1, e2 := NodePath.Extname(original1), NodePath.Extname(original2);
    if StoredName(fieldname, u1, original1) == StoredName(fieldname, u2, original2) {
      NodePath.ExtnameShape(original1);
      NodePath.ExtnameShape(original2);
      SplitStoredName(fieldname + "-", u1, e1, u2, e2);
      UniqueSuffixInjective(now1, draw1, now2, draw2);
    }
  }

  /** Behind a common head, a suffix of digits and '-' and an extension split back uniquely. */
  lemma SplitStoredName(head: string, u1: string, e1: string, u2: string, e2: string)
    requires forall i :: 0 <= i < |u1| ==> IsSuffixChar(u1[i])
    requires forall i :: 0 <= i < |u2| ==> IsSuffixChar(u2[i])
    requires e1 == [] || e1[0] == '.'
    requires e2 == [] || e2[0] == '.'
    requires head + u1 + e1 == head + u2 + e2
    ensures u1 == u2
  {
    assert u1 + e1 == (head + u1 + e1)[|head|..];
    assert u2 + e2 == (head + u2 + e2)[|head|..];
    SplitSuffixExtension(u1, e1, u2, e2);
  }


  /**
   * The stored name of an upload has the extension of the original name, so
   * the listing recognises a stored file exactly when it recognises its
   * original name's extension.
   */
  lemma StoredNameKeepsExtension(now: nat, draw: nat, originalname: string)
    ensures NodePath.Extname(StoredName(UploadField, UniqueSuffix(now, draw), originalname))
         == NodePath.Extname(originalname)
  {
    var u := UniqueSuffix(now, draw);
    var stem := UploadField + "-" + u;
    var ext := NodePath.Extname(originalname);
    StemWithoutSeparators(u);
    NodePath.ExtnameShape(originalname);
    assert StoredName(UploadField, u, originalname) == stem + ext;
    if ext == [] {
      NodePath.ExtnameWithoutDot(stem);
      assert stem + ext == stem;
    } else {
      var tail := ext[1..];
      assert ext == "." + tail;
      assert stem + ext == stem + "." + tail;
      NodePath.ExtnameOfStemAndTail(stem, tail);
    }
  }

  /** The part of a stored name before its extension holds neither '/' nor '.'. */
  lemma StemWithoutSeparators(u: string)
    requires forall i :: 0 <= i < |u| ==> IsSuffixChar(u[i])
    ensures '/' !in UploadField + "-" + u && '.' !in UploadField + "-" + u
  {
    var stem := UploadField + "-" + u;
    forall i | 0 <= i < |stem| ensures IsSuffixChar(stem[i]) || 'a' <= stem[i] <= 'z' {
      if i >= |UploadField| + 1 { assert stem[i] == u[i - |UploadField| - 1]; }
    }
  }

  /** The file a part becomes once stored under the suffix it drew. */
  function Store(p: Part, suffix: string): ReceivedFile {
    ReceivedFile(p.fieldname, p.originalname, p.mimetype, p.size,
                 StoredName(p.fieldname, suffix, p.originalname))
  }

  /** The checks multer makes of one part before storing it. */
  predicate Admissible(p: Part) {
    p.fieldname == UploadField && IsImageMime(p.mimetype) && p.size <= MaxFileSize
  }

  /**
   * The error multer aborts the request with, if any: parts are examined in
   * order with `left` more files allowed, and the first that fails the
   * field/count check, the filter or the size limit decides the error.
   */
  function FirstRejection(parts: seq<Part>, left: nat): (r: Option<MulterError>)
    ensures r == None <==> |parts| <= left && forall i :: 0 <= i < |parts| ==> Admissible(parts[i])
    decreases |parts|
  {
    if parts == [] then None
    else
      var p := parts[0];
      if p.fieldname != UploadField || left == 0 then Some(UnexpectedFile(p.fieldname))
      else if !IsImageMime(p.mimetype) then Some(NotAnImage(NotAnImageMessage))
      else if p.size > MaxFileSize then Some(FileTooLarge(p.fieldname))
      else
        var r := FirstRejection(parts[1..], left - 1);
        assert forall i :: 1 <= i < |parts| ==> parts[i] == parts[1..][i - 1];
        r
  }

  /**
   * multer's intake: either the whole request is aborted, or every part is
   * stored, the i-th under the i-th suffix, in the order the parts arrived.
   */
  function Receive(parts: seq<Part>, suffixes: seq<string>): (r: Result<seq<ReceivedFile>, MulterError>)
    requires |suffixes| == |parts|
    ensures r.Failure? <==> FirstRejection(parts, MaxFiles).Some?
    ensures r.Failure? ==> FirstRejection(parts, MaxFiles) == Some(r.error)
    ensures r.Success? ==>
      && |r.value| == |parts|
      && forall i :: 0 <= i < |parts| ==>
           && r.value[i].fieldname == UploadField
           && r.value[i].originalname == parts[i].originalname
           && r.value[i].mimetype == parts[i].mimetype
           && r.value[i].size == parts[i].size
           && r.value[i].filename == StoredName(UploadField, suffixes[i], parts[i].originalname)
  {
    match FirstRejection(parts, MaxFiles)
    case Some(e) => Failure(e)
    case None => Success(seq(|parts|, i requires 0 <= i < |parts| => Store(parts[i], suffixes[i])))
  }

  /**
   * The manifest entry the handler records for a stored file: the file's own
   * names, size and type; with a thumbnail and a hash, the hash-directory URL
   * and the thumbnail URL; otherwise the plain upload URL and the error flag.
   */
  function EntryFor(f: ReceivedFile, hash: Option<string>, thumbnailOk: bool): (e: ManifestEntry)
    ensures e.filename == f.filename && e.originalName == f.originalname
    ensures e.size == f.size && e.mimeType == f.mimetype
    ensures e.thumbnailError <==> !(thumbnailOk && hash.Some?)
    ensures !e.thumbnailError ==>
      && e.uploadPath == UploadsUrl + hash.value + "/" + f.filename
      && e.thumbnailPath == Some(ThumbnailUrl(f.filename))
    ensures e.thumbnailError ==> e.uploadPath == UploadsUrl + f.filename && e.thumbnailPath == None
  {
    if thumbnailOk && hash.Some? then
      ManifestEntry(f.filename, f.originalname, f.size, f.mimetype,
                    UploadsUrl + hash.value + "/" + f.filename,
                    Some(ThumbnailUrl(f.filename)), false)
    else
      // the thumbnail failed, or `path.join(uploadsDir, hash)` threw on a missing hash;
      // both land in the same catch
      ManifestEntry(f.filename, f.originalname, f.size, f.mimetype,
                    UploadsUrl + f.filename, None, true)
  }

  /** The manifest: one entry per stored file, in `req.files` order. */
  function Manifest(files: seq<ReceivedFile>, hash: Option<string>, thumbnailOk: seq<bool>): (m: seq<ManifestEntry>)
    requires |thumbnailOk| == |files|
    ensures |m| == |files|
    ensures forall i :: 0 <= i < |files| ==>
      m[i].filename == files[i].filename && (m[i].thumbnailError <==> !(thumbnailOk[i] && hash.Some?))
  {
    seq(|files|, i requires 0 <= i < |files| => EntryFor(files[i], hash, thumbnailOk[i]))
  }

  /**
   * The reply to `POST /upload`: multer's verdict, then the empty-request
   * guard, then the manifest; with no `hash` the final `path.join` throws and
   * the outer catch answers 500.
   */
  function UploadReply(parts: seq<Part>, suffixes: seq<string>, hash: Option<string>, thumbnailOk: seq<bool>): (r: UploadResponse)
    requires |suffixes| == |parts| == |thumbnailOk|
    ensures r.Aborted? <==> Receive(parts, suffixes).Failure?
    ensures r == Rejected(400, "No files uploaded") <==> parts == []
    ensures r.Uploaded? <==> parts != [] && hash.Some? && Receive(parts, suffixes).Success?
    ensures parts != [] && hash.None? && Receive(parts, suffixes).Success? ==>
      r == Rejected(500, "Upload failed: " + MissingHashMessage)
    ensures r.Uploaded? ==>
      && |r.files| == |parts|
      && r.message == DecimalString(|r.files|) + " file(s) uploaded successfully"
      && (forall i :: 0 <= i < |parts| ==> r.files[i].filename == StoredName(UploadField, suffixes[i], parts[i].originalname))
      && (forall i :: 0 <= i < |parts| ==>
            && r.files[i].originalName == parts[i].originalname
            && r.files[i].size == parts[i].size
            && r.files[i].mimeType == parts[i].mimetype)
      && (forall i :: 0 <= i < |parts| && thumbnailOk[i] ==>
            && r.files[i].uploadPath == UploadsUrl + hash.value + "/" + r.files[i].filename
            && r.files[i].thumbnailPath == Some(ThumbnailUrl(r.files[i].filename))
            && !r.files[i].thumbnailError)
      && (forall i :: 0 <= i < |parts| && !thumbnailOk[i] ==>
            && r.files[i].uploadPath == UploadsUrl + r.files[i].filename
            && r.files[i].thumbnailPath == None
            && r.files[i].thumbnailError)
  {
    match Receive(parts, suffixes)
    case Failure(e) => Aborted(e)
    case Success(files) =>
      if |files| == 0 then Rejected(400, "No files uploaded")
      else if hash.None? then Rejected(500, "Upload failed: " + MissingHashMessage)
      else
        var entries := Manifest(files, hash, thumbnailOk);
        Uploaded(DecimalString(|entries|) + " file(s) uploaded successfully", entries)
  }

  /** The handler's loop: one entry pushed onto `uploadedFiles` per stored file, in order. */
  method BuildManifest(files: seq<ReceivedFile>, hash: Option<string>, thumbnailOk: seq<bool>)
    returns (uploadedFiles: seq<ManifestEntry>)
    requires |thumbnailOk| == |files|
    ensures uploadedFiles == Manifest(files, hash, thumbnailOk)
  {
    uploadedFiles := [];
    for i := 0 to |files|
      invariant |uploadedFiles| == i
      invariant forall k :: 0 <= k < i ==> uploadedFiles[k] == EntryFor(files[k], hash, thumbnailOk[k])
    {
      var entry := EntryFor(files[i], hash, thumbnailOk[i]);
      uploadedFiles := uploadedFiles + [entry];
    }
  }

  /** The `/upload` handler: multer's stage, the guard, the manifest loop and the reply. */
  method HandleUpload(parts: seq<Part>, suffixes: seq<string>, hash: Option<string>, thumbnailOk: seq<bool>)
    returns (response: UploadResponse)
    requires |suffixes| == |parts| == |thumbnailOk|
    ensures response == UploadReply(parts, suffixes, hash, thumbnailOk)
  {
    var received := Receive(parts, suffixes);
    if received.Failure? {
      return Aborted(received.error);
    }
    var files := received.value;
    if |files| == 0 {
      return Rejected(400, "No files uploaded");
    }
    var uploadedFiles := BuildManifest(files, hash, thumbnailOk);
    if hash.None? {
      return Rejected(500, "Upload failed: " + MissingHashMessage);
    }
    response := Uploaded(DecimalString(|uploadedFiles|) + " file(s) uploaded successfully", uploadedFiles);
  }
}
