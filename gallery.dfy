/**
 * The gallery side of the server: `GET /api/images`, which lists the uploads
 * directory, and `DELETE /api/images/:filename`, which removes an image and
 * its thumbnail. Each directory is a map from entry name to size in bytes.
 */
module Gallery {
  import opened Wrappers
  import opened Strings
  import opened Seqs
  import opened Layout
  import NodePath

  /** Extensions (compared lower-cased) the listing treats as images. */
  const ImageExtensions: seq<string> := [".jpg", ".jpeg", ".png", ".gif", ".webp"]

  /** One listed image; `thumbnailPath` is None when no thumbnail file exists. */
  datatype GalleryEntry = GalleryEntry(filename: string, uploadPath: string, thumbnailPath: Option<string>, size: nat)

  datatype DeleteResponse = DeleteResponse(success: bool, message: string)

  /**
   * The listing's filter: the lower-cased `path.extname` is one of the image
   * extensions, so an image name ends in a '.' and three or four more characters.
   */
  function IsImageName(name: string): (b: bool)
    ensures b ==> var ext := NodePath.Extname(name); 4 <= |ext| <= 5 && ext[0] == '.'
  {
    ToLower(NodePath.Extname(name)) in ImageExtensions
  }

  /** `names` is a directory enumeration of `dir`: every entry exactly once, in some order. */
  ghost predicate IsListingOf(names: seq<string>, dir: map<string, nat>) {
    Distinct(names) && forall n :: n in dir <==> n in names
  }

  /** What the listing reports for entry `name` of the uploads directory. */
  function Describe(name: string, uploads: map<string, nat>, thumbnails: map<string, nat>): (e: GalleryEntry)
    requires name in uploads
    ensures e.filename == name
    ensures IsImageName(name) ==> Reports(e, uploads, thumbnails)
  {
    GalleryEntry(name, UploadsUrl + name,
                 if ThumbName(name) in thumbnails then Some(ThumbnailUrl(name)) else None,
                 uploads[name])
  }

  /** `e` truthfully reports an image of the uploads directory and its thumbnail's presence. */
  predicate Reports(e: GalleryEntry, uploads: map<string, nat>, thumbnails: map<string, nat>) {
    && e.filename in uploads
    && IsImageName(e.filename)
    && e.size == uploads[e.filename]
    && e.uploadPath == UploadsUrl + e.filename
    && (e.thumbnailPath.Some? <==> ThumbName(e.filename) in thumbnails)
    && (e.thumbnailPath.Some? ==> e.thumbnailPath.value == ThumbnailUrl(e.filename))
  }

  /**
   * `GET /api/images`: the entries of the enumeration `names` (as `readdirSync`
   * returned them) whose extension is an image extension, each described from
   * the two directories, in enumeration order.
   */
  function ListImages(names: seq<string>, uploads: map<string, nat>, thumbnails: map<string, nat>): (images: seq<GalleryEntry>)
    requires forall i :: 0 <= i < |names| ==> names[i] in uploads
    ensures |images| <= |names|
    ensures forall k :: 0 <= k < |images| ==> Reports(images[k], uploads, thumbnails)
    decreases |names|
  {
    if names == [] then []
    else
      var rest := ListImages(names[1..], uploads, thumbnails);
      if IsImageName(names[0]) then [Describe(names[0], uploads, thumbnails)] + rest else rest
  }

  function Filenames(images: seq<GalleryEntry>): (names: seq<string>)
    ensures |names| == |images|
  {
    seq(|images|, k requires 0 <= k < |images| => images[k].filename)
  }

  lemma FilenamesCons(e: GalleryEntry, rest: seq<GalleryEntry>)
    ensures Filenames([e] + rest) == [e.filename] + Filenames(rest)
  {
    assert forall k :: 1 <= k <= |rest| ==> ([e] + rest)[k] == rest[k - 1];
  }

  /** The listed names are the enumeration filtered by extension. */
  lemma {:induction false} ListedNamesAreFiltered(names: seq<string>, uploads: map<string, nat>, thumbnails: map<string, nat>)
    requires forall i :: 0 <= i < |names| ==> names[i] in uploads
    ensures Filenames(ListImages(names, uploads, thumbnails)) == Filter(names, IsImageName)
    decreases |names|
  {
    if names != [] {
      ListedNamesAreFiltered(names[1..], uploads, thumbnails);
      var rest := ListImages(names[1..], uploads, thumbnails);
      if IsImageName(names[0]) {
        var e := Describe(names[0], uploads, thumbnails);
        assert ListImages(names, uploads, thumbnails) == [e] + rest;
        FilenamesCons(e, rest);
      } else {
        assert ListImages(names, uploads, thumbnails) == rest;
        assert Filter(names, IsImageName) == Filter(names[1..], IsImageName);
      }
    }
  }

  /**
   * The listing names exactly the images of the uploads directory, each once,
   * in the order the directory enumerated them.
   */
  lemma ListingSelectsImages(names: seq<string>, uploads: map<string, nat>, thumbnails: map<string, nat>)
    requires IsListingOf(names, uploads)
    ensures var listed := Filenames(ListImages(names, uploads, thumbnails));
      && (forall n :: n in listed <==> n in uploads && IsImageName(n))
      && IsSubsequence(listed, names)
      && Distinct(listed)
  {
    var listed := Filenames(ListImages(names, uploads, thumbnails));
    ListedNamesAreFiltered(names, uploads, thumbnails);
    FilterIsSubsequence(names, IsImageName);
    FilterDistinct(names, IsImageName);
    forall n ensures n in listed <==> n in uploads && IsImageName(n) {
      FilterCount(names, IsImageName, n);
      assert n in listed <==> multiset(listed)[n] > 0;
      assert n in names <==> multiset(names)[n] > 0;
    }
  }

  /** The enumeration with every occurrence of `name` dropped. */
  function Without(names: seq<string>, name: string): seq<string> {
    Filter(names, n => n != name)
  }

  /** Whether an entry is about some file other than `name`. */
  function OtherThan(name: string): GalleryEntry -> bool {
    (e: GalleryEntry) => e.filename != name
  }

  /** The listing with every entry for `name` dropped. */
  function WithoutEntry(images: seq<GalleryEntry>, name: string): seq<GalleryEntry> {
    Filter(images, OtherThan(name))
  }

  /**
   * Deleting `name` removes exactly its entry from the listing: every other
   * image is still listed, in the same place relative to the rest, with the
   * same size and the same thumbnail status.
   */
  lemma {:induction false} DeleteRemovesOnlyItsEntry(
    names: seq<string>, uploads: map<string, nat>, thumbnails: map<string, nat>, name: string)
    requires forall i :: 0 <= i < |names| ==> names[i] in uploads
    ensures forall i :: 0 <= i < |Without(names, name)| ==> Without(names, name)[i] in uploads - {name}
    ensures ListImages(Without(names, name), uploads - {name}, thumbnails - {ThumbName(name)})
         == WithoutEntry(ListImages(names, uploads, thumbnails), name)
    decreases |names|
  {
    if names != [] {
      DeleteRemovesOnlyItsEntry(names[1..], uploads, thumbnails, name);
      var n := names[0];
      var uploads', thumbnails' := uploads - {name}, thumbnails - {ThumbName(name)};
      var rest := ListImages(names[1..], uploads, thumbnails);
      if n != name {
        assert Without(names, name) == [n] + Without(names[1..], name);
        if IsImageName(n) {
          assert ThumbName(n) in thumbnails' <==> ThumbName(n) in thumbnails by {
            if ThumbName(n) == ThumbName(name) { ThumbNameInjective(n, name); }
          }
          assert Describe(n, uploads', thumbnails') == Describe(n, uploads, thumbnails);
          var e := Describe(n, uploads, thumbnails);
          assert WithoutEntry([e] + rest, name) == [e] + WithoutEntry(rest, name);
        }
      } else {
        assert Without(names, name) == Without(names[1..], name);
        if IsImageName(n) {
          var e := Describe(n, uploads, thumbnails);
          assert WithoutEntry([e] + rest, name) == WithoutEntry(rest, name);
        }
      }
    }
  }

  /**
   * Deleting the only image of the uploads directory empties the listing,
   * whatever other (non-image) entries the directory still holds.
   */
  lemma ListingEmptyAfterDeletingOnlyImage(
    names: seq<string>, uploads: map<string, nat>, thumbnails: map<string, nat>, name: string)
    requires IsListingOf(names, uploads)
    requires forall n :: n in uploads && IsImageName(n) ==> n == name
    ensures forall i :: 0 <= i < |Without(names, name)| ==> Without(names, name)[i] in uploads - {name}
    ensures ListImages(Without(names, name), uploads - {name}, thumbnails - {ThumbName(name)}) == []
  {
    DeleteRemovesOnlyItsEntry(names, uploads, thumbnails, name);
    var listed := ListImages(names, uploads, thumbnails);
    assert forall k :: 0 <= k < |listed| ==> !OtherThan(name)(listed[k]);
    FilterEmpty(listed, OtherThan(name));
  }

  /** The uploads and thumbnails directories, which the delete handler changes in place. */
  class ImageStore {
    var uploads: map<string, nat>
    var thumbnails: map<string, nat>

    constructor (uploads: map<string, nat>, thumbnails: map<string, nat>)
      ensures this.uploads == uploads && this.thumbnails == thumbnails
    {
      this.uploads := uploads;
      this.thumbnails := thumbnails;
    }

    /**
     * The current listing, for a directory enumeration `names` of the uploads
     * directory: each image file once, every entry describing the stored file.
     */
    function Images(names: seq<string>): (images: seq<GalleryEntry>)
      reads this
      requires IsListingOf(names, uploads)
      ensures forall n :: n in Filenames(images) <==> n in uploads && IsImageName(n)
      ensures Distinct(Filenames(images))
      ensures forall k :: 0 <= k < |images| ==> Reports(images[k], uploads, thumbnails)
    {
      ListingSelectsImages(names, uploads, thumbnails);
      ListImages(names, uploads, thumbnails)
    }

    /**
     * `DELETE /api/images/:filename`: unlink the upload and its thumbnail when
     * present, answering success either way. The name is used as given, with
     * no check for separators or "..".
     */
    method DeleteImage(filename: string) returns (response: DeleteResponse)
      modifies this
      ensures response == DeleteResponse(true, "Image deleted successfully")
      ensures filename !in uploads && ThumbName(filename) !in thumbnails
      ensures uploads == old(uploads) - {filename}
      ensures thumbnails == old(thumbnails) - {ThumbName(filename)}
    {
      if filename in uploads {
        uploads := uploads - {filename};
      }
      var thumbnailName := ThumbName(filename);
      if thumbnailName in thumbnails {
        thumbnails := thumbnails - {thumbnailName};
      }
      response := DeleteResponse(true, "Image deleted successfully");
    }
  }
}
