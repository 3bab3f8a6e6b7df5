/** Names and URL prefixes shared by the upload, listing and deletion handlers. */
module Layout {

  /** URL prefix under which the uploads directory is served. */
  const UploadsUrl := "/uploads/"

  /** URL prefix under which the thumbnails directory is served. */
  const ThumbnailsUrl := "/thumbnails/"

  /** Marker that turns a stored file name into its thumbnail's name. */
  const ThumbPrefix := "thumb_"

  /** The name under which the thumbnail of stored file `name` is kept. */
  function ThumbName(name: string): (t: string)
  {
    ThumbPrefix + name
  }

  /** The URL a thumbnail is served at: "/thumbnails/thumb_" followed by the stored name. */
  function ThumbnailUrl(name: string): (url: string)
    ensures url == "/thumbnails/thumb_" + name
  {
    assert ThumbnailsUrl + ThumbPrefix == "/thumbnails/thumb_";
    ThumbnailsUrl + ThumbName(name)
  }

  /** A thumbnail's name is the marker followed by the stored file's name, which it gives back. */
  lemma ThumbNameSplits(name: string)
    ensures |ThumbName(name)| == |ThumbPrefix| + |name|
    ensures ThumbName(name)[..|ThumbPrefix|] == ThumbPrefix && ThumbName(name)[|ThumbPrefix|..] == name
  {
  }

  /** Distinct stored files never share a thumbnail. */
  lemma ThumbNameInjective(a: string, b: string)
    requires ThumbName(a) == ThumbName(b)
    ensures a == b
  {
    ThumbNameSplits(a);
    ThumbNameSplits(b);
  }
}
