/**
 * Node's `path.extname` on POSIX paths: the extension of the last path
 * segment, from its last '.' to its end, ignoring trailing '/' characters.
 */
module NodePath {
  import opened Strings

  /** The path without its trailing '/' characters. */
  function TrimTrailingSlashes(p: string): (t: string)
    ensures |t| <= |p|
  {
    if p != [] && p[|p| - 1] == '/' then TrimTrailingSlashes(p[..|p| - 1]) else p
  }

  /** The last path segment: what follows the last '/' once trailing slashes are dropped. */
  function FinalSegment(p: string): string {
    var t := TrimTrailingSlashes(p);
    t[LastIndexOf(t, '/') + 1..]
  }

  /**
   * `path.extname(p)`: empty when the final segment has no '.', when its last
   * '.' is its first character (".profile") and when the segment is "..";
   * otherwise the segment from its last '.' on.
   */
  function Extname(p: string): (ext: string)
    ensures ext == [] || (ext[0] == '.' && |ext| < |p|)
  {
    var seg := FinalSegment(p);
    var dot := LastIndexOf(seg, '.');
    LastIndexOfFinds(seg, '.');
    if dot <= 0 || seg == ".." then [] else seg[dot..]
  }

  /** TrimTrailingSlashes keeps a prefix of the path. */
  lemma {:induction false} TrimmedPrefix(p: string)
    ensures TrimTrailingSlashes(p) == p[..|TrimTrailingSlashes(p)|]
  {
    if p != [] && p[|p| - 1] == '/' {
      TrimmedPrefix(p[..|p| - 1]);
    }
  }

  /** The final segment holds no '/'. */
  lemma FinalSegmentHasNoSlash(p: string)
    ensures '/' !in FinalSegment(p)
  {
    var t := TrimTrailingSlashes(p);
    LastIndexOfFinds(t, '/');
  }

  /**
   * An extension is empty, or a '.' followed by text with no further '.' and
   * no '/', and it is a proper tail of the final segment (the segment has
   * something before the dot).
   */
  lemma ExtnameShape(p: string)
    ensures var ext := Extname(p);
      ext == [] || (ext[0] == '.' && '.' !in ext[1..] && '/' !in ext)
    ensures var ext := Extname(p);
      ext != [] ==> EndsWith(FinalSegment(p), ext) && |ext| < |FinalSegment(p)|
  {
    var seg := FinalSegment(p);
    var dot := LastIndexOf(seg, '.');
    FinalSegmentHasNoSlash(p);
    LastIndexOfFinds(seg, '.');
    if dot > 0 && seg != ".." {
      assert seg[dot..][1..] == seg[dot + 1..];
    }
  }

  /** A name without '/' that is some stem, a '.', and a dot-free tail has the tail as its extension. */
  lemma ExtnameOfStemAndTail(stem: string, tail: string)
    requires stem != [] && '/' !in stem && '.' !in stem
    requires '/' !in tail && '.' !in tail
    ensures Extname(stem + "." + tail) == "." + tail
  {
    var ext := "." + tail;
    var p := stem + ext;
    assert stem + "." + tail == p;
    assert '/' !in ext;
    assert '/' !in p;
    assert p[|p| - 1] != '/';
    assert TrimTrailingSlashes(p) == p;
    LastIndexOfFinds(p, '/');
    assert FinalSegment(p) == p;
    assert p[|stem|..] == ext;
    assert p[|stem| + 1..] == tail;
    LastIndexOfAt(p, '.', |stem|);
  }

  /** A name without '/' or '.' has no extension. */
  lemma ExtnameWithoutDot(name: string)
    requires '/' !in name && '.' !in name
    ensures Extname(name) == []
  {
    TrimmedPrefix(name);
    var t := TrimTrailingSlashes(name);
    var k := LastIndexOf(t, '/') + 1;
    var seg := FinalSegment(name);
    assert seg == name[k..|t|];
    assert forall i :: 0 <= i < |seg| ==> seg[i] == name[k + i];
    LastIndexOfFinds(seg, '.');
  }

  /**
   * `path.extname` is non-empty exactly when the final segment is not ".." and
   * holds a '.' somewhere after its first character.
   */
  lemma ExtnameNonEmpty(p: string)
    ensures var seg := FinalSegment(p);
      Extname(p) != [] <==> seg != ".." && exists k :: 0 < k < |seg| && seg[k] == '.'
  {
    LastIndexOfFinds(FinalSegment(p), '.');
  }
}
