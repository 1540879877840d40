/**
 * The media-store id the controllers cut out of a stored image URL before
 * asking the media store to destroy the image: the URL's last path segment
 * up to its first dot.
 */
module Media {
  import opened Js

  /** `url.split("/").pop().split(".")[0]`. */
  function MediaId(url: string): string {
    Split(Last(Split(url, '/')), '.')[0]
  }

  /** The last path segment of a URL: everything after its last `/`. */
  function LastSegment(url: string): (seg: string)
    ensures |seg| <= |url| && seg == url[|url| - |seg|..]
    ensures '/' !in seg
    ensures |seg| == |url| || url[|url| - |seg| - 1] == '/'
  {
    AfterLast(url, '/')
  }

  /** The media id is what precedes the first dot of the last segment. */
  lemma MediaIdOfSegment(url: string)
    ensures MediaId(url) == BeforeFirst(LastSegment(url), '.')
  {
    SplitLast(url, '/');
    SplitHead(LastSegment(url), '.');
  }

  /**
   * The media id is a prefix of the URL's last segment, holds neither `/`
   * nor `.`, is the whole segment when that has no dot, and otherwise stops
   * exactly at the segment's first dot.
   */
  lemma MediaIdShape(url: string)
    ensures |MediaId(url)| <= |LastSegment(url)|
    ensures MediaId(url) == LastSegment(url)[..|MediaId(url)|]
    ensures '/' !in MediaId(url) && '.' !in MediaId(url)
    ensures '.' !in LastSegment(url) ==> MediaId(url) == LastSegment(url)
    ensures '.' in LastSegment(url) ==> |MediaId(url)| < |LastSegment(url)| && LastSegment(url)[|MediaId(url)|] == '.'
  {
    var seg := LastSegment(url);
    MediaIdOfSegment(url);
    var id := MediaId(url);
    assert forall i | 0 <= i < |id| :: id[i] == seg[i];
    assert |id| < |seg| ==> seg[|id|] in seg;
  }

  /** A `/`-free segment after a `/` is the last segment. */
  lemma LastSegmentAfterSlash(dir: string, seg: string)
    requires '/' !in seg
    ensures LastSegment(dir + "/" + seg) == seg
  {
    var url := dir + "/" + seg;
    assert seg == url[|url| - |seg|..];
    assert url[|url| - |seg| - 1] == '/';
    AfterLastUnique(url, '/', seg);
  }

  /** Cutting `<name>.<ext>` at its first dot gives the dot-free `name`. */
  lemma BeforeFirstDot(name: string, ext: string)
    requires '.' !in name
    ensures BeforeFirst(name + "." + ext, '.') == name
  {
    var seg := name + "." + ext;
    var id := BeforeFirst(seg, '.');
    assert seg[|name|] == '.';
    assert seg[..|name|] == name;
    assert |id| <= |name|;
    assert id == seg[..|id|] == name;
  }

  /**
   * For a URL of the shape the media store hands out, `<dir>/<name>.<ext>`,
   * the media id is the file name without its extension.
   */
  lemma MediaIdOfUploadUrl(dir: string, name: string, ext: string)
    requires '/' !in name && '.' !in name && '/' !in ext
    ensures MediaId(dir + "/" + name + "." + ext) == name
  {
    var seg := name + "." + ext;
    assert dir + "/" + name + "." + ext == dir + "/" + seg;
    forall i | 0 <= i < |seg| ensures seg[i] != '/' {
      if i < |name| { assert seg[i] == name[i]; }
      else if i > |name| { assert seg[i] == ext[i - |name| - 1]; }
    }
    LastSegmentAfterSlash(dir, seg);
    MediaIdOfSegment(dir + "/" + seg);
    BeforeFirstDot(name, ext);
  }
}
