/**
 * `downloadImage` (index.js): derive the stored file name of a favicon or
 * logo and the public reference under which the catalog exposes it. The
 * WHATWG URL parse, the HTTP GET and the file write are the caller's
 * oracles: the parsed pathname (None when `new URL` throws) and whether
 * the download and the write succeeded.
 */
module ImageFetcher {
  import opened Wrappers
  import opened JsStrings
  import opened NodePath

  /** The public base URL the image directory is served from. */
  const ImageBaseUrl: string := "https://www.eternityready.com/radio/img/"

  /** The extension used when the URL's pathname has none. */
  const DefaultExt: string := ".png"

  /**
   * The extension given to the stored file: `path.extname` of the pathname,
   * cut at the first '?', or ".png" when that is empty. It is always a dot
   * followed by dot-free, separator-free text.
   */
  function ImageExt(pathname: string): (ext: string)
    ensures ext != [] && ext[0] == '.'
    ensures '.' !in ext[1..] && '/' !in ext
  {
    var x := ExtName(pathname);
    var e := BeforeFirst(x, '?');
    if e == [] then DefaultExt
    else
      ExtPrefix(x, e);
      e
  }

  /** A non-empty prefix of an extension is an extension. */
  lemma ExtPrefix(x: string, e: string)
    requires x != [] && x[0] == '.' && '.' !in x[1..] && '/' !in x
    requires e != [] && |e| <= |x| && e == x[..|e|]
    ensures e[0] == '.' && '.' !in e[1..] && '/' !in e
  {
    forall i | 0 <= i < |e| ensures e[i] != '/' && (i > 0 ==> e[i] != '.') {
      assert e[i] == x[i] && x[i] in x;
      if i > 0 {
        assert x[1..][i - 1] == x[i];
      }
    }
    var tail := e[1..];
    forall i | 0 <= i < |tail| ensures tail[i] != '.' {
      assert tail[i] == e[i + 1];
    }
  }

  /** What `downloadImage(url, filename)` resolves to, given the parse and transfer outcomes. */
  function ImageRef(url: string, filename: string, pathname: Option<string>, transferOk: bool): string {
    if url == "" || filename == "" || pathname.None? || !transferOk then ""
    else ImageBaseUrl + (filename + ImageExt(pathname.value))
  }

  /** The reference is non-empty exactly when both arguments are present, the URL parses and the transfer succeeds. */
  lemma ImageRefNonEmptyIff(url: string, filename: string, pathname: Option<string>, transferOk: bool)
    ensures ImageRef(url, filename, pathname, transferOk) != ""
        <==> url != "" && filename != "" && pathname.Some? && transferOk
    ensures StartsWith(ImageRef(url, filename, pathname, transferOk), ImageBaseUrl)
        <==> ImageRef(url, filename, pathname, transferOk) != ""
  {
    if url != "" && filename != "" && pathname.Some? && transferOk {
      StartsWithConcat(ImageBaseUrl, filename + ImageExt(pathname.value));
    } else {
      assert |ImageBaseUrl| > 0;
    }
  }

  /**
   * Reading the extension back from the public reference gives the stored
   * file's extension, for a station name that is not "." and has no '/'.
   */
  lemma ReferenceExtRoundTrip(url: string, filename: string, pathname: string)
    requires url != "" && filename != "" && filename != "." && '/' !in filename
    ensures ExtName(ImageRef(url, filename, Some(pathname), true)) == ImageExt(pathname)
  {
    assert ImageBaseUrl[|ImageBaseUrl| - 1] == '/';
    ExtNameOfStoredFile(ImageBaseUrl, filename, ImageExt(pathname));
  }

  /** A pathname without an extension stores the image as ".png". */
  lemma MissingExtDefaultsToPng(url: string, filename: string, pathname: string)
    requires url != "" && filename != ""
    requires ExtName(pathname) == ""
    ensures ImageRef(url, filename, Some(pathname), true) == ImageBaseUrl + filename + ".png"
  {
    assert BeforeFirst("", '?') == "";
  }

  /** Cutting at '?' changes nothing on a pathname, which never holds a '?'. */
  lemma QueryCutIsNoOp(pathname: string)
    requires '?' !in pathname
    ensures ImageExt(pathname) == if ExtName(pathname) == "" then DefaultExt else ExtName(pathname)
  {
    var x := ExtName(pathname);
    ExtNameCharsFromPath(pathname, '?');
    var e := BeforeFirst(x, '?');
    assert e == x;
  }

  /**
   * downloadImage(url, filename). `requested` says whether the GET was
   * issued, `stored` names the file written under the image directory.
   */
  method DownloadImage(url: string, filename: string, pathname: Option<string>, fetchOk: bool, writeOk: bool)
    returns (ref: string, requested: bool, stored: Option<string>)
    ensures url == "" || filename == "" ==> ref == "" && !requested && stored.None?
    ensures requested <==> url != "" && filename != "" && pathname.Some?
    ensures stored.Some? <==> requested && fetchOk && writeOk
    ensures stored.Some? ==> stored.value == filename + ImageExt(pathname.value)
    ensures ref == if stored.Some? then ImageBaseUrl + stored.value else ""
    ensures ref == ImageRef(url, filename, pathname, fetchOk && writeOk)
  {
    if url == "" || filename == "" {
      return "", false, None;
    }
    if pathname.None? {
      // `new URL(url)` threw: caught, nothing fetched
      return "", false, None;
    }
    var ext := ImageExt(pathname.value);
    var fullName := filename + ext;
    requested := true;
    if !fetchOk || !writeOk {
      return "", requested, None;
    }
    stored := Some(fullName);
    ref := ImageBaseUrl + fullName;
  }
}
