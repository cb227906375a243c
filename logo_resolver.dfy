/**
 * `extractLogoFromWebsite` (index.js): normalise a station homepage, fetch
 * it (with one downgrade retry from https to http), pick the first <img>
 * whose src mentions "logo", resolve it against the homepage and hand it to
 * the image fetcher. Each fetched page is given as the src attributes of
 * its <img> elements in document order; the fetch outcomes, the WHATWG
 * relative resolution and the URL parse are oracles.
 */
module LogoResolver {
  import opened Wrappers
  import opened JsStrings
  import opened ImageFetcher

  /** The `src` attribute of each <img> of a page, in document order (None: no attribute). */
  type Page = seq<Option<string>>

  const HttpsScheme: string := "https://"
  const HttpScheme: string := "http://"

  /**
   * Prefixes "http://" unless the homepage already starts with "http" (the
   * bare prefix, so "httpbin.org" is kept as it is). The homepage is kept
   * as a suffix and the result always starts with "http".
   */
  function NormalizeHomepage(homepage: string): (r: string)
    ensures StartsWith(r, "http")
    ensures |homepage| <= |r| && r[|r| - |homepage|..] == homepage
    ensures StartsWith(homepage, "http") <==> r == homepage
    ensures !StartsWith(homepage, "http") ==> r == HttpScheme + homepage
  {
    if StartsWith(homepage, "http") then homepage else HttpScheme + homepage
  }

  /** Normalising an already normalised homepage changes nothing. */
  lemma NormalizeIdempotent(homepage: string)
    ensures NormalizeHomepage(NormalizeHomepage(homepage)) == NormalizeHomepage(homepage)
  {
  }

  /** A host name that merely begins with "http" is left without a scheme. */
  lemma SchemelessHttpHostKept()
    ensures NormalizeHomepage("httpbin.org") == "httpbin.org"
    ensures !Includes(NormalizeHomepage("httpbin.org"), "://")
  {
    var s := "httpbin.org";
    assert StartsWith(s, "http") by { assert s[..4] == "http"; }
    assert forall k :: 0 <= k < |s| ==> s[k] != ':';
    forall i: nat ensures !MatchesAt(s, "://", i) {
      if i + 3 <= |s| {
        assert s[i..i + 3][0] == s[i];
      }
    }
  }

  /** The URL of the single retry: the "https://" prefix swapped for "http://". */
  function RetryUrl(url: string): (r: string)
    requires StartsWith(url, HttpsScheme)
    ensures StartsWith(r, HttpScheme)
    ensures |r| == |url| - 1 && r[|HttpScheme|..] == url[|HttpsScheme|..]
  {
    ReplaceLeadingPrefix(url, HttpsScheme, HttpScheme);
    ReplaceFirst(url, HttpsScheme, HttpScheme)
  }

  /** The src filter: the lower-cased attribute (or "" when absent) contains "logo". */
  predicate IsLogoSrc(src: Option<string>) {
    Includes(ToLowerAscii(if src.Some? then src.value else ""), "logo")
  }

  /** The filter ignores the casing of the attribute: a lower-cased src passes exactly when the src does. */
  lemma LogoFilterIgnoresCase(src: string)
    ensures IsLogoSrc(Some(ToLowerAscii(src))) <==> IsLogoSrc(Some(src))
  {
    ToLowerAsciiIdempotent(src);
  }

  /** `s` holds `pat` at position `i` once its ASCII capitals are lowered. */
  predicate MatchesAtIgnoringCase(s: string, pat: string, i: nat) {
    i + |pat| <= |s| && forall k :: 0 <= k < |pat| ==> LowerAscii(s[i + k]) == pat[k]
  }

  /** A src passes the filter exactly when "logo" occurs in it in some ASCII casing. */
  lemma LogoFilterMatchesAnyCase(src: string)
    ensures IsLogoSrc(Some(src)) <==> exists i: nat :: MatchesAtIgnoringCase(src, "logo", i)
  {
    var t := ToLowerAscii(src);
    forall i: nat ensures MatchesAt(t, "logo", i) <==> MatchesAtIgnoringCase(src, "logo", i) {
      if i + 4 <= |src| {
        var w := t[i..i + 4];
        forall k | 0 <= k < 4 ensures w[k] == LowerAscii(src[i + k]) {
        }
      }
    }
    match IndexOf(t, "logo")
    case None =>
    case Some(j) => assert MatchesAt(t, "logo", j);
  }

  /** A src spelling "LOGO" in capitals anywhere passes the filter. */
  lemma UpperCaseLogoPasses(src: string, i: nat)
    requires i + 4 <= |src| && src[i..i + 4] == "LOGO"
    ensures IsLogoSrc(Some(src))
  {
    assert src[i] == 'L' && src[i + 1] == 'O' && src[i + 2] == 'G' && src[i + 3] == 'O' by {
      assert src[i..i + 4][0] == src[i] && src[i..i + 4][1] == src[i + 1];
      assert src[i..i + 4][2] == src[i + 2] && src[i..i + 4][3] == src[i + 3];
    }
    assert MatchesAtIgnoringCase(src, "logo", i);
    LogoFilterMatchesAnyCase(src);
  }

  /** The position of the first <img> whose src passes the filter, in document order. */
  function FirstLogoIndex(page: Page): (r: Option<nat>)
    ensures r.Some? ==> r.value < |page| && IsLogoSrc(page[r.value])
    ensures r.Some? ==> forall i :: 0 <= i < r.value ==> !IsLogoSrc(page[i])
    ensures r.None? ==> forall i :: 0 <= i < |page| ==> !IsLogoSrc(page[i])
  {
    if page == [] then None
    else if IsLogoSrc(page[0]) then Some(0)
    else
      match FirstLogoIndex(page[1..])
      case None => None
      case Some(i) => Some(i + 1)
  }

  /** `$('img').filter(...).first().attr('src')`: the matching src with its original casing. */
  function FirstLogoSrc(page: Page): Option<string> {
    match FirstLogoIndex(page)
    case None => None
    case Some(i) => page[i]
  }

  /**
   * The chosen src is the first one in document order that mentions "logo"
   * in any ASCII casing; it is returned verbatim and is never empty, so the
   * source's `!rawSrc` test fires exactly when no <img> matches.
   */
  lemma FirstLogoSrcSpec(page: Page)
    ensures FirstLogoSrc(page).None? <==> forall i :: 0 <= i < |page| ==> !IsLogoSrc(page[i])
    ensures FirstLogoSrc(page).Some? ==>
      exists k :: 0 <= k < |page| && page[k] == FirstLogoSrc(page)
        && (forall i :: 0 <= i < k ==> !IsLogoSrc(page[i]))
    ensures FirstLogoSrc(page).Some? ==>
      FirstLogoSrc(page).value != "" && Includes(ToLowerAscii(FirstLogoSrc(page).value), "logo")
  {
    match FirstLogoIndex(page)
    case None =>
    case Some(k) =>
      assert page[k].Some?;
      var v := page[k].value;
      var j := IndexOf(ToLowerAscii(v), "logo").value;
      assert MatchesAt(ToLowerAscii(v), "logo", j);
      assert v != "";
  }

  /** What the source does once a homepage response is in hand: pick, resolve and download. */
  function LogoFromPage(response: Option<Page>, base: string, stationName: string,
                        resolve: (string, string) -> Option<string>,
                        pathnameOf: string -> Option<string>, transferOk: bool): string
  {
    match response
    case None => ""
    case Some(page) =>
      match FirstLogoSrc(page)
      case None => ""
      case Some(rawSrc) =>
        match resolve(rawSrc, base)
        case None => ""
        case Some(logoUrl) => ImageRef(logoUrl, stationName, pathnameOf(logoUrl), transferOk)
  }

  /**
   * A logo reference comes only from a fetched page holding a logo
   * candidate that resolves, a non-empty station name and a successful
   * transfer; it always lives under the public image base URL.
   */
  lemma LogoFromPageNeeds(response: Option<Page>, base: string, stationName: string,
                          resolve: (string, string) -> Option<string>,
                          pathnameOf: string -> Option<string>, transferOk: bool)
    ensures var r := LogoFromPage(response, base, stationName, resolve, pathnameOf, transferOk);
      r != "" ==>
        && response.Some?
        && FirstLogoIndex(response.value).Some?
        && resolve(FirstLogoSrc(response.value).value, base).Some?
        && stationName != "" && transferOk
        && StartsWith(r, ImageBaseUrl)
  {
    var r := LogoFromPage(response, base, stationName, resolve, pathnameOf, transferOk);
    if r != "" {
      var u := resolve(FirstLogoSrc(response.value).value, base).value;
      ImageRefNonEmptyIff(u, stationName, pathnameOf(u), transferOk);
    }
  }

  /**
   * Conversely, a fetched page whose first logo candidate resolves to a
   * parsable URL yields a logo reference whenever the station has a name
   * and the transfer succeeds: the downloader's result is returned as it is.
   */
  lemma LogoFromPageGives(page: Page, base: string, stationName: string,
                          resolve: (string, string) -> Option<string>,
                          pathnameOf: string -> Option<string>, transferOk: bool, u: string)
    requires FirstLogoSrc(page).Some? && resolve(FirstLogoSrc(page).value, base) == Some(u)
    requires u != "" && pathnameOf(u).Some?
    requires stationName != "" && transferOk
    ensures LogoFromPage(Some(page), base, stationName, resolve, pathnameOf, transferOk) != ""
  {
    ImageRefNonEmptyIff(u, stationName, pathnameOf(u), transferOk);
  }

  /**
   * The inner try/catch of extractLogoFromWebsite: fetch the normalised
   * homepage and, when that throws and the URL is https, fetch it once more
   * over http. `fetched` lists the URLs requested, in order; `finalHomepage`
   * is the last one and `response` what it gave (None: it threw).
   */
  method FetchHomepage(homepage: string, firstResponse: Option<Page>, retryResponse: Option<Page>)
    returns (finalHomepage: string, response: Option<Page>, fetched: seq<string>)
    ensures 1 <= |fetched| <= 2 && fetched[0] == NormalizeHomepage(homepage)
    ensures |fetched| == 2 <==> firstResponse.None? && StartsWith(NormalizeHomepage(homepage), HttpsScheme)
    ensures |fetched| == 2 ==> fetched[1] == HttpScheme + fetched[0][|HttpsScheme|..]
    ensures forall u :: u in fetched ==> StartsWith(u, "http")
    ensures finalHomepage == fetched[|fetched| - 1]
    ensures response == if |fetched| == 2 then retryResponse else firstResponse
  {
    finalHomepage := NormalizeHomepage(homepage);
    fetched := [finalHomepage];
    response := firstResponse;
    if response.None? && StartsWith(finalHomepage, HttpsScheme) {
      finalHomepage := RetryUrl(finalHomepage);
      assert StartsWith(finalHomepage, "http") by {
        assert finalHomepage[..4] == finalHomepage[..|HttpScheme|][..4];
      }
      fetched := fetched + [finalHomepage];
      response := retryResponse;
    }
    // otherwise a thrown fetch is rethrown: `response` stays None
  }

  /**
   * The rest of extractLogoFromWebsite once the homepage request is over:
   * pick the first logo candidate of the page, resolve it against
   * `finalHomepage` and download it; "" on any failure.
   */
  method LogoFromResponse(response: Option<Page>, finalHomepage: string, stationName: string,
                          resolve: (string, string) -> Option<string>,
                          pathnameOf: string -> Option<string>,
                          imageFetchOk: bool, imageWriteOk: bool)
    returns (ref: string)
    ensures ref == LogoFromPage(response, finalHomepage, stationName, resolve, pathnameOf,
                                imageFetchOk && imageWriteOk)
  {
    if response.None? {
      // the fetch (or its retry) threw: caught by the outer handler
      return "";
    }
    var rawSrc := FirstLogoSrc(response.value);
    if rawSrc.None? {
      return "";
    }
    var logoUrl := resolve(rawSrc.value, finalHomepage);
    if logoUrl.None? {
      // `new URL(rawSrc, finalHomepage)` threw
      return "";
    }
    var requested, stored;
    ref, requested, stored := DownloadImage(logoUrl.value, stationName, pathnameOf(logoUrl.value), imageFetchOk, imageWriteOk);
  }

  /**
   * extractLogoFromWebsite(homepage, stationName). `fetched` lists the
   * homepage URLs requested, in order; `firstResponse` and `retryResponse`
   * are the outcomes of those requests (None: the request threw).
   */
  method ExtractLogoFromWebsite(homepage: string, stationName: string,
                                firstResponse: Option<Page>, retryResponse: Option<Page>,
                                resolve: (string, string) -> Option<string>,
                                pathnameOf: string -> Option<string>,
                                imageFetchOk: bool, imageWriteOk: bool)
    returns (ref: string, fetched: seq<string>)
    ensures homepage == "" ==> ref == "" && fetched == []
    ensures homepage != "" ==> 1 <= |fetched| <= 2 && fetched[0] == NormalizeHomepage(homepage)
    ensures |fetched| == 2 <==>
      homepage != "" && firstResponse.None? && StartsWith(NormalizeHomepage(homepage), HttpsScheme)
    ensures |fetched| == 2 ==> fetched[1] == HttpScheme + fetched[0][|HttpsScheme|..]
    ensures forall u :: u in fetched ==> StartsWith(u, "http")
    ensures homepage != "" ==>
      ref == LogoFromPage(if |fetched| == 2 then retryResponse else firstResponse,
                          fetched[|fetched| - 1], stationName, resolve, pathnameOf,
                          imageFetchOk && imageWriteOk)
  {
    if homepage == "" {
      return "", [];
    }
    var finalHomepage, response;
    finalHomepage, response, fetched := FetchHomepage(homepage, firstResponse, retryResponse);
    ref := LogoFromResponse(response, finalHomepage, stationName, resolve, pathnameOf, imageFetchOk, imageWriteOk);
  }
}
