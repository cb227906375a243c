# Radio station logo scraper: a Dafny model of the harvester core

The harvester (`index.js`) builds a catalog of Christian radio stations. It
pages through the radio-browser station directory 500 records at a time. It
keeps records that have a name and a stream URL. It downloads each kept
record's favicon into a local image directory and turns every record whose
favicon arrived into a catalog entry. It stops at 200 entries or at the first
empty page. A second routine, the logo resolver, fetches a station's homepage
and picks the first `<img>` whose `src` mentions "logo". The driver never
calls it, so it is modelled on its own.

Modules, one per concern of the source:

- `Wrappers`: the `Option` datatype.
- `JsStrings`: the ECMAScript string built-ins the source relies on:
  - `trim`, using ECMAScript's whitespace set
  - `split(sep)[0]`
  - `indexOf` and `includes`
  - `startsWith`
  - `replace` with a string pattern
  - `toLowerCase`, on ASCII letters
- `NodePath`: the POSIX `path.extname` of Node.
- `ImageFetcher`: `downloadImage`. It covers the early exit on a missing
  argument, the extension rule (`extname`, cut at `?`, `.png` when empty), the
  public reference `IMAGE_BASE_URL + name + ext`, and `''` on any failure.
- `LogoResolver`: `extractLogoFromWebsite`. It covers the homepage
  normalisation, the single https→http retry, the first-logo-candidate
  filter, relative resolution and the hand-off to the image fetcher.
- `StationCollector`: `main`. It covers the record filter, the catalog-entry
  mapping, and the per-page `for` loop with its break at the target. It also
  covers the `while` loop over pages, whose offset grows by 500, which stops at
  an empty page and aborts on a thrown request.

The outside world is passed in as parameters:

- The parsed pathname of a URL is `pathnameOf`. `None` means `new URL` threw.
- Relative resolution `new URL(src, base).href` is `resolve`.
- The favicon transfer outcome is `fetchOk` / `writeOk`, keyed by page number
  and record position.
- A homepage fetch is an `Option<Page>`. A page is the list of `src`
  attributes of its `<img>` elements.
- The directory's answers are a finite sequence of pages. `None` means the
  request threw. A request past the end gets an empty page.

A record field that is absent is the empty string. The source only ever tests
these fields for truthiness or reaches them through `?.`, which treat
`undefined` and `""` alike.

`main` is imperative, so it is modelled by methods:

- `CollectStations` and `PageLoop` model the `while` loop.
- `VisitPage` models one pass of it.
- `AccumulatePage` models the `for` loop.
- `AddStation` models its body.

Each method is proved against a specification function:

- `Collect` over the page outcomes, for the catalog.
- `Requests` over the page outcomes, for the number of directory requests.
- `PageEntries` over a page, built from `Candidate` per record.

`extractLogoFromWebsite` is likewise split into `FetchHomepage` (the inner
`try`/`catch` with its retry) and `LogoFromResponse` (picking, resolving and
downloading the logo), the latter proved against `LogoFromPage`.

Lemmas about those functions state the promised properties.

## Model

| member | source | states |
|---|---|---|
| JsStrings.TrimStart | index.js:112 | the result is a suffix of the input, everything dropped is ECMAScript whitespace, and it does not start with whitespace |
| JsStrings.TrimEnd | index.js:112 | the result is a prefix of the input, everything dropped is whitespace, and it does not end with whitespace |
| JsStrings.Trim | index.js:112-114 | `trim`: the result neither starts nor ends with ECMAScript whitespace |
| JsStrings.TrimIsSlice | index.js:112-114 | `trim` keeps one contiguous slice of the input and everything before and after that slice is whitespace |
| JsStrings.TrimEmptyIffBlank | index.js:112-117 | a trimmed name is empty exactly when the name is whitespace only, so such a record is skipped |
| JsStrings.TrimKeepsOut | index.js:114 | trimming never introduces a character, so a comma-free token stays comma-free |
| JsStrings.TrimIdempotent | index.js:112 | trimming a trimmed name changes nothing |
| JsStrings.StartsWithIff | index.js:39-46 | `StartsWith` (`startsWith`): true exactly when the prefix occurs at position 0, and then `includes` holds too |
| JsStrings.IncludesIff | index.js:62 | `Includes` (`includes`): true exactly when the pattern occurs at some position |
| JsStrings.BeforeFirst | index.js:114 | `split(',')[0]` is the prefix before the first comma (all of the string when there is none) and holds no comma |
| JsStrings.IndexOf | index.js:62 | the first position where the pattern occurs, no earlier occurrence, and None exactly when it occurs nowhere |
| JsStrings.ReplaceFirst | index.js:47 | `replace` with a string pattern: the input unchanged when the pattern occurs nowhere, otherwise only its first occurrence replaced |
| JsStrings.ReplaceLeadingPrefix | index.js:47 | `replace('https://', 'http://')` on a URL starting with "https://" swaps exactly that prefix |
| JsStrings.LowerAscii | index.js:61 | 'A'..'Z' become the letter 32 code points later ('a'..'z'), the result is never an upper-case ASCII letter, and other characters are kept |
| JsStrings.ToLowerAscii | index.js:61 | `toLowerCase` keeps the length and lower-cases each character in place |
| JsStrings.ToLowerAsciiIdempotent | index.js:61 | lower-casing an already lower-cased src changes nothing |
| NodePath.StripTrailingSlashes | index.js:20 | `extname` ignores the run of trailing separators: a prefix, only '/' removed, no '/' at its end |
| NodePath.Basename | index.js:20 | the last path component holds no '/' and is a suffix of the stripped path |
| NodePath.BasenameOfJoin | index.js:20-22 | for any directory ending in '/' and any non-empty name without '/', the basename of their join is that name |
| NodePath.ExtName | index.js:20 | the extension is empty or a '.' followed by dot-free text, holds no '/', and is a suffix of the stripped path |
| NodePath.ExtNameEmptyIff | index.js:20 | the extension is empty exactly when the basename has no '.', has only a leading '.', or is ".." |
| NodePath.ExtNameOfStoredFile | index.js:20-25 | a file named `stem + ext` in a directory has extension `ext` (stem non-empty, not ".", no '/') |
| NodePath.ExtNameCharsFromPath | index.js:20 | the extension only holds characters of the path |
| NodePath.NoInnerDotHasNoExt | index.js:20 | for any directory, a file name with no '.' or with only a leading '.' (".bashrc") has no extension, so it falls back to ".png" |
| NodePath.TrailingDotIsExt | index.js:20 | "logo." has the extension "." |
| NodePath.DotDotHasNoExt | index.js:20 | the basename ".." has no extension |
| NodePath.TrailingSlashIgnored | index.js:20 | a trailing '/' does not change the extension |
| ImageFetcher.ImageExt | index.js:20 | the stored extension is always a '.' followed by dot-free, separator-free text |
| ImageFetcher.ImageRefNonEmptyIff | index.js:17-29 | `ImageRef`, what `downloadImage` resolves to, is non-empty exactly when url and filename are present, the URL parses and the transfer succeeds, and then it starts with the public base URL |
| ImageFetcher.ReferenceExtRoundTrip | index.js:20-25 | reading the extension back from the public reference gives the stored file's extension |
| ImageFetcher.MissingExtDefaultsToPng | index.js:20 | a pathname without an extension stores the image as ".png" |
| ImageFetcher.QueryCutIsNoOp | index.js:20 | cutting at '?' never changes the extension of a '?'-free pathname |
| ImageFetcher.DownloadImage | index.js:17-30 | no request on a missing argument or unparsable URL; a file `filename + ext` is stored exactly when fetch and write succeed; the result is the base URL plus that file name, else "" |
| LogoResolver.NormalizeHomepage | index.js:39 | the result starts with "http", ends with the homepage, equals it exactly when the homepage already starts with "http", and is "http://" + homepage otherwise |
| LogoResolver.NormalizeIdempotent | index.js:39 | normalising twice is normalising once |
| LogoResolver.SchemelessHttpHostKept | index.js:39 | "httpbin.org" is kept as it is and gets no scheme, because the test is for the bare prefix "http" |
| LogoResolver.RetryUrl | index.js:46-47 | the retry URL starts with "http://" and keeps everything after the original "https://" |
| LogoResolver.LogoFilterMatchesAnyCase | index.js:60-62 | `IsLogoSrc`: a src passes the filter exactly when "logo" occurs in it in some ASCII casing |
| LogoResolver.UpperCaseLogoPasses | index.js:60-62 | a src holding "LOGO" in capitals anywhere passes the filter |
| LogoResolver.LogoFilterIgnoresCase | index.js:61-62 | a src passes the "logo" filter exactly when its lower-cased form does |
| LogoResolver.FirstLogoIndex | index.js:59-64 | the first `<img>` in document order whose lower-cased src contains "logo": it matches, no earlier one matches, None when none matches |
| LogoResolver.FirstLogoSrcSpec | index.js:59-70 | `FirstLogoSrc`: the chosen src is the first matching one with its casing kept, never empty, and missing exactly when no `<img>` matches |
| LogoResolver.LogoFromPageNeeds | index.js:55-76 | `LogoFromPage`: a logo reference needs a fetched page, a candidate that resolves, a station name and a successful transfer, and lies under the base URL |
| LogoResolver.LogoFromPageGives | index.js:66-76 | conversely, a fetched page whose first candidate resolves to a parsable URL gives a non-empty reference when the station has a name and the transfer succeeds |
| LogoResolver.FetchHomepage | index.js:39-53 | the normalised URL is fetched first; a second fetch happens exactly when the first threw and the URL is https, with the https→http URL; every URL fetched starts with "http"; the response is that of the last fetch |
| LogoResolver.LogoFromResponse | index.js:55-76 | picking, resolving and downloading the logo of a response gives `LogoFromPage` on every path |
| LogoResolver.ExtractLogoFromWebsite | index.js:34-81 | no fetch for an empty homepage; the normalised URL is fetched first; a second fetch happens exactly when the first threw and the URL is https, with the https→http URL; the result is what the last page gives, resolved against the last URL |
| StationCollector.Genre | index.js:114 | the genre is the trimmed text before the first comma of the tags, or "Christian" when that is blank; it is never empty and holds no comma |
| StationCollector.GenreDefaultsIffBlank | index.js:114 | the genre is "Christian" exactly when the first tag token is blank or trims to "Christian" |
| StationCollector.Description | index.js:127 | "Christian radio station from " + country + ".", with "Unknown" for a missing country |
| StationCollector.Candidate | index.js:112-133 | an entry made for a record is well formed (tags `["", ""]`, rating 4) and carries the trimmed name, the stream URL, `Description(country)`, the single category `Genre(tags)` and the favicon's `ImageRef` as logo |
| StationCollector.CandidateAcceptedIff | index.js:112-124 | a record yields an entry exactly when its name is not blank, it has a stream URL, its favicon URL is present and parses, and the favicon is fetched and written |
| StationCollector.PageEntries | index.js:111-136 | a page contributes at most one entry per record, each one well formed |
| StationCollector.PageEntriesCount | index.js:111-136 | a page contributes exactly one entry per accepted record, so duplicates are kept |
| StationCollector.Collect | index.js:93-143 | the catalog from a page on keeps what was collected so far as a prefix and never exceeds 200 entries |
| StationCollector.CollectWellFormed | index.js:124-133 | a catalog collected from well-formed entries is well formed |
| StationCollector.CollectTakesCandidates | index.js:93-143 | the catalog is the first (at most) 200 of the entries of the pages visited, in arrival order; when it holds fewer than 200 the next page was empty |
| StationCollector.RequestsWhileShort | index.js:93-143 | a page is requested only while the catalog built from the pages before it holds fewer than 200 entries, and only after every earlier page offered entries |
| StationCollector.RequestsEnd | index.js:93-143 | paging ends right after the request that brings the catalog to 200, or after the first request that throws or comes back empty |
| StationCollector.CatalogWellFormed | index.js:124-145 | every entry of a written catalog is well formed |
| StationCollector.AddStation | index.js:112-136 | the loop body pushes the record's entry, if it has one, and nothing else |
| StationCollector.AccumulatePage | index.js:111-140 | the `for` loop leaves the catalog so far followed by the page's entries, cut at 200 |
| StationCollector.VisitPage | index.js:95-140 | a thrown request, an empty page and a processed page are told apart, and each agrees with one step of `Collect` |
| StationCollector.PageLoop | index.js:89-143 | the `while` loop computes `Collect` from the first page; it makes exactly `Requests` directory requests, so none after the catalog is full; page k is requested at offset 500·k; a missing catalog means the last request threw; fewer than 200 entries means the last page was empty |
| StationCollector.CollectStations | index.js:85-148 | `main` writes `Collect` of the directory's outcomes (nothing when a request threw), at most 200 entries, after exactly `Requests` requests at the offsets 0, 500, 1000, … |

## Left out

- Network and file I/O are parameters of the model. These are the axios
  requests and their 15-second timeout, `fs.writeFileSync`, `fs.mkdirSync` of
  the image directory, and the JSON serialisation of the catalog. The model
  returns the catalog rather than writing `stations.json`.
- The puppeteer browser is left out, with its launch, close and stealth
  plugin. It is launched and closed but never used.
- Console output is left out, including the warnings and the `i` counter
  printed per record.
- HTML parsing by cheerio is left out. A fetched page is given as the `src`
  attributes of its `<img>` elements in document order.
- WHATWG URL parsing and relative resolution are oracles (`pathnameOf`,
  `resolve`). Their algorithms are not modelled.
- The query parameters of the directory request are left out (`tagList`,
  `hidebroken`, `order`, `reverse`). Only the offset and the page size are
  modelled, since the directory's answers are given.
- The directory is a finite sequence of answers, and a request past its end
  gets an empty page. The source loops forever on a directory that never
  returns an empty page and never fills the catalog. The model does not cover
  that case.
- Record fields that are not strings (numbers, arrays) are not modelled, and
  neither is the TypeError that `.trim()` or `.split()` would throw on them.
  An absent field is the empty string.
- JsStrings.ToLowerAscii: lower-cases only the ASCII letters `A`–`Z`. The
  source's `toLowerCase` also folds non-ASCII letters. The filter looks for
  the ASCII text "logo", and no non-ASCII character lower-cases to "l", "o" or
  "g", so the filter's outcome is the same.
- The favicon transfer outcome is keyed by page number and record position,
  not by URL. Two records that share a favicon URL may therefore fare
  differently, as two separate requests can in the source.
- A station name containing '/' makes `path.join` place the file in a
  subdirectory, and the write fails there unless it exists. That failure is
  part of the write oracle. `ImageFetcher.ReferenceExtRoundTrip` assumes a
  name without '/'.
- `extractLogoFromWebsite` is never called from `main`. It is modelled on its
  own and is not wired into the catalog entries.
