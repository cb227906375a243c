/**
 * `main` (index.js): page through the station directory 500 records at a
 * time, turn each acceptable record with a downloadable favicon into a
 * catalog entry, and stop at 200 entries or at the first empty page. The
 * directory's responses are given in request order (None: the request
 * threw, which aborts the run before the catalog is written; past the end:
 * an empty page). URL parsing and the favicon transfers are oracles, the
 * transfers keyed by (page number, position in the page).
 */
module StationCollector {
  import opened Wrappers
  import opened JsStrings
  import opened ImageFetcher

  const Limit: nat := 500
  const TargetCount: nat := 200
  const DescriptionPrefix: string := "Christian radio station from "
  const DefaultGenre: string := "Christian"

  /** A directory record; an absent field is the empty string. */
  datatype RawStation = RawStation(
    name: string, urlResolved: string, favicon: string,
    homepage: string, tags: string, country: string)

  datatype CatalogEntry = CatalogEntry(
    name: string, description: string, src: string, logo: string,
    tags: seq<string>, rating: int, categories: seq<string>)

  /** The outside world as the driver sees it: URL parsing and the favicon download and write. */
  datatype Env = Env(
    pathnameOf: string -> Option<string>,
    fetchOk: (nat, nat) -> bool,
    writeOk: (nat, nat) -> bool)

  /** The shape every catalog entry has. */
  predicate WellFormed(e: CatalogEntry) {
    && e.name != "" && e.src != "" && e.logo != ""
    && StartsWith(e.logo, ImageBaseUrl)
    && StartsWith(e.description, DescriptionPrefix)
    && e.tags == ["", ""] && e.rating == 4
    && |e.categories| == 1 && e.categories[0] != "" && ',' !in e.categories[0]
  }

  /** The genre of a record: the trimmed text before the first comma of its tags, or "Christian" when that is blank. */
  function Genre(tags: string): (g: string)
    ensures g != "" && ',' !in g
    ensures Trim(BeforeFirst(tags, ',')) != "" ==> g == Trim(BeforeFirst(tags, ','))
    ensures Trim(BeforeFirst(tags, ',')) == "" ==> g == DefaultGenre
  {
    var t := Trim(BeforeFirst(tags, ','));
    if t == "" then
      assert DefaultGenre[0] == 'C';
      DefaultGenre
    else
      TrimKeepsOut(BeforeFirst(tags, ','), ',');
      t
  }

  /** The genre defaults exactly when the first comma token is blank. */
  lemma GenreDefaultsIffBlank(tags: string)
    ensures Genre(tags) == DefaultGenre <==> Blank(BeforeFirst(tags, ',')) || Trim(BeforeFirst(tags, ',')) == DefaultGenre
  {
    TrimEmptyIffBlank(BeforeFirst(tags, ','));
  }

  function Description(country: string): (d: string)
    ensures StartsWith(d, DescriptionPrefix) && d[|d| - 1] == '.'
    ensures country != "" ==> d[|DescriptionPrefix|..|d| - 1] == country
    ensures country == "" ==> d == "Christian radio station from Unknown."
  {
    DescriptionPrefix + (if country == "" then "Unknown" else country) + "."
  }

  /** The catalog entry the loop body appends for record `s`, the `j`-th of page `k`, if any. */
  function Candidate(s: RawStation, k: nat, j: nat, env: Env): (r: Option<CatalogEntry>)
    ensures r.Some? ==> WellFormed(r.value)
    ensures r.Some? ==> r.value.name == Trim(s.name) && r.value.src == s.urlResolved
    ensures r.Some? ==> r.value.description == Description(s.country) && r.value.categories == [Genre(s.tags)]
    ensures r.Some? ==> r.value.logo == ImageRef(s.favicon, Trim(s.name), env.pathnameOf(s.favicon),
                                                 env.fetchOk(k, j) && env.writeOk(k, j))
  {
    var name := Trim(s.name);
    if name == "" || s.urlResolved == "" then None
    else
      var logo := ImageRef(s.favicon, name, env.pathnameOf(s.favicon), env.fetchOk(k, j) && env.writeOk(k, j));
      if logo == "" then None
      else
        ImageRefNonEmptyIff(s.favicon, name, env.pathnameOf(s.favicon), env.fetchOk(k, j) && env.writeOk(k, j));
        Some(CatalogEntry(name, Description(s.country), s.urlResolved, logo, ["", ""], 4, [Genre(s.tags)]))
  }

  /**
   * A record yields an entry exactly when its name is not blank, it has a
   * stream URL, it has a favicon whose URL parses and the favicon is
   * downloaded and written.
   */
  lemma CandidateAcceptedIff(s: RawStation, k: nat, j: nat, env: Env)
    ensures Candidate(s, k, j, env).Some? <==>
      && !Blank(s.name) && s.urlResolved != ""
      && s.favicon != "" && env.pathnameOf(s.favicon).Some?
      && env.fetchOk(k, j) && env.writeOk(k, j)
  {
    TrimEmptyIffBlank(s.name);
    ImageRefNonEmptyIff(s.favicon, Trim(s.name), env.pathnameOf(s.favicon), env.fetchOk(k, j) && env.writeOk(k, j));
  }

  /** The entries among the offers, in order: what pushing each present one onto the catalog yields. */
  function Somes(offers: seq<Option<CatalogEntry>>): (r: seq<CatalogEntry>)
    ensures |r| <= |offers|
    ensures forall i :: 0 <= i < |r| ==> exists j :: 0 <= j < |offers| && offers[j] == Some(r[i])
  {
    if offers == [] then []
    else
      var j := |offers| - 1;
      var front := Somes(offers[..j]);
      assert forall i :: 0 <= i < |front| ==> exists m :: 0 <= m < j && offers[m] == Some(front[i]) by {
        forall i | 0 <= i < |front| ensures exists m :: 0 <= m < j && offers[m] == Some(front[i]) {
          var m :| 0 <= m < j && offers[..j][m] == Some(front[i]);
          assert offers[m] == offers[..j][m];
        }
      }
      front + (if offers[j].Some? then [offers[j].value] else [])
  }

  /** The positions that offer an entry. */
  ghost function Present(offers: seq<Option<CatalogEntry>>): set<nat> {
    set j: nat | j < |offers| && offers[j].Some?
  }

  /** One entry per present offer: nothing is de-duplicated. */
  lemma {:induction false} SomesCount(offers: seq<Option<CatalogEntry>>)
    ensures |Somes(offers)| == |Present(offers)|
    decreases |offers|
  {
    if offers == [] {
      assert Present(offers) == {};
    } else {
      var j := |offers| - 1;
      var front := offers[..j];
      SomesCount(front);
      if offers[j].Some? {
        assert Present(offers) == Present(front) + {j};
      } else {
        assert Present(offers) == Present(front);
      }
    }
  }

  lemma SomesStep(offers: seq<Option<CatalogEntry>>, j: nat)
    requires j < |offers|
    ensures Somes(offers[..j + 1]) == Somes(offers[..j]) + (if offers[j].Some? then [offers[j].value] else [])
  {
    assert offers[..j + 1][..j] == offers[..j];
  }

  /** Pushing the `j`-th offer (if present) onto `acc + Somes(offers[..j])` gives `acc + Somes(offers[..j + 1])`. */
  lemma SomesAppendStep(acc: seq<CatalogEntry>, offers: seq<Option<CatalogEntry>>, j: nat,
                        before: seq<CatalogEntry>, after: seq<CatalogEntry>)
    requires j < |offers|
    requires before == acc + Somes(offers[..j])
    requires after == before + (if offers[j].Some? then [offers[j].value] else [])
    ensures after == acc + Somes(offers[..j + 1])
  {
    SomesStep(offers, j);
    var added := if offers[j].Some? then [offers[j].value] else [];
    assert acc + (Somes(offers[..j]) + added) == acc + Somes(offers[..j]) + added;
  }

  /** Taking offers in order only ever appends: the entries of a prefix are a prefix. */
  lemma {:induction false} SomesPrefix(offers: seq<Option<CatalogEntry>>, n: nat)
    requires n <= |offers|
    ensures |Somes(offers[..n])| <= |Somes(offers)|
    ensures Somes(offers)[..|Somes(offers[..n])|] == Somes(offers[..n])
    decreases |offers| - n
  {
    if n < |offers| {
      var j := |offers| - 1;
      assert offers[..j][..n] == offers[..n];
      SomesPrefix(offers[..j], n);
    } else {
      assert offers[..n] == offers;
    }
  }

  /** What each record of page `k` offers the catalog. */
  function Offers(page: seq<RawStation>, k: nat, env: Env): (r: seq<Option<CatalogEntry>>)
    ensures |r| == |page|
  {
    seq(|page|, j requires 0 <= j < |page| => Candidate(page[j], k, j, env))
  }

  /**
   * The entries page `k` contributes, in record order, when no cap
   * interrupts it: each one is well formed and comes from a record of the page.
   */
  function PageEntries(page: seq<RawStation>, k: nat, env: Env): (r: seq<CatalogEntry>)
    ensures |r| <= |page|
    ensures forall i :: 0 <= i < |r| ==> WellFormed(r[i])
  {
    var offers := Offers(page, k, env);
    assert forall j :: 0 <= j < |page| ==> offers[j] == Candidate(page[j], k, j, env);
    Somes(offers)
  }

  /** The positions of a page whose record yields an entry. */
  ghost function Accepted(page: seq<RawStation>, k: nat, env: Env): set<nat> {
    set j: nat | j < |page| && Candidate(page[j], k, j, env).Some?
  }

  /**
   * One entry per accepted record: nothing is de-duplicated, so identical
   * records on a page each contribute their own entry.
   */
  lemma PageEntriesCount(page: seq<RawStation>, k: nat, env: Env)
    ensures |PageEntries(page, k, env)| == |Accepted(page, k, env)|
  {
    var offers := Offers(page, k, env);
    SomesCount(offers);
    assert Present(offers) == Accepted(page, k, env);
  }

  /** `Take(s, n)`: at most the first `n` elements. */
  function Take(s: seq<CatalogEntry>, n: nat): (r: seq<CatalogEntry>)
    ensures |r| <= n && |r| <= |s| && r == s[..|r|]
    ensures |s| <= n ==> r == s
  {
    if |s| <= n then s else s[..n]
  }

  /** Cutting `acc + es` keeps `acc` and appends a prefix of well-formed `es`. */
  lemma TakeExtends(acc: seq<CatalogEntry>, es: seq<CatalogEntry>, n: nat)
    requires |acc| <= n
    requires forall i :: 0 <= i < |es| ==> WellFormed(es[i])
    ensures var t := Take(acc + es, n);
      |acc| <= |t| && t[..|acc|] == acc && forall i :: |acc| <= i < |t| ==> WellFormed(t[i])
  {
    var t := Take(acc + es, n);
    forall i | |acc| <= i < |t| ensures WellFormed(t[i]) {
      assert t[i] == es[i - |acc|];
    }
  }

  /** Cutting `acc + xs` at a prefix `ys` of `xs` that fills it to `n` leaves `acc + ys`. */
  lemma TakeAtPrefix(acc: seq<CatalogEntry>, xs: seq<CatalogEntry>, ys: seq<CatalogEntry>, n: nat)
    requires |acc| + |ys| == n && |ys| <= |xs| && xs[..|ys|] == ys
    ensures Take(acc + xs, n) == acc + ys
  {
    assert (acc + xs)[..n] == acc + ys;
  }

  /** The directory's answer to the `k`-th request (past the given ones: an empty page). */
  function Response(responses: seq<Option<seq<RawStation>>>, k: nat): Option<seq<RawStation>> {
    if k < |responses| then responses[k] else Some([])
  }

  /** What the `k`-th request brings the loop: a thrown request, an empty page, or a page's entries. */
  datatype PageOutcome = Failed | Exhausted | Offered(entries: seq<CatalogEntry>)

  function Outcome(responses: seq<Option<seq<RawStation>>>, k: nat, env: Env): (o: PageOutcome)
    ensures o.Offered? ==> forall i :: 0 <= i < |o.entries| ==> WellFormed(o.entries[i])
  {
    match Response(responses, k)
    case None => Failed
    case Some(page) => if page == [] then Exhausted else Offered(PageEntries(page, k, env))
  }

  /** The outcome of every given request, in request order. */
  function Outcomes(responses: seq<Option<seq<RawStation>>>, env: Env): (os: seq<PageOutcome>)
    ensures |os| == |responses|
    ensures forall k :: 0 <= k < |os| ==> os[k] == Outcome(responses, k, env)
  {
    seq(|responses|, k requires 0 <= k < |responses| => Outcome(responses, k, env))
  }

  predicate OffersWellFormed(outcomes: seq<PageOutcome>) {
    forall k, i :: 0 <= k < |outcomes| && outcomes[k].Offered? && 0 <= i < |outcomes[k].entries|
      ==> WellFormed(outcomes[k].entries[i])
  }

  function At(outcomes: seq<PageOutcome>, k: nat): PageOutcome {
    if k < |outcomes| then outcomes[k] else Exhausted
  }

  /**
   * The outcome of the paging loop from request `k` on with catalog `acc`:
   * None when a request throws; otherwise the catalog, extended page by page
   * and cut at the target count, stopping at the first empty page.
   */
  function Collect(outcomes: seq<PageOutcome>, k: nat, acc: seq<CatalogEntry>): (r: Option<seq<CatalogEntry>>)
    requires |acc| <= TargetCount
    ensures r.Some? ==> |r.value| <= TargetCount && |acc| <= |r.value| && r.value[..|acc|] == acc
    decreases |outcomes| - k
  {
    if |acc| >= TargetCount then Some(acc)
    else
      match At(outcomes, k)
      case Failed => None
      case Exhausted => Some(acc)
      case Offered(entries) => Collect(outcomes, k + 1, Take(acc + entries, TargetCount))
  }

  /**
   * How many directory requests the paging loop makes from request `k` on
   * with catalog `acc`: none once the catalog is full, otherwise this one,
   * and the following ones only when this one offered entries.
   */
  function Requests(outcomes: seq<PageOutcome>, k: nat, acc: seq<CatalogEntry>): nat
    requires |acc| <= TargetCount
    decreases |outcomes| - k
  {
    if |acc| >= TargetCount then k
    else
      match At(outcomes, k)
      case Failed => k + 1
      case Exhausted => k + 1
      case Offered(entries) => Requests(outcomes, k + 1, Take(acc + entries, TargetCount))
  }

  /**
   * Page `j` is requested only while the catalog built from the pages before
   * it is short of 200 entries, and only after every earlier page offered
   * entries: paging stops once the catalog is full.
   */
  lemma {:induction false} RequestsWhileShort(outcomes: seq<PageOutcome>, k: nat, j: nat)
    requires k <= j < Requests(outcomes, k, Take(Candidates(outcomes, k), TargetCount))
    ensures |Take(Candidates(outcomes, j), TargetCount)| < TargetCount
    ensures forall i :: k <= i < j ==> At(outcomes, i).Offered?
    decreases |outcomes| - k
  {
    var acc := Take(Candidates(outcomes, k), TargetCount);
    if j > k {
      assert At(outcomes, k).Offered?;
      TakeOfTake(Candidates(outcomes, k), At(outcomes, k).entries, TargetCount);
      RequestsWhileShort(outcomes, k + 1, j);
    }
  }

  /**
   * Paging ends right after the request that fills the catalog, or after
   * the first request that throws or comes back empty.
   */
  lemma {:induction false} RequestsEnd(outcomes: seq<PageOutcome>, k: nat)
    ensures var n := Requests(outcomes, k, Take(Candidates(outcomes, k), TargetCount));
      k <= n && (|Take(Candidates(outcomes, n), TargetCount)| == TargetCount
                 || (k < n && !At(outcomes, n - 1).Offered?))
    decreases |outcomes| - k
  {
    var acc := Take(Candidates(outcomes, k), TargetCount);
    if |acc| < TargetCount && At(outcomes, k).Offered? {
      TakeOfTake(Candidates(outcomes, k), At(outcomes, k).entries, TargetCount);
      RequestsEnd(outcomes, k + 1);
    }
  }

  /** A catalog collected from well-formed offers is well formed. */
  lemma {:induction false} CollectWellFormed(outcomes: seq<PageOutcome>, k: nat, acc: seq<CatalogEntry>)
    requires |acc| <= TargetCount
    requires OffersWellFormed(outcomes)
    requires forall i :: 0 <= i < |acc| ==> WellFormed(acc[i])
    ensures var r := Collect(outcomes, k, acc);
      r.Some? ==> forall i :: 0 <= i < |r.value| ==> WellFormed(r.value[i])
    decreases |outcomes| - k
  {
    if |acc| < TargetCount && At(outcomes, k).Offered? {
      var entries := At(outcomes, k).entries;
      if k < |outcomes| {
        assert forall i :: 0 <= i < |entries| ==> WellFormed(entries[i]);
      }
      var next := Take(acc + entries, TargetCount);
      TakeExtends(acc, entries, TargetCount);
      forall i | 0 <= i < |acc| ensures WellFormed(next[i]) {
        assert next[i] == next[..|acc|][i];
      }
      CollectWellFormed(outcomes, k + 1, next);
    }
  }

  /** The outcome recorded for request `k` is the one the directory's answer to it gives. */
  predicate OutcomeAt(outcomes: seq<PageOutcome>, responses: seq<Option<seq<RawStation>>>, env: Env, k: nat) {
    At(outcomes, k) == Outcome(responses, k, env)
  }

  lemma OutcomesAgree(responses: seq<Option<seq<RawStation>>>, env: Env)
    ensures forall k: nat :: OutcomeAt(Outcomes(responses, env), responses, env, k)
  {
    forall k: nat ensures OutcomeAt(Outcomes(responses, env), responses, env, k) {
      if k < |responses| {
        assert Outcomes(responses, env)[k] == Outcome(responses, k, env);
      }
    }
  }

  /** All the entries offered by the first `n` requests, request after request. */
  function Candidates(outcomes: seq<PageOutcome>, n: nat): seq<CatalogEntry> {
    if n == 0 then []
    else
      var o := At(outcomes, n - 1);
      Candidates(outcomes, n - 1) + (if o.Offered? then o.entries else [])
  }

  lemma TakeOfTake(x: seq<CatalogEntry>, y: seq<CatalogEntry>, n: nat)
    ensures Take(Take(x, n) + y, n) == Take(x + y, n)
  {
    if |x| > n {
      assert (x[..n] + y)[..n] == x[..n];
      assert (x + y)[..n] == x[..n];
    }
  }

  /**
   * The catalog is the first (at most) 200 entries of the pages visited, in
   * arrival order; when it holds fewer than 200, the request after the last
   * visited page came back empty.
   */
  lemma {:induction false} CollectTakesCandidates(outcomes: seq<PageOutcome>, k: nat)
    requires k <= |outcomes|
    ensures var c := Collect(outcomes, k, Take(Candidates(outcomes, k), TargetCount));
      c.Some? ==>
        exists n :: k <= n <= |outcomes|
          && c.value == Take(Candidates(outcomes, n), TargetCount)
          && (|c.value| < TargetCount ==> At(outcomes, n) == Exhausted)
    decreases |outcomes| - k
  {
    var acc := Take(Candidates(outcomes, k), TargetCount);
    if |acc| < TargetCount && At(outcomes, k).Offered? {
      CollectNextPage(outcomes, k);
      CollectTakesCandidates(outcomes, k + 1);
    } else {
      assert Collect(outcomes, k, acc).Some? ==> Collect(outcomes, k, acc).value == acc;
    }
  }

  /** Visiting a page that offers entries carries the cut candidates of the pages so far to those of one more page. */
  lemma CollectNextPage(outcomes: seq<PageOutcome>, k: nat)
    requires |Take(Candidates(outcomes, k), TargetCount)| < TargetCount && At(outcomes, k).Offered?
    ensures Collect(outcomes, k, Take(Candidates(outcomes, k), TargetCount))
         == Collect(outcomes, k + 1, Take(Candidates(outcomes, k + 1), TargetCount))
  {
    TakeOfTake(Candidates(outcomes, k), At(outcomes, k).entries, TargetCount);
  }

  /** Every entry that any page offers is well formed. */
  lemma OutcomesWellFormed(responses: seq<Option<seq<RawStation>>>, env: Env)
    ensures OffersWellFormed(Outcomes(responses, env))
  {
    var os := Outcomes(responses, env);
    forall k, i | 0 <= k < |os| && os[k].Offered? && 0 <= i < |os[k].entries|
      ensures WellFormed(os[k].entries[i])
    {
      assert os[k] == Outcome(responses, k, env);
    }
  }

  /**
   * One pass of the `for (const station of stations)` body of main() for
   * record `station`, the `j`-th of page `k`: skip it when its trimmed name
   * or its stream URL is empty, otherwise download its favicon and push an
   * entry when a reference came back.
   */
  method AddStation(station: RawStation, k: nat, j: nat, env: Env, allStations: seq<CatalogEntry>)
    returns (result: seq<CatalogEntry>)
    ensures result == allStations + (var c := Candidate(station, k, j, env); if c.Some? then [c.value] else [])
  {
    var name := Trim(station.name);
    var stream := station.urlResolved;
    var genre := Genre(station.tags);
    if name == "" || stream == "" {
      return allStations;
    }
    var logo, requested, stored := DownloadImage(station.favicon, name, env.pathnameOf(station.favicon),
                                                 env.fetchOk(k, j), env.writeOk(k, j));
    result := allStations;
    if logo != "" {
      result := result + [CatalogEntry(name, Description(station.country), stream, logo, ["", ""], 4, [genre])];
    }
  }

  /**
   * The `for (const station of stations)` loop of main(): process the
   * records of page `k` in order and stop once the target count is reached.
   */
  method AccumulatePage(stations: seq<RawStation>, k: nat, env: Env, acc: seq<CatalogEntry>)
    returns (allStations: seq<CatalogEntry>)
    requires |acc| < TargetCount
    ensures allStations == Take(acc + PageEntries(stations, k, env), TargetCount)
  {
    allStations := acc;
    ghost var offers := Offers(stations, k, env);
    var j := 0;
    while j < |stations|
      invariant 0 <= j <= |stations|
      invariant |allStations| < TargetCount
      invariant allStations == acc + Somes(offers[..j])
    {
      ghost var before := allStations;
      allStations := AddStation(stations[j], k, j, env, allStations);
      assert offers[j] == Candidate(stations[j], k, j, env);
      SomesAppendStep(acc, offers, j, before, allStations);
      if |allStations| >= TargetCount {
        SomesPrefix(offers, j + 1);
        TakeAtPrefix(acc, Somes(offers), Somes(offers[..j + 1]), TargetCount);
        break;
      }
      j := j + 1;
    }
    assert j == |stations| ==> offers[..j] == offers;
  }

  /** How one directory request ended for the driver. */
  datatype PageStatus = Threw | Empty | Added

  /**
   * One pass of main()'s `while` body after the offset is chosen: request
   * page `k`; on a thrown request or an empty page report it, otherwise
   * run the page's records into the catalog. `outcomes` records what each
   * request brings.
   */
  method VisitPage(responses: seq<Option<seq<RawStation>>>, env: Env, ghost outcomes: seq<PageOutcome>,
                   k: nat, acc: seq<CatalogEntry>)
    returns (status: PageStatus, allStations: seq<CatalogEntry>)
    requires forall i: nat :: OutcomeAt(outcomes, responses, env, i)
    requires |acc| < TargetCount
    ensures status == Threw <==> Response(responses, k).None?
    ensures status == Empty <==> Response(responses, k) == Some([])
    ensures status == Added ==> k < |responses|
    ensures status == Threw ==> Collect(outcomes, k, acc).None?
    ensures status == Empty ==> allStations == acc && Collect(outcomes, k, acc) == Some(acc)
    ensures |allStations| <= TargetCount
    ensures status == Added ==> Collect(outcomes, k, acc) == Collect(outcomes, k + 1, allStations)
    ensures status != Added ==> Requests(outcomes, k, acc) == k + 1
    ensures status == Added ==> Requests(outcomes, k, acc) == Requests(outcomes, k + 1, allStations)
  {
    assert OutcomeAt(outcomes, responses, env, k);
    var res := Response(responses, k);
    if res.None? {
      // the directory request threw: the run aborts before writing
      return Threw, acc;
    }
    var stations := res.value;
    if |stations| == 0 {
      assert stations == [];
      return Empty, acc;
    }
    allStations := AccumulatePage(stations, k, env, acc);
    status := Added;
  }

  /**
   * main(). Returns the catalog written to the catalog file (None: a
   * directory request threw and nothing was written) and the offsets
   * requested, one per page.
   */
  method CollectStations(responses: seq<Option<seq<RawStation>>>, env: Env)
    returns (catalog: Option<seq<CatalogEntry>>, offsets: seq<nat>)
    ensures catalog == Collect(Outcomes(responses, env), 0, [])
    ensures catalog.Some? ==> |catalog.value| <= TargetCount
    ensures |offsets| == Requests(Outcomes(responses, env), 0, [])
    ensures 1 <= |offsets| <= |responses| + 1
    ensures forall i :: 0 <= i < |offsets| ==> offsets[i] == Limit * i
    ensures catalog.None? ==> Response(responses, |offsets| - 1).None?
    ensures catalog.Some? && |catalog.value| < TargetCount ==> Response(responses, |offsets| - 1) == Some([])
  {
    OutcomesAgree(responses, env);
    catalog, offsets := PageLoop(responses, env, Outcomes(responses, env));
  }

  /** The `while (allStations.length < targetCount)` loop of main(), for the outcomes the directory's answers give. */
  method PageLoop(responses: seq<Option<seq<RawStation>>>, env: Env, ghost outcomes: seq<PageOutcome>)
    returns (catalog: Option<seq<CatalogEntry>>, offsets: seq<nat>)
    requires forall i: nat :: OutcomeAt(outcomes, responses, env, i)
    ensures catalog == Collect(outcomes, 0, [])
    ensures catalog.Some? ==> |catalog.value| <= TargetCount
    ensures |offsets| == Requests(outcomes, 0, [])
    ensures 1 <= |offsets| <= |responses| + 1
    ensures forall i :: 0 <= i < |offsets| ==> offsets[i] == Limit * i
    ensures catalog.None? ==> Response(responses, |offsets| - 1).None?
    ensures catalog.Some? && |catalog.value| < TargetCount ==> Response(responses, |offsets| - 1) == Some([])
  {
    var allStations: seq<CatalogEntry> := [];
    var offset: nat := 0;
    var pageIndex: nat := 0;
    offsets := [];
    while |allStations| < TargetCount
      invariant pageIndex <= |responses| && |offsets| == pageIndex
      invariant offset == Limit * pageIndex
      invariant forall i :: 0 <= i < |offsets| ==> offsets[i] == Limit * i
      invariant |allStations| <= TargetCount
      invariant Collect(outcomes, pageIndex, allStations) == Collect(outcomes, 0, [])
      invariant Requests(outcomes, pageIndex, allStations) == Requests(outcomes, 0, [])
      invariant pageIndex == 0 ==> allStations == []
      decreases |responses| - pageIndex
    {
      offsets := offsets + [offset];
      var status;
      status, allStations := VisitPage(responses, env, outcomes, pageIndex, allStations);
      assert |offsets| - 1 == pageIndex;
      if status == Threw {
        return None, offsets;
      }
      if status == Empty {
        break;
      }
      offset := offset + Limit;
      pageIndex := pageIndex + 1;
    }
    catalog := Some(allStations);
  }

  /** Every entry of a written catalog is well formed. */
  lemma CatalogWellFormed(responses: seq<Option<seq<RawStation>>>, env: Env)
    ensures var c := Collect(Outcomes(responses, env), 0, []);
      c.Some? ==> forall i :: 0 <= i < |c.value| ==> WellFormed(c.value[i])
  {
    OutcomesWellFormed(responses, env);
    CollectWellFormed(Outcomes(responses, env), 0, []);
  }
}
