/** The legacy downloader: from the links of the search page it keeps the
    `href`s ending in ".pdf", makes each absolute, names the local file after
    the URL's last path segment, and downloads them in order. Any failed
    request raises out of the loop, ending the run. */
module Downloader {
  import opened Outcomes
  import opened PyStr
  import opened Files
  import Seqs

  /** Prefixed to `href`s that do not start with "http". */
  const Site := "https://www.bcb.gov.br"

  /** `href if href.startswith("http") else f"https://www.bcb.gov.br{href}"`:
      the prefix is glued on with no separator and the test is a plain
      string prefix, not a scheme check. */
  function AbsoluteUrl(href: string): (url: string)
    ensures StartsWith(url, "http")
    ensures EndsWith(url, href)
    ensures url == href <==> StartsWith(href, "http")
    ensures url != href ==> url == Site + href
  {
    if StartsWith(href, "http") then href
    else
      assert (Site + href)[..4] == Site[..4];
      assert (Site + href)[|Site|..] == href;
      Site + href
  }

  /** Making a URL absolute twice changes nothing more. */
  lemma AbsoluteUrlIdempotent(href: string)
    ensures AbsoluteUrl(AbsoluteUrl(href)) == AbsoluteUrl(href)
  {
  }

  /** `pdf_url.split("/")[-1]`: the text after the last '/'. */
  function FileNameOf(url: string): (name: string)
    ensures '/' !in name
    ensures EndsWith(url, name)
    ensures |name| == |url| || url[|url| - |name| - 1] == '/'
    ensures EndsWith(url, Pdf) ==> EndsWith(name, Pdf)
  {
    var name := LastPiece(url, '/');
    if EndsWith(url, Pdf) then
      assert |name| >= |Pdf|;
      assert name[|name| - |Pdf|..] == url[|url| - |Pdf|..];
      name
    else
      name
  }

  /** One planned download: where from and under which file name. */
  datatype Download = Download(url: string, fileName: string)

  /** What every planned download satisfies: an absolute ".pdf" URL and a
      ".pdf" file name that is the URL's final, '/'-free segment. */
  predicate WellFormed(d: Download) {
    && StartsWith(d.url, "http") && EndsWith(d.url, Pdf)
    && '/' !in d.fileName && EndsWith(d.fileName, Pdf) && EndsWith(d.url, d.fileName)
    && (|d.fileName| == |d.url| || d.url[|d.url| - |d.fileName| - 1] == '/')
  }

  /** The loop body's URL and file name for one ".pdf" link. */
  function DownloadFor(href: string): (d: Download)
    requires IsPdfName(href)
    ensures WellFormed(d)
    ensures EndsWith(d.url, href)
    ensures StartsWith(href, "http") ==> d.url == href
    ensures !StartsWith(href, "http") ==> d.url == Site + href
  {
    var url := AbsoluteUrl(href);
    EndsWithTransitive(url, href, Pdf);
    Download(url, FileNameOf(url))
  }

  /** The downloads the loop attempts, in link order, when none fails. */
  function Plan(hrefs: seq<string>): (plan: seq<Download>)
    ensures |plan| <= |hrefs|
    ensures forall i :: 0 <= i < |plan| ==> WellFormed(plan[i])
  {
    if hrefs == [] then []
    else (if IsPdfName(hrefs[0]) then [DownloadFor(hrefs[0])] else []) + Plan(hrefs[1..])
  }

  /** Reference definition: resolve every link of a list of ".pdf" links. */
  function ResolveAll(pdfs: seq<string>): seq<Download>
    requires forall i :: 0 <= i < |pdfs| ==> IsPdfName(pdfs[i])
  {
    if pdfs == [] then [] else [DownloadFor(pdfs[0])] + ResolveAll(pdfs[1..])
  }

  /** The plan is the ".pdf" links, selected in order, each resolved. */
  lemma {:induction false} PlanIsFilterThenResolve(hrefs: seq<string>)
    ensures Plan(hrefs) == ResolveAll(Seqs.Filter(hrefs, IsPdfName))
  {
    if hrefs != [] {
      PlanIsFilterThenResolve(hrefs[1..]);
      var rest := Seqs.Filter(hrefs[1..], IsPdfName);
      if IsPdfName(hrefs[0]) {
        var pdfs := [hrefs[0]] + rest;
        assert Seqs.Filter(hrefs, IsPdfName) == pdfs;
        assert pdfs[0] == hrefs[0] && pdfs[1..] == rest;
      } else {
        assert Seqs.Filter(hrefs, IsPdfName) == [] + rest;
        assert [] + rest == rest;
      }
    }
  }

  /** How `download_resolutions` ends: the search page request raised, every
      download finished, or a download raised after the ones before it. */
  datatype DownloadRun =
    | ListingRaised(message: string)
    | Completed(saved: seq<Download>)
    | StoppedAt(saved: seq<Download>, failed: Download)

  /** Every planned URL can be fetched and written. */
  predicate AllFetch(plan: seq<Download>, fetches: string -> bool) {
    forall i :: 0 <= i < |plan| ==> fetches(plan[i].url)
  }

  /** The download loop over the planned downloads; `fetches(url)` says
      whether requesting that URL and writing it to disk succeed. */
  function DownloadEach(plan: seq<Download>, fetches: string -> bool): (run: DownloadRun)
    ensures run.Completed? || run.StoppedAt?
    ensures run.Completed? <==> AllFetch(plan, fetches)
    ensures run.Completed? ==> run.saved == plan
    ensures run.StoppedAt? ==>
      && |run.saved| < |plan|
      && run.saved == plan[..|run.saved|]
      && run.failed == plan[|run.saved|]
      && !fetches(run.failed.url)
    ensures AllFetch(run.saved, fetches)
  {
    if plan == [] then Completed([])
    else
      var d := plan[0];
      if !fetches(d.url) then StoppedAt([], d)
      else
        match DownloadEach(plan[1..], fetches)
        case Completed(saved) =>
          assert [d] + plan[1..] == plan;
          Completed([d] + saved)
        case StoppedAt(saved, failed) =>
          assert plan[..|saved| + 1] == [d] + plan[1..][..|saved|];
          StoppedAt([d] + saved, failed)
  }

  /** `download_resolutions`, given what the search page request gives. */
  function DownloadResolutions(listing: Attempt<seq<string>>, fetches: string -> bool): (run: DownloadRun)
    ensures listing.Raised? <==> run.ListingRaised?
    ensures listing.Returned? ==> (run.Completed? <==> AllFetch(Plan(listing.value), fetches))
    ensures run.Completed? || run.StoppedAt? ==> forall i :: 0 <= i < |run.saved| ==> WellFormed(run.saved[i])
    ensures listing.Returned? && run.Completed? ==> run.saved == Plan(listing.value)
    ensures listing.Returned? && run.StoppedAt? ==>
      var plan := Plan(listing.value);
      && |run.saved| < |plan|
      && run.saved == plan[..|run.saved|]
      && run.failed == plan[|run.saved|]
      && !fetches(run.failed.url)
  {
    match listing
    case Raised(message) => ListingRaised(message)
    case Returned(hrefs) => DownloadEach(Plan(hrefs), fetches)
  }
}
