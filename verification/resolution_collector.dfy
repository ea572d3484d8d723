/** The collection script for Central Bank resolutions: it walks the
    paginated search results 15 rows at a time until a page shows no links,
    extracts one record per resolution page, keeps the successful ones and
    saves them. The browser is replaced by explicit page contents: each
    search page is either a list of links or a failed fetch/wait, and each
    resolution page either never became ready or shows an optional title
    and the texts of its body spans. */
module ResolutionCollector {
  import opened Outcomes
  import opened PyStr

  /** Rows per search-results page (`start_row += 15`). */
  const PageSize: nat := 15

  /** Characters of the title taken as the publication date (`title[-10:]`). */
  const DateLength: nat := 10

  /** A collected resolution (`CentralBankResolution`). */
  datatype Resolution = Resolution(
    title: string,
    content: string,
    url: string,
    publicationDate: string,
    collectionDate: string)

  // ---------------------------------------------------------------------
  // Pagination
  // ---------------------------------------------------------------------

  /** What one search-results page yields: the `href`s of its resolution
      links, or a failure of `driver.get` or of the wait for the result items. */
  datatype ResultsPage = Listed(links: seq<string>) | PageFailed

  /** The search results as a finite function from the `startRow` offset to
      the page shown there; offsets past the recorded ones show no links. */
  type PageSource = map<nat, ResultsPage>

  function PageAt(src: PageSource, offset: nat): ResultsPage {
    if offset in src then src[offset] else Listed([])
  }

  /** The page at `offset` lists at least one link, so enumeration goes on. */
  predicate HasLinks(src: PageSource, offset: nat) {
    PageAt(src, offset).Listed? && |PageAt(src, offset).links| > 0
  }

  function LinksOn(page: ResultsPage): seq<string> {
    if page.Listed? then page.links else []
  }

  /** Reference definition: the links of `n` consecutive pages starting at
      `offset`, concatenated in page order. */
  function LinksOfPages(src: PageSource, offset: nat, n: nat): seq<string>
    decreases n
  {
    if n == 0 then [] else LinksOn(PageAt(src, offset)) + LinksOfPages(src, offset + PageSize, n - 1)
  }

  /** The offsets requested, and either the links collected before the first
      empty page or the failure that ended the loop. */
  datatype Enumeration =
    | Exhausted(requested: seq<nat>, links: seq<string>)
    | Failed(requested: seq<nat>)

  /** Recorded offsets at or beyond `offset`: the pages still able to show links. */
  function Pending(src: PageSource, offset: nat): set<nat> {
    set k | k in src.Keys && k >= offset
  }

  lemma {:induction false} SubsetIsNoLarger(a: set<nat>, b: set<nat>)
    requires a <= b
    ensures |a| <= |b|
    decreases a
  {
    if a != {} {
      var x :| x in a;
      SubsetIsNoLarger(a - {x}, b - {x});
    }
  }

  lemma ProperSubsetIsSmaller(a: set<nat>, b: set<nat>, x: nat)
    requires a <= b && x in b && x !in a
    ensures |a| < |b|
  {
    SubsetIsNoLarger(a, b - {x});
  }

  /** The `while True` loop of the collector from `start_row == offset`. */
  function Enumerate(src: PageSource, offset: nat): (e: Enumeration)
    ensures |e.requested| >= 1
    ensures forall i :: 0 <= i < |e.requested| ==> e.requested[i] == offset + PageSize * i
    ensures forall i :: 0 <= i < |e.requested| - 1 ==> HasLinks(src, e.requested[i])
    ensures e.Exhausted? <==> PageAt(src, e.requested[|e.requested| - 1]) == Listed([])
    ensures e.Failed? <==> PageAt(src, e.requested[|e.requested| - 1]) == PageFailed
    ensures e.Exhausted? ==> e.links == LinksOfPages(src, offset, |e.requested| - 1)
    decreases |Pending(src, offset)|
  {
    match PageAt(src, offset)
    case PageFailed => Failed([offset])
    case Listed(links) =>
      if |links| == 0 then Exhausted([offset], [])
      else
        ProperSubsetIsSmaller(Pending(src, offset + PageSize), Pending(src, offset), offset);
        match Enumerate(src, offset + PageSize)
        case Failed(later) => Failed([offset] + later)
        case Exhausted(later, more) => Exhausted([offset] + later, links + more)
  }

  /** The offsets `offset`, `offset + 15`, ... of the first `n` requests. */
  function OffsetsFrom(offset: nat, n: nat): seq<nat> {
    seq(n, i => offset + PageSize * i)
  }

  /** A run of requests 15 rows apart that continues exactly while pages
      list links ends at the first page without links. */
  lemma RequestsEndAtFirstStop(src: PageSource, offset: nat, k: nat, requested: seq<nat>)
    requires |requested| >= 1
    requires forall i :: 0 <= i < |requested| ==> requested[i] == offset + PageSize * i
    requires forall i :: 0 <= i < |requested| - 1 ==> HasLinks(src, requested[i])
    requires !HasLinks(src, requested[|requested| - 1])
    requires forall i :: 0 <= i < k ==> HasLinks(src, offset + PageSize * i)
    requires !HasLinks(src, offset + PageSize * k)
    ensures requested == OffsetsFrom(offset, k + 1)
  {
    var n := |requested|;
    assert requested[n - 1] == offset + PageSize * (n - 1);
    assert n - 1 >= k;
    assert requested[k] == offset + PageSize * k;
    var expected := OffsetsFrom(offset, k + 1);
    assert |expected| == n;
    assert forall i :: 0 <= i < n ==> requested[i] == expected[i];
  }

  /** The enumeration from `offset` stops at the first page without links:
      when the k pages from `offset` list links and the next does not,
      exactly k + 1 pages are requested. */
  lemma StopsAfter(src: PageSource, offset: nat, k: nat)
    requires forall i :: 0 <= i < k ==> HasLinks(src, offset + PageSize * i)
    requires !HasLinks(src, offset + PageSize * k)
    ensures Enumerate(src, offset).requested == OffsetsFrom(offset, k + 1)
  {
    var e := Enumerate(src, offset);
    assert !HasLinks(src, e.requested[|e.requested| - 1]);
    RequestsEndAtFirstStop(src, offset, k, e.requested);
  }

  /** If the k pages from `offset` list links and the next one lists none,
      exactly k + 1 pages are fetched and the links are those of the k pages. */
  lemma StopsAtFirstEmptyPage(src: PageSource, offset: nat, k: nat)
    requires forall i :: 0 <= i < k ==> HasLinks(src, offset + PageSize * i)
    requires PageAt(src, offset + PageSize * k) == Listed([])
    ensures Enumerate(src, offset) == Exhausted(OffsetsFrom(offset, k + 1), LinksOfPages(src, offset, k))
  {
    StopsAfter(src, offset, k);
    assert Enumerate(src, offset).requested[k] == offset + PageSize * k;
  }

  /** If the k pages from `offset` list links and the next one fails,
      exactly k + 1 pages are fetched and the enumeration ends in failure. */
  lemma FailsAtFirstFailedPage(src: PageSource, offset: nat, k: nat)
    requires forall i :: 0 <= i < k ==> HasLinks(src, offset + PageSize * i)
    requires PageAt(src, offset + PageSize * k) == PageFailed
    ensures Enumerate(src, offset) == Failed(OffsetsFrom(offset, k + 1))
  {
    StopsAfter(src, offset, k);
    assert Enumerate(src, offset).requested[k] == offset + PageSize * k;
  }

  // ---------------------------------------------------------------------
  // Extraction of one resolution
  // ---------------------------------------------------------------------

  /** What the browser shows for a resolution URL: a page that never showed
      its `corpoNormativo` body in time (or whose load raised), or a rendered
      page with its `titulo-pagina` text, if any, and the texts of the spans
      inside the body, in document order. */
  datatype DocumentPage = NeverReady | Rendered(title: Option<string>, spans: seq<string>)

  /** The page became ready and shows a title and at least one body span:
      exactly the pages `extract_resolution_data` builds a record from. */
  predicate Extractable(page: DocumentPage) {
    page.Rendered? && page.title.Some? && |page.spans| > 0
  }

  /** `extract_resolution_data`, with `now` standing for `datetime.now().isoformat()`. */
  function Extract(url: string, page: DocumentPage, now: string): (r: Option<Resolution>)
    ensures r.Some? <==> Extractable(page)
    ensures r.Some? ==> r.value.url == url && r.value.title == page.title.value
    ensures r.Some? ==> r.value.collectionDate == now
    ensures r.Some? ==> EndsWith(r.value.title, r.value.publicationDate)
    ensures r.Some? ==> |r.value.publicationDate| == if |r.value.title| < DateLength then |r.value.title| else DateLength
    ensures r.Some? && |page.spans| == 1 ==> r.value.content == page.spans[0]
    ensures r.Some? ==> |r.value.content| == TotalLength(page.spans) + |page.spans| - 1
    ensures r.Some? ==> Count(r.value.content, '\n') == TotalCount(page.spans, '\n') + |page.spans| - 1
    ensures r.Some? && (forall i :: 0 <= i < |page.spans| ==> '\n' !in page.spans[i]) ==>
      Split(r.value.content, '\n') == page.spans
    ensures r.Some? ==> PartsLaidOut(r.value.content, '\n', page.spans)
  {
    match page
    case NeverReady => None
    case Rendered(title, spans) =>
      if title.None? || |spans| == 0 then None
      else Some(Record(title.value, spans, url, now))
  }

  /** The record built from a page that had a title and body spans: the
      spans joined by newlines, the title's last ten characters as the date. */
  function Record(title: string, spans: seq<string>, url: string, now: string): (r: Resolution)
    requires |spans| > 0
    ensures r.title == title && r.url == url && r.collectionDate == now
    ensures EndsWith(title, r.publicationDate)
    ensures |r.publicationDate| == if |title| < DateLength then |title| else DateLength
    ensures |spans| == 1 ==> r.content == spans[0]
    ensures |r.content| == TotalLength(spans) + |spans| - 1
    ensures Count(r.content, '\n') == TotalCount(spans, '\n') + |spans| - 1
    ensures (forall i :: 0 <= i < |spans| ==> '\n' !in spans[i]) ==> Split(r.content, '\n') == spans
    ensures PartsLaidOut(r.content, '\n', spans)
  {
    JoinLaysOutParts('\n', spans);
    JoinAddsSeparators(spans, '\n');
    JoinLength('\n', spans);
    SplitJoinWhenFree(spans, '\n');
    Resolution(
      title := title,
      content := Join("\n", spans),
      url := url,
      publicationDate := SliceFromEnd(title, DateLength),
      collectionDate := now)
  }

  // ---------------------------------------------------------------------
  // The batch
  // ---------------------------------------------------------------------

  /** `all_data`: the successful extractions, in URL order (`if data:` holds
      for every record, a dataclass instance being always truthy). */
  function Successful(results: seq<Option<Resolution>>): (batch: seq<Resolution>)
    ensures |batch| <= |results|
    ensures forall x :: x in batch <==> Some(x) in results
    ensures (forall i :: 0 <= i < |results| ==> results[i].Some?) ==> |batch| == |results|
  {
    if results == [] then []
    else (if results[0].Some? then [results[0].value] else []) + Successful(results[1..])
  }

  /** `x` and `y` are the values of two results, `x` the earlier one. */
  predicate PairFoundInOrder(results: seq<Option<Resolution>>, x: Resolution, y: Resolution) {
    exists i, j :: 0 <= i < j < |results| && results[i] == Some(x) && results[j] == Some(y)
  }

  /** Any two records of `batch` stand in the order of the results they
      came from. */
  predicate InResultOrder(batch: seq<Resolution>, results: seq<Option<Resolution>>) {
    forall p, q :: 0 <= p < q < |batch| ==> PairFoundInOrder(results, batch[p], batch[q])
  }

  /** The kept records keep the order of their results. */
  lemma {:induction false} SuccessfulKeepsOrder(results: seq<Option<Resolution>>)
    ensures InResultOrder(Successful(results), results)
  {
    if results != [] {
      var batch := Successful(results);
      SuccessfulKeepsOrder(results[1..]);
      forall p, q | 0 <= p < q < |batch|
        ensures PairFoundInOrder(results, batch[p], batch[q])
      {
        if results[0].Some? && p == 0 {
          OrderAfterKeptHead(results, q);
        } else {
          var d := if results[0].Some? then 1 else 0;
          SuccessfulBehindHead(results);
          PairBehindHead(results, Successful(results[1..]), batch, d, p, q);
        }
      }
    }
  }

  /** A kept first result precedes every later record. */
  lemma OrderAfterKeptHead(results: seq<Option<Resolution>>, q: nat)
    requires |results| > 0 && results[0].Some?
    requires 0 < q < |Successful(results)|
    ensures var batch := Successful(results); PairFoundInOrder(results, batch[0], batch[q])
  {
    var tail := results[1..];
    var rest := Successful(tail);
    var batch := Successful(results);
    assert batch == [results[0].value] + rest;
    assert Some(rest[q - 1]) in tail;
    var k :| 0 <= k < |tail| && tail[k] == Some(rest[q - 1]);
    assert results[0] == Some(batch[0]);
    assert results[k + 1] == Some(batch[q]);
  }

  /** When `batch` is `rest` behind `d` leading records, two records of
      `rest` keep their order in `results`, one place further on. */
  lemma PairBehindHead(results: seq<Option<Resolution>>, rest: seq<Resolution>, batch: seq<Resolution>, d: nat, p: nat, q: nat)
    requires |results| > 0 && InResultOrder(rest, results[1..])
    requires d <= p < q < |batch| && batch[d..] == rest
    ensures PairFoundInOrder(results, batch[p], batch[q])
  {
    assert batch[p] == rest[p - d] && batch[q] == rest[q - d];
    assert PairFoundInOrder(results[1..], rest[p - d], rest[q - d]);
    PairShifts(results, batch[p], batch[q]);
  }

  /** The batch of the later results follows the kept first result, if any. */
  lemma SuccessfulBehindHead(results: seq<Option<Resolution>>)
    requires |results| > 0
    ensures var d := if results[0].Some? then 1 else 0;
      d <= |Successful(results)| && Successful(results)[d..] == Successful(results[1..])
  {
    var rest := Successful(results[1..]);
    var batch := Successful(results);
    assert batch == (if results[0].Some? then [results[0].value] else []) + rest;
  }

  /** Two values found in order after the first result are found in order
      in the whole list. */
  lemma PairShifts(results: seq<Option<Resolution>>, x: Resolution, y: Resolution)
    requires |results| > 0 && PairFoundInOrder(results[1..], x, y)
    ensures PairFoundInOrder(results, x, y)
  {
    var i, j :| 0 <= i < j < |results| - 1 && results[1..][i] == Some(x) && results[1..][j] == Some(y);
    assert results[i + 1] == Some(x) && results[j + 1] == Some(y);
  }

  /** `x` and `y` are extracted from two links, `x` from the earlier one. */
  predicate LinksInOrder(links: seq<string>, docs: map<string, DocumentPage>, clock: nat -> string, x: Resolution, y: Resolution) {
    exists i, j :: 0 <= i < j < |links|
      && Extract(links[i], DocumentAt(docs, links[i]), clock(i)) == Some(x)
      && Extract(links[j], DocumentAt(docs, links[j]), clock(j)) == Some(y)
  }

  /** Any two records of `batch` stand in the order of the links they were
      extracted from. */
  predicate InLinkOrder(batch: seq<Resolution>, links: seq<string>, docs: map<string, DocumentPage>, clock: nat -> string) {
    forall p, q :: 0 <= p < q < |batch| ==> LinksInOrder(links, docs, clock, batch[p], batch[q])
  }

  /** The batch of a link list keeps the order of the links its records
      were extracted from. */
  lemma BatchInLinkOrder(links: seq<string>, docs: map<string, DocumentPage>, clock: nat -> string)
    ensures InLinkOrder(Successful(ExtractEach(links, docs, clock)), links, docs, clock)
  {
    var rs := ExtractEach(links, docs, clock);
    var batch := Successful(rs);
    SuccessfulKeepsOrder(rs);
    forall p, q | 0 <= p < q < |batch|
      ensures LinksInOrder(links, docs, clock, batch[p], batch[q])
    {
      assert PairFoundInOrder(rs, batch[p], batch[q]);
      PairFromLinks(links, docs, clock, rs, batch[p], batch[q]);
    }
  }

  /** A pair of results in order, read back as the extractions of two
      links in order. */
  lemma PairFromLinks(links: seq<string>, docs: map<string, DocumentPage>, clock: nat -> string,
                      rs: seq<Option<Resolution>>, x: Resolution, y: Resolution)
    requires |rs| == |links|
    requires forall i :: 0 <= i < |rs| ==> rs[i] == Extract(links[i], DocumentAt(docs, links[i]), clock(i))
    requires PairFoundInOrder(rs, x, y)
    ensures LinksInOrder(links, docs, clock, x, y)
  {
    var i, j :| 0 <= i < j < |rs| && rs[i] == Some(x) && rs[j] == Some(y);
    assert Extract(links[i], DocumentAt(docs, links[i]), clock(i)) == Some(x);
  }

  /** Results of an earlier stretch of URLs precede those of a later one. */
  lemma {:induction false} SuccessfulConcat(a: seq<Option<Resolution>>, b: seq<Option<Resolution>>)
    ensures Successful(a + b) == Successful(a) + Successful(b)
  {
    if a == [] {
      assert a + b == b;
    } else {
      assert (a + b)[0] == a[0];
      assert (a + b)[1..] == a[1..] + b;
      SuccessfulConcat(a[1..], b);
    }
  }

  /** The document each URL shows; a URL the model has no page for never
      becomes ready. */
  function DocumentAt(docs: map<string, DocumentPage>, url: string): DocumentPage {
    if url in docs then docs[url] else NeverReady
  }

  /** The extraction loop: `clock(i)` is the time read while extracting the
      i-th link. */
  function ExtractEach(links: seq<string>, docs: map<string, DocumentPage>, clock: nat -> string): (rs: seq<Option<Resolution>>)
    ensures |rs| == |links|
    ensures forall i :: 0 <= i < |rs| ==> rs[i] == Extract(links[i], DocumentAt(docs, links[i]), clock(i))
    ensures forall i :: 0 <= i < |rs| ==> (rs[i].Some? <==> Extractable(DocumentAt(docs, links[i])))
    ensures forall i :: 0 <= i < |rs| && rs[i].Some? ==> rs[i].value.url == links[i]
  {
    seq(|links|, i requires 0 <= i < |links| => Extract(links[i], DocumentAt(docs, links[i]), clock(i)))
  }

  // ---------------------------------------------------------------------
  // A whole run
  // ---------------------------------------------------------------------

  /** How `collect_central_bank_resolutions` ends: the browser could not be
      started (raised to the caller, since the driver is created outside the
      `try`), an exception was caught and logged with nothing written, or
      the batch was written to `resolutions_data.json`. */
  datatype Run = SetupRaised | Logged | Saved(batch: seq<Resolution>)

  /** What a saved batch promises about the links it was extracted from:
      no more records than links, each record's url one of the links, the
      record of every extractable link present, every record the extraction
      of some link, and any two records in the order of their links. */
  predicate BatchOfLinks(batch: seq<Resolution>, links: seq<string>, docs: map<string, DocumentPage>, clock: nat -> string) {
    && |batch| <= |links|
    && (forall x :: x in batch ==> x.url in links)
    && (forall i :: 0 <= i < |links| && Extractable(DocumentAt(docs, links[i])) ==>
          Extract(links[i], DocumentAt(docs, links[i]), clock(i)).value in batch)
    && (forall x :: x in batch ==>
          exists i :: 0 <= i < |links| && Extract(links[i], DocumentAt(docs, links[i]), clock(i)) == Some(x))
    && InLinkOrder(batch, links, docs, clock)
  }

  /** The successful extractions of a link list form a batch of those links. */
  lemma SuccessfulIsBatchOfLinks(links: seq<string>, docs: map<string, DocumentPage>, clock: nat -> string)
    ensures BatchOfLinks(Successful(ExtractEach(links, docs, clock)), links, docs, clock)
  {
    var rs := ExtractEach(links, docs, clock);
    var batch := Successful(rs);
    assert forall x :: x in batch ==> exists i :: 0 <= i < |rs| && rs[i] == Some(x);
    BatchInLinkOrder(links, docs, clock);
  }

  /** A run with the given browser start-up, search results, documents,
      clock and outcome of writing the file. */
  function Collect(
    driverStarts: bool, src: PageSource, docs: map<string, DocumentPage>,
    clock: nat -> string, saveSucceeds: bool): (run: Run)
    ensures run.SetupRaised? <==> !driverStarts
    ensures run.Saved? <==> driverStarts && Enumerate(src, 0).Exhausted? && saveSucceeds
    ensures run.Saved? ==> BatchOfLinks(run.batch, Enumerate(src, 0).links, docs, clock)
    ensures run.Saved? ==> run.batch == Successful(ExtractEach(Enumerate(src, 0).links, docs, clock))
  {
    if !driverStarts then SetupRaised
    else
      match Enumerate(src, 0)
      case Failed(_) => Logged
      case Exhausted(_, links) =>
        var batch := Successful(ExtractEach(links, docs, clock));
        SuccessfulIsBatchOfLinks(links, docs, clock);
        if saveSucceeds then Saved(batch) else Logged
  }

  /** A failed page fetch or wait, anywhere in the enumeration, leaves
      nothing persisted: the `except` skips `save_data`. */
  lemma FailedPageSavesNothing(
    src: PageSource, docs: map<string, DocumentPage>, clock: nat -> string,
    saveSucceeds: bool, k: nat)
    requires forall i :: 0 <= i < k ==> HasLinks(src, PageSize * i)
    requires PageAt(src, PageSize * k) == PageFailed
    ensures Collect(true, src, docs, clock, saveSucceeds) == Logged
  {
    forall i | 0 <= i < k
      ensures HasLinks(src, 0 + PageSize * i)
    {
      assert HasLinks(src, PageSize * i);
    }
    FailsAtFirstFailedPage(src, 0, k);
  }

  /** A first page without links still writes a file: an empty batch. */
  lemma EmptyFirstPageSavesEmptyBatch(src: PageSource, docs: map<string, DocumentPage>, clock: nat -> string)
    requires PageAt(src, 0) == Listed([])
    ensures Collect(true, src, docs, clock, true) == Saved([])
  {
  }

  /** The batch keeps exactly the URLs whose extraction succeeded, in URL
      order: extracting a longer link list extends the batch of its prefix. */
  lemma {:induction false} BatchFollowsLinkOrder(
    links: seq<string>, more: seq<string>, docs: map<string, DocumentPage>, clock: nat -> string)
    ensures Successful(ExtractEach(links + more, docs, clock))
         == Successful(ExtractEach(links, docs, clock))
          + Successful(ExtractEach(links + more, docs, clock)[|links|..])
  {
    var all := ExtractEach(links + more, docs, clock);
    assert all[..|links|] == ExtractEach(links, docs, clock);
    assert all == all[..|links|] + all[|links|..];
    SuccessfulConcat(all[..|links|], all[|links|..]);
  }

  /** Two resolution pages, one complete and one without body spans: the
      saved batch holds exactly one resolution, dated by the title's last ten
      characters. */
  lemma OneCompleteOneMissingBody(clock: nat -> string)
    ensures
      var first := "https://www.bcb.gov.br/estabilidadefinanceira/exibenormativo?numero=1";
      var second := "https://www.bcb.gov.br/estabilidadefinanceira/exibenormativo?numero=2";
      var title := "Resolution No. 1, 01/01/2024";
      var body := seq(150, _ => 'A');
      var src := map[0 := Listed([first, second])];
      var docs := map[first := Rendered(Some(title), [body]), second := Rendered(Some("Resolution No. 2"), [])];
      Collect(true, src, docs, clock, true)
        == Saved([Resolution(title, body, first, "01/01/2024", clock(0))])
  {
    var first := "https://www.bcb.gov.br/estabilidadefinanceira/exibenormativo?numero=1";
    var second := "https://www.bcb.gov.br/estabilidadefinanceira/exibenormativo?numero=2";
    var title := "Resolution No. 1, 01/01/2024";
    var body := seq(150, _ => 'A');
    var src := map[0 := Listed([first, second])];
    var docs := map[first := Rendered(Some(title), [body]), second := Rendered(Some("Resolution No. 2"), [])];
    StopsAtFirstEmptyPage(src, 0, 1);
    assert LinksOfPages(src, 0, 1) == [first, second];
    var record := Resolution(title, body, first, "01/01/2024", clock(0));
    assert SliceFromEnd(title, DateLength) == "01/01/2024";
    assert Extract(first, DocumentAt(docs, first), clock(0)) == Some(record);
    assert Extract(second, DocumentAt(docs, second), clock(1)) == None;
    assert ExtractEach([first, second], docs, clock) == [Some(record), None];
    assert Successful([Some(record), None]) == [record];
  }
}
