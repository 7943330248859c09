/** The `NoticeFetcher` of `NoticeFetcher.swift`: the data board, paged by
    `article.offset` ten notices at a time (`limit` 10). Unlike the newer copy
    its first-page admission touches neither the offset nor `hasMoreData`,
    the first page is fetched only through `refreshNotices()`, and its
    `checkForNewNotices` (the shared `Notices.CheckForNewNotices`) is never
    called. */
module LegacyFetcher {
  import opened Common
  import opened Strings
  import opened SwiftInt
  import opened Notices

  const PageUrlPrefix: string :=
    "https://data.hallym.ac.kr/data/community/notice02.do?mode=list&&articleLimit=10&article.offset="
  /** `limit`: the page size, and how far `currentOffset` moves. */
  const Limit: int := 10

  /** The board as the property initialisers leave it. */
  const Initial: Board := Board([], [], false, true, 0)

  /** The board after an admission step, and the URL requested, if any. */
  datatype Admission = Admission(board: Board, request: Option<string>)

  /** What this fetcher keeps true of its board: the offset is a whole number
      of pages. */
  predicate Valid(b: Board) {
    WellFormedLists(b) && PageAligned(b.offset)
  }

  /** An offset that is a whole, non-negative number of pages. */
  predicate PageAligned(o: int) {
    o >= 0 && o % Limit == 0
  }

  /** `fetchFirstPage()` up to the request: ignored while a request is in
      flight; otherwise it claims the fetch and asks for offset 0. */
  function BeginFirstPage(b: Board): (r: Admission)
    ensures b.isFetching ==> r == Admission(b, None)
    ensures !b.isFetching ==> r == Admission(b.(isFetching := true), Some(PageUrlPrefix + "0"))
  {
    if b.isFetching then Admission(b, None)
    else Admission(b.(isFetching := true), Some(PageUrlPrefix + Format(0)))
  }

  /** The `fetchFirstPage()` completion. A transport error, an undecodable
      body or a parse failure leaves both lists, the offset and paging as they
      were and only clears `isFetching`. A page replaces the pinned list with
      its pinned rows in page order and the regular list with its regular
      rows sorted by number, sets the offset to one page, and keeps paging on
      iff some regular notice was found. */
  function CompleteFirstPage(b: Board, outcome: FetchOutcome): (r: Board)
    ensures !r.isFetching
    ensures !outcome.Fetched? ==> r == b.(isFetching := false)
    ensures outcome.Fetched? ==>
              && r.pinned == ClassifyRows(outcome.rows).pinned
              && SortedDesc(r.notices)
              && multiset(r.notices) == multiset(ClassifyRows(outcome.rows).regular)
              && r.offset == Limit
              && r.hasMoreData == (r.notices != [])
  {
    match outcome
    case Fetched(rows) =>
      var lists := FirstPageLists(rows);
      Board(lists.pinned, lists.regular, false, lists.regular != [], Limit)
    case _ => b.(isFetching := false)
  }

  /** `fetchNextPage()` up to the request: admitted only when no request is in
      flight and paging is on; it asks for the page at the current offset. */
  function BeginNextPage(b: Board): (r: Admission)
    ensures b.isFetching || !b.hasMoreData ==> r == Admission(b, None)
    ensures !b.isFetching && b.hasMoreData ==>
              r == Admission(b.(isFetching := true), Some(PageUrlPrefix + Format(b.offset)))
  {
    if b.isFetching || !b.hasMoreData then Admission(b, None)
    else Admission(b.(isFetching := true), Some(PageUrlPrefix + Format(b.offset)))
  }

  /** The `fetchNextPage()` completion, with this fetcher's `limit`. */
  function CompleteNextPage(b: Board, outcome: FetchOutcome): (r: Board)
    ensures !r.isFetching && r.pinned == b.pinned
    ensures outcome.Fetched? && NewNotices(outcome.rows, b.notices) != [] ==> r.offset == b.offset + 10
  {
    MergeNextPage(b, outcome, Limit)
  }

  /** `refreshNotices()`, in sequence: rewind to offset 0, re-enable paging,
      clear both lists, then `fetchFirstPage()`, which is therefore always
      admitted and asks for offset 0. */
  function Refresh(b: Board): (r: Admission)
    ensures r.board == Board([], [], true, true, 0)
    ensures r.request == Some(PageUrlPrefix + "0")
  {
    BeginFirstPage(Board([], [], false, true, 0))
  }

  /** `refreshNotices()` as it runs on the main thread: `fetchFirstPage()`
      is called at once, and the block that clears the board runs only
      afterwards. A refresh while a request is in flight therefore requests
      nothing, and either way the clear releases `isFetching` with the
      offset at 0 while a request may still be running. */
  function RefreshAsQueued(b: Board): (r: Admission)
    ensures r.board.pinned == [] && r.board.notices == []
    ensures !r.board.isFetching && r.board.hasMoreData && r.board.offset == 0
    ensures b.isFetching ==> r.request == None
    ensures !b.isFetching ==> r.request == Some(PageUrlPrefix + "0")
  {
    Admission(Board([], [], false, true, 0), BeginFirstPage(b).request)
  }

  /** After a refresh as queued, a next page is admitted at once, asking for
      offset 0, even when the first page requested by the refresh has not
      yet arrived. */
  lemma QueuedRefreshAdmitsNextPage(b: Board)
    ensures var next := BeginNextPage(RefreshAsQueued(b).board);
            next.request == Some(PageUrlPrefix + "0") && next.board.isFetching
  {
    assert Format(0) == "0";
  }

  // ---------------------------------------------------------------------------
  // Properties of the fetcher as a whole

  /** Every step keeps the board valid; in particular the offset stays a
      non-negative multiple of the page size. */
  lemma StepsPreserveValid(b: Board, outcome: FetchOutcome)
    requires Valid(b)
    ensures Valid(BeginFirstPage(b).board)
    ensures Valid(CompleteFirstPage(b, outcome))
    ensures Valid(BeginNextPage(b).board)
    ensures Valid(CompleteNextPage(b, outcome))
    ensures Valid(Refresh(b).board)
    ensures Valid(RefreshAsQueued(b).board)
  {
    AdmissionsKeepValid(b);
    FirstPageKeepsValid(b, outcome);
    NextPageKeepsValid(b, outcome);
  }

  /** The admission steps and the refresh keep the board valid. */
  lemma AdmissionsKeepValid(b: Board)
    requires Valid(b)
    ensures Valid(BeginFirstPage(b).board)
    ensures Valid(BeginNextPage(b).board)
    ensures Valid(Refresh(b).board)
    ensures Valid(RefreshAsQueued(b).board)
  {
    assert PageAligned(0);
  }

  /** A first-page completion keeps the board valid. */
  lemma FirstPageKeepsValid(b: Board, outcome: FetchOutcome)
    requires Valid(b)
    ensures Valid(CompleteFirstPage(b, outcome))
  {
    assert PageAligned(Limit);
  }

  /** A next-page completion either keeps the offset or moves it one page. */
  lemma NextPageKeepsValid(b: Board, outcome: FetchOutcome)
    requires Valid(b)
    ensures Valid(CompleteNextPage(b, outcome))
  {
    MergeNextPageKeepsLists(b, outcome, Limit);
    var next := CompleteNextPage(b, outcome);
    AlignedStep(b.offset, next.offset);
  }

  /** Staying put or moving one page keeps the offset page-aligned. */
  lemma AlignedStep(o: int, o2: int)
    requires PageAligned(o) && (o2 == o || o2 == o + Limit)
    ensures PageAligned(o2)
  {
  }

  /** A failed first page leaves the board exactly as it was before the
      request, `isFetching` aside. */
  lemma FailedFirstPageChangesNothing(b: Board, outcome: FetchOutcome)
    requires !b.isFetching && !outcome.Fetched?
    ensures CompleteFirstPage(BeginFirstPage(b).board, outcome) == b
  {
  }

  /** Once a next page brought nothing new, paging stays off until a
      first page: no next page is admitted or re-enables it. */
  lemma ExhaustionSticks(b: Board, outcome: FetchOutcome)
    requires !b.hasMoreData
    ensures BeginNextPage(b) == Admission(b, None)
    ensures !CompleteNextPage(b, outcome).hasMoreData
    ensures !BeginFirstPage(b).board.hasMoreData
  {
  }

  /** The same next page delivered twice adds nothing the second time and
      ends paging. */
  lemma SamePageTwice(b: Board, rows: seq<Row>)
    requires !b.isFetching && b.hasMoreData && NewNotices(rows, b.notices) != []
    ensures var once := CompleteNextPage(BeginNextPage(b).board, Fetched(rows));
            var twice := CompleteNextPage(BeginNextPage(once).board, Fetched(rows));
            twice == once.(hasMoreData := false)
  {
    MergeTwiceAddsNothing(rows, b.notices);
  }
}
