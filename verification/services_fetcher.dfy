/** The `NoticeFetcher` of `Services/NoticeFetcher.swift`: the board of the
    university web site, paged by `pageIndex` one page at a time (`limit` 1),
    whose first-page completion also runs the new-notice check.

    Each request is split into its admission (the guard, which sets
    `isFetching` and yields the URL to fetch, or nothing) and its completion,
    one atomic transition on the board. The title list kept in `UserDefaults`
    is passed in and handed back; the alert is returned rather than posted. */
module ServicesFetcher {
  import opened Common
  import opened Strings
  import opened SwiftInt
  import opened Notices

  const FirstPageUrl: string := "https://www.hallym.ac.kr/hallym_univ/sub05/cPno/list.do"
  const PageUrlPrefix: string := "https://www.hallym.ac.kr/hallym_univ/sub05/cPno/list.do?pageIndex="
  /** `limit`: how far `currentOffset` moves after a page with new notices. */
  const Limit: int := 1
  /** `currentOffset` as initialised and as `fetchFirstPage` resets it. */
  const StartOffset: int := 1
  /** `currentOffset` after a successful first page. */
  const SecondPageOffset: int := 2

  /** The board as the property initialisers leave it, before `init()` calls
      `fetchFirstPage`. */
  const Initial: Board := Board([], [], false, true, StartOffset)

  /** The board after an admission step, and the URL requested, if any. */
  datatype Admission = Admission(board: Board, request: Option<string>)

  /** The board after a first-page completion, the title list to store, and
      the alert to post, if any. */
  datatype FirstPageResult = FirstPageResult(board: Board, stored: seq<string>, alert: Option<Alert>)

  /** What this fetcher keeps true of its board. */
  predicate Valid(b: Board) {
    WellFormedLists(b) && b.offset >= StartOffset
  }

  /** `init()`: the fetcher asks for the first page straight away. */
  function Init(): (r: Admission)
    ensures r.board.isFetching && r.request == Some(FirstPageUrl)
    ensures r.board.pinned == [] && r.board.notices == []
    ensures Valid(r.board)
  {
    BeginFirstPage(Initial)
  }

  /** `fetchFirstPage()` up to the request: ignored while a request is in
      flight; otherwise it claims the fetch, rewinds the offset and re-enables
      paging before the first page arrives. */
  function BeginFirstPage(b: Board): (r: Admission)
    ensures b.isFetching ==> r == Admission(b, None)
    ensures !b.isFetching ==>
              && r.request == Some(FirstPageUrl)
              && r.board == b.(isFetching := true, offset := StartOffset, hasMoreData := true)
  {
    if b.isFetching then Admission(b, None)
    else Admission(b.(isFetching := true, offset := StartOffset, hasMoreData := true), Some(FirstPageUrl))
  }

  /** The `fetchFirstPage()` completion. A failed request only clears
      `isFetching`. A page replaces the pinned list with the page's pinned
      rows in page order and the regular list with its regular rows sorted by
      number, moves the offset to the second page, keeps paging on iff some
      regular notice was found, and checks pinned-then-regular titles against
      the stored list. */
  function CompleteFirstPage(b: Board, outcome: FetchOutcome, stored: seq<string>): (r: FirstPageResult)
    ensures !r.board.isFetching
    ensures !outcome.Fetched? ==> r == FirstPageResult(b.(isFetching := false), stored, None)
    ensures outcome.Fetched? ==>
              && r.board.pinned == ClassifyRows(outcome.rows).pinned
              && SortedDesc(r.board.notices)
              && multiset(r.board.notices) == multiset(ClassifyRows(outcome.rows).regular)
              && r.board.offset == SecondPageOffset
              && r.board.hasMoreData == (r.board.notices != [])
              && r.stored == Titles(r.board.pinned + r.board.notices)
              && r.alert == CheckForNewNotices(r.board.pinned + r.board.notices, stored).alert
  {
    match outcome
    case Fetched(rows) =>
      var lists := FirstPageLists(rows);
      var check := CheckForNewNotices(lists.pinned + lists.regular, stored);
      var board := Board(lists.pinned, lists.regular, false, lists.regular != [], SecondPageOffset);
      FirstPageResult(board, check.stored, check.alert)
    case _ => FirstPageResult(b.(isFetching := false), stored, None)
  }

  /** `fetchNextPage()` up to the request: ignored while a request is in
      flight or once paging has ended; otherwise it claims the fetch and asks
      for the page at the current offset. */
  function BeginNextPage(b: Board): (r: Admission)
    ensures b.isFetching || !b.hasMoreData ==> r == Admission(b, None)
    ensures !b.isFetching && b.hasMoreData ==>
              r == Admission(b.(isFetching := true), Some(PageUrlPrefix + Format(b.offset)))
  {
    if b.isFetching || !b.hasMoreData then Admission(b, None)
    else Admission(b.(isFetching := true), Some(PageUrlPrefix + Format(b.offset)))
  }

  /** The `fetchNextPage()` completion, with this fetcher's `limit`. */
  function CompleteNextPage(b: Board, outcome: FetchOutcome): (r: Board)
    ensures !r.isFetching && r.pinned == b.pinned
    ensures outcome.Fetched? && NewNotices(outcome.rows, b.notices) != [] ==> r.offset == b.offset + 1
  {
    MergeNextPage(b, outcome, Limit)
  }

  /** `refreshNotices()`, in sequence: clear both lists, rewind, then
      `fetchFirstPage()`, which is therefore always admitted. */
  function Refresh(b: Board): (r: Admission)
    ensures r.board == Board([], [], true, true, StartOffset)
    ensures r.request == Some(FirstPageUrl)
  {
    BeginFirstPage(Board([], [], false, true, 0))
  }

  /** `refreshNotices()` as it runs on the main thread: `fetchFirstPage()`
      is called at once, and the block that clears the board runs only
      afterwards. A refresh while a request is in flight therefore requests
      nothing, and either way the clear releases `isFetching` with the
      offset at 0 while a request may still be running. */
  function RefreshAsQueued(b: Board): (r: Admission)
    ensures r.board.pinned == [] && r.board.notices == []
    ensures !r.board.isFetching && r.board.hasMoreData && r.board.offset == 0
    ensures b.isFetching ==> r.request == None
    ensures !b.isFetching ==> r.request == Some(FirstPageUrl)
  {
    Admission(Board([], [], false, true, 0), BeginFirstPage(b).request)
  }

  /** After a refresh as queued, a next page is admitted at once, asking for
      offset 0, even when the first page requested by the refresh has not
      yet arrived. */
  lemma QueuedRefreshAdmitsNextPage(b: Board)
    ensures var next := BeginNextPage(RefreshAsQueued(b).board);
            next.request == Some(PageUrlPrefix + "0") && next.board.isFetching
  {
    assert Format(0) == "0";
  }

  /** The view's `onAppear` refresh right after `init()`: the first page
      `init()` asked for is still in flight, so the refresh requests nothing,
      yet the board is cleared and `isFetching` released. */
  lemma RefreshRightAfterInit()
    ensures var r := RefreshAsQueued(Init().board);
            r.request == None && r.board == Board([], [], false, true, 0)
  {
  }

  // ---------------------------------------------------------------------------
  // Properties of the fetcher as a whole

  /** Every step, with the refresh read sequentially, keeps the board
      valid: pinned notices are pinned, regular notices have an `Int` number
      and are sorted by it, every link is on the host, and the offset never
      drops below its start. The refresh as it really runs breaks the last
      part (`QueuedRefreshBreaksStartOffset`). */
  lemma StepsPreserveValid(b: Board, outcome: FetchOutcome, stored: seq<string>)
    requires Valid(b)
    ensures Valid(BeginFirstPage(b).board)
    ensures Valid(CompleteFirstPage(b, outcome, stored).board)
    ensures Valid(BeginNextPage(b).board)
    ensures Valid(CompleteNextPage(b, outcome))
    ensures Valid(Refresh(b).board)
  {
    AdmissionsKeepValid(b);
    FirstPageKeepsValid(b, outcome, stored);
    NextPageKeepsValid(b, outcome);
  }

  /** The refresh as it really runs keeps the lists well formed but leaves
      the offset at 0, below its start. */
  lemma QueuedRefreshBreaksStartOffset(b: Board)
    ensures WellFormedLists(RefreshAsQueued(b).board)
    ensures RefreshAsQueued(b).board.offset == 0 && !Valid(RefreshAsQueued(b).board)
  {
  }

  /** With the refresh as it really runs, every step still keeps the lists
      well formed and the offset non-negative. */
  lemma QueuedStepsKeepLists(b: Board, outcome: FetchOutcome, stored: seq<string>)
    requires WellFormedLists(b) && b.offset >= 0
    ensures var r := RefreshAsQueued(b).board; WellFormedLists(r) && r.offset >= 0
    ensures var r := BeginFirstPage(b).board; WellFormedLists(r) && r.offset >= 0
    ensures var r := CompleteFirstPage(b, outcome, stored).board; WellFormedLists(r) && r.offset >= 0
    ensures var r := BeginNextPage(b).board; WellFormedLists(r) && r.offset >= 0
    ensures var r := CompleteNextPage(b, outcome); WellFormedLists(r) && r.offset >= 0
  {
    MergeNextPageKeepsLists(b, outcome, Limit);
  }

  /** The admission steps and the refresh keep the board valid. */
  lemma AdmissionsKeepValid(b: Board)
    requires Valid(b)
    ensures Valid(BeginFirstPage(b).board)
    ensures Valid(BeginNextPage(b).board)
    ensures Valid(Refresh(b).board)
  {
  }

  lemma FirstPageKeepsValid(b: Board, outcome: FetchOutcome, stored: seq<string>)
    requires Valid(b)
    ensures Valid(CompleteFirstPage(b, outcome, stored).board)
  {
  }

  /** A next-page completion keeps the lists well-formed and never moves the
      offset back. */
  lemma NextPageKeepsValid(b: Board, outcome: FetchOutcome)
    requires Valid(b)
    ensures Valid(CompleteNextPage(b, outcome))
  {
    MergeNextPageKeepsLists(b, outcome, Limit);
  }

  /** A failed first page keeps both lists, but the admission already
      rewound the offset and re-enabled paging, and nothing is stored or
      posted. */
  lemma FailedFirstPageKeepsLists(b: Board, outcome: FetchOutcome, stored: seq<string>)
    requires !b.isFetching && !outcome.Fetched?
    ensures var r := CompleteFirstPage(BeginFirstPage(b).board, outcome, stored);
            && r.board == b.(offset := StartOffset, hasMoreData := true)
            && r.stored == stored && r.alert.None?
  {
  }

  /** Paging stays off once a page brought nothing new: no next-page request
      is admitted and no next-page completion turns it back on. Only a first
      page can. */
  lemma ExhaustionSticks(b: Board, outcome: FetchOutcome)
    requires !b.hasMoreData
    ensures BeginNextPage(b) == Admission(b, None)
    ensures !CompleteNextPage(b, outcome).hasMoreData
  {
  }

  /** A next page whose numbers are all held changes nothing but ends paging;
      in particular the same page delivered twice adds nothing the second time. */
  lemma SamePageTwice(b: Board, rows: seq<Row>)
    requires !b.isFetching && b.hasMoreData && NewNotices(rows, b.notices) != []
    ensures var once := CompleteNextPage(BeginNextPage(b).board, Fetched(rows));
            var twice := CompleteNextPage(BeginNextPage(once).board, Fetched(rows));
            twice == once.(hasMoreData := false)
  {
    MergeTwiceAddsNothing(rows, b.notices);
  }

  /** `parseNotices(from:)`: every complete row except the header row, in
      page order, pinned exactly when numbered with the pinned label. A body
      the parser rejects yields no notice. */
  function ParseNotices(page: Option<seq<Row>>): (r: seq<Notice>)
    ensures page.None? ==> r == []
    ensures forall n | n in r :: n.number != HeaderLabel && (n.isPinned <==> n.number == PinnedLabel)
    ensures forall n | n in r :: StartsWith(n.link, Host)
    ensures page.Some? ==> |r| <= |page.value|
    ensures page.Some? ==>
              forall i | 0 <= i < |page.value| && Complete(page.value[i]) && page.value[i].numberCell.value != HeaderLabel ::
                ToNotice(page.value[i], page.value[i].numberCell.value == PinnedLabel) in r
  {
    match page
    case None => []
    case Some(rows) =>
      ParseNoticeRowsSpec(rows, []);
      ParseNoticeRows(rows)
  }

  function ParseNoticeRows(rows: seq<Row>): (r: seq<Notice>)
    ensures forall n | n in r :: n.number != HeaderLabel && (n.isPinned <==> n.number == PinnedLabel)
    ensures forall n | n in r :: StartsWith(n.link, Host)
    ensures |r| <= |rows|
  {
    if |rows| == 0 then []
    else
      var rest := ParseNoticeRows(rows[1..]);
      var row := rows[0];
      if !Complete(row) || row.numberCell.value == HeaderLabel then rest
      else [ToNotice(row, row.numberCell.value == PinnedLabel)] + rest
  }

  /** Which rows `parseNotices` keeps, and that it keeps their order. */
  lemma {:induction false} ParseNoticeRowsSpec(a: seq<Row>, b: seq<Row>)
    ensures ParseNoticeRows(a + b) == ParseNoticeRows(a) + ParseNoticeRows(b)
    ensures forall i | 0 <= i < |a| && Complete(a[i]) && a[i].numberCell.value != HeaderLabel ::
              ToNotice(a[i], a[i].numberCell.value == PinnedLabel) in ParseNoticeRows(a)
    decreases |a|
  {
    if a == [] {
      assert a + b == b;
    } else {
      assert (a + b)[1..] == a[1..] + b;
      ParseNoticeRowsSpec(a[1..], b);
      assert forall i | 1 <= i < |a| :: a[i] == a[1..][i - 1];
    }
  }

  /** The class of the rows `parseTopNotices` selects (`tr.notice`). */
  const NoticeRowClass: string := "notice"

  /** `parseTopNotices(from:)`: one pinned notice numbered with the pinned
      label for every `tr.notice` row that has a title link, in page order
      (see `TopNoticeRowsSpec`). */
  function ParseTopNotices(page: Option<seq<Row>>): (r: seq<Notice>)
    ensures page.None? ==> r == []
    ensures forall n | n in r :: n.number == PinnedLabel && n.isPinned && StartsWith(n.link, Host)
    ensures page.Some? ==> |r| == CountTopRows(page.value)
  {
    match page
    case None => []
    case Some(rows) => TopNoticeRows(rows)
  }

  predicate IsTopRow(row: Row) {
    NoticeRowClass in row.classes && row.titleLink.Some?
  }

  function CountTopRows(rows: seq<Row>): nat {
    if |rows| == 0 then 0 else (if IsTopRow(rows[0]) then 1 else 0) + CountTopRows(rows[1..])
  }

  function TopNoticeRows(rows: seq<Row>): (r: seq<Notice>)
    ensures forall n | n in r :: n.number == PinnedLabel && n.isPinned && StartsWith(n.link, Host)
    ensures |r| == CountTopRows(rows)
  {
    if |rows| == 0 then []
    else
      var rest := TopNoticeRows(rows[1..]);
      var row := rows[0];
      if IsTopRow(row) then
        [Notice(PinnedLabel, row.titleLink.value.text, NoticeLink(row.titleLink.value.href), true)] + rest
      else rest
  }

  /** Which rows `parseTopNotices` keeps, and that it keeps their order: each
      `tr.notice` row with a title link gives the pinned notice carrying that
      link's text and host-prefixed `href`, and every other row gives
      nothing. */
  lemma {:induction false} TopNoticeRowsSpec(a: seq<Row>, b: seq<Row>)
    ensures TopNoticeRows(a + b) == TopNoticeRows(a) + TopNoticeRows(b)
    ensures forall i | 0 <= i < |a| && IsTopRow(a[i]) ::
              Notice(PinnedLabel, a[i].titleLink.value.text, NoticeLink(a[i].titleLink.value.href), true)
                in TopNoticeRows(a)
    decreases |a|
  {
    if a == [] {
      assert a + b == b;
    } else {
      assert (a + b)[1..] == a[1..] + b;
      TopNoticeRowsSpec(a[1..], b);
      assert forall i | 1 <= i < |a| :: a[i] == a[1..][i - 1];
    }
  }

  /** A single row: a `tr.notice` row with a title link gives exactly its
      pinned notice, any other row nothing. */
  lemma TopNoticeRow(row: Row)
    ensures TopNoticeRows([row]) ==
              if IsTopRow(row)
              then [Notice(PinnedLabel, row.titleLink.value.text, NoticeLink(row.titleLink.value.href), true)]
              else []
  {
    assert [row][1..] == [];
  }
}
