# UniGram notice board, modelled in Dafny

UniGram is an iOS app that shows the notice board of Hallym University. Its core is a scraper with two parts:

- **Listing fetcher.** A `NoticeFetcher` downloads listing pages of the board. It splits each page into pinned notices and regular numbered notices. It keeps the regular notices sorted by number, loads later pages on demand and merges in only numbers it does not hold yet. It also compares the first page's titles against the titles stored last time to decide whether to post a "new notice" alert.
- **Detail view model.** A `PostDetailViewModel` reads the article number out of a notice link and requests the detail page. From that page it extracts:
  - the writer / date / views metadata;
  - the post body;
  - the attachment list.

The repository holds two copies of each part:

- `Services/NoticeFetcher.swift`: the university web site board, paged by `pageIndex` one page at a time. Its first page also runs the new-notice check. Its `parseNotices` and `parseTopNotices` helpers (:245, :281) are never called; they are modelled as written.
- `NoticeFetcher.swift`: the data board, paged by `article.offset` ten notices at a time. Its new-notice check is never called.
- `Views/PostDetailView.swift`: the body becomes an ordered list of text, image and table blocks walked from the editor box. Attachments carry a kind (hwp / pdf / other).
- `PostDetailView.swift`: the body is one trimmed text plus the headers and rows of the last table on the page. Attachments carry a size.

## Layout

| File | Module | Contents |
|---|---|---|
| `common.dfy` | `Common` | Swift's `Optional` |
| `strings.dfy` | `Strings` | The Foundation string operations the scraper uses: `contains`, `range(of:)`, `hasPrefix`, `replacingOccurrences`, and trimming of `whitespacesAndNewlines` |
| `swift_int.dfy` | `SwiftInt` | Swift's `Int(String)` on a 64-bit platform, and `String(Int)` |
| `html.dfy` | `Html` | A parsed document as an element tree. SwiftSoup's `select` for the selector shapes used (`tag`, `tag.class`, `ancestor descendant`), self-inclusive and in document order |
| `sorting.dfy` | `Sorting` | Sorting into non-increasing key order |
| `notices.dfy` | `Notices` | The listing logic both fetchers share: row classification, the number order, next-page merging, new-notice detection |
| `services_fetcher.dfy` | `ServicesFetcher` | The newer fetcher |
| `legacy_fetcher.dfy` | `LegacyFetcher` | The older fetcher |
| `detail.dfy` | `Detail` | What both detail view models share: article number, request URL, request status, metadata scan, table rows |
| `post_detail.dfy` | `PostDetail` | The newer detail view model |
| `legacy_post_detail.dfy` | `LegacyPostDetail` | The older detail view model |

## Modelling choices

- **Listing rows.** A listing row reaches the fetchers as the three things they read from a `table.board-table tbody tr`:
  - its class tokens;
  - the text of its first `td.b-num-box`;
  - its first `td.b-td-left a` link.

  Either of the last two may be missing.
- **Requests.** Every request is split into an admission step and a completion step. The admission step applies the `isFetching` guard and yields the URL to fetch, or nothing. The completion step is one atomic update of the published state, as the main-queue block performs it.
- **Outcomes as inputs.** The network result is an input: a transport error, an undecodable body, a body the parser rejects, or the parsed rows or document.
- **Stored titles and alerts.** The stored title list is passed in and handed back. The alert is returned instead of posted.

### Behaviour worth knowing

The model follows the code in each of these cases:

- **Ordering.** The regular list is kept in non-increasing order of `Int(number) ?? 0` (`Services/NoticeFetcher.swift:99-101`, `NoticeFetcher.swift:100-102`). Duplicates within one page are not removed: a next page is checked only against the notices already held. The merge still never adds a number that was already held (`Notices.MergeNextPageKeepsLists`).
- **Metadata.** Each field takes the value of the *last* span that names it, because every matching span overwrites the field (`Detail.ScanSpansLastWins`).
- **Legacy fetcher.** The older fetcher's first page neither rewinds the offset nor re-enables paging in its admission step, and it never runs the new-notice check.
- **Legacy detail tables.** When a table has no `th`, the older detail view shows the first row twice: as the headers and as the first data row (`LegacyPostDetail.FirstRowIsHeadersAndData`).
- **Newer detail tables.** The newer detail view skips the first `tr` whenever the table has headers, even when those came from `th` cells elsewhere in the table (`PostDetail.TableDropsOnlyTheFirst`).
- **Fallback body.** The fallback body of a page without an editor box is the content box's text untrimmed (`PostDetail.ContentBlocks`).

## Model

| member | source | states |
|---|---|---|
| SwiftInt.ParseInt | UniGram/UniGram/Services/NoticeFetcher.swift:94 | `Int(s)` succeeds exactly on an optionally signed run of ASCII digits whose value fits in 64 bits, and yields that value |
| SwiftInt.FormatParseRoundTrip | UniGram/UniGram/Services/NoticeFetcher.swift:127 | the page number printed into a URL parses back to the same number, for every 64-bit value |
| SwiftInt.ParseExamples | UniGram/UniGram/Services/NoticeFetcher.swift:94 | signs and leading zeros are accepted; the pinned label, the header label, blanks and a lone sign are rejected |
| Strings.FindFirst | UniGram/UniGram/Views/PostDetailView.swift:665 | `range(of:)` finds an occurrence exactly when there is one, and no earlier one exists |
| Strings.ReplaceAll | UniGram/UniGram/Views/PostDetailView.swift:520 | removing a label changes the text exactly when the label occurs in it, and never lengthens it |
| Strings.ReplaceAllStep | UniGram/UniGram/Views/PostDetailView.swift:520 | the text up to the first occurrence is kept, that occurrence becomes the replacement, and the scan resumes after it |
| Strings.ReplaceAllSinglePass | UniGram/UniGram/Views/PostDetailView.swift:520 | one pass: an occurrence formed by a removal is not removed again (`"aabb"` without `"ab"` is `"ab"`) |
| Strings.JoinContains | UniGram/UniGram/Views/PostDetailView.swift:637 | the class attribute contains whatever one of its classes contains |
| Strings.RemoveLeadingLabel | UniGram/UniGram/Views/PostDetailView.swift:520 | removing `"<label> : "` from a text that starts with it leaves the bare value |
| Strings.Trim | UniGram/UniGram/Views/PostDetailView.swift:545 | the trimmed text has no whitespace at either end, and is empty exactly when the text is all whitespace |
| Strings.TrimPadded | UniGram/UniGram/Views/PostDetailView.swift:545 | trimming removes exactly the whitespace padding around a trimmed core |
| Strings.TrimIdempotent | UniGram/UniGram/Views/PostDetailView.swift:545 | trimming twice is trimming once |
| Html.Select | UniGram/UniGram/Views/PostDetailView.swift:568 | `select` returns only matching elements, and returns the element itself first exactly when it matches |
| Html.SelectFindsExactly | UniGram/UniGram/Views/PostDetailView.swift:568 | an element is selected exactly when it matches and is the root or lies below it |
| Html.SelectAllFindsExactly | UniGram/UniGram/Views/PostDetailView.swift:568 | over siblings, an element is selected exactly when it matches and lies within one of them |
| Html.SelectAllAppend | UniGram/UniGram/Views/PostDetailView.swift:568 | selection over siblings keeps their document order |
| Html.SelectInsideFindsExactly | UniGram/UniGram/PostDetailView.swift:338 | below an element, an element is selected by a descendant selector exactly when it matches the inner selector and either the outer selector already matched above the element and it lies within the element, or it lies strictly below a match of the outer selector inside the element |
| Html.SelectInsideAllFindsExactly | UniGram/UniGram/PostDetailView.swift:338 | the same characterisation over a run of siblings |
| Html.DescendantsFindsExactly | UniGram/UniGram/PostDetailView.swift:338 | `select("anc sel")` finds an element exactly when it matches `sel` and lies strictly below some element matching `anc` |
| Notices.ToNotice | UniGram/UniGram/Services/NoticeFetcher.swift:80-90 | a notice carries the number text, the title text and the host-prefixed link of its row |
| Notices.ClassifyRows | UniGram/UniGram/Services/NoticeFetcher.swift:72-97 | every pinned notice is pinned and on the host; every regular notice is unpinned, not labelled as pinned, `Int`-numbered and on the host; no row yields two notices |
| Notices.ClassifyRowsMembers | UniGram/UniGram/Services/NoticeFetcher.swift:72-97 | both directions: a complete `b-top-box` row is pinned whatever its number; a complete other row is regular exactly when its number parses and is not the pinned label; nothing else is kept |
| Notices.ClassifyRowsAppend | UniGram/UniGram/Services/NoticeFetcher.swift:72-97 | both lists keep page order |
| Notices.KeySpec | UniGram/UniGram/Services/NoticeFetcher.swift:100 | the key is the value of a 64-bit integer literal, and 0 for anything else |
| Notices.KeyOfFormatted | UniGram/UniGram/Services/NoticeFetcher.swift:100 | a notice numbered with a printed integer sorts by that integer |
| Notices.SortDesc | UniGram/UniGram/Services/NoticeFetcher.swift:99-101 | the result is non-increasing by `Int(number) ?? 0` and is a permutation of the input |
| Notices.SortStrictlyDescending | UniGram/UniGram/Services/NoticeFetcher.swift:194 | a list whose numbers strictly decrease is left exactly as it is by the sort |
| Notices.FirstPageLists | UniGram/UniGram/Services/NoticeFetcher.swift:99-107 | the pinned list is the pinned rows in page order; the regular list is the regular rows, sorted |
| Notices.NewNotices | UniGram/UniGram/Services/NoticeFetcher.swift:155-182 | a next page contributes only regular notices whose number is not already held |
| Notices.NewNoticesMembers | UniGram/UniGram/Services/NoticeFetcher.swift:155-182 | both directions: every candidate row is added and only candidate rows are; the page adds nothing exactly when it has no candidate |
| Notices.MergeNew | UniGram/UniGram/Services/NoticeFetcher.swift:184-194 | the merged list is sorted and holds exactly the old notices plus the new ones |
| Notices.MergedNumbersHeld | UniGram/UniGram/Services/NoticeFetcher.swift:178-194 | after a merge, the number of every regular row of the page is held |
| Notices.MergeTwiceAddsNothing | UniGram/UniGram/Services/NoticeFetcher.swift:178-194 | merging the same page again finds nothing new |
| Notices.MergeNextPage | UniGram/UniGram/Services/NoticeFetcher.swift:188-197 | a failure only clears `isFetching`; a page with nothing new ends paging and changes nothing else; otherwise the new notices are merged in order and the offset moves by `limit`; the pinned list is never touched |
| Notices.MergeNextPageKeepsLists | UniGram/UniGram/Services/NoticeFetcher.swift:188-197 | a next-page completion keeps the lists well formed and every held notice, and adds no number that was already held |
| Notices.FirstPageScenario | UniGram/UniGram/Services/NoticeFetcher.swift:72-107 | one pinned row and rows 45, 44, 43 give one pinned notice and the regular list 45, 44, 43 |
| Notices.NextPageScenario | UniGram/UniGram/Services/NoticeFetcher.swift:155-197 | with 45, 44, 43 held, a page with 44 and 42 yields 45, 44, 43, 42, with 44 not duplicated |
| Notices.NewEntries | UniGram/UniGram/Services/NoticeFetcher.swift:219-220 | a title is new exactly when it is current and not stored |
| Notices.NewEntriesAppend | UniGram/UniGram/Services/NoticeFetcher.swift:220 | the new titles keep the current order |
| Notices.NothingStoredAllNew | UniGram/UniGram/Services/NoticeFetcher.swift:218-220 | with nothing stored every current title is new, in order |
| Notices.AllStoredNoneNew | UniGram/UniGram/Services/NoticeFetcher.swift:218-220 | when every current title is stored, none is new |
| Notices.CheckForNewNotices | UniGram/UniGram/Services/NoticeFetcher.swift:216-227 | an alert is posted exactly when some title is not stored; its body is the earliest such title; the stored list becomes the current titles |
| Notices.CheckTwiceIsQuiet | UniGram/UniGram/Services/NoticeFetcher.swift:216-227 | checking the same notices right after a check posts nothing |
| ServicesFetcher.Init | UniGram/UniGram/Services/NoticeFetcher.swift:25-33 | creating the fetcher asks for the first page at once, with empty lists |
| ServicesFetcher.BeginFirstPage | UniGram/UniGram/Services/NoticeFetcher.swift:29-33 | ignored while fetching; otherwise it claims the fetch, rewinds the offset to 1 and re-enables paging |
| ServicesFetcher.CompleteFirstPage | UniGram/UniGram/Services/NoticeFetcher.swift:44-114 | a failure only clears `isFetching`; a page sets the pinned and sorted regular lists, offset 2, paging iff a regular notice was found, and runs the new-notice check on pinned-then-regular |
| ServicesFetcher.BeginNextPage | UniGram/UniGram/Services/NoticeFetcher.swift:119-127 | admitted only when not fetching and paging is on; requests the page at the current offset |
| ServicesFetcher.CompleteNextPage | UniGram/UniGram/Services/NoticeFetcher.swift:136-198 | the pinned list is untouched; a page with new notices moves the offset by one |
| ServicesFetcher.Refresh | UniGram/UniGram/Services/NoticeFetcher.swift:205-214 | read sequentially (clear, then fetch), refreshing clears both lists and requests the first page |
| ServicesFetcher.RefreshAsQueued | UniGram/UniGram/Services/NoticeFetcher.swift:205-214 | in the real order (fetch at once, clear afterwards), a refresh during a fetch requests nothing; either way it leaves empty lists, offset 0 and `isFetching` off |
| ServicesFetcher.QueuedRefreshAdmitsNextPage | UniGram/UniGram/Services/NoticeFetcher.swift:119-127 | after such a refresh, a next page at offset 0 is admitted at once |
| ServicesFetcher.RefreshRightAfterInit | UniGram/UniGram/Services/NoticeFetcher.swift:25-27 | a refresh right after `init()` requests nothing, yet clears the board and releases the fetch |
| ServicesFetcher.StepsPreserveValid | UniGram/UniGram/Services/NoticeFetcher.swift:29-214 | with the refresh read sequentially, every step keeps pinned notices pinned, regular notices `Int`-numbered and sorted, links on the host, and the offset at least 1 |
| ServicesFetcher.QueuedRefreshBreaksStartOffset | UniGram/UniGram/Services/NoticeFetcher.swift:205-214 | the refresh as it really runs keeps the lists well formed but leaves the offset at 0, below the start of 1 |
| ServicesFetcher.QueuedStepsKeepLists | UniGram/UniGram/Services/NoticeFetcher.swift:29-214 | with the refresh as it really runs, every step keeps the lists well formed and the offset non-negative |
| ServicesFetcher.FailedFirstPageKeepsLists | UniGram/UniGram/Services/NoticeFetcher.swift:29-62 | a failed first page keeps both lists, but paging is re-enabled and the offset rewound; nothing is stored or posted |
| ServicesFetcher.ExhaustionSticks | UniGram/UniGram/Services/NoticeFetcher.swift:119-197 | once paging ends, no next page is admitted and none turns it back on |
| ServicesFetcher.SamePageTwice | UniGram/UniGram/Services/NoticeFetcher.swift:178-197 | the same next page delivered twice adds nothing the second time and ends paging |
| ServicesFetcher.ParseNotices | UniGram/UniGram/Services/NoticeFetcher.swift:245-279 | a rejected body yields nothing; every complete row other than the header row yields its notice, and no notice carries the header label; a notice is pinned exactly when labelled as pinned; links are on the host |
| ServicesFetcher.ParseNoticeRowsSpec | UniGram/UniGram/Services/NoticeFetcher.swift:251-272 | rows keep page order, and every complete non-header row yields its notice |
| ServicesFetcher.ParseTopNotices | UniGram/UniGram/Services/NoticeFetcher.swift:281-310 | one pinned notice with the pinned label per `tr.notice` row that has a title link |
| ServicesFetcher.TopNoticeRowsSpec | UniGram/UniGram/Services/NoticeFetcher.swift:285-303 | notices keep page order, and every `tr.notice` row with a title link yields the notice carrying that link's text and host-prefixed `href` |
| ServicesFetcher.TopNoticeRow | UniGram/UniGram/Services/NoticeFetcher.swift:288-302 | a `tr.notice` row with a title link gives exactly its pinned notice; any other row gives nothing |
| LegacyFetcher.BeginFirstPage | UniGram/UniGram/NoticeFetcher.swift:30-40 | ignored while fetching; otherwise claims the fetch and asks for offset 0, leaving offset and paging alone |
| LegacyFetcher.CompleteFirstPage | UniGram/UniGram/NoticeFetcher.swift:42-115 | a failure only clears `isFetching`; a page sets the pinned and sorted regular lists, offset 10 and paging iff a regular notice was found |
| LegacyFetcher.BeginNextPage | UniGram/UniGram/NoticeFetcher.swift:117-121 | admitted only when not fetching and paging is on; requests the current offset |
| LegacyFetcher.CompleteNextPage | UniGram/UniGram/NoticeFetcher.swift:130-200 | the pinned list is untouched; a page with new notices moves the offset by ten |
| LegacyFetcher.Refresh | UniGram/UniGram/NoticeFetcher.swift:203-212 | read sequentially (clear, then fetch), refreshing clears both lists and requests offset 0 |
| LegacyFetcher.RefreshAsQueued | UniGram/UniGram/NoticeFetcher.swift:203-212 | in the real order, a refresh during a fetch requests nothing; either way it leaves empty lists, offset 0 and `isFetching` off |
| LegacyFetcher.QueuedRefreshAdmitsNextPage | UniGram/UniGram/NoticeFetcher.swift:117-121 | after such a refresh, a next page at offset 0 is admitted at once |
| LegacyFetcher.StepsPreserveValid | UniGram/UniGram/NoticeFetcher.swift:26-212 | every step, including the refresh both read sequentially and as it really runs, keeps the lists well formed and the offset a non-negative multiple of ten |
| LegacyFetcher.FailedFirstPageChangesNothing | UniGram/UniGram/NoticeFetcher.swift:42-60 | a failed first page leaves the board exactly as before the request |
| LegacyFetcher.ExhaustionSticks | UniGram/UniGram/NoticeFetcher.swift:117-190 | once paging ends, neither page request turns it back on |
| LegacyFetcher.SamePageTwice | UniGram/UniGram/NoticeFetcher.swift:173-193 | the same next page delivered twice adds nothing the second time and ends paging |
| Detail.ExtractArticleNo | UniGram/UniGram/Views/PostDetailView.swift:663-678 | no number exactly when the link lacks `articleNo=`; a number never contains `&` |
| Detail.ExtractArticleNoOf | UniGram/UniGram/Views/PostDetailView.swift:663-678 | the number read after the first `articleNo=`, up to `&` or the end, is exactly what stands there |
| Detail.ViewUrl | UniGram/UniGram/Views/PostDetailView.swift:488 | the detail URL is on the host, and reading its article number back gives the number put in |
| Detail.ViewUrlNamesArticle | UniGram/UniGram/Views/PostDetailView.swift:488 | the detail request names the same article as the link it came from |
| Detail.ArticleNoBeforeParameter | UniGram/UniGram/Views/PostDetailView.swift:673-674 | a number followed by another parameter stops at the `&` |
| Detail.ArticleNoAtEnd | UniGram/UniGram/Views/PostDetailView.swift:675-676 | a number at the end of the link runs to the end |
| Detail.NoArticleNo | UniGram/UniGram/Views/PostDetailView.swift:665-667 | a link without the marker names no article |
| Detail.BeginRequest | UniGram/UniGram/Views/PostDetailView.swift:478-488 | an unreadable link stops the spinner with "Invalid article number" and requests nothing; otherwise the spinner runs, the error clears, and the request names the link's article |
| Detail.FinishRequest | UniGram/UniGram/Views/PostDetailView.swift:496-657 | the spinner stops; a transport error, a missing body and a parser failure each leave their own message; a parsed page leaves the message alone |
| Detail.RequestErrorIffFailed | UniGram/UniGram/Views/PostDetailView.swift:478-509 | a started request that completes shows an error exactly when it failed |
| Detail.SpanValue | UniGram/UniGram/Views/PostDetailView.swift:519-525 | the value is shorter or equal, and differs from the span text exactly when the text holds `"<label> : "` |
| Detail.SpanValueStep | UniGram/UniGram/Views/PostDetailView.swift:519-525 | the value keeps the text before the first `"<label> : "`, drops that occurrence, and continues with the rest |
| Detail.SpanField | UniGram/UniGram/Views/PostDetailView.swift:517-526 | a span sets the writer when it mentions the writer label, else the date when it mentions the date label, else the views; a span mentioning none sets nothing |
| Detail.ScanSpan | UniGram/UniGram/Views/PostDetailView.swift:517-526 | one span sets the field it names to its value and leaves the others as they were |
| Detail.LastFor | UniGram/UniGram/Views/PostDetailView.swift:517-526 | the last span that names a field, or none exactly when no span names it |
| Detail.LastForIsLast | UniGram/UniGram/Views/PostDetailView.swift:517-526 | when a span names the field and no later span does, that span is the one found |
| Detail.ScanSpansLastWins | UniGram/UniGram/Views/PostDetailView.swift:515-527 | each field ends with the value of the last span taken for it, or keeps its old value |
| Detail.ExtractMetadata | UniGram/UniGram/Views/PostDetailView.swift:515-527 | without a metadata box, the fields keep their values; with one, each field takes the value of the last span that names it, or keeps its value when none does |
| Detail.MetadataExample | UniGram/UniGram/Views/PostDetailView.swift:515-527 | the usual three spans fill writer, date and views with the bare values |
| Detail.RowsWithCells | UniGram/UniGram/Views/PostDetailView.swift:582-592 | no row is empty and there are no more rows than `tr`s |
| Detail.RowsWithCellsAppend | UniGram/UniGram/Views/PostDetailView.swift:582-592 | rows keep the order of their `tr`s |
| Detail.RowsWithCellsKeeps | UniGram/UniGram/Views/PostDetailView.swift:587-591 | every `tr` with a cell contributes its row |
| Detail.RowsWithCellsAll | UniGram/UniGram/Views/PostDetailView.swift:587-591 | when every `tr` has a cell, the rows are exactly their cell lists |
| PostDetail.ImageUrl | UniGram/UniGram/Views/PostDetailView.swift:557 | an image URL always starts with `http`: kept when it did, otherwise the host followed by the source |
| PostDetail.ImageUrlIdempotent | UniGram/UniGram/Views/PostDetailView.swift:557 | resolving twice is resolving once |
| PostDetail.ImageBlocks | UniGram/UniGram/Views/PostDetailView.swift:554-560 | one image block per `img.fr-fic`, in order |
| PostDetail.TextPart | UniGram/UniGram/Views/PostDetailView.swift:545-551 | a text block exists exactly when the text is not blank, and holds the trimmed text |
| PostDetail.ParagraphBlocks | UniGram/UniGram/Views/PostDetailView.swift:542-560 | a paragraph gives its trimmed text first, aligned as its style says and only when not blank, then one block per inline image |
| PostDetail.AlignmentOf | UniGram/UniGram/Views/PostDetailView.swift:548-549 | centred exactly when the style mentions `text-align: center` |
| PostDetail.TableHeaders | UniGram/UniGram/Views/PostDetailView.swift:568-576 | the headers are the texts of every `th` in order; without one, the `td` texts of the first `tr`; with neither, none |
| PostDetail.TableRows | UniGram/UniGram/Views/PostDetailView.swift:578-592 | no table row is empty |
| PostDetail.TableBlocks | UniGram/UniGram/Views/PostDetailView.swift:562-596 | a table gives one block exactly when some row remains, carrying its rows and headers |
| PostDetail.TableKeepsLaterRows | UniGram/UniGram/Views/PostDetailView.swift:578-592 | every `tr` after the first that has a cell is kept; without headers, every `tr` with a cell is |
| PostDetail.TableDropsOnlyTheFirst | UniGram/UniGram/Views/PostDetailView.swift:580-585 | with headers, only the first `tr` is dropped |
| PostDetail.OtherBlocks | UniGram/UniGram/Views/PostDetailView.swift:598-608 | another child gives a leading text block exactly when it holds no table, no image and non-blank text |
| PostDetail.ChildBlocks | UniGram/UniGram/Views/PostDetailView.swift:541-609 | every block a child gives is well formed: trimmed non-empty text, absolute image URL, a table with non-empty rows |
| PostDetail.WalkChildren | UniGram/UniGram/Views/PostDetailView.swift:537-613 | every block of the walk is well formed |
| PostDetail.WalkChildrenAppend | UniGram/UniGram/Views/PostDetailView.swift:537-613 | the blocks of later children follow those of earlier ones |
| PostDetail.ContentBlocks | UniGram/UniGram/Views/PostDetailView.swift:531-620 | without an editor box, the body is the box text as one leading block; with one, every block is well formed and the blocks are those of the editor's children in order (see `PostDetail.WalkChildrenAppend`) |
| PostDetail.CentredParagraphWithImage | UniGram/UniGram/Views/PostDetailView.swift:542-560 | a centred paragraph holding one image gives its centred text, then the image |
| PostDetail.HeaderedTwoByTwoTable | UniGram/UniGram/Views/PostDetailView.swift:562-596 | a two-by-two table with a `th` header row gives one block: two headers and the second row |
| PostDetail.ParagraphThenTable | UniGram/UniGram/Views/PostDetailView.swift:537-613 | a centred paragraph with an image followed by such a table gives text, image and table blocks in that order |
| PostDetail.KindOf | UniGram/UniGram/Views/PostDetailView.swift:635-642 | hwp exactly when the class mentions `hwp`; pdf exactly when it mentions `pdf` and not `hwp` |
| PostDetail.KindOfElement | UniGram/UniGram/Views/PostDetailView.swift:637-642 | a link with a class mentioning `hwp` is a HWP file; one with a class mentioning `pdf` is a PDF unless its class attribute mentions `hwp` |
| PostDetail.KindExamples | UniGram/UniGram/Views/PostDetailView.swift:635-642 | `hwp` wins over `pdf`, and a plain class is other |
| PostDetail.LinkAttachments | UniGram/UniGram/Views/PostDetailView.swift:630-650 | one attachment per link, in order: its text, the host-prefixed `href`, no size, and its kind |
| PostDetail.FileBoxAttachments | UniGram/UniGram/Views/PostDetailView.swift:628-651 | no file box gives no attachment; with one, exactly one attachment per link in the box, in order, named by the link text, at the host plus `href`, with no size and the kind its class gives |
| PostDetail.Begin | UniGram/UniGram/Views/PostDetailView.swift:478-494 | starting a request changes only the status; the request is the detail URL of the link's article |
| PostDetail.Complete | UniGram/UniGram/Views/PostDetailView.swift:496-657 | a failure only changes the status; a parsed page updates the metadata, replaces the attachments, and replaces the body only when it has a content box |
| PostDetail.FailedLoadKeepsPost | UniGram/UniGram/Views/PostDetailView.swift:496-509 | a failed load keeps the shown post and reports why |
| PostDetail.InvalidLinkRequestsNothing | UniGram/UniGram/Views/PostDetailView.swift:478-486 | a link without an article number changes only the status and requests nothing |
| PostDetail.LoadedPageIsWellFormed | UniGram/UniGram/Views/PostDetailView.swift:511-652 | a loaded page shows no error, links on the host, and well-formed blocks when it has an editor box |
| LegacyPostDetail.HeaderRows | UniGram/UniGram/PostDetailView.swift:307 | only rows with a `th` below them count as header rows |
| LegacyPostDetail.HeaderRowsComplete | UniGram/UniGram/PostDetailView.swift:307 | every row with a `th` below it is a header row, and every header row is a row of the table |
| LegacyPostDetail.HeaderRowsLast | UniGram/UniGram/PostDetailView.swift:307 | the last header row is the last `tr` with a `th` below it |
| LegacyPostDetail.HeaderRowsNone | UniGram/UniGram/PostDetailView.swift:307 | a table whose rows hold no `th` has no header rows |
| LegacyPostDetail.HeaderLoopLastWins | UniGram/UniGram/PostDetailView.swift:308-311 | the header loop leaves the `th` texts of the last header row |
| LegacyPostDetail.TableHeaders | UniGram/UniGram/PostDetailView.swift:306-319 | with header rows, the `th` texts of the last one, never empty; without, the `td` texts of the first `tr`; with no `tr`, none |
| LegacyPostDetail.HeadersFromLastHeaderRow | UniGram/UniGram/PostDetailView.swift:306-319 | the headers are the `th` texts of the last `tr` that has a `th`, never empty |
| LegacyPostDetail.TableRows | UniGram/UniGram/PostDetailView.swift:321-329 | no table row is empty |
| LegacyPostDetail.FirstRowIsHeadersAndData | UniGram/UniGram/PostDetailView.swift:313-329 | without a header row, the first row's cells are the headers and also the first data row |
| LegacyPostDetail.TableLoopLastWins | UniGram/UniGram/PostDetailView.swift:301-333 | only the last table is kept; with none, the old table stays |
| LegacyPostDetail.SizeOf | UniGram/UniGram/PostDetailView.swift:345-347 | the size is the text of the item's first `span.file-size`, and empty without one |
| LegacyPostDetail.FileItems | UniGram/UniGram/PostDetailView.swift:338-356 | at most one attachment per item, every URL on the host |
| LegacyPostDetail.FileItemsSpec | UniGram/UniGram/PostDetailView.swift:338-356 | when every item has a link, there is exactly one attachment per item, in order, with its size |
| LegacyPostDetail.FileItemWithoutLink | UniGram/UniGram/PostDetailView.swift:340 | an item without a link gives no attachment |
| LegacyPostDetail.FileListAttachments | UniGram/UniGram/PostDetailView.swift:337-357 | every attachment URL is on the host |
| LegacyPostDetail.FileItemsAppend | UniGram/UniGram/PostDetailView.swift:339-356 | the item loop keeps item order: items that follow give attachments that follow |
| LegacyPostDetail.FileItemsMembers | UniGram/UniGram/PostDetailView.swift:339-356 | every item with a link gives its attachment (link text, host plus `href`, size), and every attachment comes from such an item |
| LegacyPostDetail.FileListAttachmentsSpec | UniGram/UniGram/PostDetailView.swift:337-357 | the items are exactly the `li` elements below a `ul.b-file`; each one with a link yields its attachment, and no attachment has any other origin |
| LegacyPostDetail.Begin | UniGram/UniGram/PostDetailView.swift:242-258 | starting a request changes only the status; the request names the link's article |
| LegacyPostDetail.Complete | UniGram/UniGram/PostDetailView.swift:260-362 | a failure only changes the status; a parsed page updates the metadata and attachments, and with a content box sets the trimmed text and runs the table loop |
| LegacyPostDetail.FailedLoadKeepsPost | UniGram/UniGram/PostDetailView.swift:260-273 | a failed load keeps everything shown and reports why |
| LegacyPostDetail.LoadedPageShowsLastTable | UniGram/UniGram/PostDetailView.swift:294-333 | a loaded page shows trimmed text and its last table; without a table, the old one stays |

## Left out

- **Networking and encoding.** The URLSession request and UTF-8 decoding are outcome parameters (`FetchOutcome`, `PageOutcome`).
- **The "Invalid URL" branches.** `URL(string:)` validation is not modelled. The listing URLs are constants plus a decimal number. The detail URL's validity depends on Foundation's URL grammar.
- **Dispatch ordering.** Every `DispatchQueue.main.async` hop and `defer` is modelled as one sequential completion step.
- ServicesFetcher.Refresh: states the sequential reading ("clear, then fetch the first page"), which is not what runs. The clearing block at `Services/NoticeFetcher.swift:206-212` is queued, so `fetchFirstPage()` at :213 runs first. `ServicesFetcher.RefreshAsQueued` models that order. Its consequences:
  - `init()` (:25-27) already started a fetch when the view's `onAppear` refresh (`Views/ContentView.swift:91-93`) arrives. The guard at :30 returns, so the refresh requests nothing (`ServicesFetcher.RefreshRightAfterInit`).
  - The queued clear then empties both lists, sets the offset to 0 and turns `isFetching` off while the earlier request is still running. The 60-second timer refresh (`Views/ContentView.swift:94-96`) does the same whenever a fetch is slow.
  - From an idle board the refresh does request the first page, but the clear releases `isFetching` while that request runs. A next page is then admitted at offset 0 (`ServicesFetcher.QueuedRefreshAdmitsNextPage`).
  - Whichever completion arrives last decides the lists. Interleaved completions are not modelled.
- LegacyFetcher.Refresh: states the same sequential reading. `LegacyFetcher.RefreshAsQueued` models the real order of `NoticeFetcher.swift:204-211`: a refresh during a fetch requests nothing, and the clear releases `isFetching` with offset 0 while a request runs (`LegacyFetcher.QueuedRefreshAdmitsNextPage`).
- **SwiftSoup internals.**
  - HTML tokenising and the general CSS engine are not modelled.
  - `text()` is a given field of each element.
  - Class matching is exact, not case-insensitive.
  - A row-level `try` that throws is not modelled: `text()` and `attr()` do not throw on parsed elements.
- ServicesFetcher.StepsPreserveValid: its "offset at least 1" holds only with the refresh read sequentially. The refresh as it really runs leaves the offset at 0 (`ServicesFetcher.QueuedRefreshBreaksStartOffset`), and only well-formed lists and a non-negative offset survive every step (`ServicesFetcher.QueuedStepsKeepLists`).
- Notices.SortDesc: does not state the relative order of notices with equal numbers, because Swift's `sort` is not stable.
- **Platform state.**
  - `UserDefaults` is a parameter and result.
  - `UNUserNotificationCenter` delivery is a returned `Alert`.
  - `UUID` ids are dropped from every record.
- **Out-of-scope files.** `FileDownloader`, the SwiftUI views, `ColorSchemeManager`, `NotificationManager` and `AppDelegate` are not part of this model.
- **String comparison.** Swift compares strings by canonical equivalence of grapheme clusters. The model compares Unicode scalars.
- **Unused block fields.** The default `.leading` alignment and empty `content` of image and table `PostContent` items are dropped, because nothing reads them.
