/** The listing-page logic the two `NoticeFetcher` copies share, line for line:
    what a board row becomes, the descending order by notice number, which
    rows of a later page are new, and the "new since last check" detector.

    A listing page reaches the model as the rows SwiftSoup selects with
    `table.board-table tbody tr`, each reduced to what the fetcher reads from
    it: its class tokens, the text of its first `td.b-num-box` cell and its
    first `td.b-td-left a` link, either of which may be missing. */
module Notices {
  import opened Common
  import opened Strings
  import opened SwiftInt
  import opened Sorting

  /** The origin every relative notice link is resolved against. */
  const Host: string := "https://data.hallym.ac.kr"
  /** The number-cell text of a pinned ("notice") row. */
  const PinnedLabel: string := "공지"
  /** The number-cell text of the table's header row ("number"). */
  const HeaderLabel: string := "번호"
  /** The class that marks a pinned row. */
  const TopBoxClass: string := "b-top-box"
  /** The title of every new-notice alert ("there is a new notice!"). */
  const AlertTitle: string := "📢 새로운 공지가 있어요!"

  /** `Notice`, without its opaque `UUID` id. */
  datatype Notice = Notice(number: string, title: string, link: string, isPinned: bool)

  /** The title link of a row: its text and its relative `href`. */
  datatype Anchor = Anchor(text: string, href: string)

  /** One board row as the fetcher reads it. */
  datatype Row = Row(classes: seq<string>, numberCell: Option<string>, titleLink: Option<Anchor>)

  /** What one listing request delivered: a transport error, a body that is
      not UTF-8, a body the HTML parser rejected, or the selected rows. */
  datatype FetchOutcome = TransportError | Undecodable | Unparsable | Fetched(rows: seq<Row>)

  /** The published state of a `NoticeFetcher`, plus its private offset. */
  datatype Board = Board(
    pinned: seq<Notice>,
    notices: seq<Notice>,
    isFetching: bool,
    hasMoreData: bool,
    offset: int)

  // ---------------------------------------------------------------------------
  // Rows

  predicate IsTopBox(row: Row) {
    TopBoxClass in row.classes
  }

  /** The row has both the number cell and the title link. */
  predicate Complete(row: Row) {
    row.numberCell.Some? && row.titleLink.Some?
  }

  /** The absolute link of a notice: the host followed by the `href`. */
  function NoticeLink(href: string): (r: string)
    ensures StartsWith(r, Host) && r[|Host|..] == href
  {
    Host + href
  }

  function ToNotice(row: Row, isPinned: bool): (n: Notice)
    requires Complete(row)
    ensures n.number == row.numberCell.value && n.title == row.titleLink.value.text
    ensures n.link == NoticeLink(row.titleLink.value.href) && n.isPinned == isPinned
  {
    Notice(row.numberCell.value, row.titleLink.value.text, NoticeLink(row.titleLink.value.href), isPinned)
  }

  /** A number cell that makes a non-pinned row a regular notice. */
  predicate IsRegularNumber(num: string) {
    num != PinnedLabel && ParseInt(num).Some?
  }

  /** The shape of every notice held in the regular list. */
  predicate IsRegularNotice(n: Notice) {
    !n.isPinned && IsRegularNumber(n.number) && StartsWith(n.link, Host)
  }

  /** The shape of every notice held in the pinned list. */
  predicate IsPinnedNotice(n: Notice) {
    n.isPinned && StartsWith(n.link, Host)
  }

  predicate KeptPinned(row: Row) {
    Complete(row) && IsTopBox(row)
  }

  predicate KeptRegular(row: Row) {
    Complete(row) && !IsTopBox(row) && IsRegularNumber(row.numberCell.value)
  }

  datatype Split = Split(pinned: seq<Notice>, regular: seq<Notice>)

  /** The first-page row loop: a complete `b-top-box` row is pinned whatever
      its number; any other complete row is regular exactly when its number is
      not the pinned label and parses as an `Int`; the rest are dropped. */
  function ClassifyRows(rows: seq<Row>): (r: Split)
    ensures forall n | n in r.pinned :: IsPinnedNotice(n)
    ensures forall n | n in r.regular :: IsRegularNotice(n)
    ensures |r.pinned| + |r.regular| <= |rows|
  {
    if |rows| == 0 then Split([], [])
    else
      var rest := ClassifyRows(rows[1..]);
      var row := rows[0];
      if !Complete(row) then rest
      else if IsTopBox(row) then Split([ToNotice(row, true)] + rest.pinned, rest.regular)
      else if row.numberCell.value != PinnedLabel && ParseInt(row.numberCell.value).Some? then
        Split(rest.pinned, [ToNotice(row, false)] + rest.regular)
      else rest
  }

  /** Which rows the first page keeps, in both directions: a complete
      `b-top-box` row becomes a pinned notice whatever its number, a complete
      other row with a regular number becomes a regular notice, and nothing
      else becomes either. */
  lemma {:induction false} ClassifyRowsMembers(rows: seq<Row>)
    ensures forall i | 0 <= i < |rows| && KeptPinned(rows[i]) ::
              ToNotice(rows[i], true) in ClassifyRows(rows).pinned
    ensures forall i | 0 <= i < |rows| && KeptRegular(rows[i]) ::
              ToNotice(rows[i], false) in ClassifyRows(rows).regular
    ensures forall n | n in ClassifyRows(rows).pinned ::
              exists i | 0 <= i < |rows| :: KeptPinned(rows[i]) && n == ToNotice(rows[i], true)
    ensures forall n | n in ClassifyRows(rows).regular ::
              exists i | 0 <= i < |rows| :: KeptRegular(rows[i]) && n == ToNotice(rows[i], false)
  {
    if |rows| > 0 {
      ClassifyRowsMembers(rows[1..]);
      var rest := ClassifyRows(rows[1..]);
      var r := ClassifyRows(rows);
      var row := rows[0];
      assert forall i | 1 <= i < |rows| :: rows[i] == rows[1..][i - 1];
      if !Complete(row) {
        assert r == rest;
      } else if IsTopBox(row) {
        assert r == Split([ToNotice(row, true)] + rest.pinned, rest.regular);
      } else if KeptRegular(row) {
        assert r == Split(rest.pinned, [ToNotice(row, false)] + rest.regular);
      } else {
        assert r == rest;
      }
    }
  }

  /** Classification keeps page order: the rows of an earlier part of the page
      come before those of a later part in both lists. */
  lemma {:induction false} ClassifyRowsAppend(a: seq<Row>, b: seq<Row>)
    ensures ClassifyRows(a + b)
         == Split(ClassifyRows(a).pinned + ClassifyRows(b).pinned,
                  ClassifyRows(a).regular + ClassifyRows(b).regular)
    decreases |a|
  {
    if a == [] {
      assert a + b == b;
    } else {
      var ab := a + b;
      assert ab[0] == a[0];
      assert ab[1..] == a[1..] + b;
      ClassifyRowsAppend(a[1..], b);
      var row := a[0];
      var tailA := ClassifyRows(a[1..]);
      var tailAB := ClassifyRows(ab[1..]);
      var B := ClassifyRows(b);
      assert tailAB == Split(tailA.pinned + B.pinned, tailA.regular + B.regular);
      if Complete(row) && IsTopBox(row) {
        assert [ToNotice(row, true)] + (tailA.pinned + B.pinned)
            == ([ToNotice(row, true)] + tailA.pinned) + B.pinned;
      } else if KeptRegular(row) {
        assert [ToNotice(row, false)] + (tailA.regular + B.regular)
            == ([ToNotice(row, false)] + tailA.regular) + B.regular;
      }
    }
  }

  // ---------------------------------------------------------------------------
  // Ordering: `sorted { (Int($0.number) ?? 0) > (Int($1.number) ?? 0) }`

  /** The sort key `Int(number) ?? 0`. */
  function Key(n: Notice): int {
    ParseInt(n.number).GetOr(0)
  }

  /** The key is the value of a 64-bit integer literal, and 0 for anything
      else. */
  lemma KeySpec(n: Notice)
    ensures InInt64(Key(n))
    ensures IsIntLiteral(n.number) && InInt64(LiteralValue(n.number)) ==> Key(n) == LiteralValue(n.number)
    ensures !(IsIntLiteral(n.number) && InInt64(LiteralValue(n.number))) ==> Key(n) == 0
  {
  }

  /** A notice numbered with a formatted integer sorts by that integer. */
  lemma KeyOfFormatted(n: Notice, v: int)
    requires InInt64(v) && n.number == Format(v)
    ensures Key(n) == v
  {
    FormatParseRoundTrip(v);
  }

  /** Non-increasing by notice number. */
  predicate SortedDesc(ns: seq<Notice>) {
    SortedBy(ns, Key)
  }

  /** The fetcher's sort of notices into non-increasing number order. */
  function SortDesc(ns: seq<Notice>): (r: seq<Notice>)
    ensures SortedDesc(r)
    ensures multiset(r) == multiset(ns)
  {
    SortBy(ns, Key)
  }

  /** A sort keeps exactly the notices it was given, and so their shape. */
  lemma SortKeepsMembers(ns: seq<Notice>, p: Notice -> bool)
    requires forall n | n in ns :: p(n)
    ensures forall n | n in SortDesc(ns) :: p(n)
  {
    forall n | n in SortDesc(ns) ensures p(n) {
      assert n in multiset(SortDesc(ns));
    }
  }

  // ---------------------------------------------------------------------------
  // Next pages

  /** `notices.contains(where: { $0.number == num })` */
  predicate NumberHeld(num: string, held: seq<Notice>) {
    exists k | 0 <= k < |held| :: held[k].number == num
  }

  /** A row a next page contributes: not pinned, complete, not labelled as
      pinned, `Int`-parsable, and numbered unlike every notice already held. */
  predicate IsCandidate(row: Row, held: seq<Notice>) {
    KeptRegular(row) && !NumberHeld(row.numberCell.value, held)
  }

  /** The next-page row loop, in page order. Duplicates are checked only
      against `held`, never between rows of the same page. */
  function NewNotices(rows: seq<Row>, held: seq<Notice>): (r: seq<Notice>)
    ensures forall n | n in r :: IsRegularNotice(n) && !NumberHeld(n.number, held)
    ensures |r| <= |rows|
  {
    if |rows| == 0 then []
    else
      var rest := NewNotices(rows[1..], held);
      var row := rows[0];
      if IsTopBox(row) || !Complete(row) then rest
      else if row.numberCell.value == PinnedLabel then rest
      else if ParseInt(row.numberCell.value).Some? && !NumberHeld(row.numberCell.value, held) then
        [ToNotice(row, false)] + rest
      else rest
  }

  /** Which rows a next page contributes, in both directions: every candidate
      row, and only candidate rows. So pinned rows, rows labelled as pinned,
      rows whose number is not an `Int` and rows whose number is already held
      are never added, and the page adds nothing exactly when it has no
      candidate. */
  lemma {:induction false} NewNoticesMembers(rows: seq<Row>, held: seq<Notice>)
    ensures forall i | 0 <= i < |rows| && IsCandidate(rows[i], held) ::
              ToNotice(rows[i], false) in NewNotices(rows, held)
    ensures forall n | n in NewNotices(rows, held) ::
              exists i | 0 <= i < |rows| :: IsCandidate(rows[i], held) && n == ToNotice(rows[i], false)
    ensures NewNotices(rows, held) == [] <==> forall i | 0 <= i < |rows| :: !IsCandidate(rows[i], held)
  {
    if |rows| > 0 {
      NewNoticesMembers(rows[1..], held);
      assert forall i | 1 <= i < |rows| :: rows[i] == rows[1..][i - 1];
    }
  }

  /** Appending the sorted new notices to the held ones and sorting again. */
  function MergeNew(held: seq<Notice>, added: seq<Notice>): (r: seq<Notice>)
    ensures SortedDesc(r)
    ensures multiset(r) == multiset(held) + multiset(added)
  {
    SortDesc(held + SortDesc(added))
  }

  /** A notice held before the merge, or added by it, is held after it. */
  lemma HeldAfterMerge(held: seq<Notice>, added: seq<Notice>, n: Notice)
    requires n in held || n in added
    ensures NumberHeld(n.number, MergeNew(held, added))
  {
    var merged := MergeNew(held, added);
    assert n in held + added;
    assert n in multiset(held + added);
    assert n in multiset(merged);
    assert n in merged;
    var m :| 0 <= m < |merged| && merged[m] == n;
  }

  /** After merging a page, the number of every regular row on it is held. */
  lemma MergedNumbersHeld(rows: seq<Row>, held: seq<Notice>)
    ensures forall i | 0 <= i < |rows| && KeptRegular(rows[i]) ::
              NumberHeld(rows[i].numberCell.value, MergeNew(held, NewNotices(rows, held)))
  {
    var added := NewNotices(rows, held);
    NewNoticesMembers(rows, held);
    forall i | 0 <= i < |rows| && KeptRegular(rows[i])
      ensures NumberHeld(rows[i].numberCell.value, MergeNew(held, added))
    {
      if NumberHeld(rows[i].numberCell.value, held) {
        var k :| 0 <= k < |held| && held[k].number == rows[i].numberCell.value;
        HeldAfterMerge(held, added, held[k]);
      } else {
        assert IsCandidate(rows[i], held);
        HeldAfterMerge(held, added, ToNotice(rows[i], false));
      }
    }
  }

  /** Merging the same page a second time finds nothing new. */
  lemma MergeTwiceAddsNothing(rows: seq<Row>, held: seq<Notice>)
    ensures NewNotices(rows, MergeNew(held, NewNotices(rows, held))) == []
  {
    var merged := MergeNew(held, NewNotices(rows, held));
    MergedNumbersHeld(rows, held);
    NewNoticesMembers(rows, merged);
    assert forall i | 0 <= i < |rows| :: !IsCandidate(rows[i], merged);
  }

  // ---------------------------------------------------------------------------
  // Change detection: `checkForNewNotices`

  function Titles(ns: seq<Notice>): (r: seq<string>)
    ensures |r| == |ns|
    ensures forall i | 0 <= i < |ns| :: r[i] == ns[i].title
  {
    if |ns| == 0 then [] else [ns[0].title] + Titles(ns[1..])
  }

  /** `currentTitles.filter { !lastNotices.contains($0) }` */
  function NewEntries(current: seq<string>, stored: seq<string>): (r: seq<string>)
    ensures forall t :: t in r <==> t in current && t !in stored
    ensures |r| <= |current|
  {
    if |current| == 0 then []
    else
      var rest := NewEntries(current[1..], stored);
      assert current == [current[0]] + current[1..];
      if current[0] in stored then rest else [current[0]] + rest
  }

  /** The filter keeps the current order. */
  lemma {:induction false} NewEntriesAppend(a: seq<string>, b: seq<string>, stored: seq<string>)
    ensures NewEntries(a + b, stored) == NewEntries(a, stored) + NewEntries(b, stored)
    decreases |a|
  {
    if a == [] {
      assert a + b == b;
    } else {
      assert (a + b)[1..] == a[1..] + b;
      NewEntriesAppend(a[1..], b, stored);
    }
  }

  /** With nothing stored every title is new. */
  lemma {:induction false} NothingStoredAllNew(current: seq<string>)
    ensures NewEntries(current, []) == current
  {
    if current != [] {
      NothingStoredAllNew(current[1..]);
      assert current == [current[0]] + current[1..];
    }
  }

  /** When every current title is already stored nothing is new; in
      particular a list is never new against itself. */
  lemma {:induction false} AllStoredNoneNew(current: seq<string>, stored: seq<string>)
    requires forall t | t in current :: t in stored
    ensures NewEntries(current, stored) == []
  {
    if current != [] {
      assert forall t | t in current[1..] :: t in current;
      AllStoredNoneNew(current[1..], stored);
    }
  }

  datatype Alert = Alert(title: string, body: string)

  /** The outcome of one check: the alert to post, if any, and the title
      list to store in place of the old one. */
  datatype ChangeCheck = ChangeCheck(alert: Option<Alert>, stored: seq<string>)

  /** `checkForNewNotices(ns)` with the stored title list passed in and the
      new one returned: alert iff some title is new, with the first new title
      as the body; the stored list becomes the current titles regardless. */
  function CheckForNewNotices(ns: seq<Notice>, stored: seq<string>): (r: ChangeCheck)
    ensures r.stored == Titles(ns)
    ensures r.alert.Some? <==> exists k | 0 <= k < |ns| :: ns[k].title !in stored
    ensures r.alert.Some? ==> r.alert.value.title == AlertTitle
    ensures r.alert.Some? ==>
              exists k | 0 <= k < |ns| ::
                && r.alert.value.body == ns[k].title
                && ns[k].title !in stored
                && forall j | 0 <= j < k :: ns[j].title in stored
  {
    var current := Titles(ns);
    var added := NewEntries(current, stored);
    if |added| == 0 then
      assert forall k | 0 <= k < |ns| :: ns[k].title == current[k];
      ChangeCheck(None, current)
    else
      FirstNewIsEarliest(current, stored);
      ChangeCheck(Some(Alert(AlertTitle, added[0])), current)
  }

  lemma {:induction false} FirstNewIsEarliest(current: seq<string>, stored: seq<string>)
    requires NewEntries(current, stored) != []
    ensures exists k | 0 <= k < |current| ::
              && NewEntries(current, stored)[0] == current[k]
              && current[k] !in stored
              && forall j | 0 <= j < k :: current[j] in stored
  {
    if current[0] !in stored {
      assert NewEntries(current, stored)[0] == current[0];
    } else {
      FirstNewIsEarliest(current[1..], stored);
      var k :| 0 <= k < |current[1..]|
              && NewEntries(current[1..], stored)[0] == current[1..][k]
              && current[1..][k] !in stored
              && forall j | 0 <= j < k :: current[1..][j] in stored;
      assert current[k + 1] == current[1..][k];
      assert forall j | 1 <= j < k + 1 :: current[j] == current[1..][j - 1];
    }
  }

  /** Checking the same notices again right after a check posts nothing. */
  lemma CheckTwiceIsQuiet(ns: seq<Notice>, stored: seq<string>)
    ensures CheckForNewNotices(ns, CheckForNewNotices(ns, stored).stored).alert.None?
  {
    var t := Titles(ns);
    assert forall k | 0 <= k < |ns| :: ns[k].title == t[k];
  }

  // ---------------------------------------------------------------------------
  // The next-page completion, identical in both fetchers but for `limit`

  /** What a `fetchNextPage` completion does to the board: a failed request
      only clears `isFetching`; a page with no new notice also ends paging; a
      page with new notices appends them, re-sorts, and advances the offset
      by `limit`. The pinned list is never touched. */
  function MergeNextPage(b: Board, outcome: FetchOutcome, limit: int): (r: Board)
    ensures !r.isFetching && r.pinned == b.pinned
    ensures r.offset == b.offset || r.offset == b.offset + limit
    ensures !outcome.Fetched? ==> r == b.(isFetching := false)
    ensures outcome.Fetched? && NewNotices(outcome.rows, b.notices) == [] ==>
              r == b.(isFetching := false, hasMoreData := false)
    ensures outcome.Fetched? && NewNotices(outcome.rows, b.notices) != [] ==>
              && multiset(r.notices) == multiset(b.notices) + multiset(NewNotices(outcome.rows, b.notices))
              && SortedDesc(r.notices)
              && r.offset == b.offset + limit
              && r.hasMoreData == b.hasMoreData
  {
    match outcome
    case Fetched(rows) =>
      var added := NewNotices(rows, b.notices);
      if added == [] then b.(isFetching := false, hasMoreData := false)
      else b.(notices := MergeNew(b.notices, added), offset := b.offset + limit, isFetching := false)
    case _ => b.(isFetching := false)
  }

  /** The shape every regular and pinned notice has, and the order of the
      regular list: what both fetchers keep true of their board. */
  predicate WellFormedLists(b: Board) {
    && (forall n | n in b.pinned :: IsPinnedNotice(n))
    && (forall n | n in b.notices :: IsRegularNotice(n))
    && SortedDesc(b.notices)
  }

  /** A next-page completion keeps the lists well formed, keeps every notice
      already held, and never adds a number that was already held. */
  lemma MergeNextPageKeepsLists(b: Board, outcome: FetchOutcome, limit: int)
    requires WellFormedLists(b)
    ensures WellFormedLists(MergeNextPage(b, outcome, limit))
    ensures forall n | n in b.notices :: n in MergeNextPage(b, outcome, limit).notices
    ensures forall n | n in MergeNextPage(b, outcome, limit).notices && n !in b.notices ::
              !NumberHeld(n.number, b.notices)
  {
    if outcome.Fetched? && NewNotices(outcome.rows, b.notices) != [] {
      var added := NewNotices(outcome.rows, b.notices);
      var merged := MergeNew(b.notices, added);
      assert MergeNextPage(b, outcome, limit).notices == merged;
      forall n | n in merged
        ensures n in b.notices || n in added
      {
        assert n in multiset(merged);
        assert n in multiset(b.notices) || n in multiset(added);
      }
      forall n | n in b.notices ensures n in merged {
        assert n in multiset(b.notices);
        assert n in multiset(merged);
      }
    }
  }

  /** The first-page lists: the pinned rows in page order and the regular
      rows sorted by number. */
  function FirstPageLists(rows: seq<Row>): (r: Split)
    ensures r.pinned == ClassifyRows(rows).pinned
    ensures SortedDesc(r.regular)
    ensures multiset(r.regular) == multiset(ClassifyRows(rows).regular)
    ensures forall n | n in r.pinned :: IsPinnedNotice(n)
    ensures forall n | n in r.regular :: IsRegularNotice(n)
  {
    var split := ClassifyRows(rows);
    var sorted := SortDesc(split.regular);
    forall n | n in sorted ensures IsRegularNotice(n) {
      assert n in multiset(sorted);
    }
    Split(split.pinned, sorted)
  }

  // ---------------------------------------------------------------------------
  // A first page followed by an overlapping second page

  /** Numbers that strictly decrease from each notice to the next decrease
      across the whole list. */
  lemma {:induction false} StrictChain(ns: seq<Notice>)
    requires forall i | 0 <= i < |ns| - 1 :: Key(ns[i]) > Key(ns[i + 1])
    ensures forall i, j | 0 <= i < j < |ns| :: Key(ns[i]) > Key(ns[j])
    decreases |ns|
  {
    if |ns| > 1 {
      var t := ns[1..];
      assert forall i | 0 <= i < |t| :: t[i] == ns[i + 1];
      StrictChain(t);
      forall i, j | 0 <= i < j < |ns| ensures Key(ns[i]) > Key(ns[j]) {
        assert ns[j] == t[j - 1];
        if i > 0 {
          assert ns[i] == t[i - 1];
        } else if j > 1 {
          assert ns[1] == t[0];
        }
      }
    }
  }

  /** A list whose numbers strictly decrease is already in sort order. */
  lemma SortStrictlyDescending(ns: seq<Notice>)
    requires forall i | 0 <= i < |ns| - 1 :: Key(ns[i]) > Key(ns[i + 1])
    ensures SortDesc(ns) == ns
  {
    StrictChain(ns);
    SortBySorted(ns, Key);
  }

  /** The number cells of the scenario rows parse as the numbers they show. */
  lemma ScenarioKeys()
    ensures ParseInt("45") == Some(45) && ParseInt("44") == Some(44)
    ensures ParseInt("43") == Some(43) && ParseInt("42") == Some(42)
  {
    assert DigitsValue("45") == 45 by { assert "45"[..1] == "4"; }
    assert DigitsValue("44") == 44 by { assert "44"[..1] == "4"; }
    assert DigitsValue("43") == 43 by { assert "43"[..1] == "4"; }
    assert DigitsValue("42") == 42 by { assert "42"[..1] == "4"; }
  }

  /** The sort key of a notice whose number parses as `v`. */
  lemma KeyIs(n: Notice, v: int)
    requires ParseInt(n.number) == Some(v)
    ensures Key(n) == v
  {
  }

  /** A regular row in front of a page adds its notice to the front of the
      regular list. */
  lemma ClassifyRegularFirst(row: Row, rest: seq<Row>)
    requires KeptRegular(row)
    ensures ClassifyRows([row] + rest)
         == Split(ClassifyRows(rest).pinned, [ToNotice(row, false)] + ClassifyRows(rest).regular)
  {
    assert ([row] + rest)[1..] == rest;
  }

  /** A first page with one pinned row and regular rows 45, 44 and 43 yields
      one pinned notice and the regular list 45, 44, 43. */
  lemma FirstPageScenario(p: Row, r45: Row, r44: Row, r43: Row)
    requires KeptPinned(p)
    requires Complete(r45) && !IsTopBox(r45) && r45.numberCell == Some("45")
    requires Complete(r44) && !IsTopBox(r44) && r44.numberCell == Some("44")
    requires Complete(r43) && !IsTopBox(r43) && r43.numberCell == Some("43")
    ensures FirstPageLists([p, r45, r44, r43])
         == Split([ToNotice(p, true)], [ToNotice(r45, false), ToNotice(r44, false), ToNotice(r43, false)])
  {
    ScenarioKeys();
    var n45, n44, n43 := ToNotice(r45, false), ToNotice(r44, false), ToNotice(r43, false);
    ClassifyRegularFirst(r43, []);
    assert [r43] + [] == [r43];
    ClassifyRegularFirst(r44, [r43]);
    assert [r44] + [r43] == [r44, r43];
    ClassifyRegularFirst(r45, [r44, r43]);
    assert [r45] + [r44, r43] == [r45, r44, r43];
    var page := [p, r45, r44, r43];
    assert page[1..] == [r45, r44, r43];
    assert ClassifyRows(page) == Split([ToNotice(p, true)], [n45, n44, n43]);
    KeyIs(n45, 45);
    KeyIs(n44, 44);
    KeyIs(n43, 43);
    SortStrictlyDescending([n45, n44, n43]);
  }

  /** With 45, 44 and 43 held, a next page holding 44 again and 42 adds only
      42: 44 is not duplicated and the list stays in order. */
  lemma NextPageScenario(again44: Row, r42: Row, b: Board, limit: int)
    requires Complete(again44) && !IsTopBox(again44) && again44.numberCell == Some("44")
    requires Complete(r42) && !IsTopBox(r42) && r42.numberCell == Some("42")
    requires |b.notices| == 3
    requires b.notices[0].number == "45" && b.notices[1].number == "44" && b.notices[2].number == "43"
    ensures MergeNextPage(b, Fetched([again44, r42]), limit).notices == b.notices + [ToNotice(r42, false)]
  {
    NextPageFindsOnly42(again44, r42, b.notices);
    MergeAfter43(b.notices, ToNotice(r42, false));
  }

  /** Of the second page only 42 is new. */
  lemma NextPageFindsOnly42(again44: Row, r42: Row, held: seq<Notice>)
    requires Complete(again44) && !IsTopBox(again44) && again44.numberCell == Some("44")
    requires Complete(r42) && !IsTopBox(r42) && r42.numberCell == Some("42")
    requires |held| == 3
    requires held[0].number == "45" && held[1].number == "44" && held[2].number == "43"
    ensures NewNotices([again44, r42], held) == [ToNotice(r42, false)]
  {
    ScenarioKeys();
    var next := [again44, r42];
    assert NumberHeld("44", held) by { assert held[1].number == "44"; }
    assert !NumberHeld("42", held);
    assert next[1..] == [r42] && [r42][1..] == [];
  }

  /** Merging 42 into 45, 44, 43 appends it. */
  lemma MergeAfter43(held: seq<Notice>, n42: Notice)
    requires |held| == 3
    requires held[0].number == "45" && held[1].number == "44" && held[2].number == "43"
    requires n42.number == "42"
    ensures MergeNew(held, [n42]) == held + [n42]
  {
    ScenarioKeys();
    SortStrictlyDescending([n42]);
    var all := held + [n42];
    assert all[0] == held[0] && all[1] == held[1] && all[2] == held[2] && all[3] == n42;
    KeyIs(held[0], 45);
    KeyIs(held[1], 44);
    KeyIs(held[2], 43);
    KeyIs(n42, 42);
    SortStrictlyDescending(all);
  }
}
