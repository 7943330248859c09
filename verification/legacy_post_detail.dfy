/** The older `PostDetailViewModel` of `PostDetailView.swift`: the detail
    page as one trimmed text, the headers and rows of one table (the last
    one on the page), the metadata fields, and the attachments of the
    `ul.b-file` list with their sizes. */
module LegacyPostDetail {
  import opened Common
  import opened Strings
  import opened Html
  import opened Notices
  import opened Detail

  /** `PostAttachment`, without its `UUID` id. */
  datatype Attachment = Attachment(name: string, url: string, size: string)

  /** The published state of the view model. */
  datatype State = State(
    content: string,
    tableData: seq<seq<string>>,
    tableHeaders: seq<string>,
    meta: Meta,
    attachments: seq<Attachment>,
    status: Status)

  /** The state as the property initialisers leave it. */
  const Initial: State := State("", [], [], Meta("", "", ""), [], Status(false, ""))

  // ---------------------------------------------------------------------------
  // Tables

  /** `tr:has(th)`: the row has a `th` below it. */
  predicate HasHeaderCell(tr: Element) {
    SelectAll(tr.children, TagSel("th")) != []
  }

  /** The rows of a table that hold a `th`, in order. */
  function HeaderRows(trs: seq<Element>): (r: seq<Element>)
    ensures forall x | x in r :: HasHeaderCell(x)
    ensures |r| <= |trs|
  {
    if |trs| == 0 then []
    else (if HasHeaderCell(trs[0]) then [trs[0]] else []) + HeaderRows(trs[1..])
  }

  /** Every row with a `th` is among the header rows, nothing else is, and
      the last header row is the last row of the table that has a `th`. */
  lemma {:induction false} HeaderRowsComplete(trs: seq<Element>)
    ensures forall i | 0 <= i < |trs| && HasHeaderCell(trs[i]) :: trs[i] in HeaderRows(trs)
    ensures forall x | x in HeaderRows(trs) :: x in trs
    decreases |trs|
  {
    if |trs| > 0 {
      HeaderRowsComplete(trs[1..]);
      assert forall i | 1 <= i < |trs| :: trs[i] == trs[1..][i - 1];
    }
  }

  /** The last header row is the last `tr` that holds a `th`. */
  lemma {:induction false} HeaderRowsLast(trs: seq<Element>, k: nat)
    requires k < |trs| && HasHeaderCell(trs[k])
    requires forall j | k < j < |trs| :: !HasHeaderCell(trs[j])
    ensures HeaderRows(trs) != [] && HeaderRows(trs)[|HeaderRows(trs)| - 1] == trs[k]
    decreases |trs|
  {
    var head := if HasHeaderCell(trs[0]) then [trs[0]] else [];
    assert HeaderRows(trs) == head + HeaderRows(trs[1..]);
    if k == 0 {
      HeaderRowsNone(trs[1..]);
      assert HeaderRows(trs) == [trs[0]];
    } else {
      assert forall j | k - 1 < j < |trs[1..]| :: trs[1..][j] == trs[j + 1];
      HeaderRowsLast(trs[1..], k - 1);
      var rest := HeaderRows(trs[1..]);
      assert (head + rest)[|head + rest| - 1] == rest[|rest| - 1];
    }
  }

  /** A table whose rows hold no `th` has no header rows. */
  lemma {:induction false} HeaderRowsNone(trs: seq<Element>)
    requires forall j | 0 <= j < |trs| :: !HasHeaderCell(trs[j])
    ensures HeaderRows(trs) == []
    decreases |trs|
  {
    if |trs| > 0 {
      assert forall j | 0 <= j < |trs[1..]| :: trs[1..][j] == trs[j + 1];
      HeaderRowsNone(trs[1..]);
    }
  }

  /** The header loop: each header row in turn overwrites the headers with
      its `th` texts. */
  function HeaderLoop(headers: seq<string>, rows: seq<Element>): seq<string>
    decreases |rows|
  {
    if |rows| == 0 then headers else HeaderLoop(Texts(Select(rows[0], TagSel("th"))), rows[1..])
  }

  /** The header loop leaves the `th` texts of the last header row, and the
      headers it started with when there is none. */
  lemma {:induction false} HeaderLoopLastWins(headers: seq<string>, rows: seq<Element>)
    ensures HeaderLoop(headers, rows) ==
              if rows == [] then headers else Texts(Select(rows[|rows| - 1], TagSel("th")))
    decreases |rows|
  {
    if |rows| > 1 {
      HeaderLoopLastWins(Texts(Select(rows[0], TagSel("th"))), rows[1..]);
      assert rows[1..][|rows[1..]| - 1] == rows[|rows| - 1];
    }
  }

  /** A table's headers: those the header loop leaves, or, when it leaves
      none, the `td` texts of the first `tr`. */
  function TableHeaders(t: Element): (r: seq<string>)
    ensures var hs := HeaderRows(Select(t, TagSel("tr")));
            hs != [] ==> r == Texts(Select(hs[|hs| - 1], TagSel("th"))) && r != []
    ensures HeaderRows(Select(t, TagSel("tr"))) == [] && Select(t, TagSel("tr")) != [] ==>
              r == Cells(Select(t, TagSel("tr"))[0])
    ensures Select(t, TagSel("tr")) == [] ==> r == []
  {
    var trs := Select(t, TagSel("tr"));
    var hs := HeaderRows(trs);
    HeaderLoopLastWins([], hs);
    assert hs != [] ==> hs[|hs| - 1] in hs && SelectAll(hs[|hs| - 1].children, TagSel("th")) != [];
    var fromHeaderRows := HeaderLoop([], hs);
    if fromHeaderRows != [] then fromHeaderRows
    else match First(trs)
      case None => []
      case Some(first) => Cells(first)
  }

  /** A table's rows: every `tr` with a `td`, the first one included. */
  function TableRows(t: Element): (r: seq<seq<string>>)
    ensures forall row | row in r :: row != []
  {
    RowsWithCells(Select(t, TagSel("tr")))
  }

  /** Without a `th` row, the first row is both the headers and the first
      data row when it has cells: this copy shows it twice. */
  lemma FirstRowIsHeadersAndData(t: Element)
    requires HeaderRows(Select(t, TagSel("tr"))) == []
    requires Select(t, TagSel("tr")) != [] && Cells(Select(t, TagSel("tr"))[0]) != []
    ensures TableHeaders(t) == Cells(Select(t, TagSel("tr"))[0])
    ensures TableRows(t) != [] && TableRows(t)[0] == TableHeaders(t)
  {
    var trs := Select(t, TagSel("tr"));
    RowsWithCellsAppend([trs[0]], trs[1..]);
    assert [trs[0]] + trs[1..] == trs;
    assert RowsWithCells([trs[0]]) == [Cells(trs[0])];
  }

  /** With a `th` row, the headers are the `th` texts of the last `tr` that
      has one, never empty. */
  lemma HeadersFromLastHeaderRow(t: Element, k: nat)
    requires k < |Select(t, TagSel("tr"))| && HasHeaderCell(Select(t, TagSel("tr"))[k])
    requires forall j | k < j < |Select(t, TagSel("tr"))| :: !HasHeaderCell(Select(t, TagSel("tr"))[j])
    ensures TableHeaders(t) == Texts(Select(Select(t, TagSel("tr"))[k], TagSel("th")))
    ensures TableHeaders(t) != []
  {
    HeaderRowsLast(Select(t, TagSel("tr")), k);
  }

  /** The table loop over every `table` in the content box: each overwrites
      both the headers and the rows. */
  function TableLoop(headers: seq<string>, rows: seq<seq<string>>, tables: seq<Element>): (seq<string>, seq<seq<string>>)
    decreases |tables|
  {
    if |tables| == 0 then (headers, rows)
    else TableLoop(TableHeaders(tables[0]), TableRows(tables[0]), tables[1..])
  }

  /** Only the last table is kept; with no table, both stay as they were. */
  lemma {:induction false} TableLoopLastWins(headers: seq<string>, rows: seq<seq<string>>, tables: seq<Element>)
    ensures tables == [] ==> TableLoop(headers, rows, tables) == (headers, rows)
    ensures tables != [] ==>
              TableLoop(headers, rows, tables) == (TableHeaders(tables[|tables| - 1]), TableRows(tables[|tables| - 1]))
    decreases |tables|
  {
    if |tables| == 1 {
      assert tables[1..] == [];
    } else if |tables| > 1 {
      TableLoopLastWins(TableHeaders(tables[0]), TableRows(tables[0]), tables[1..]);
      assert tables[1..][|tables[1..]| - 1] == tables[|tables| - 1];
    }
  }

  // ---------------------------------------------------------------------------
  // Attachments

  /** The size shown for a file item: the text of its first
      `span.file-size`, or nothing. */
  function SizeOf(li: Element): (r: string)
    ensures Select(li, ClassSel("span", "file-size")) == [] ==> r == ""
    ensures Select(li, ClassSel("span", "file-size")) != [] ==>
              r == Select(li, ClassSel("span", "file-size"))[0].text
  {
    match SelectFirst(li, ClassSel("span", "file-size"))
    case Some(span) => span.text
    case None => ""
  }

  /** One attachment per file item that holds a link: the first link's text,
      the host followed by its `href`, and the item's size. */
  function FileItems(lis: seq<Element>): (r: seq<Attachment>)
    ensures |r| <= |lis|
    ensures forall a | a in r :: StartsWith(a.url, Host)
  {
    if |lis| == 0 then []
    else
      var rest := FileItems(lis[1..]);
      match SelectFirst(lis[0], TagSel("a"))
      case None => rest
      case Some(link) =>
        assert (Host + link.href)[..|Host|] == Host;
        [Attachment(link.text, Host + link.href, SizeOf(lis[0]))] + rest
  }

  /** Items follow their order, and when every item holds a link there is
      exactly one attachment per item. */
  lemma {:induction false} FileItemsSpec(lis: seq<Element>)
    requires forall i | 0 <= i < |lis| :: SelectFirst(lis[i], TagSel("a")).Some?
    ensures |FileItems(lis)| == |lis|
    ensures forall i | 0 <= i < |lis| ::
              var link := SelectFirst(lis[i], TagSel("a")).value;
              FileItems(lis)[i] == Attachment(link.text, Host + link.href, SizeOf(lis[i]))
    decreases |lis|
  {
    if lis != [] {
      assert forall i | 0 <= i < |lis[1..]| :: lis[1..][i] == lis[i + 1];
      FileItemsSpec(lis[1..]);
      var link := SelectFirst(lis[0], TagSel("a")).value;
      var head := Attachment(link.text, Host + link.href, SizeOf(lis[0]));
      assert FileItems(lis) == [head] + FileItems(lis[1..]);
    }
  }

  /** An item without a link gives no attachment. */
  lemma FileItemWithoutLink(li: Element, rest: seq<Element>)
    requires SelectFirst(li, TagSel("a")).None?
    ensures FileItems([li] + rest) == FileItems(rest)
  {
    assert ([li] + rest)[1..] == rest;
  }

  /** Attachments of consecutive runs of items follow one another. */
  lemma {:induction false} FileItemsAppend(a: seq<Element>, b: seq<Element>)
    ensures FileItems(a + b) == FileItems(a) + FileItems(b)
    decreases |a|
  {
    if a == [] {
      assert a + b == b;
    } else {
      assert (a + b)[1..] == a[1..] + b;
      FileItemsAppend(a[1..], b);
    }
  }

  /** Every item holding a link gives its attachment, and every attachment
      comes from such an item. */
  lemma FileItemsMembers(lis: seq<Element>)
    ensures forall li | li in lis && SelectFirst(li, TagSel("a")).Some? ::
              var link := SelectFirst(li, TagSel("a")).value;
              Attachment(link.text, Host + link.href, SizeOf(li)) in FileItems(lis)
    ensures forall x | x in FileItems(lis) ::
              exists li | li in lis && SelectFirst(li, TagSel("a")).Some? ::
                var link := SelectFirst(li, TagSel("a")).value;
                x == Attachment(link.text, Host + link.href, SizeOf(li))
  {
    FileItemsKeeps(lis);
    FileItemsFrom(lis);
  }

  lemma {:induction false} FileItemsKeeps(lis: seq<Element>)
    ensures forall li | li in lis && SelectFirst(li, TagSel("a")).Some? ::
              var link := SelectFirst(li, TagSel("a")).value;
              Attachment(link.text, Host + link.href, SizeOf(li)) in FileItems(lis)
    decreases |lis|
  {
    if lis != [] {
      FileItemsKeeps(lis[1..]);
      assert forall li | li in lis :: li == lis[0] || li in lis[1..];
    }
  }

  lemma {:induction false} FileItemsFrom(lis: seq<Element>)
    ensures forall x | x in FileItems(lis) ::
              exists li | li in lis && SelectFirst(li, TagSel("a")).Some? ::
                var link := SelectFirst(li, TagSel("a")).value;
                x == Attachment(link.text, Host + link.href, SizeOf(li))
    decreases |lis|
  {
    if lis != [] {
      FileItemsFrom(lis[1..]);
      assert forall li | li in lis[1..] :: li in lis;
    }
  }

  /** The attachments of a page: one per `li` below a `ul.b-file` that
      holds a link, in document order (see `FileListAttachmentsSpec`). */
  function FileListAttachments(doc: Element): (r: seq<Attachment>)
    ensures forall a | a in r :: StartsWith(a.url, Host)
  {
    FileItems(SelectDescendants(doc, ClassSel("ul", "b-file"), TagSel("li")))
  }

  // ---------------------------------------------------------------------------
  // The view model

  /** `fetchPostDetail(from:)` up to the request; what is shown stays as it
      was. */
  function Begin(s: State, link: string): (r: Start<State>)
    ensures r.state == s.(status := BeginRequest(link).state)
    ensures r.request == BeginRequest(link).request
  {
    var start := BeginRequest(link);
    Start(s.(status := start.state), start.request)
  }

  /** The request's completion. A failure only updates the status. A parsed
      page updates the metadata fields its spans name; when it has a
      `div.b-content-box`, sets the content to the box's trimmed text and
      runs the table loop over its tables; and always replaces the
      attachments. */
  function Complete(s: State, outcome: PageOutcome): (r: State)
    ensures r.status == FinishRequest(s.status, outcome)
    ensures !outcome.Parsed? ==> r == s.(status := r.status)
    ensures outcome.Parsed? ==>
              && r.meta == ExtractMetadata(s.meta, outcome.doc)
              && r.attachments == FileListAttachments(outcome.doc)
              && (SelectFirst(outcome.doc, ClassSel("div", "b-content-box")).None? ==>
                    r.content == s.content && r.tableHeaders == s.tableHeaders && r.tableData == s.tableData)
              && (SelectFirst(outcome.doc, ClassSel("div", "b-content-box")).Some? ==>
                    var box := SelectFirst(outcome.doc, ClassSel("div", "b-content-box")).value;
                    && r.content == Trim(box.text)
                    && (r.tableHeaders, r.tableData) == TableLoop(s.tableHeaders, s.tableData, Select(box, TagSel("table"))))
  {
    var status := FinishRequest(s.status, outcome);
    match outcome
    case Parsed(doc) =>
      var meta := ExtractMetadata(s.meta, doc);
      var attachments := FileListAttachments(doc);
      (match SelectFirst(doc, ClassSel("div", "b-content-box"))
       case None => State(s.content, s.tableData, s.tableHeaders, meta, attachments, status)
       case Some(box) =>
         var tables := TableLoop(s.tableHeaders, s.tableData, Select(box, TagSel("table")));
         State(Trim(box.text), tables.1, tables.0, meta, attachments, status))
    case _ => s.(status := status)
  }

  /** A failed load keeps the post that was shown and reports why. */
  lemma FailedLoadKeepsPost(s: State, link: string, outcome: PageOutcome)
    requires ExtractArticleNo(link).Some? && !outcome.Parsed?
    ensures var r := Complete(Begin(s, link).state, outcome);
            && r.content == s.content && r.tableHeaders == s.tableHeaders && r.tableData == s.tableData
            && r.meta == s.meta && r.attachments == s.attachments
            && r.status == Status(false, FailureMessage(outcome))
  {
  }

  /** A loaded page shows the trimmed text of its content box and the last
      of its tables; a page whose box has no table keeps the table shown
      before. */
  lemma LoadedPageShowsLastTable(s: State, link: string, doc: Element)
    requires ExtractArticleNo(link).Some?
    requires SelectFirst(doc, ClassSel("div", "b-content-box")).Some?
    ensures var box := SelectFirst(doc, ClassSel("div", "b-content-box")).value;
            var tables := Select(box, TagSel("table"));
            var r := Complete(Begin(s, link).state, Parsed(doc));
            && r.status == Status(false, "")
            && Trimmed(r.content)
            && (tables == [] ==> r.tableHeaders == s.tableHeaders && r.tableData == s.tableData)
            && (tables != [] ==>
                  r.tableHeaders == TableHeaders(tables[|tables| - 1])
                  && r.tableData == TableRows(tables[|tables| - 1]))
  {
    var box := SelectFirst(doc, ClassSel("div", "b-content-box")).value;
    TableLoopLastWins(s.tableHeaders, s.tableData, Select(box, TagSel("table")));
  }

  /** The items are exactly the `li` elements below a `ul.b-file`; each of
      them holding a link gives its attachment, and every attachment comes
      from one of them. */
  lemma FileListAttachmentsSpec(doc: Element)
    ensures var lis := SelectDescendants(doc, ClassSel("ul", "b-file"), TagSel("li"));
            forall x: Element :: x in lis <==> x.tag == "li" && Under(x, doc, ClassSel("ul", "b-file"))
    ensures forall li: Element | li.tag == "li" && Under(li, doc, ClassSel("ul", "b-file")) && SelectFirst(li, TagSel("a")).Some? ::
              var link := SelectFirst(li, TagSel("a")).value;
              Attachment(link.text, Host + link.href, SizeOf(li)) in FileListAttachments(doc)
    ensures forall x | x in FileListAttachments(doc) ::
              exists li: Element | li.tag == "li" && Under(li, doc, ClassSel("ul", "b-file")) && SelectFirst(li, TagSel("a")).Some? ::
                var link := SelectFirst(li, TagSel("a")).value;
                x == Attachment(link.text, Host + link.href, SizeOf(li))
  {
    var lis := SelectDescendants(doc, ClassSel("ul", "b-file"), TagSel("li"));
    DescendantsFindsExactly(doc, ClassSel("ul", "b-file"), TagSel("li"));
    FileItemsMembers(lis);
  }
}
