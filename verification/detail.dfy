/** What the two `PostDetailViewModel` copies share line for line: reading
    the article number out of a notice link, the detail-page request built
    from it, the labelled-span metadata scan, the rule that turns table rows
    into lists of cell texts, and the outcome of one detail request. */
module Detail {
  import opened Common
  import opened Strings
  import opened Html
  import opened Notices

  // ---------------------------------------------------------------------------
  // Article number and request

  /** The query parameter that names an article. */
  const ArticleMarker: string := "articleNo="
  /** The query parameter separator. */
  const ParamSeparator: string := "&"

  /** The request URL, around the article number. */
  const ViewUrlHead: string := Host + "/data/community/notice02.do?mode=view&"
  const ViewUrlTail: string := "&article.offset=0&articleLimit=10"

  /** The message shown when a link names no article. */
  const InvalidArticleMessage: string := "Invalid article number"
  /** The message shown when the body is missing or not UTF-8. */
  const LoadFailedMessage: string := "Failed to load content"
  /** The message shown when the HTML parser rejects the body. */
  const ParseFailedMessage: string := "Failed to parse content"

  /** `extractArticleNo(from:)`: `nil` when the link has no `articleNo=`;
      otherwise what follows its first occurrence, up to the next `&` or the
      end of the link. */
  function ExtractArticleNo(link: string): (r: Option<string>)
    ensures r.None? <==> !Contains(link, ArticleMarker)
    ensures r.Some? ==> !Contains(r.value, ParamSeparator)
  {
    match FindFirst(link, ArticleMarker)
    case None => None
    case Some(i) =>
      var rest := link[i + |ArticleMarker|..];
      match FindFirst(rest, ParamSeparator)
      case None => Some(rest)
      case Some(j) =>
        assert !Contains(rest[..j], ParamSeparator) by {
          forall k | 0 <= k <= j
            ensures !OccursAt(rest[..j], ParamSeparator, k)
          {
            if k + 1 <= j {
              assert rest[..j][k..k + 1] == rest[k..k + 1];
              assert !OccursAt(rest, ParamSeparator, k);
            }
          }
        }
        Some(rest[..j])
  }

  /** The marker's only `=` is its last character, so an occurrence of it
      cannot straddle the end of a text that does not contain it. */
  lemma FirstMarkerAfter(prefix: string, tail: string)
    requires !Contains(prefix, ArticleMarker)
    ensures FindFirst(prefix + ArticleMarker + tail, ArticleMarker) == Some(|prefix|)
  {
    var link := prefix + ArticleMarker + tail;
    var m := |ArticleMarker|;
    assert OccursAt(link, ArticleMarker, |prefix|) by {
      assert link[|prefix|..|prefix| + m] == ArticleMarker;
    }
    forall j | 0 <= j < |prefix|
      ensures !OccursAt(link, ArticleMarker, j)
    {
      if j + m <= |prefix| {
        assert link[j..j + m] == prefix[j..j + m];
        assert !OccursAt(prefix, ArticleMarker, j);
      } else if j + m <= |link| {
        var p := j + m - 1;
        assert |prefix| <= p < |prefix| + m - 1;
        assert link[p] == ArticleMarker[p - |prefix|];
        assert link[j..j + m][m - 1] == link[p];
        assert forall q | 0 <= q < m - 1 :: ArticleMarker[q] != '=';
      }
    }
  }

  /** An independent reading of `ExtractArticleNo`: in a link whose first
      `articleNo=` is followed by `no` and then by `&` or the end, the number
      read back is exactly `no`. */
  lemma ExtractArticleNoOf(prefix: string, no: string, rest: string)
    requires !Contains(prefix, ArticleMarker)
    requires !Contains(no, ParamSeparator)
    requires rest == [] || rest[0] == '&'
    ensures ExtractArticleNo(prefix + ArticleMarker + no + rest) == Some(no)
  {
    var link := prefix + ArticleMarker + no + rest;
    assert link == prefix + ArticleMarker + (no + rest);
    FirstMarkerAfter(prefix, no + rest);
    var after := link[|prefix| + |ArticleMarker|..];
    assert after == no + rest;
    if rest == [] {
      assert after == no;
    } else {
      assert OccursAt(after, ParamSeparator, |no|) by {
        assert after[|no|..|no| + 1] == [rest[0]];
      }
      forall k | 0 <= k < |no|
        ensures !OccursAt(after, ParamSeparator, k)
      {
        assert after[k..k + 1] == no[k..k + 1];
        assert !OccursAt(no, ParamSeparator, k);
      }
      assert FindFirst(after, ParamSeparator) == Some(|no|);
      assert after[..|no|] == no;
    }
  }

  /** The detail-page request for an article number: a URL on the host from
      which the number can be read back, whenever it holds no `&`. */
  function ViewUrl(no: string): (r: string)
    ensures StartsWith(r, Host)
    ensures !Contains(no, ParamSeparator) ==> ExtractArticleNo(r) == Some(no)
  {
    ViewUrlOnHost(no);
    ViewUrlReadsBack(no);
    ViewUrlHead + ArticleMarker + no + ViewUrlTail
  }

  lemma ViewUrlReadsBack(no: string)
    ensures !Contains(no, ParamSeparator) ==> ExtractArticleNo(ViewUrlHead + ArticleMarker + no + ViewUrlTail) == Some(no)
  {
    if !Contains(no, ParamSeparator) {
      ViewUrlNumber(no);
    }
  }

  lemma ViewUrlOnHost(no: string)
    ensures StartsWith(ViewUrlHead + ArticleMarker + no + ViewUrlTail, Host)
  {
    assert ViewUrlHead + ArticleMarker + no + ViewUrlTail
        == Host + ("/data/community/notice02.do?mode=view&" + ArticleMarker + no + ViewUrlTail);
  }

  lemma ViewUrlNumber(no: string)
    requires !Contains(no, ParamSeparator)
    ensures ExtractArticleNo(ViewUrlHead + ArticleMarker + no + ViewUrlTail) == Some(no)
  {
    assert 'N' !in ViewUrlHead by {
      assert 'N' !in Host;
      assert 'N' !in "/data/community/notice02.do?mode=view&";
    }
    MissingCharNoMatch(ViewUrlHead, ArticleMarker, 7);
    ExtractArticleNoOf(ViewUrlHead, no, ViewUrlTail);
  }

  /** The request asks for the article the link named: reading the article
      number back out of the request URL gives the same number. */
  lemma ViewUrlNamesArticle(link: string)
    requires ExtractArticleNo(link).Some?
    ensures ExtractArticleNo(ViewUrl(ExtractArticleNo(link).value)) == ExtractArticleNo(link)
  {
  }

  /** The link `".../view?articleNo=1234&mode=view"` names article `"1234"`. */
  lemma ArticleNoBeforeParameter()
    ensures ExtractArticleNo(".../view?" + "articleNo=" + "1234" + "&mode=view") == Some("1234")
  {
    MissingCharNoMatch(".../view?", ArticleMarker, 7);
    MissingCharNoMatch("1234", ParamSeparator, 0);
    ExtractArticleNoOf(".../view?", "1234", "&mode=view");
  }

  /** The link `".../view?articleNo=5678"` names article `"5678"`. */
  lemma ArticleNoAtEnd()
    ensures ExtractArticleNo(".../view?" + "articleNo=" + "5678") == Some("5678")
  {
    MissingCharNoMatch(".../view?", ArticleMarker, 7);
    MissingCharNoMatch("5678", ParamSeparator, 0);
    ExtractArticleNoOf(".../view?", "5678", "");
    assert ".../view?" + ArticleMarker + "5678" + "" == ".../view?" + "articleNo=" + "5678";
  }

  /** A link without `articleNo=` names no article. */
  lemma NoArticleNo()
    ensures ExtractArticleNo(".../view?mode=view") == None
  {
    MissingCharNoMatch(".../view?mode=view", ArticleMarker, 7);
  }

  // ---------------------------------------------------------------------------
  // One detail request

  /** What one detail request delivered: a transport error with its
      description, a missing or non-UTF-8 body, a body the HTML parser
      rejected, or the parsed document. */
  datatype PageOutcome = TransportError(message: string) | Undecodable | Unparsable | Parsed(doc: Element)

  /** The message an unsuccessful outcome leaves in `errorMessage`. */
  function FailureMessage(outcome: PageOutcome): string
    requires !outcome.Parsed?
  {
    match outcome
    case TransportError(message) => message
    case Undecodable => LoadFailedMessage
    case Unparsable => ParseFailedMessage
  }

  /** The request status both view models publish: the spinner and the
      error message. */
  datatype Status = Status(isLoading: bool, errorMessage: string)

  /** A view-model state after the start of a request, and the URL fetched,
      if any. */
  datatype Start<S> = Start(state: S, request: Option<string>)

  /** `fetchPostDetail(from:)` up to the request: the spinner starts and the
      error clears; then a link that names no article stops the spinner with
      "Invalid article number" and requests nothing, and any other link
      requests the page of the article it names. */
  function BeginRequest(link: string): (r: Start<Status>)
    ensures ExtractArticleNo(link).None? ==> r == Start(Status(false, InvalidArticleMessage), None)
    ensures ExtractArticleNo(link).Some? ==>
              && r.state == Status(true, "")
              && r.request.Some?
              && ExtractArticleNo(r.request.value) == ExtractArticleNo(link)
  {
    match ExtractArticleNo(link)
    case None => Start(Status(false, InvalidArticleMessage), None)
    case Some(no) =>
      ViewUrlNamesArticle(link);
      Start(Status(true, ""), Some(ViewUrl(no)))
  }

  /** The status after the request completes: the spinner stops, and a
      transport error, a missing or undecodable body, or a parser failure
      each leave their message; a parsed page leaves the message alone. */
  function FinishRequest(st: Status, outcome: PageOutcome): (r: Status)
    ensures !r.isLoading
    ensures outcome.Parsed? ==> r.errorMessage == st.errorMessage
    ensures outcome.TransportError? ==> r.errorMessage == outcome.message
    ensures outcome.Undecodable? ==> r.errorMessage == LoadFailedMessage
    ensures outcome.Unparsable? ==> r.errorMessage == ParseFailedMessage
  {
    if outcome.Parsed? then st.(isLoading := false)
    else Status(false, FailureMessage(outcome))
  }

  /** A started request that completes shows an error exactly when it
      failed. */
  lemma RequestErrorIffFailed(link: string, outcome: PageOutcome)
    requires ExtractArticleNo(link).Some?
    requires outcome.TransportError? ==> outcome.message != ""
    ensures var r := FinishRequest(BeginRequest(link).state, outcome);
            !r.isLoading && (r.errorMessage == "" <==> outcome.Parsed?)
  {
  }

  // ---------------------------------------------------------------------------
  // Metadata

  /** The span labels, "author", "registered on" and "views". */
  const WriterLabel: string := "작성자"
  const DateLabel: string := "등록일"
  const ViewsLabel: string := "조회수"
  /** What separates a label from its value. */
  const LabelSeparator: string := " : "

  /** The three metadata fields of the view model. */
  datatype Meta = Meta(writer: string, date: string, views: string)

  datatype Field = Writer | Date | Views

  function Label(f: Field): string {
    match f
    case Writer => WriterLabel
    case Date => DateLabel
    case Views => ViewsLabel
  }

  function Get(m: Meta, f: Field): string {
    match f
    case Writer => m.writer
    case Date => m.date
    case Views => m.views
  }

  /** The field a span's text is taken for: the labels are tried in the order
      author, date, views, and the first one the text contains decides. */
  function SpanField(text: string): (r: Option<Field>)
    ensures r.Some? ==> Contains(text, Label(r.value))
    ensures r == Some(Date) ==> !Contains(text, WriterLabel)
    ensures r == Some(Views) ==> !Contains(text, WriterLabel) && !Contains(text, DateLabel)
    ensures r.None? <==> !Contains(text, WriterLabel) && !Contains(text, DateLabel) && !Contains(text, ViewsLabel)
  {
    if Contains(text, WriterLabel) then Some(Writer)
    else if Contains(text, DateLabel) then Some(Date)
    else if Contains(text, ViewsLabel) then Some(Views)
    else None
  }

  /** The value a span gives its field: the text with every `"<label> : "`
      removed, scanning left to right (see `SpanValueStep`). */
  function SpanValue(text: string, f: Field): (r: string)
    ensures |r| <= |text|
    ensures r == text <==> !Contains(text, Label(f) + LabelSeparator)
  {
    ReplaceAll(text, Label(f) + LabelSeparator, "")
  }

  /** Removing the labels works through the span left to right: the text
      before the first `"<label> : "` is kept, that occurrence is dropped,
      and the rest is treated the same way. */
  lemma SpanValueStep(a: string, b: string, f: Field)
    requires forall j | 0 <= j < |a| :: !OccursAt(a + (Label(f) + LabelSeparator) + b, Label(f) + LabelSeparator, j)
    ensures SpanValue(a + Label(f) + LabelSeparator + b, f) == a + SpanValue(b, f)
  {
    var pat := Label(f) + LabelSeparator;
    assert a + Label(f) + LabelSeparator + b == a + pat + b;
    ReplaceAllStep(a, pat, b, "");
    assert a + "" == a;
  }

  /** One iteration of the span loop: the field the span is taken for gets
      the span's value, and every other field keeps its value. */
  function ScanSpan(m: Meta, text: string): (r: Meta)
    ensures forall f: Field :: Get(r, f) == if SpanField(text) == Some(f) then SpanValue(text, f) else Get(m, f)
  {
    match SpanField(text)
    case None => m
    case Some(Writer) => m.(writer := SpanValue(text, Writer))
    case Some(Date) => m.(date := SpanValue(text, Date))
    case Some(Views) => m.(views := SpanValue(text, Views))
  }

  /** The span loop over the metadata box, in document order, starting from
      the fields as they were. */
  function ScanSpans(m: Meta, texts: seq<string>): Meta {
    if |texts| == 0 then m else ScanSpan(ScanSpans(m, texts[..|texts| - 1]), texts[|texts| - 1])
  }

  /** The last text taken for field `f`, if any: an independent reading of
      the span loop. */
  function LastFor(texts: seq<string>, f: Field): (r: Option<string>)
    ensures r.Some? ==> r.value in texts && SpanField(r.value) == Some(f)
    ensures r.None? <==> forall i | 0 <= i < |texts| :: SpanField(texts[i]) != Some(f)
  {
    if |texts| == 0 then None
    else if SpanField(texts[|texts| - 1]) == Some(f) then Some(texts[|texts| - 1])
    else
      var init := texts[..|texts| - 1];
      assert forall i | 0 <= i < |init| :: init[i] == texts[i];
      LastFor(init, f)
  }

  /** `LastFor` finds the last text naming the field: when `texts[k]` names
      it and no later text does, the result is `texts[k]`. */
  lemma {:induction false} LastForIsLast(texts: seq<string>, f: Field, k: nat)
    requires k < |texts| && SpanField(texts[k]) == Some(f)
    requires forall j | k < j < |texts| :: SpanField(texts[j]) != Some(f)
    ensures LastFor(texts, f) == Some(texts[k])
    decreases |texts|
  {
    var n := |texts| - 1;
    if k < n {
      var init := texts[..n];
      assert SpanField(texts[n]) != Some(f);
      assert forall j | k < j < |init| :: init[j] == texts[j];
      LastForIsLast(init, f, k);
    }
  }

  /** The span loop leaves each field to the last span taken for it, with
      its label prefix removed, and keeps the old value when no span is. */
  lemma {:induction false} ScanSpansLastWins(m: Meta, texts: seq<string>, f: Field)
    ensures Get(ScanSpans(m, texts), f) ==
              match LastFor(texts, f)
              case None => Get(m, f)
              case Some(t) => SpanValue(t, f)
    decreases |texts|
  {
    if |texts| > 0 {
      var init, t := texts[..|texts| - 1], texts[|texts| - 1];
      ScanSpansLastWins(m, init, f);
      var before := ScanSpans(m, init);
      assert ScanSpans(m, texts) == ScanSpan(before, t);
      if SpanField(t) == Some(f) {
        assert LastFor(texts, f) == Some(t);
        assert Get(ScanSpan(before, t), f) == SpanValue(t, f);
      } else {
        assert LastFor(texts, f) == LastFor(init, f);
        assert Get(ScanSpan(before, t), f) == Get(before, f);
      }
    }
  }

  /** The metadata of a detail page: the span loop over the first
      `div.b-etc-box`; without one, the fields keep their values. */
  function ExtractMetadata(m: Meta, doc: Element): (r: Meta)
    ensures SelectFirst(doc, ClassSel("div", "b-etc-box")).None? ==> r == m
    ensures SelectFirst(doc, ClassSel("div", "b-etc-box")).Some? ==>
              var texts := Texts(Select(SelectFirst(doc, ClassSel("div", "b-etc-box")).value, TagSel("span")));
              forall f: Field :: Get(r, f) == match LastFor(texts, f) {
                case None => Get(m, f)
                case Some(t) => SpanValue(t, f)
              }
  {
    match SelectFirst(doc, ClassSel("div", "b-etc-box"))
    case None => m
    case Some(box) =>
      var texts := Texts(Select(box, TagSel("span")));
      assert forall f: Field :: Get(ScanSpans(m, texts), f) == match LastFor(texts, f) {
        case None => Get(m, f)
        case Some(t) => SpanValue(t, f)
      } by {
        forall f: Field {
          ScanSpansLastWins(m, texts, f);
        }
      }
      ScanSpans(m, texts)
  }

  /** The usual metadata box fills each field with the bare value. */
  lemma MetadataExample(m: Meta)
    ensures ScanSpans(m, ["작성자 : 홍길동", "등록일 : 2025.02.08", "조회수 : 12"])
              == Meta("홍길동", "2025.02.08", "12")
  {
    var w, d, v := "작성자 : 홍길동", "등록일 : 2025.02.08", "조회수 : 12";
    var texts := [w, d, v];
    assert texts[..2] == [w, d] && [w, d][..1] == [w] && [w][..0] == [];
    WriterSpan(m);
    var m1 := m.(writer := "홍길동");
    DateSpan(m1);
    var m2 := m1.(date := "2025.02.08");
    ViewsSpan(m2);
    assert ScanSpans(m, [w]) == ScanSpan(m, w);
    assert ScanSpans(m, [w, d]) == ScanSpan(ScanSpans(m, [w]), d);
    assert ScanSpans(m, texts) == ScanSpan(ScanSpans(m, [w, d]), v);
  }

  lemma WriterSpan(m: Meta)
    ensures ScanSpan(m, "작성자 : 홍길동") == m.(writer := "홍길동")
  {
    var w := "작성자 : 홍길동";
    assert OccursAt(w, WriterLabel, 0);
    assert w == WriterLabel + LabelSeparator + "홍길동";
    MissingCharNoMatch("홍길동", WriterLabel + LabelSeparator, 0);
    RemoveLeadingLabel(WriterLabel + LabelSeparator, "홍길동");
  }

  lemma DateSpan(m: Meta)
    ensures ScanSpan(m, "등록일 : 2025.02.08") == m.(date := "2025.02.08")
  {
    var d := "등록일 : 2025.02.08";
    MissingCharNoMatch(d, WriterLabel, 0);
    assert OccursAt(d, DateLabel, 0);
    assert d == DateLabel + LabelSeparator + "2025.02.08";
    MissingCharNoMatch("2025.02.08", DateLabel + LabelSeparator, 0);
    RemoveLeadingLabel(DateLabel + LabelSeparator, "2025.02.08");
  }

  lemma ViewsSpan(m: Meta)
    ensures ScanSpan(m, "조회수 : 12") == m.(views := "12")
  {
    var v := "조회수 : 12";
    MissingCharNoMatch(v, WriterLabel, 0);
    MissingCharNoMatch(v, DateLabel, 0);
    assert OccursAt(v, ViewsLabel, 0);
    assert v == ViewsLabel + LabelSeparator + "12";
    MissingCharNoMatch("12", ViewsLabel + LabelSeparator, 0);
    RemoveLeadingLabel(ViewsLabel + LabelSeparator, "12");
  }

  // ---------------------------------------------------------------------------
  // Table rows

  /** The `td` texts of one row. */
  function Cells(tr: Element): seq<string> {
    Texts(Select(tr, TagSel("td")))
  }

  /** The cell lists of a run of rows, one per row. */
  function CellLists(trs: seq<Element>): (r: seq<seq<string>>)
    ensures |r| == |trs|
    ensures forall i | 0 <= i < |trs| :: r[i] == Cells(trs[i])
  {
    seq(|trs|, i requires 0 <= i < |trs| => Cells(trs[i]))
  }

  /** The non-empty lists of `rows`, in order: the `if !rowData.isEmpty`
      filter. */
  function NonEmptyRows(rows: seq<seq<string>>): (r: seq<seq<string>>)
    ensures forall row | row in r :: row != []
    ensures |r| <= |rows|
  {
    if |rows| == 0 then []
    else (if rows[0] != [] then [rows[0]] else []) + NonEmptyRows(rows[1..])
  }

  /** The rows of a table that have at least one `td`, as lists of cell
      texts, in order. */
  function RowsWithCells(trs: seq<Element>): (r: seq<seq<string>>)
    ensures forall row | row in r :: row != []
    ensures |r| <= |trs|
  {
    NonEmptyRows(CellLists(trs))
  }

  /** Rows follow their `tr`s. */
  lemma RowsWithCellsAppend(a: seq<Element>, b: seq<Element>)
    ensures RowsWithCells(a + b) == RowsWithCells(a) + RowsWithCells(b)
  {
    var ca, cb := CellLists(a), CellLists(b);
    forall i | 0 <= i < |a + b|
      ensures CellLists(a + b)[i] == (ca + cb)[i]
    {
      if i < |a| {
        assert (a + b)[i] == a[i];
      } else {
        assert (a + b)[i] == b[i - |a|];
      }
    }
    assert CellLists(a + b) == ca + cb;
    NonEmptyRowsAppend(ca, cb);
  }

  lemma {:induction false} NonEmptyRowsAppend(a: seq<seq<string>>, b: seq<seq<string>>)
    ensures NonEmptyRows(a + b) == NonEmptyRows(a) + NonEmptyRows(b)
    decreases |a|
  {
    if a == [] {
      assert a + b == b;
    } else {
      var ab := a + b;
      assert ab[0] == a[0] && ab[1..] == a[1..] + b;
      NonEmptyRowsAppend(a[1..], b);
      var head := if a[0] != [] then [a[0]] else [];
      calc {
        NonEmptyRows(ab);
        head + NonEmptyRows(a[1..] + b);
        head + (NonEmptyRows(a[1..]) + NonEmptyRows(b));
        (head + NonEmptyRows(a[1..])) + NonEmptyRows(b);
        NonEmptyRows(a) + NonEmptyRows(b);
      }
    }
  }

  /** Every `tr` with a cell contributes its row. */
  lemma RowsWithCellsKeeps(trs: seq<Element>)
    ensures forall i | 0 <= i < |trs| && Cells(trs[i]) != [] :: Cells(trs[i]) in RowsWithCells(trs)
  {
    NonEmptyRowsKeeps(CellLists(trs));
  }

  lemma {:induction false} NonEmptyRowsKeeps(rows: seq<seq<string>>)
    ensures forall i | 0 <= i < |rows| && rows[i] != [] :: rows[i] in NonEmptyRows(rows)
    decreases |rows|
  {
    if rows != [] {
      NonEmptyRowsKeeps(rows[1..]);
      assert forall i | 1 <= i < |rows| :: rows[i] == rows[1..][i - 1];
    }
  }

  /** When every `tr` has a cell, the rows are exactly their cell lists. */
  lemma RowsWithCellsAll(trs: seq<Element>)
    requires forall i | 0 <= i < |trs| :: Cells(trs[i]) != []
    ensures RowsWithCells(trs) == CellLists(trs)
  {
    NonEmptyRowsAll(CellLists(trs));
  }

  lemma {:induction false} NonEmptyRowsAll(rows: seq<seq<string>>)
    requires forall i | 0 <= i < |rows| :: rows[i] != []
    ensures NonEmptyRows(rows) == rows
    decreases |rows|
  {
    if rows != [] {
      assert forall i | 0 <= i < |rows[1..]| :: rows[1..][i] == rows[i + 1];
      NonEmptyRowsAll(rows[1..]);
    }
  }
}
