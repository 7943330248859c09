/** The `PostDetailViewModel` of `Views/PostDetailView.swift`: the detail page
    as an ordered list of content blocks (text, image, table) walked from the
    children of the `div.fr-view` editor box, the metadata fields, and the
    attachments of the file box with their kind.

    A request is split into its start (`Begin`), which reads the article
    number and yields the URL to fetch, and its completion (`Complete`), one
    atomic update of the published state. */
module PostDetail {
  import opened Common
  import opened Strings
  import opened Html
  import opened Notices
  import opened Detail

  /** SwiftUI's `TextAlignment`, as far as the parser sets it. */
  datatype Alignment = Leading | Center

  /** `PostContent` with its `ContentType`, without the opaque `UUID` id. An
      image or table item also carries the default `.leading` alignment and
      an empty `content`, which nothing reads; they are left out. */
  datatype Block =
    | TextBlock(content: string, alignment: Alignment)
    | ImageBlock(url: string)
    | TableBlock(rows: seq<seq<string>>, headers: seq<string>)

  /** `AttachmentType`, decided by the link's class. */
  datatype AttachmentKind = Hwp | Pdf | Other

  /** `PostAttachment`, without its `UUID` id. */
  datatype Attachment = Attachment(name: string, url: string, size: string, kind: AttachmentKind)

  /** The published state of the view model. */
  datatype State = State(
    contentItems: seq<Block>,
    meta: Meta,
    attachments: seq<Attachment>,
    status: Status)

  /** The state as the property initialisers leave it. */
  const Initial: State := State([], Meta("", "", ""), [], Status(false, ""))

  /** The style fragment that centres a paragraph. */
  const CenterStyle: string := "text-align: center"
  /** The prefix that marks an image source as already absolute. */
  const HttpPrefix: string := "http"

  // ---------------------------------------------------------------------------
  // Blocks

  /** What the view can rely on of every block the walk emits: text is
      non-empty and trimmed, an image URL is absolute, a table has rows and
      no empty row. */
  predicate WellFormedBlock(b: Block) {
    match b
    case TextBlock(content, _) => content != [] && Trimmed(content)
    case ImageBlock(url) => StartsWith(url, HttpPrefix)
    case TableBlock(rows, _) => rows != [] && forall row | row in rows :: row != []
  }

  /** The URL of an inline image: kept when it starts with `http`, otherwise
      resolved against the host. */
  function ImageUrl(src: string): (r: string)
    ensures StartsWith(r, HttpPrefix)
    ensures StartsWith(src, HttpPrefix) ==> r == src
    ensures !StartsWith(src, HttpPrefix) ==> StartsWith(r, Host) && r[|Host|..] == src
  {
    if StartsWith(src, HttpPrefix) then src
    else
      assert (Host + src)[..|HttpPrefix|] == Host[..|HttpPrefix|];
      Host + src
  }

  /** Resolving an image URL twice changes nothing more. */
  lemma ImageUrlIdempotent(src: string)
    ensures ImageUrl(ImageUrl(src)) == ImageUrl(src)
  {
  }

  /** One image block per `img.fr-fic`, in order. */
  function ImageBlocks(imgs: seq<Element>): (r: seq<Block>)
    ensures |r| == |imgs|
    ensures forall i | 0 <= i < |imgs| :: r[i] == ImageBlock(ImageUrl(imgs[i].src))
    ensures forall b | b in r :: WellFormedBlock(b)
  {
    if |imgs| == 0 then [] else [ImageBlock(ImageUrl(imgs[0].src))] + ImageBlocks(imgs[1..])
  }

  /** The alignment a paragraph's `style` asks for. */
  function AlignmentOf(style: string): (r: Alignment)
    ensures r == Center <==> Contains(style, CenterStyle)
    ensures r == Leading <==> !Contains(style, CenterStyle)
  {
    if Contains(style, CenterStyle) then Center else Leading
  }

  /** The text block of a paragraph or other child: its trimmed text, when
      that is not blank. */
  function TextPart(text: string, alignment: Alignment): (r: seq<Block>)
    ensures r == [] <==> AllWhitespace(text)
    ensures r != [] ==> r == [TextBlock(Trim(text), alignment)] && WellFormedBlock(r[0])
  {
    var t := Trim(text);
    if t != [] then [TextBlock(t, alignment)] else []
  }

  /** A `p` child: a text block when its trimmed text is non-empty, centred
      when its style says so, then one image block per `img.fr-fic` inside. */
  function ParagraphBlocks(p: Element): (r: seq<Block>)
    ensures |r| == (if AllWhitespace(p.text) then 0 else 1) + |Select(p, ClassSel("img", "fr-fic"))|
    ensures !AllWhitespace(p.text) ==> r[0] == TextBlock(Trim(p.text), AlignmentOf(p.style))
    ensures forall b | b in r :: WellFormedBlock(b)
  {
    TextPart(p.text, AlignmentOf(p.style)) + ImageBlocks(Select(p, ClassSel("img", "fr-fic")))
  }

  /** A table's headers: the texts of all its `th`, or else the `td` texts
      of its first `tr`. */
  function TableHeaders(t: Element): (r: seq<string>)
    ensures Select(t, TagSel("th")) != [] ==>
              |r| == |Select(t, TagSel("th"))|
              && forall i | 0 <= i < |r| :: r[i] == Select(t, TagSel("th"))[i].text
    ensures Select(t, TagSel("th")) == [] && Select(t, TagSel("tr")) != [] ==>
              r == Cells(Select(t, TagSel("tr"))[0])
    ensures Select(t, TagSel("th")) == [] && Select(t, TagSel("tr")) == [] ==> r == []
  {
    var ths := Select(t, TagSel("th"));
    if ths != [] then Texts(ths)
    else match First(Select(t, TagSel("tr")))
      case None => []
      case Some(first) => Cells(first)
  }

  /** A table's rows: those with a `td`, skipping the first `tr` (by
      position) whenever there are headers. */
  function TableRows(t: Element, headers: seq<string>): (r: seq<seq<string>>)
    ensures forall row | row in r :: row != []
  {
    var trs := Select(t, TagSel("tr"));
    if headers != [] && trs != [] then RowsWithCells(trs[1..]) else RowsWithCells(trs)
  }

  /** A `table` child: one table block when at least one row remains. */
  function TableBlocks(t: Element): (r: seq<Block>)
    ensures |r| <= 1
    ensures r == [] <==> TableRows(t, TableHeaders(t)) == []
    ensures r != [] ==> r[0] == TableBlock(TableRows(t, TableHeaders(t)), TableHeaders(t))
    ensures forall b | b in r :: WellFormedBlock(b)
  {
    var headers := TableHeaders(t);
    var rows := TableRows(t, headers);
    if rows == [] then [] else [TableBlock(rows, headers)]
  }

  /** Every row after the first that has a cell is kept, and with no
      headers every row with a cell is. */
  lemma TableKeepsLaterRows(t: Element)
    ensures var trs := Select(t, TagSel("tr")); var rows := TableRows(t, TableHeaders(t));
            && (forall i | 1 <= i < |trs| && Cells(trs[i]) != [] :: Cells(trs[i]) in rows)
            && (TableHeaders(t) == [] ==> rows == RowsWithCells(trs))
  {
    var trs := Select(t, TagSel("tr"));
    RowsWithCellsKeeps(trs);
    if trs != [] {
      RowsWithCellsKeeps(trs[1..]);
      assert forall i | 1 <= i < |trs| :: trs[i] == trs[1..][i - 1];
    }
  }

  /** With headers, exactly the first `tr` is left out: the table has one
      row fewer than its rows with cells exactly when the first has cells. */
  lemma TableDropsOnlyTheFirst(t: Element)
    requires TableHeaders(t) != [] && Select(t, TagSel("tr")) != []
    ensures var trs := Select(t, TagSel("tr"));
            |TableRows(t, TableHeaders(t))| == |RowsWithCells(trs)| - (if Cells(trs[0]) != [] then 1 else 0)
  {
    var trs := Select(t, TagSel("tr"));
    RowsWithCellsAppend([trs[0]], trs[1..]);
    assert [trs[0]] + trs[1..] == trs;
    assert CellLists([trs[0]]) == [Cells(trs[0])];
    assert |RowsWithCells([trs[0]])| == if Cells(trs[0]) != [] then 1 else 0;
  }

  /** Any other child: a leading text block of its trimmed text, only when it
      holds no table and no image (itself included) and the text is not
      blank. */
  function OtherBlocks(e: Element): (r: seq<Block>)
    ensures r == [] || r == [TextBlock(Trim(e.text), Leading)]
    ensures r == [] <==>
              Select(e, TagSel("table")) != [] || Select(e, TagSel("img")) != [] || AllWhitespace(e.text)
    ensures forall b | b in r :: WellFormedBlock(b)
  {
    if Select(e, TagSel("table")) == [] && Select(e, TagSel("img")) == [] then TextPart(e.text, Leading)
    else []
  }

  /** The blocks of one child of the editor box, by its tag. */
  function ChildBlocks(e: Element): (r: seq<Block>)
    ensures forall b | b in r :: WellFormedBlock(b)
  {
    if e.tag == "p" then ParagraphBlocks(e)
    else if e.tag == "table" then TableBlocks(e)
    else OtherBlocks(e)
  }

  /** The walk over the editor box's children: their blocks, child by child,
      in document order. */
  function WalkChildren(es: seq<Element>): (r: seq<Block>)
    ensures forall b | b in r :: WellFormedBlock(b)
  {
    if |es| == 0 then [] else ChildBlocks(es[0]) + WalkChildren(es[1..])
  }

  /** The blocks of later children follow those of earlier ones. */
  lemma {:induction false} WalkChildrenAppend(a: seq<Element>, b: seq<Element>)
    ensures WalkChildren(a + b) == WalkChildren(a) + WalkChildren(b)
    decreases |a|
  {
    if a == [] {
      assert a + b == b;
    } else {
      var ab := a + b;
      assert ab[0] == a[0] && ab[1..] == a[1..] + b;
      WalkChildrenAppend(a[1..], b);
      var head := ChildBlocks(a[0]);
      calc {
        WalkChildren(ab);
        head + WalkChildren(a[1..] + b);
        head + (WalkChildren(a[1..]) + WalkChildren(b));
        (head + WalkChildren(a[1..])) + WalkChildren(b);
        WalkChildren(a) + WalkChildren(b);
      }
    }
  }

  /** The content of a `div.b-content-box`: the walk over the children of its
      first `div.fr-view`, or, without one, a single leading text block of the
      whole box's text as it is, untrimmed. */
  function ContentBlocks(box: Element): (r: seq<Block>)
    ensures SelectFirst(box, ClassSel("div", "fr-view")).None? ==> r == [TextBlock(box.text, Leading)]
    ensures SelectFirst(box, ClassSel("div", "fr-view")).Some? ==> forall b | b in r :: WellFormedBlock(b)
    ensures SelectFirst(box, ClassSel("div", "fr-view")).Some? ==>
              r == WalkChildren(SelectFirst(box, ClassSel("div", "fr-view")).value.children)
  {
    match SelectFirst(box, ClassSel("div", "fr-view"))
    case Some(frView) => WalkChildren(frView.children)
    case None => [TextBlock(box.text, Leading)]
  }

  /** An element with the given tag and no children: a cell or an image. */
  predicate Leaf(e: Element, tag: string) {
    e.tag == tag && e.children == []
  }

  /** A centred paragraph with text, holding one `img.fr-fic`, gives its
      trimmed text centred and then the image's resolved URL. */
  lemma CentredParagraphWithImage(p: Element, img: Element)
    requires p.tag == "p" && p.children == [img] && Contains(p.style, CenterStyle)
    requires !AllWhitespace(p.text)
    requires Leaf(img, "img") && "fr-fic" in img.classes
    ensures ParagraphBlocks(p) == [TextBlock(Trim(p.text), Center), ImageBlock(ImageUrl(img.src))]
  {
    OnlyImageSelected(p, img);
    assert AlignmentOf(p.style) == Center;
    var text := TextPart(p.text, Center);
    assert text == [TextBlock(Trim(p.text), Center)];
    assert ParagraphBlocks(p) == text + ImageBlocks([img]);
  }

  lemma OnlyImageSelected(p: Element, img: Element)
    requires p.tag == "p" && p.children == [img]
    requires Leaf(img, "img") && "fr-fic" in img.classes
    ensures Select(p, ClassSel("img", "fr-fic")) == [img]
    ensures ImageBlocks([img]) == [ImageBlock(ImageUrl(img.src))]
  {
    var sel := ClassSel("img", "fr-fic");
    SelectLeaf(img, sel);
    assert SelectAll([img], sel) == Select(img, sel) + SelectAll([], sel);
  }

  /** The shape of a two-by-two table whose first row holds `th` headers
      and whose second row holds `td` cells. */
  predicate HeaderedTwoByTwo(t: Element, h1: Element, h2: Element, d1: Element, d2: Element) {
    && t.tag == "table" && |t.children| == 2
    && t.children[0].tag == "tr" && t.children[0].children == [h1, h2]
    && t.children[1].tag == "tr" && t.children[1].children == [d1, d2]
    && Leaf(h1, "th") && Leaf(h2, "th") && Leaf(d1, "td") && Leaf(d2, "td")
  }

  lemma HeaderedTwoByTwoHeaders(t: Element, h1: Element, h2: Element, d1: Element, d2: Element)
    requires HeaderedTwoByTwo(t, h1, h2, d1, d2)
    ensures TableHeaders(t) == [h1.text, h2.text]
  {
    var th := TagSel("th");
    SelectTwoLeaves(t.children[0], h1, h2, th);
    SelectTwoLeaves(t.children[1], d1, d2, th);
    assert t.children == [t.children[0], t.children[1]];
    SelectTwoChildren(t, t.children[0], t.children[1], th);
    assert Select(t, th) == [h1, h2];
  }

  lemma HeaderedTwoByTwoRows(t: Element, h1: Element, h2: Element, d1: Element, d2: Element)
    requires HeaderedTwoByTwo(t, h1, h2, d1, d2)
    ensures Select(t, TagSel("tr")) == [t.children[0], t.children[1]]
  {
    var tr := TagSel("tr");
    SelectTwoLeaves(t.children[0], h1, h2, tr);
    SelectTwoLeaves(t.children[1], d1, d2, tr);
    assert t.children == [t.children[0], t.children[1]];
    SelectTwoChildren(t, t.children[0], t.children[1], tr);
  }

  lemma HeaderedTwoByTwoCells(t: Element, h1: Element, h2: Element, d1: Element, d2: Element)
    requires HeaderedTwoByTwo(t, h1, h2, d1, d2)
    ensures Cells(t.children[1]) == [d1.text, d2.text]
  {
    SelectTwoLeaves(t.children[1], d1, d2, TagSel("td"));
    assert Select(t.children[1], TagSel("td")) == [d1, d2];
  }

  /** A two-by-two table whose first row holds the `th` headers gives one
      table block: the header texts, and the second row as its only row. */
  lemma HeaderedTwoByTwoTable(t: Element, h1: Element, h2: Element, d1: Element, d2: Element)
    requires HeaderedTwoByTwo(t, h1, h2, d1, d2)
    ensures TableBlocks(t) == [TableBlock([[d1.text, d2.text]], [h1.text, h2.text])]
  {
    HeaderedTwoByTwoHeaders(t, h1, h2, d1, d2);
    HeaderedTwoByTwoRows(t, h1, h2, d1, d2);
    HeaderedTwoByTwoCells(t, h1, h2, d1, d2);
    var r2 := t.children[1];
    assert [t.children[0], r2][1..] == [r2];
    assert CellLists([r2]) == [[d1.text, d2.text]];
    assert NonEmptyRows([[d1.text, d2.text]]) == [[d1.text, d2.text]];
  }

  /** A centred paragraph with an inline image, followed by a two-by-two
      table with a header row, gives a centred text block, an image block and
      a table block of one row under two headers, in that order. */
  lemma ParagraphThenTable(p: Element, img: Element, t: Element, h1: Element, h2: Element, d1: Element, d2: Element)
    requires p.tag == "p" && p.children == [img] && Contains(p.style, CenterStyle)
    requires !AllWhitespace(p.text)
    requires Leaf(img, "img") && "fr-fic" in img.classes
    requires HeaderedTwoByTwo(t, h1, h2, d1, d2)
    ensures WalkChildren([p, t]) == [
              TextBlock(Trim(p.text), Center),
              ImageBlock(ImageUrl(img.src)),
              TableBlock([[d1.text, d2.text]], [h1.text, h2.text])]
  {
    CentredParagraphWithImage(p, img);
    HeaderedTwoByTwoTable(t, h1, h2, d1, d2);
    WalkTwoChildren(p, t);
    ChildBlocksByTag(p);
    ChildBlocksByTag(t);
  }

  /** A paragraph gives its paragraph blocks, a table its table blocks. */
  lemma ChildBlocksByTag(e: Element)
    ensures e.tag == "p" ==> ChildBlocks(e) == ParagraphBlocks(e)
    ensures e.tag == "table" ==> ChildBlocks(e) == TableBlocks(e)
  {
  }

  /** Two children give their blocks one after the other. */
  lemma WalkTwoChildren(x: Element, y: Element)
    ensures WalkChildren([x, y]) == ChildBlocks(x) + ChildBlocks(y)
  {
    WalkChildrenAppend([x], [y]);
    assert [x] + [y] == [x, y];
    assert WalkChildren([x]) == ChildBlocks(x) + WalkChildren([]);
    assert WalkChildren([y]) == ChildBlocks(y) + WalkChildren([]);
  }

  // ---------------------------------------------------------------------------
  // Attachments

  /** The kind of an attachment link from its class attribute: `hwp` wins
      over `pdf`, and anything else is other. */
  function KindOf(className: string): (r: AttachmentKind)
    ensures r == Hwp <==> Contains(className, "hwp")
    ensures r == Pdf <==> !Contains(className, "hwp") && Contains(className, "pdf")
  {
    if Contains(className, "hwp") then Hwp
    else if Contains(className, "pdf") then Pdf
    else Other
  }

  /** The kind of a link read from its element: a class naming `hwp` makes
      it a HWP file, and one naming `pdf` a PDF unless a class names `hwp`. */
  lemma KindOfElement(e: Element, k: nat)
    requires k < |e.classes|
    ensures Contains(e.classes[k], "hwp") ==> KindOf(ClassName(e)) == Hwp
    ensures Contains(e.classes[k], "pdf") && !Contains(ClassName(e), "hwp") ==> KindOf(ClassName(e)) == Pdf
  {
    if Contains(e.classes[k], "hwp") {
      JoinContains(e.classes, " ", k, "hwp");
    }
    if Contains(e.classes[k], "pdf") {
      JoinContains(e.classes, " ", k, "pdf");
    }
  }

  /** The kinds of some typical class attributes. */
  lemma KindExamples()
    ensures KindOf("file-hwp") == Hwp
    ensures KindOf("file pdf hwp") == Hwp
    ensures KindOf("file-pdf") == Pdf
    ensures KindOf("file") == Other
  {
    assert OccursAt("file-hwp", "hwp", 5);
    assert OccursAt("file pdf hwp", "hwp", 9);
    assert OccursAt("file-pdf", "pdf", 5);
    MissingCharNoMatch("file-pdf", "hwp", 0);
    MissingCharNoMatch("file", "hwp", 0);
    MissingCharNoMatch("file", "pdf", 0);
  }

  /** One attachment per link: its text, the host followed by its `href`, no
      size, and the kind its class names. */
  function LinkAttachments(links: seq<Element>): (r: seq<Attachment>)
    ensures |r| == |links|
    ensures forall i | 0 <= i < |links| ::
              r[i] == Attachment(links[i].text, Host + links[i].href, "", KindOf(ClassName(links[i])))
  {
    if |links| == 0 then []
    else
      [Attachment(links[0].text, Host + links[0].href, "", KindOf(ClassName(links[0])))]
      + LinkAttachments(links[1..])
  }

  /** The attachments of a page: every `a` inside the first `div.b-file-box`,
      in document order; none without a file box. */
  function FileBoxAttachments(doc: Element): (r: seq<Attachment>)
    ensures SelectFirst(doc, ClassSel("div", "b-file-box")).None? ==> r == []
    ensures forall a | a in r :: StartsWith(a.url, Host) && a.size == ""
    ensures SelectFirst(doc, ClassSel("div", "b-file-box")).Some? ==>
              var links := Select(SelectFirst(doc, ClassSel("div", "b-file-box")).value, TagSel("a"));
              |r| == |links| &&
              forall i | 0 <= i < |links| ::
                r[i] == Attachment(links[i].text, Host + links[i].href, "", KindOf(ClassName(links[i])))
  {
    match SelectFirst(doc, ClassSel("div", "b-file-box"))
    case None => []
    case Some(box) =>
      var r := LinkAttachments(Select(box, TagSel("a")));
      assert forall a | a in r :: StartsWith(a.url, Host) by {
        forall a | a in r
          ensures StartsWith(a.url, Host)
        {
          var i :| 0 <= i < |r| && r[i] == a;
          assert a.url[..|Host|] == Host;
        }
      }
      r
  }

  // ---------------------------------------------------------------------------
  // The view model

  /** `fetchPostDetail(from:)` up to the request; the content, metadata
      and attachments shown stay as they were. */
  function Begin(s: State, link: string): (r: Start<State>)
    ensures r.state == s.(status := BeginRequest(link).state)
    ensures r.request == BeginRequest(link).request
  {
    var start := BeginRequest(link);
    Start(s.(status := start.state), start.request)
  }

  /** The request's completion. A failure only updates the status. A parsed
      page updates the metadata fields its spans name, replaces the content
      when it has a `div.b-content-box`, and always replaces the
      attachments. */
  function Complete(s: State, outcome: PageOutcome): (r: State)
    ensures r.status == FinishRequest(s.status, outcome)
    ensures !outcome.Parsed? ==> r == s.(status := r.status)
    ensures outcome.Parsed? ==>
              && r.meta == ExtractMetadata(s.meta, outcome.doc)
              && r.attachments == FileBoxAttachments(outcome.doc)
              && (SelectFirst(outcome.doc, ClassSel("div", "b-content-box")).None? ==>
                    r.contentItems == s.contentItems)
              && (SelectFirst(outcome.doc, ClassSel("div", "b-content-box")).Some? ==>
                    r.contentItems == ContentBlocks(SelectFirst(outcome.doc, ClassSel("div", "b-content-box")).value))
  {
    var status := FinishRequest(s.status, outcome);
    match outcome
    case Parsed(doc) =>
      var items :=
        match SelectFirst(doc, ClassSel("div", "b-content-box"))
        case None => s.contentItems
        case Some(box) => ContentBlocks(box);
      State(items, ExtractMetadata(s.meta, doc), FileBoxAttachments(doc), status)
    case _ => s.(status := status)
  }

  /** A failed load keeps the post that was shown and reports why. */
  lemma FailedLoadKeepsPost(s: State, link: string, outcome: PageOutcome)
    requires ExtractArticleNo(link).Some? && !outcome.Parsed?
    ensures var r := Complete(Begin(s, link).state, outcome);
            && r.contentItems == s.contentItems && r.meta == s.meta && r.attachments == s.attachments
            && r.status == Status(false, FailureMessage(outcome))
  {
  }

  /** A link that names no article changes nothing shown but the status. */
  lemma InvalidLinkRequestsNothing(s: State, link: string)
    requires ExtractArticleNo(link).None?
    ensures Begin(s, link) == Start(s.(status := Status(false, InvalidArticleMessage)), None)
  {
  }

  /** A loaded page shows no error, every attachment link is on the host,
      and the blocks of a page with an editor box are well-formed. */
  lemma LoadedPageIsWellFormed(s: State, link: string, doc: Element)
    requires ExtractArticleNo(link).Some?
    ensures var r := Complete(Begin(s, link).state, Parsed(doc));
            && r.status == Status(false, "")
            && (forall a | a in r.attachments :: StartsWith(a.url, Host))
            && (match SelectFirst(doc, ClassSel("div", "b-content-box"))
                case Some(box) =>
                  SelectFirst(box, ClassSel("div", "fr-view")).Some? ==>
                    forall b | b in r.contentItems :: WellFormedBlock(b)
                case None => true)
  {
  }
}
