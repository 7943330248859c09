/** An already-parsed HTML document, as the scraper sees it through SwiftSoup.
    Tokenising and the full CSS selector engine are not modelled; only the
    selector shapes the scraper uses are: `tag`, `tag.class`, and the
    descendant combinator `ancestor descendant`. As in SwiftSoup, selecting
    from an element visits that element itself first and then its descendants
    in document (preorder) order. */
module Html {
  import opened Common
  import opened Strings

  /** One element: tag name (lower case), class tokens, the `style`, `src` and
      `href` attributes (empty when absent, as `attr(_:)` returns), the text the
      library reports for it (`text()`), and its child elements in order. */
  datatype Element = Element(
    tag: string,
    classes: seq<string>,
    style: string,
    text: string,
    src: string,
    href: string,
    children: seq<Element>)

  /** A simple selector `tag` (no class) or `tag.class`. */
  datatype Selector = Selector(tag: string, cls: Option<string>)

  function TagSel(tag: string): Selector {
    Selector(tag, None)
  }

  function ClassSel(tag: string, cls: string): Selector {
    Selector(tag, Some(cls))
  }

  /** SwiftSoup's `hasClass(_:)`, as exact class-token membership. */
  predicate HasClass(e: Element, c: string) {
    c in e.classes
  }

  /** SwiftSoup's `className()`: the class attribute as written. */
  function ClassName(e: Element): string {
    Join(e.classes, " ")
  }

  predicate Matches(e: Element, sel: Selector) {
    e.tag == sel.tag && (sel.cls.None? || HasClass(e, sel.cls.value))
  }

  /** `e.select(sel)`: `e` itself when it matches, then every matching
      descendant, in document order. */
  function Select(e: Element, sel: Selector): (r: seq<Element>)
    decreases e
    ensures forall x | x in r :: Matches(x, sel)
    ensures Matches(e, sel) <==> |r| > 0 && r[0] == e
  {
    (if Matches(e, sel) then [e] else []) + SelectAll(e.children, sel)
  }

  /** The concatenation of `select(sel)` over a run of sibling elements. */
  function SelectAll(es: seq<Element>, sel: Selector): (r: seq<Element>)
    decreases es
    ensures forall x | x in r :: Matches(x, sel)
  {
    if |es| == 0 then [] else Select(es[0], sel) + SelectAll(es[1..], sel)
  }

  /** `x` is `e` itself or lies somewhere below it. */
  predicate Within(x: Element, e: Element)
    decreases e
  {
    x == e || exists k | 0 <= k < |e.children| :: Within(x, e.children[k])
  }

  /** `select` finds exactly the matching elements of the subtree: an
      element is selected if and only if it matches and lies within `e`. */
  lemma {:induction false} SelectFindsExactly(e: Element, sel: Selector)
    decreases e
    ensures forall x :: x in Select(e, sel) <==> Matches(x, sel) && Within(x, e)
  {
    SelectAllFindsExactly(e.children, sel);
  }

  lemma {:induction false} SelectAllFindsExactly(es: seq<Element>, sel: Selector)
    decreases es
    ensures forall x :: x in SelectAll(es, sel) <==>
              Matches(x, sel) && exists k | 0 <= k < |es| :: Within(x, es[k])
  {
    if |es| > 0 {
      SelectFindsExactly(es[0], sel);
      SelectAllFindsExactly(es[1..], sel);
      forall x
        ensures (exists k | 0 <= k < |es| :: Within(x, es[k]))
            <==> Within(x, es[0]) || exists k | 0 <= k < |es[1..]| :: Within(x, es[1..][k])
      {
        if exists k | 0 <= k < |es| :: Within(x, es[k]) {
          var k :| 0 <= k < |es| && Within(x, es[k]);
          if k > 0 {
            assert es[1..][k - 1] == es[k];
          }
        }
        if exists k | 0 <= k < |es[1..]| :: Within(x, es[1..][k]) {
          var k :| 0 <= k < |es[1..]| && Within(x, es[1..][k]);
          assert es[k + 1] == es[1..][k];
        }
      }
    }
  }

  /** Selection over siblings respects their order. */
  lemma {:induction false} SelectAllAppend(a: seq<Element>, b: seq<Element>, sel: Selector)
    ensures SelectAll(a + b, sel) == SelectAll(a, sel) + SelectAll(b, sel)
    decreases |a|
  {
    if a == [] {
      assert a + b == b;
    } else {
      var ab := a + b;
      assert ab[0] == a[0] && ab[1..] == a[1..] + b;
      SelectAllAppend(a[1..], b, sel);
      var head := Select(a[0], sel);
      calc {
        SelectAll(ab, sel);
        head + SelectAll(a[1..] + b, sel);
        head + (SelectAll(a[1..], sel) + SelectAll(b, sel));
        (head + SelectAll(a[1..], sel)) + SelectAll(b, sel);
        SelectAll(a, sel) + SelectAll(b, sel);
      }
    }
  }

  /** Selecting from an element without children finds at most itself. */
  lemma SelectLeaf(e: Element, sel: Selector)
    requires e.children == []
    ensures Select(e, sel) == if Matches(e, sel) then [e] else []
  {
    assert SelectAll(e.children, sel) == [];
  }

  /** Selection over two siblings is selection over each, in order. */
  lemma SelectAllTwo(a: Element, b: Element, sel: Selector)
    ensures SelectAll([a, b], sel) == Select(a, sel) + Select(b, sel)
  {
    assert [a, b][1..] == [b];
    assert SelectAll([b], sel) == Select(b, sel) + SelectAll([], sel);
  }

  /** Selecting from an element with two children. */
  lemma SelectTwoChildren(e: Element, a: Element, b: Element, sel: Selector)
    requires e.children == [a, b]
    ensures Select(e, sel) == (if Matches(e, sel) then [e] else []) + Select(a, sel) + Select(b, sel)
  {
    SelectAllTwo(a, b, sel);
  }

  /** Selecting from an element whose two children are leaves. */
  lemma SelectTwoLeaves(e: Element, a: Element, b: Element, sel: Selector)
    requires e.children == [a, b] && a.children == [] && b.children == []
    ensures Select(e, sel) ==
              (if Matches(e, sel) then [e] else [])
              + (if Matches(a, sel) then [a] else [])
              + (if Matches(b, sel) then [b] else [])
  {
    SelectTwoChildren(e, a, b, sel);
    SelectLeaf(a, sel);
    SelectLeaf(b, sel);
  }

  /** `elements.first()` */
  function First<T>(s: seq<T>): (r: Option<T>)
    ensures r.None? <==> s == []
    ensures r.Some? ==> r.value == s[0]
  {
    if |s| == 0 then None else Some(s[0])
  }

  /** `e.select(sel).first()` */
  function SelectFirst(e: Element, sel: Selector): Option<Element> {
    First(Select(e, sel))
  }

  /** `e.select("anc sel")` below an element whose own ancestry already
      matches `anc` exactly when `inside` holds: every element matching `sel`
      that has an ancestor matching `anc`, in document order, each once. */
  function SelectInside(e: Element, anc: Selector, sel: Selector, inside: bool): (r: seq<Element>)
    decreases e
    ensures forall x | x in r :: Matches(x, sel)
    ensures !inside && !Matches(e, anc) ==> r == SelectInsideAll(e.children, anc, sel, false)
  {
    (if inside && Matches(e, sel) then [e] else [])
    + SelectInsideAll(e.children, anc, sel, inside || Matches(e, anc))
  }

  function SelectInsideAll(es: seq<Element>, anc: Selector, sel: Selector, inside: bool): (r: seq<Element>)
    decreases es
    ensures forall x | x in r :: Matches(x, sel)
  {
    if |es| == 0 then []
    else SelectInside(es[0], anc, sel, inside) + SelectInsideAll(es[1..], anc, sel, inside)
  }

  /** `e.select("anc sel")`: the root itself has no ancestor inside `e`. */
  function SelectDescendants(e: Element, anc: Selector, sel: Selector): (r: seq<Element>)
    ensures forall x | x in r :: Matches(x, sel)
  {
    SelectInside(e, anc, sel, false)
  }

  /** `x` lies strictly below an element of `e`'s subtree (`e` included)
      that matches `anc`. */
  predicate Under(x: Element, e: Element, anc: Selector)
    decreases e
  {
    || (Matches(e, anc) && exists k | 0 <= k < |e.children| :: Within(x, e.children[k]))
    || exists k | 0 <= k < |e.children| :: Under(x, e.children[k], anc)
  }

  /** The descendant selector finds exactly the matching elements that lie
      below an `anc` element, or anywhere in the subtree when the ancestry
      already matches. */
  lemma {:induction false} SelectInsideFindsExactly(e: Element, anc: Selector, sel: Selector, inside: bool)
    decreases e
    ensures forall x :: x in SelectInside(e, anc, sel, inside) <==>
              Matches(x, sel) && ((inside && Within(x, e)) || Under(x, e, anc))
  {
    SelectInsideAllFindsExactly(e.children, anc, sel, inside || Matches(e, anc));
  }

  lemma {:induction false} SelectInsideAllFindsExactly(es: seq<Element>, anc: Selector, sel: Selector, inside: bool)
    decreases es
    ensures forall x :: x in SelectInsideAll(es, anc, sel, inside) <==>
              Matches(x, sel) && exists k | 0 <= k < |es| :: (inside && Within(x, es[k])) || Under(x, es[k], anc)
  {
    if |es| > 0 {
      SelectInsideFindsExactly(es[0], anc, sel, inside);
      SelectInsideAllFindsExactly(es[1..], anc, sel, inside);
      forall x
        ensures (exists k | 0 <= k < |es| :: (inside && Within(x, es[k])) || Under(x, es[k], anc))
            <==> ((inside && Within(x, es[0])) || Under(x, es[0], anc))
                 || exists k | 0 <= k < |es[1..]| :: (inside && Within(x, es[1..][k])) || Under(x, es[1..][k], anc)
      {
        if exists k | 0 <= k < |es| :: (inside && Within(x, es[k])) || Under(x, es[k], anc) {
          var k :| 0 <= k < |es| && ((inside && Within(x, es[k])) || Under(x, es[k], anc));
          if k > 0 {
            assert es[1..][k - 1] == es[k];
          }
        }
        if exists k | 0 <= k < |es[1..]| :: (inside && Within(x, es[1..][k])) || Under(x, es[1..][k], anc) {
          var k :| 0 <= k < |es[1..]| && ((inside && Within(x, es[1..][k])) || Under(x, es[1..][k], anc));
          assert es[k + 1] == es[1..][k];
        }
      }
    }
  }

  /** `e.select("anc sel")` returns exactly the elements matching `sel` that
      lie below an element of the subtree matching `anc`. */
  lemma DescendantsFindsExactly(e: Element, anc: Selector, sel: Selector)
    ensures forall x :: x in SelectDescendants(e, anc, sel) <==> Matches(x, sel) && Under(x, e, anc)
  {
    SelectInsideFindsExactly(e, anc, sel, false);
  }

  /** `texts` of a run of elements, as `map { try $0.text() }`. */
  function Texts(es: seq<Element>): (r: seq<string>)
    ensures |r| == |es|
    ensures forall i | 0 <= i < |es| :: r[i] == es[i].text
  {
    if |es| == 0 then [] else [es[0].text] + Texts(es[1..])
  }
}
