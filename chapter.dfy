/** The tree rewrites AddChapter applies to a parsed chapter before it is
    serialised (libEpub/Book.cs:189-195): the title lookup, CleanUpTags and
    AddCssReference. */
module Chapter {
  import opened Options
  import opened Digits
  import opened Markup

  /** GetChapterTitle (Book.cs:420-424): the string value of the first title
      element, or the chapter counter in decimal when there is none. */
  function ChapterTitle(doc: seq<Node>, counter: nat): string {
    var titles := ElementsByTagName(doc, "title");
    if titles == [] then Decimal(counter) else InnerText(titles[0])
  }

  /** The title is the text of the first title element met in a pre-order
      walk of the chapter; without one it is the counter, which can be read
      back from it. */
  lemma {:induction false} ChapterTitleFallback(doc: seq<Node>, counter: nat)
    ensures WithTags(Subtrees(doc), {"title"}) == [] ==>
              Canonical(ChapterTitle(doc, counter)) && ParseDecimal(ChapterTitle(doc, counter)) == counter
    ensures WithTags(Subtrees(doc), {"title"}) != [] ==>
              ChapterTitle(doc, counter) == InnerText(WithTags(Subtrees(doc), {"title"})[0])
  {
    ElementsByTagNameInOrder(doc, "title");
    ParseDecimalOfDecimal(counter);
  }

  /* ---------------------------------------------------------------------
     CleanUpTags
     --------------------------------------------------------------------- */

  /** CleanUpTags (Book.cs:208-227): nothing happens without a body; otherwise the
      first body loses its attributes and the anchors become underlined divs. */
  function CleanUpTags(doc: seq<Node>): seq<Node> {
    if ElementsByTagName(doc, "body") == [] then doc
    else ReplaceAnchors(EditFirst(doc, "body", ClearAttributes))
  }

  /** An edit of an element that is not there changes nothing. */
  lemma {:induction false} EditFirstAbsent(ns: seq<Node>, tag: string, e: Edit)
    requires ElementsByTagName(ns, tag) == []
    ensures EditFirst(ns, tag, e) == ns
    decreases ns
  {
    if ns != [] {
      ElementsByTagNameConcat([ns[0]], ns[1..], tag);
      ConsSplit(ns[0], []);
      assert ns == [ns[0]] + ns[1..];
      EditFirstAbsent(ns[1..], tag, e);
    }
  }

  /** Clearing attributes does not change the anchors' nesting. */
  lemma {:induction false} ClearKeepsNoNestedAnchors(ns: seq<Node>, tag: string)
    requires NoNestedAnchors(ns)
    ensures NoNestedAnchors(EditFirst(ns, tag, ClearAttributes))
    decreases ns
  {
    if ns != [] {
      var r := EditFirst(ns, tag, ClearAttributes);
      ClearKeepsNoNestedAnchorsOf(ns[0], tag);
      if ElementsByTagNameOf(ns[0], tag) != [] {
        forall i | 0 <= i < |r| ensures NoNestedAnchorsOf(r[i]) {
          if i > 0 {
            assert r[i] == ns[i];
          }
        }
      } else {
        var t := EditFirst(ns[1..], tag, ClearAttributes);
        assert NoNestedAnchors(ns[1..]) by {
          forall i | 0 <= i < |ns[1..]| ensures NoNestedAnchorsOf(ns[1..][i]) {
            assert ns[1..][i] == ns[i + 1];
          }
        }
        ClearKeepsNoNestedAnchors(ns[1..], tag);
        forall i | 0 <= i < |r| ensures NoNestedAnchorsOf(r[i]) {
          if i > 0 {
            assert r[i] == t[i - 1];
          }
        }
      }
    }
  }

  lemma {:induction false} ClearKeepsNoNestedAnchorsOf(n: Node, tag: string)
    requires NoNestedAnchorsOf(n)
    ensures NoNestedAnchorsOf(EditFirstOf(n, tag, ClearAttributes))
    decreases n
  {
    if n.Element? && n.tag != tag {
      if n.tag == "a" {
        EditFirstAbsentOrCounted(n.children, tag);
      } else {
        ClearKeepsNoNestedAnchors(n.children, tag);
      }
    }
  }

  /** Clearing attributes adds no anchor. */
  lemma {:induction false} EditFirstAbsentOrCounted(ns: seq<Node>, tag: string)
    requires ElementsByTagName(ns, "a") == []
    ensures ElementsByTagName(EditFirst(ns, tag, ClearAttributes), "a") == []
  {
    if ElementsByTagName(ns, tag) == [] {
      EditFirstAbsent(ns, tag, ClearAttributes);
    } else {
      EditFirstCount(ns, tag, ClearAttributes, "a");
    }
  }

  /** Clearing attributes keeps the document's text. */
  lemma {:induction false} ClearKeepsText(ns: seq<Node>, tag: string)
    ensures InnerTextIn(EditFirst(ns, tag, ClearAttributes)) == InnerTextIn(ns)
    decreases ns
  {
    if ns != [] {
      var r := EditFirst(ns, tag, ClearAttributes);
      ClearKeepsTextOf(ns[0], tag);
      if ElementsByTagNameOf(ns[0], tag) != [] {
        ConsSplit(EditFirstOf(ns[0], tag, ClearAttributes), ns[1..]);
      } else {
        ClearKeepsText(ns[1..], tag);
        ConsSplit(ns[0], EditFirst(ns[1..], tag, ClearAttributes));
      }
    }
  }

  lemma {:induction false} ClearKeepsTextOf(n: Node, tag: string)
    ensures InnerText(EditFirstOf(n, tag, ClearAttributes)) == InnerText(n)
    decreases n
  {
    if n.Element? && n.tag != tag {
      ClearKeepsText(n.children, tag);
    }
  }

  /** What CleanUpTags does to a chapter: without a body nothing changes; with
      one, the first body has no attributes, every other element keeps its
      attributes, each anchor turns into one div, the text is kept, and no
      anchor is left when none was nested in another. */
  lemma {:induction false} CleanUpTagsEffect(doc: seq<Node>)
    ensures ElementsByTagName(doc, "body") == [] ==> CleanUpTags(doc) == doc
    ensures ElementsByTagName(doc, "body") != [] ==>
              var r := CleanUpTags(doc);
              && ElementsByTagName(r, "body") != []
              && ElementsByTagName(r, "body")[0].attrs == []
              && |ElementsByTagName(r, "body")| == |ElementsByTagName(doc, "body")|
              && |ElementsByTagName(r, "a")| + |ElementsByTagName(r, "div")|
                 == |ElementsByTagName(doc, "a")| + |ElementsByTagName(doc, "div")|
              && InnerTextIn(r) == InnerTextIn(doc)
              && (NoNestedAnchors(doc) ==> ElementsByTagName(r, "a") == [])
    ensures forall u :: u != "a" && u != "div" && u != "body" ==>
              AttributesOf(ElementsByTagName(CleanUpTags(doc), u)) == AttributesOf(ElementsByTagName(doc, u))
  {
    if ElementsByTagName(doc, "body") != [] {
      var c := EditFirst(doc, "body", ClearAttributes);
      var r := ReplaceAnchors(c);
      EditFirstIsFirst(doc, "body", ClearAttributes);
      EditFirstCount(doc, "body", ClearAttributes, "body");
      EditFirstCount(doc, "body", ClearAttributes, "a");
      EditFirstCount(doc, "body", ClearAttributes, "div");
      ReplaceAnchorsKeepsAttributes(c, "body");
      assert AttributesOf(ElementsByTagName(r, "body"))[0] == AttributesOf(ElementsByTagName(c, "body"))[0];
      ReplaceAnchorsCount(c);
      ClearKeepsText(doc, "body");
      ReplaceAnchorsKeepsText(c);
      if NoNestedAnchors(doc) {
        ClearKeepsNoNestedAnchors(doc, "body");
        ReplaceAnchorsRemovesAll(c);
      }
      forall u | u != "a" && u != "div" && u != "body"
        ensures AttributesOf(ElementsByTagName(r, u)) == AttributesOf(ElementsByTagName(doc, u))
      {
        EditFirstKeepsAttributes(doc, "body", ClearAttributes, u);
        ReplaceAnchorsKeepsAttributes(c, u);
      }
    }
  }

  /** An anchor or div after the body edit, next to the one before it: the
      same tag, attributes and text, and the very same element when no body
      lies inside it. */
  predicate Kept(x: Node, y: Node) {
    && x.Element? && y.Element? && y.tag == x.tag && y.attrs == x.attrs
    && InnerText(y) == InnerText(x)
    && (ElementsByTagNameOf(x, "body") == [] ==> y == x)
  }

  predicate KeptAll(xs: seq<Node>, ys: seq<Node>) {
    |ys| == |xs| && forall i :: 0 <= i < |xs| ==> Kept(xs[i], ys[i])
  }

  lemma {:induction false} KeptAllConcat(xs1: seq<Node>, ys1: seq<Node>, xs2: seq<Node>, ys2: seq<Node>)
    requires KeptAll(xs1, ys1) && KeptAll(xs2, ys2)
    ensures KeptAll(xs1 + xs2, ys1 + ys2)
  {
    forall i | 0 <= i < |xs1 + xs2| ensures Kept((xs1 + xs2)[i], (ys1 + ys2)[i]) {
      if i >= |xs1| {
        assert (xs1 + xs2)[i] == xs2[i - |xs1|] && (ys1 + ys2)[i] == ys2[i - |xs1|];
      }
    }
  }

  lemma {:induction false} KeptAllSame(xs: seq<Node>)
    requires forall i :: 0 <= i < |xs| ==> xs[i].Element?
    ensures KeptAll(xs, xs)
  {
  }

  /** Clearing the first body's attributes leaves the anchors and divs, in
      document order, with their tags, attributes and text. */
  lemma {:induction false} ClearKeepsAnchorsAndDivs(ns: seq<Node>)
    ensures KeptAll(WithTags(Subtrees(ns), {"a", "div"}),
                    WithTags(Subtrees(EditFirst(ns, "body", ClearAttributes)), {"a", "div"}))
    decreases ns
  {
    var ad := {"a", "div"};
    if ns == [] {
    } else {
      var r := EditFirst(ns, "body", ClearAttributes);
      assert ns == [ns[0]] + ns[1..];
      SubtreesCons(ns[0], ns[1..]);
      WithTagsConcat(SubtreesOf(ns[0]), Subtrees(ns[1..]), ad);
      if ElementsByTagNameOf(ns[0], "body") != [] {
        var e := EditFirstOf(ns[0], "body", ClearAttributes);
        SubtreesCons(e, ns[1..]);
        WithTagsConcat(SubtreesOf(e), Subtrees(ns[1..]), ad);
        ClearKeepsAnchorsAndDivsOf(ns[0]);
        KeptAllSame(WithTags(Subtrees(ns[1..]), ad));
        KeptAllConcat(WithTags(SubtreesOf(ns[0]), ad), WithTags(SubtreesOf(e), ad),
                      WithTags(Subtrees(ns[1..]), ad), WithTags(Subtrees(ns[1..]), ad));
      } else {
        var t := EditFirst(ns[1..], "body", ClearAttributes);
        SubtreesCons(ns[0], t);
        WithTagsConcat(SubtreesOf(ns[0]), Subtrees(t), ad);
        ClearKeepsAnchorsAndDivs(ns[1..]);
        KeptAllSame(WithTags(SubtreesOf(ns[0]), ad));
        KeptAllConcat(WithTags(SubtreesOf(ns[0]), ad), WithTags(SubtreesOf(ns[0]), ad),
                      WithTags(Subtrees(ns[1..]), ad), WithTags(Subtrees(t), ad));
      }
    }
  }

  lemma {:induction false} ClearKeepsAnchorsAndDivsOf(n: Node)
    ensures KeptAll(WithTags(SubtreesOf(n), {"a", "div"}),
                    WithTags(SubtreesOf(EditFirstOf(n, "body", ClearAttributes)), {"a", "div"}))
    decreases n
  {
    var ad := {"a", "div"};
    var m := EditFirstOf(n, "body", ClearAttributes);
    if n.Text? {
      KeptAllSame(WithTags(SubtreesOf(n), ad));
    } else {
      assert [n][1..] == [] && [m][1..] == [];
      WithTagsConcat([n], Subtrees(n.children), ad);
      WithTagsConcat([m], Subtrees(m.children), ad);
      if n.tag == "body" {
        KeptAllSame(WithTags(SubtreesOf(n), ad));
      } else {
        ClearKeepsAnchorsAndDivs(n.children);
        ClearKeptOf(n);
        assert KeptAll(WithTags([n], ad), WithTags([m], ad));
        KeptAllConcat(WithTags([n], ad), WithTags([m], ad),
                      WithTags(Subtrees(n.children), ad), WithTags(Subtrees(m.children), ad));
      }
    }
  }

  /** An element other than a body keeps its tag, attributes and text when
      the first body under it is cleared, and is unchanged without one. */
  lemma {:induction false} ClearKeptOf(n: Node)
    requires n.Element? && n.tag != "body"
    ensures Kept(n, EditFirstOf(n, "body", ClearAttributes))
  {
    ClearKeepsText(n.children, "body");
    if ElementsByTagName(n.children, "body") == [] {
      EditFirstAbsent(n.children, "body", ClearAttributes);
    }
  }

  /** How CleanUpTags turns anchors into divs (Book.cs:217-226): with a body and
      no anchor nested in another, the anchors and divs of the chapter
      correspond one for one, in document order, to the divs afterwards.  An
      anchor becomes a div whose only attribute is the underline style, with
      the anchor's text, and with the anchor's very children unless the
      cleared body lies inside it; a div keeps its attributes and its text. */
  lemma {:induction false} CleanUpTagsDivs(doc: seq<Node>)
    requires NoNestedAnchors(doc)
    ensures ElementsByTagName(doc, "body") != [] ==>
              var before := WithTags(Subtrees(doc), {"a", "div"});
              var after := ElementsByTagName(CleanUpTags(doc), "div");
              && |after| == |before|
              && forall i :: 0 <= i < |before| ==>
                   && InnerText(after[i]) == InnerText(before[i])
                   && (before[i].tag == "a" ==>
                         && after[i].attrs == [Underline]
                         && (ElementsByTagNameOf(before[i], "body") == [] ==>
                               after[i] == Element("div", [Underline], before[i].children)))
                   && (before[i].tag == "div" ==> after[i].attrs == before[i].attrs)
  {
    if ElementsByTagName(doc, "body") != [] {
      var c := EditFirst(doc, "body", ClearAttributes);
      var before := WithTags(Subtrees(doc), {"a", "div"});
      ClearKeepsNoNestedAnchors(doc, "body");
      ClearKeepsAnchorsAndDivs(doc);
      ReplaceAnchorsDivs(c);
    }
  }

  /* ---------------------------------------------------------------------
     AddCssReference
     --------------------------------------------------------------------- */

  /** The element CreateLinkToStylesheet builds (Book.cs:426-434). */
  const StylesheetLink := Element("link", [Attr("href", "stylesheet.css"), Attr("rel", "stylesheet"), Attr("type", "text/css")], [])

  /** AddCssReference (Book.cs:330-359).  The first head is looked up before the
      links are removed; when it lies inside a link it is removed with it, and
      the stylesheet link is appended to that detached head, so the chapter gets
      none.  Without an html element the source dereferences null: None. */
  function AddCssReference(doc: seq<Node>): Option<seq<Node>> {
    var hasHead := ElementsByTagName(doc, "head") != [];
    var detached := hasHead && FirstInside(doc, "head", "link", false);
    var stripped := RemoveElements(doc, "link");
    if ElementsByTagName(stripped, "html") == [] then None
    else
      var cleared := EditFirst(stripped, "html", ClearAttributes);
      if !hasHead then Some(EditFirst(cleared, "html", PrependChild(Element("head", [], [StylesheetLink]))))
      else if detached then Some(cleared)
      else Some(EditFirst(cleared, "head", AppendChild(StylesheetLink)))
  }

  /** Once inside the outer tag, the first element is inside it. */
  lemma {:induction false} FirstInsideSticky(ns: seq<Node>, tag: string, outer: string)
    requires ElementsByTagName(ns, tag) != []
    ensures FirstInside(ns, tag, outer, true)
    decreases ns
  {
    if ElementsByTagNameOf(ns[0], tag) != [] {
      FirstInsideStickyOf(ns[0], tag, outer);
    } else {
      FirstInsideSticky(ns[1..], tag, outer);
    }
  }

  lemma {:induction false} FirstInsideStickyOf(n: Node, tag: string, outer: string)
    requires ElementsByTagNameOf(n, tag) != []
    ensures FirstInsideOf(n, tag, outer, true)
    decreases n
  {
    if n.tag != tag {
      FirstInsideSticky(n.children, tag, outer);
    }
  }

  /** Removing elements brings in no element of another tag. */
  lemma {:induction false} RemoveAddsNone(ns: seq<Node>, tag: string, outer: string)
    requires ElementsByTagName(ns, tag) == []
    ensures ElementsByTagName(RemoveElements(ns, outer), tag) == []
    decreases ns
  {
    if ns != [] {
      ElementsByTagNameConcat([ns[0]], ns[1..], tag);
      ConsSplit(ns[0], []);
      RemoveAddsNone(ns[1..], tag, outer);
      if !(ns[0].Element? && ns[0].tag == outer) {
        RemoveAddsNoneOf(ns[0], tag, outer);
        ElementsByTagNameConcat([RemoveElementsOf(ns[0], outer)], RemoveElements(ns[1..], outer), tag);
        ConsSplit(RemoveElementsOf(ns[0], outer), []);
      }
    }
  }

  lemma {:induction false} RemoveAddsNoneOf(n: Node, tag: string, outer: string)
    requires ElementsByTagNameOf(n, tag) == []
    ensures ElementsByTagNameOf(RemoveElementsOf(n, outer), tag) == []
    decreases n
  {
    if n.Element? {
      RemoveAddsNone(n.children, tag, outer);
    }
  }

  /** A first element that is not inside an outer element survives the removal
      of the outer elements and stays first. */
  lemma {:induction false} RemoveKeepsFirst(ns: seq<Node>, tag: string, outer: string)
    requires tag != outer
    requires ElementsByTagName(ns, tag) != [] && !FirstInside(ns, tag, outer, false)
    ensures ElementsByTagName(RemoveElements(ns, outer), tag) != []
    ensures ElementsByTagName(RemoveElements(ns, outer), tag)[0]
            == RemoveElementsOf(ElementsByTagName(ns, tag)[0], outer)
    decreases ns
  {
    if ElementsByTagNameOf(ns[0], tag) != [] {
      if ns[0].tag == outer {
        FirstInsideSticky(ns[0].children, tag, outer);
        assert false;
      }
      RemoveKeepsFirstOf(ns[0], tag, outer);
      ElementsByTagNameConcat([RemoveElementsOf(ns[0], outer)], RemoveElements(ns[1..], outer), tag);
      ConsSplit(RemoveElementsOf(ns[0], outer), []);
    } else {
      RemoveKeepsFirst(ns[1..], tag, outer);
      if !(ns[0].Element? && ns[0].tag == outer) {
        RemoveAddsNoneOf(ns[0], tag, outer);
        ElementsByTagNameConcat([RemoveElementsOf(ns[0], outer)], RemoveElements(ns[1..], outer), tag);
        ConsSplit(RemoveElementsOf(ns[0], outer), []);
      }
    }
  }

  lemma {:induction false} RemoveKeepsFirstOf(n: Node, tag: string, outer: string)
    requires tag != outer
    requires ElementsByTagNameOf(n, tag) != [] && !FirstInsideOf(n, tag, outer, false)
    ensures ElementsByTagNameOf(RemoveElementsOf(n, outer), tag) != []
    ensures ElementsByTagNameOf(RemoveElementsOf(n, outer), tag)[0]
            == RemoveElementsOf(ElementsByTagNameOf(n, tag)[0], outer)
    decreases n
  {
    if n.tag != tag {
      if n.tag == outer {
        FirstInsideSticky(n.children, tag, outer);
        assert false;
      }
      RemoveKeepsFirst(n.children, tag, outer);
    }
  }

  /** The head AddCssReference creates when the chapter has none. */
  const NewHead := Element("head", [], [StylesheetLink])

  lemma {:induction false} StylesheetQueries()
    ensures ElementsByTagNameOf(StylesheetLink, "link") == [StylesheetLink]
    ensures forall u :: u != "link" ==> ElementsByTagNameOf(StylesheetLink, u) == []
    ensures ElementsByTagNameOf(NewHead, "head") == [NewHead]
    ensures ElementsByTagNameOf(NewHead, "link") == [StylesheetLink]
    ensures ElementsByTagNameOf(NewHead, "html") == []
  {
    ConsSplit(StylesheetLink, []);
    assert ElementsByTagName([StylesheetLink], "head") == ElementsByTagNameOf(StylesheetLink, "head") == [];
    assert ElementsByTagName([StylesheetLink], "html") == ElementsByTagNameOf(StylesheetLink, "html") == [];
    assert ElementsByTagName([StylesheetLink], "link") == ElementsByTagNameOf(StylesheetLink, "link");
  }

  /** AddCssReference fails exactly when no html element is left once the links
      are gone; otherwise the first html element has no attributes. */
  lemma {:induction false} AddCssReferenceHtml(doc: seq<Node>)
    ensures AddCssReference(doc).None? <==> ElementsByTagName(RemoveElements(doc, "link"), "html") == []
    ensures AddCssReference(doc).Some? ==>
              var r := AddCssReference(doc).value;
              ElementsByTagName(r, "html") != [] && ElementsByTagName(r, "html")[0].attrs == []
  {
    var stripped := RemoveElements(doc, "link");
    if ElementsByTagName(stripped, "html") != [] {
      var cleared := EditFirst(stripped, "html", ClearAttributes);
      EditFirstIsFirst(stripped, "html", ClearAttributes);
      var r := AddCssReference(doc).value;
      if ElementsByTagName(doc, "head") == [] {
        EditFirstIsFirst(cleared, "html", PrependChild(NewHead));
      } else if !FirstInside(doc, "head", "link", false) {
        RemoveKeepsFirst(doc, "head", "link");
        EditFirstCount(stripped, "html", ClearAttributes, "head");
        StylesheetQueries();
        EditFirstCount(cleared, "head", AppendChild(StylesheetLink), "html");
        EditFirstKeepsAttributes(cleared, "head", AppendChild(StylesheetLink), "html");
        assert AttributesOf(ElementsByTagName(r, "html"))[0] == AttributesOf(ElementsByTagName(cleared, "html"))[0];
      }
    }
  }

  /** Without a head, the stylesheet link is the only link, inside a new head
      that is the only head and the first child of the html element. */
  lemma {:induction false} AddCssReferenceNewHead(doc: seq<Node>)
    requires ElementsByTagName(doc, "head") == [] && AddCssReference(doc).Some?
    ensures var r := AddCssReference(doc).value;
            && |ElementsByTagName(r, "link")| == 1
            && ElementsByTagName(r, "head") == [NewHead]
            && ElementsByTagName(r, "html") != []
            && var c := ElementsByTagName(r, "html")[0].children;
               c != [] && c[0] == NewHead
  {
    var stripped := RemoveElements(doc, "link");
    var cleared := EditFirst(stripped, "html", ClearAttributes);
    var e := PrependChild(NewHead);
    RemoveElementsRemovesAll(doc, "link");
    RemoveAddsNone(doc, "head", "link");
    StylesheetQueries();
    EditFirstCount(stripped, "html", ClearAttributes, "link");
    EditFirstCount(stripped, "html", ClearAttributes, "head");
    EditFirstIsFirst(stripped, "html", ClearAttributes);
    EditFirstIsFirst(cleared, "html", e);
    EditFirstCount(cleared, "html", e, "link");
    EditFirstCount(cleared, "html", e, "head");
    NewHeadIsTheHead(cleared, e);
  }

  lemma {:induction false} NewHeadIsTheHead(cleared: seq<Node>, e: Edit)
    requires e == PrependChild(NewHead)
    requires ElementsByTagName(cleared, "html") != [] && ElementsByTagName(cleared, "head") == []
    ensures |ElementsByTagName(EditFirst(cleared, "html", e), "head")| == 1
    ensures ElementsByTagName(EditFirst(cleared, "html", e), "head") == [NewHead]
  {
    StylesheetQueries();
    EditFirstCount(cleared, "html", e, "head");
    var hs := ElementsByTagName(EditFirst(cleared, "html", e), "head");
    EditFirstIsFirst(cleared, "html", e);
    var html := ElementsByTagName(EditFirst(cleared, "html", e), "html")[0];
    HeadBeforeHtmlIn(EditFirst(cleared, "html", e), html);
  }

  /** The heads of a forest whose first html element starts with NewHead: when
      there is at most one, it is NewHead. */
  lemma {:induction false} HeadBeforeHtmlOf(n: Node, html: Node)
    requires ElementsByTagNameOf(n, "html") != [] && html == ElementsByTagNameOf(n, "html")[0]
    requires html.children != [] && html.children[0] == NewHead
    requires |ElementsByTagNameOf(n, "head")| <= 1
    ensures ElementsByTagNameOf(n, "head") == [NewHead]
    decreases n
  {
    StylesheetQueries();
    if n.tag == "html" {
      ElementsByTagNameConcat([NewHead], n.children[1..], "head");
      ConsSplit(NewHead, []);
      assert n.children == [NewHead] + n.children[1..];
    } else {
      HeadBeforeHtmlIn(n.children, html);
    }
  }

  lemma {:induction false} HeadBeforeHtmlIn(ns: seq<Node>, html: Node)
    requires ElementsByTagName(ns, "html") != [] && html == ElementsByTagName(ns, "html")[0]
    requires html.children != [] && html.children[0] == NewHead
    requires |ElementsByTagName(ns, "head")| <= 1
    ensures ElementsByTagName(ns, "head") == [NewHead]
    decreases ns
  {
    StylesheetQueries();
    ElementsByTagNameConcat([ns[0]], ns[1..], "head");
    ElementsByTagNameConcat([ns[0]], ns[1..], "html");
    ConsSplit(ns[0], []);
    if ElementsByTagNameOf(ns[0], "html") != [] {
      HeadBeforeHtmlOf(ns[0], html);
    } else {
      if ElementsByTagNameOf(ns[0], "head") != [] {
        HeadCountOnly(ns[1..], html);
      }
      HeadBeforeHtmlIn(ns[1..], html);
    }
  }

  /** A forest whose first html element starts with NewHead has a head. */
  lemma {:induction false} HeadCountOnly(ns: seq<Node>, html: Node)
    requires ElementsByTagName(ns, "html") != [] && html == ElementsByTagName(ns, "html")[0]
    requires html.children != [] && html.children[0] == NewHead
    ensures ElementsByTagName(ns, "head") != []
    decreases ns
  {
    StylesheetQueries();
    ElementsByTagNameConcat([ns[0]], ns[1..], "head");
    ElementsByTagNameConcat([ns[0]], ns[1..], "html");
    ConsSplit(ns[0], []);
    if ElementsByTagNameOf(ns[0], "html") != [] {
      HeadCountOnlyOf(ns[0], html);
    } else {
      HeadCountOnly(ns[1..], html);
    }
  }

  lemma {:induction false} HeadCountOnlyOf(n: Node, html: Node)
    requires ElementsByTagNameOf(n, "html") != [] && html == ElementsByTagNameOf(n, "html")[0]
    requires html.children != [] && html.children[0] == NewHead
    ensures ElementsByTagNameOf(n, "head") != []
    decreases n
  {
    StylesheetQueries();
    if n.tag == "html" {
      ElementsByTagNameConcat([NewHead], n.children[1..], "head");
      ConsSplit(NewHead, []);
      assert n.children == [NewHead] + n.children[1..];
    } else {
      HeadCountOnly(n.children, html);
    }
  }

  /** With a head that is not inside a link, the stylesheet link is the only
      link and the last child of the first head, which keeps its attributes. */
  lemma {:induction false} AddCssReferenceExistingHead(doc: seq<Node>)
    requires ElementsByTagName(doc, "head") != [] && !FirstInside(doc, "head", "link", false)
    requires AddCssReference(doc).Some?
    ensures var r := AddCssReference(doc).value;
            && |ElementsByTagName(r, "link")| == 1
            && ElementsByTagName(r, "head") != []
            && ElementsByTagName(r, "head")[0].attrs == ElementsByTagName(doc, "head")[0].attrs
            && var c := ElementsByTagName(r, "head")[0].children;
               c != [] && c[|c| - 1] == StylesheetLink
  {
    var stripped := RemoveElements(doc, "link");
    var cleared := EditFirst(stripped, "html", ClearAttributes);
    var e := AppendChild(StylesheetLink);
    RemoveElementsRemovesAll(doc, "link");
    RemoveKeepsFirst(doc, "head", "link");
    StylesheetQueries();
    EditFirstCount(stripped, "html", ClearAttributes, "link");
    EditFirstCount(stripped, "html", ClearAttributes, "head");
    EditFirstKeepsAttributes(stripped, "html", ClearAttributes, "head");
    assert AttributesOf(ElementsByTagName(cleared, "head"))[0] == AttributesOf(ElementsByTagName(stripped, "head"))[0];
    EditFirstIsFirst(cleared, "head", e);
    EditFirstCount(cleared, "head", e, "link");
  }

  /** With the first head inside a link, no link is left at all. */
  lemma {:induction false} AddCssReferenceDetachedHead(doc: seq<Node>)
    requires ElementsByTagName(doc, "head") != [] && FirstInside(doc, "head", "link", false)
    requires AddCssReference(doc).Some?
    ensures ElementsByTagName(AddCssReference(doc).value, "link") == []
  {
    var stripped := RemoveElements(doc, "link");
    RemoveElementsRemovesAll(doc, "link");
    EditFirstCount(stripped, "html", ClearAttributes, "link");
  }
}
