/** The parsed chapter: the tree the SGML reader builds in libEpub/Book.cs:174-187,
    with the document-order queries the book runs on it and the rewrites that
    CleanUpTags (Book.cs:208-227) and AddCssReference (Book.cs:330-359) apply.

    A document is the forest of the XmlDocument's child nodes.  Elements own
    their children; nothing is shared, so the in-place DOM edits of the source
    become functions from the old tree to the new one. */
module Markup {

  datatype Attr = Attr(name: string, value: string)

  datatype Node =
    | Element(tag: string, attrs: seq<Attr>, children: seq<Node>)
    | Text(text: string)

  /* ---------------------------------------------------------------------
     Queries
     --------------------------------------------------------------------- */

  /** XmlDocument.GetElementsByTagName: every element of the forest with the
      tag, in document order (an element before its descendants, which come
      before its following siblings). */
  function ElementsByTagName(ns: seq<Node>, tag: string): (es: seq<Node>)
    ensures forall i :: 0 <= i < |es| ==> es[i].Element? && es[i].tag == tag
    decreases ns
  {
    if ns == [] then [] else ElementsByTagNameOf(ns[0], tag) + ElementsByTagName(ns[1..], tag)
  }

  function ElementsByTagNameOf(n: Node, tag: string): (es: seq<Node>)
    ensures forall i :: 0 <= i < |es| ==> es[i].Element? && es[i].tag == tag
    decreases n
  {
    match n
    case Text(_) => []
    case Element(t, _, children) => (if t == tag then [n] else []) + ElementsByTagName(children, tag)
  }

  /** The attribute lists of a sequence of elements. */
  function AttributesOf(es: seq<Node>): (r: seq<seq<Attr>>)
    requires forall i :: 0 <= i < |es| ==> es[i].Element?
    ensures |r| == |es|
    ensures forall i :: 0 <= i < |es| ==> r[i] == es[i].attrs
  {
    seq(|es|, i requires 0 <= i < |es| => es[i].attrs)
  }

  /** The string value of a node (XPath): its character data in document order. */
  function InnerText(n: Node): string
    decreases n
  {
    match n
    case Text(s) => s
    case Element(_, _, children) => InnerTextIn(children)
  }

  function InnerTextIn(ns: seq<Node>): string
    decreases ns
  {
    if ns == [] then "" else InnerText(ns[0]) + InnerTextIn(ns[1..])
  }

  /** XmlAttributeCollection's indexer: the value of the attribute with the name. */
  function AttributeValue(attrs: seq<Attr>, name: string): (v: string)
    requires exists i :: 0 <= i < |attrs| && attrs[i].name == name
    ensures exists i :: 0 <= i < |attrs| && attrs[i].name == name && attrs[i].value == v
  {
    if attrs[0].name == name then attrs[0].value else AttributeValue(attrs[1..], name)
  }

  predicate HasAttribute(attrs: seq<Attr>, name: string) {
    exists i :: 0 <= i < |attrs| && attrs[i].name == name
  }

  /** Whether the first element with the tag lies inside an element with tag
      `outer` (`inside` says whether the forest itself does). */
  function FirstInside(ns: seq<Node>, tag: string, outer: string, inside: bool): bool
    requires ElementsByTagName(ns, tag) != []
    decreases ns
  {
    if ElementsByTagNameOf(ns[0], tag) != [] then FirstInsideOf(ns[0], tag, outer, inside)
    else FirstInside(ns[1..], tag, outer, inside)
  }

  function FirstInsideOf(n: Node, tag: string, outer: string, inside: bool): bool
    requires ElementsByTagNameOf(n, tag) != []
    decreases n
  {
    if n.tag == tag then inside else FirstInside(n.children, tag, outer, inside || n.tag == outer)
  }

  /* ---------------------------------------------------------------------
     Rewrites
     --------------------------------------------------------------------- */

  /** The DOM edits the book applies to a single element. */
  datatype Edit =
    | ClearAttributes       // XmlAttributeCollection.RemoveAll
    | AppendChild(c: Node)  // XmlNode.AppendChild
    | PrependChild(c: Node) // InnerXml := child.OuterXml + InnerXml

  function ApplyEdit(e: Edit, n: Node): Node
    requires n.Element?
  {
    match e
    case ClearAttributes => n.(attrs := [])
    case AppendChild(c) => n.(children := n.children + [c])
    case PrependChild(c) => n.(children := [c] + n.children)
  }

  /** The edit applied to the first element with the tag, everything else kept. */
  function EditFirst(ns: seq<Node>, tag: string, e: Edit): seq<Node>
    decreases ns
  {
    if ns == [] then []
    else if ElementsByTagNameOf(ns[0], tag) != [] then [EditFirstOf(ns[0], tag, e)] + ns[1..]
    else [ns[0]] + EditFirst(ns[1..], tag, e)
  }

  function EditFirstOf(n: Node, tag: string, e: Edit): Node
    decreases n
  {
    match n
    case Text(_) => n
    case Element(t, a, children) =>
      if t == tag then ApplyEdit(e, n) else Element(t, a, EditFirst(children, tag, e))
  }

  /** Every element with the tag removed from its parent, with its subtree. */
  function RemoveElements(ns: seq<Node>, tag: string): seq<Node>
    decreases ns
  {
    if ns == [] then []
    else if ns[0].Element? && ns[0].tag == tag then RemoveElements(ns[1..], tag)
    else [RemoveElementsOf(ns[0], tag)] + RemoveElements(ns[1..], tag)
  }

  function RemoveElementsOf(n: Node, tag: string): Node
    decreases n
  {
    match n
    case Text(_) => n
    case Element(t, a, children) => Element(t, a, RemoveElements(children, tag))
  }

  /** The single attribute every replacement of an anchor carries (Book.cs:222-224). */
  const Underline := Attr("style", "text-decoration:underline")

  /** CleanUpTags' anchor loop: every anchor becomes a `div` with the underline
      style and a copy of the anchor's content.  The source collects the anchors
      first and replaces each in its parent, copying the inner markup; an anchor
      nested in another is copied with its parent's content and the copy is
      never visited, so only the outermost anchors are replaced. */
  function ReplaceAnchors(ns: seq<Node>): seq<Node>
    decreases ns
  {
    if ns == [] then [] else [ReplaceAnchorsOf(ns[0])] + ReplaceAnchors(ns[1..])
  }

  function ReplaceAnchorsOf(n: Node): Node
    decreases n
  {
    match n
    case Text(_) => n
    case Element(t, a, children) =>
      if t == "a" then Element("div", [Underline], children) else Element(t, a, ReplaceAnchors(children))
  }

  /** No anchor inside another anchor: the HTML content model excludes it, so
      the SGML reader never builds one. */
  predicate NoNestedAnchors(ns: seq<Node>)
    decreases ns
  {
    forall i :: 0 <= i < |ns| ==> NoNestedAnchorsOf(ns[i])
  }

  predicate NoNestedAnchorsOf(n: Node)
    decreases n
  {
    match n
    case Text(_) => true
    case Element(t, _, children) =>
      if t == "a" then ElementsByTagName(children, "a") == [] else NoNestedAnchors(children)
  }

  /** The attribute lists of the elements with the tag replaced, in document
      order, by the given ones. */
  function SetAttributes(ns: seq<Node>, tag: string, lists: seq<seq<Attr>>): seq<Node>
    requires |lists| == |ElementsByTagName(ns, tag)|
    decreases ns
  {
    if ns == [] then []
    else
      var k := |ElementsByTagNameOf(ns[0], tag)|;
      [SetAttributesOf(ns[0], tag, lists[..k])] + SetAttributes(ns[1..], tag, lists[k..])
  }

  function SetAttributesOf(n: Node, tag: string, lists: seq<seq<Attr>>): Node
    requires |lists| == |ElementsByTagNameOf(n, tag)|
    decreases n
  {
    match n
    case Text(_) => n
    case Element(t, a, children) =>
      if t == tag then Element(t, lists[0], SetAttributes(children, tag, lists[1..]))
      else Element(t, a, SetAttributes(children, tag, lists))
  }

  /* ---------------------------------------------------------------------
     Document order is compositional
     --------------------------------------------------------------------- */

  lemma {:induction false} ElementsByTagNameConcat(a: seq<Node>, b: seq<Node>, tag: string)
    ensures ElementsByTagName(a + b, tag) == ElementsByTagName(a, tag) + ElementsByTagName(b, tag)
    decreases a
  {
    if a != [] {
      assert (a + b)[0] == a[0];
      assert (a + b)[1..] == a[1..] + b;
      ElementsByTagNameConcat(a[1..], b, tag);
      assert ElementsByTagName(a + b, tag) == ElementsByTagNameOf(a[0], tag) + ElementsByTagName(a[1..] + b, tag);
    } else {
      assert a + b == b;
    }
  }

  lemma {:induction false} InnerTextConcat(a: seq<Node>, b: seq<Node>)
    ensures InnerTextIn(a + b) == InnerTextIn(a) + InnerTextIn(b)
    decreases a
  {
    if a != [] {
      assert (a + b)[0] == a[0];
      assert (a + b)[1..] == a[1..] + b;
      InnerTextConcat(a[1..], b);
      assert InnerTextIn(a + b) == InnerText(a[0]) + InnerTextIn(a[1..] + b);
    } else {
      assert a + b == b;
    }
  }

  lemma {:induction false} AttributesOfConcat(a: seq<Node>, b: seq<Node>)
    requires forall i :: 0 <= i < |a| ==> a[i].Element?
    requires forall i :: 0 <= i < |b| ==> b[i].Element?
    ensures forall i :: 0 <= i < |a + b| ==> (a + b)[i].Element?
    ensures AttributesOf(a + b) == AttributesOf(a) + AttributesOf(b)
  {
  }

  /** Unfolding one step of the forest queries on a cons. */
  lemma {:induction false} ConsSplit(n: Node, rest: seq<Node>)
    ensures ([n] + rest)[0] == n && ([n] + rest)[1..] == rest
  {
  }

  /* ---------------------------------------------------------------------
     Every node in document order
     --------------------------------------------------------------------- */

  /** Every node of the forest in document order: a node, then the nodes
      below it, then its following siblings. */
  function Subtrees(ns: seq<Node>): seq<Node>
    decreases ns
  {
    if ns == [] then [] else SubtreesOf(ns[0]) + Subtrees(ns[1..])
  }

  function SubtreesOf(n: Node): seq<Node>
    decreases n
  {
    [n] + (if n.Element? then Subtrees(n.children) else [])
  }

  /** The elements among xs whose tag is one of tags, in their order. */
  function WithTags(xs: seq<Node>, tags: set<string>): (es: seq<Node>)
    ensures forall i :: 0 <= i < |es| ==> es[i].Element? && es[i].tag in tags
  {
    if xs == [] then []
    else (if xs[0].Element? && xs[0].tag in tags then [xs[0]] else []) + WithTags(xs[1..], tags)
  }

  lemma {:induction false} WithTagsConcat(a: seq<Node>, b: seq<Node>, tags: set<string>)
    ensures WithTags(a + b, tags) == WithTags(a, tags) + WithTags(b, tags)
    decreases a
  {
    if a == [] {
      assert a + b == b;
    } else {
      assert (a + b)[0] == a[0];
      assert (a + b)[1..] == a[1..] + b;
      WithTagsConcat(a[1..], b, tags);
    }
  }

  lemma {:induction false} WithTagsMember(xs: seq<Node>, tags: set<string>, x: Node)
    ensures x in WithTags(xs, tags) <==> x in xs && x.Element? && x.tag in tags
    decreases xs
  {
    if xs != [] {
      WithTagsMember(xs[1..], tags, x);
      assert xs == [xs[0]] + xs[1..];
    }
  }

  lemma {:induction false} SubtreesCons(n: Node, rest: seq<Node>)
    ensures Subtrees([n] + rest) == SubtreesOf(n) + Subtrees(rest)
  {
    ConsSplit(n, rest);
  }

  /** GetElementsByTagName is the list of all nodes in document order, cut
      down to the elements with the tag: every such element is returned, in
      document order, and nothing else. */
  lemma {:induction false} ElementsByTagNameInOrder(ns: seq<Node>, tag: string)
    ensures ElementsByTagName(ns, tag) == WithTags(Subtrees(ns), {tag})
    decreases ns
  {
    if ns != [] {
      ElementsByTagNameOfInOrder(ns[0], tag);
      ElementsByTagNameInOrder(ns[1..], tag);
      WithTagsConcat(SubtreesOf(ns[0]), Subtrees(ns[1..]), {tag});
    }
  }

  lemma {:induction false} ElementsByTagNameOfInOrder(n: Node, tag: string)
    ensures ElementsByTagNameOf(n, tag) == WithTags(SubtreesOf(n), {tag})
    decreases n
  {
    var below := if n.Element? then Subtrees(n.children) else [];
    WithTagsConcat([n], below, {tag});
    assert [n][1..] == [];
    if n.Element? {
      ElementsByTagNameInOrder(n.children, tag);
    }
  }

  /** An element is returned exactly when it lies in the forest and has the tag. */
  lemma {:induction false} ElementsByTagNameComplete(ns: seq<Node>, tag: string, x: Node)
    ensures x in ElementsByTagName(ns, tag) <==> x in Subtrees(ns) && x.Element? && x.tag == tag
  {
    ElementsByTagNameInOrder(ns, tag);
    WithTagsMember(Subtrees(ns), {tag}, x);
  }

  /* ---------------------------------------------------------------------
     Removing elements
     --------------------------------------------------------------------- */

  /** After RemoveElements no element with that tag is left. */
  lemma {:induction false} RemoveElementsRemovesAll(ns: seq<Node>, tag: string)
    ensures ElementsByTagName(RemoveElements(ns, tag), tag) == []
    decreases ns
  {
    if ns != [] {
      RemoveElementsRemovesAll(ns[1..], tag);
      if !(ns[0].Element? && ns[0].tag == tag) {
        RemoveElementsOfRemovesAll(ns[0], tag);
        ElementsByTagNameConcat([RemoveElementsOf(ns[0], tag)], RemoveElements(ns[1..], tag), tag);
        ConsSplit(RemoveElementsOf(ns[0], tag), []);
      }
    }
  }

  lemma {:induction false} RemoveElementsOfRemovesAll(n: Node, tag: string)
    requires !(n.Element? && n.tag == tag)
    ensures ElementsByTagNameOf(RemoveElementsOf(n, tag), tag) == []
    decreases n
  {
    if n.Element? {
      RemoveElementsRemovesAll(n.children, tag);
    }
  }

  /* ---------------------------------------------------------------------
     Editing the first element with a tag
     --------------------------------------------------------------------- */

  /** The number of elements with tag u an edit adds. */
  function Added(e: Edit, u: string): nat {
    match e
    case ClearAttributes => 0
    case AppendChild(c) => |ElementsByTagNameOf(c, u)|
    case PrependChild(c) => |ElementsByTagNameOf(c, u)|
  }

  /** The edited element is still the first with its tag. */
  lemma {:induction false} EditFirstIsFirst(ns: seq<Node>, tag: string, e: Edit)
    requires ElementsByTagName(ns, tag) != []
    ensures ElementsByTagName(EditFirst(ns, tag, e), tag) != []
    ensures ElementsByTagName(EditFirst(ns, tag, e), tag)[0] == ApplyEdit(e, ElementsByTagName(ns, tag)[0])
    decreases ns
  {
    var r := EditFirst(ns, tag, e);
    if ElementsByTagNameOf(ns[0], tag) != [] {
      EditFirstOfIsFirst(ns[0], tag, e);
      ElementsByTagNameConcat([EditFirstOf(ns[0], tag, e)], ns[1..], tag);
      ConsSplit(EditFirstOf(ns[0], tag, e), []);
    } else {
      EditFirstIsFirst(ns[1..], tag, e);
      ElementsByTagNameConcat([ns[0]], EditFirst(ns[1..], tag, e), tag);
      ConsSplit(ns[0], []);
    }
  }

  lemma {:induction false} EditFirstOfIsFirst(n: Node, tag: string, e: Edit)
    requires ElementsByTagNameOf(n, tag) != []
    ensures ElementsByTagNameOf(EditFirstOf(n, tag, e), tag) != []
    ensures ElementsByTagNameOf(EditFirstOf(n, tag, e), tag)[0] == ApplyEdit(e, ElementsByTagNameOf(n, tag)[0])
    decreases n
  {
    if n.tag != tag {
      EditFirstIsFirst(n.children, tag, e);
    }
  }

  /** An edit changes the number of elements with any tag u by what it adds. */
  lemma {:induction false} EditFirstCount(ns: seq<Node>, tag: string, e: Edit, u: string)
    requires ElementsByTagName(ns, tag) != []
    ensures |ElementsByTagName(EditFirst(ns, tag, e), u)| == |ElementsByTagName(ns, u)| + Added(e, u)
    decreases ns
  {
    if ElementsByTagNameOf(ns[0], tag) != [] {
      EditFirstOfCount(ns[0], tag, e, u);
      ElementsByTagNameConcat([EditFirstOf(ns[0], tag, e)], ns[1..], u);
      ConsSplit(EditFirstOf(ns[0], tag, e), []);
    } else {
      EditFirstCount(ns[1..], tag, e, u);
      ElementsByTagNameConcat([ns[0]], EditFirst(ns[1..], tag, e), u);
      ConsSplit(ns[0], []);
    }
  }

  lemma {:induction false} EditFirstOfCount(n: Node, tag: string, e: Edit, u: string)
    requires ElementsByTagNameOf(n, tag) != []
    ensures |ElementsByTagNameOf(EditFirstOf(n, tag, e), u)| == |ElementsByTagNameOf(n, u)| + Added(e, u)
    decreases n
  {
    if n.tag != tag {
      EditFirstCount(n.children, tag, e, u);
    } else {
      match e
      case ClearAttributes =>
      case AppendChild(c) =>
        ElementsByTagNameConcat(n.children, [c], u);
        ConsSplit(c, []);
      case PrependChild(c) =>
        ElementsByTagNameConcat([c], n.children, u);
        ConsSplit(c, []);
    }
  }

  /** The elements with another tag keep their attributes, in order, when the
      edit brings in none of them. */
  lemma {:induction false} EditFirstKeepsAttributes(ns: seq<Node>, tag: string, e: Edit, u: string)
    requires u != tag && Added(e, u) == 0
    ensures AttributesOf(ElementsByTagName(EditFirst(ns, tag, e), u)) == AttributesOf(ElementsByTagName(ns, u))
    decreases ns
  {
    if ns != [] {
      var r := EditFirst(ns, tag, e);
      if ElementsByTagNameOf(ns[0], tag) != [] {
        EditFirstOfKeepsAttributes(ns[0], tag, e, u);
        ElementsByTagNameConcat([EditFirstOf(ns[0], tag, e)], ns[1..], u);
        ConsSplit(EditFirstOf(ns[0], tag, e), []);
        AttributesOfConcat(ElementsByTagNameOf(EditFirstOf(ns[0], tag, e), u), ElementsByTagName(ns[1..], u));
      } else {
        EditFirstKeepsAttributes(ns[1..], tag, e, u);
        ElementsByTagNameConcat([ns[0]], EditFirst(ns[1..], tag, e), u);
        ConsSplit(ns[0], []);
        AttributesOfConcat(ElementsByTagNameOf(ns[0], u), ElementsByTagName(EditFirst(ns[1..], tag, e), u));
      }
      AttributesOfConcat(ElementsByTagNameOf(ns[0], u), ElementsByTagName(ns[1..], u));
    }
  }

  lemma {:induction false} EditFirstOfKeepsAttributes(n: Node, tag: string, e: Edit, u: string)
    requires u != tag && Added(e, u) == 0
    ensures AttributesOf(ElementsByTagNameOf(EditFirstOf(n, tag, e), u)) == AttributesOf(ElementsByTagNameOf(n, u))
    decreases n
  {
    if n.Element? {
      if n.tag != tag {
        EditFirstKeepsAttributes(n.children, tag, e, u);
        AttributesOfConcat(if n.tag == u then [n] else [], ElementsByTagName(n.children, u));
        var m := EditFirstOf(n, tag, e);
        AttributesOfConcat(if n.tag == u then [m] else [], ElementsByTagName(m.children, u));
      } else {
        match e
        case ClearAttributes =>
        case AppendChild(c) =>
          ElementsByTagNameConcat(n.children, [c], u);
          ConsSplit(c, []);
        case PrependChild(c) =>
          ElementsByTagNameConcat([c], n.children, u);
          ConsSplit(c, []);
      }
    }
  }

  /* ---------------------------------------------------------------------
     Replacing anchors
     --------------------------------------------------------------------- */

  /** Elements other than anchors and divs keep their attributes, in order. */
  lemma {:induction false} ReplaceAnchorsKeepsAttributes(ns: seq<Node>, u: string)
    requires u != "a" && u != "div"
    ensures AttributesOf(ElementsByTagName(ReplaceAnchors(ns), u)) == AttributesOf(ElementsByTagName(ns, u))
    decreases ns
  {
    if ns != [] {
      ReplaceAnchorsOfKeepsAttributes(ns[0], u);
      ReplaceAnchorsKeepsAttributes(ns[1..], u);
      ConsSplit(ReplaceAnchorsOf(ns[0]), ReplaceAnchors(ns[1..]));
      AttributesOfConcat(ElementsByTagNameOf(ns[0], u), ElementsByTagName(ns[1..], u));
      AttributesOfConcat(ElementsByTagNameOf(ReplaceAnchorsOf(ns[0]), u), ElementsByTagName(ReplaceAnchors(ns[1..]), u));
    }
  }

  lemma {:induction false} ReplaceAnchorsOfKeepsAttributes(n: Node, u: string)
    requires u != "a" && u != "div"
    ensures AttributesOf(ElementsByTagNameOf(ReplaceAnchorsOf(n), u)) == AttributesOf(ElementsByTagNameOf(n, u))
    decreases n
  {
    if n.Element? && n.tag != "a" {
      ReplaceAnchorsKeepsAttributes(n.children, u);
      AttributesOfConcat(if n.tag == u then [n] else [], ElementsByTagName(n.children, u));
      var m := ReplaceAnchorsOf(n);
      AttributesOfConcat(if n.tag == u then [m] else [], ElementsByTagName(m.children, u));
    }
  }

  /** Anchors turn into divs one for one. */
  lemma {:induction false} ReplaceAnchorsCount(ns: seq<Node>)
    ensures |ElementsByTagName(ReplaceAnchors(ns), "a")| + |ElementsByTagName(ReplaceAnchors(ns), "div")|
         == |ElementsByTagName(ns, "a")| + |ElementsByTagName(ns, "div")|
    decreases ns
  {
    if ns != [] {
      ReplaceAnchorsOfCount(ns[0]);
      ReplaceAnchorsCount(ns[1..]);
      ConsSplit(ReplaceAnchorsOf(ns[0]), ReplaceAnchors(ns[1..]));
    }
  }

  lemma {:induction false} ReplaceAnchorsOfCount(n: Node)
    ensures |ElementsByTagNameOf(ReplaceAnchorsOf(n), "a")| + |ElementsByTagNameOf(ReplaceAnchorsOf(n), "div")|
         == |ElementsByTagNameOf(n, "a")| + |ElementsByTagNameOf(n, "div")|
    decreases n
  {
    if n.Element? && n.tag != "a" {
      ReplaceAnchorsCount(n.children);
    }
  }

  /** With no anchor nested in another, no anchor is left. */
  lemma {:induction false} ReplaceAnchorsRemovesAll(ns: seq<Node>)
    requires NoNestedAnchors(ns)
    ensures ElementsByTagName(ReplaceAnchors(ns), "a") == []
    decreases ns
  {
    if ns != [] {
      ReplaceAnchorsOfRemovesAll(ns[0]);
      ReplaceAnchorsRemovesAll(ns[1..]);
      ConsSplit(ReplaceAnchorsOf(ns[0]), ReplaceAnchors(ns[1..]));
    }
  }

  lemma {:induction false} ReplaceAnchorsOfRemovesAll(n: Node)
    requires NoNestedAnchorsOf(n)
    ensures ElementsByTagNameOf(ReplaceAnchorsOf(n), "a") == []
    decreases n
  {
    if n.Element? && n.tag != "a" {
      ReplaceAnchorsRemovesAll(n.children);
    }
  }

  /** The text of the document is unchanged: each div holds its anchor's content. */
  lemma {:induction false} ReplaceAnchorsKeepsText(ns: seq<Node>)
    ensures InnerTextIn(ReplaceAnchors(ns)) == InnerTextIn(ns)
    decreases ns
  {
    if ns != [] {
      ReplaceAnchorsOfKeepsText(ns[0]);
      ReplaceAnchorsKeepsText(ns[1..]);
      ConsSplit(ReplaceAnchorsOf(ns[0]), ReplaceAnchors(ns[1..]));
    }
  }

  lemma {:induction false} ReplaceAnchorsOfKeepsText(n: Node)
    ensures InnerText(ReplaceAnchorsOf(n)) == InnerText(n)
    decreases n
  {
    if n.Element? && n.tag != "a" {
      ReplaceAnchorsKeepsText(n.children);
    }
  }

  /** The divs a replacement leaves, one per anchor or div of the original. */
  function ReplaceEach(es: seq<Node>): (r: seq<Node>)
    ensures |r| == |es|
  {
    seq(|es|, i requires 0 <= i < |es| => ReplaceAnchorsOf(es[i]))
  }

  lemma {:induction false} ReplaceEachConcat(a: seq<Node>, b: seq<Node>)
    ensures ReplaceEach(a + b) == ReplaceEach(a) + ReplaceEach(b)
  {
    assert forall i :: 0 <= i < |a + b| ==> ReplaceEach(a + b)[i] == (ReplaceEach(a) + ReplaceEach(b))[i];
  }

  lemma {:induction false} NoAnchorsUnchanged(ns: seq<Node>)
    requires ElementsByTagName(ns, "a") == []
    ensures ReplaceAnchors(ns) == ns
    decreases ns
  {
    if ns != [] {
      NoAnchorsOfUnchanged(ns[0]);
      NoAnchorsUnchanged(ns[1..]);
      assert ns == [ns[0]] + ns[1..];
    }
  }

  lemma {:induction false} NoAnchorsOfUnchanged(n: Node)
    requires ElementsByTagNameOf(n, "a") == []
    ensures ReplaceAnchorsOf(n) == n
    decreases n
  {
    if n.Element? {
      NoAnchorsUnchanged(n.children);
    }
  }

  lemma {:induction false} NoAnchorsNoNested(ns: seq<Node>)
    requires ElementsByTagName(ns, "a") == []
    ensures NoNestedAnchors(ns)
    decreases ns
  {
    if ns != [] {
      NoAnchorsOfNoNested(ns[0]);
      NoAnchorsNoNested(ns[1..]);
      forall i | 0 < i < |ns| ensures NoNestedAnchorsOf(ns[i]) {
        assert ns[i] == ns[1..][i - 1];
      }
    }
  }

  lemma {:induction false} NoAnchorsOfNoNested(n: Node)
    requires ElementsByTagNameOf(n, "a") == []
    ensures NoNestedAnchorsOf(n)
    decreases n
  {
    if n.Element? {
      NoAnchorsNoNested(n.children);
    }
  }

  lemma {:induction false} NoNestedSplit(ns: seq<Node>)
    requires ns != [] && NoNestedAnchors(ns)
    ensures NoNestedAnchorsOf(ns[0]) && NoNestedAnchors(ns[1..])
  {
    forall i | 0 <= i < |ns[1..]| ensures NoNestedAnchorsOf(ns[1..][i]) {
      assert ns[1..][i] == ns[i + 1];
    }
  }

  /** The divs after the replacement are, in document order, the anchors and
      divs before it, each one replaced. */
  lemma {:induction false} ReplaceAnchorsDivsIn(ns: seq<Node>)
    requires NoNestedAnchors(ns)
    ensures ElementsByTagName(ReplaceAnchors(ns), "div") == ReplaceEach(WithTags(Subtrees(ns), {"a", "div"}))
    decreases ns
  {
    if ns != [] {
      NoNestedSplit(ns);
      ReplaceAnchorsDivsOf(ns[0]);
      ReplaceAnchorsDivsIn(ns[1..]);
      ConsSplit(ReplaceAnchorsOf(ns[0]), ReplaceAnchors(ns[1..]));
      WithTagsConcat(SubtreesOf(ns[0]), Subtrees(ns[1..]), {"a", "div"});
      ReplaceEachConcat(WithTags(SubtreesOf(ns[0]), {"a", "div"}), WithTags(Subtrees(ns[1..]), {"a", "div"}));
    }
  }

  lemma {:induction false} ReplaceAnchorsDivsOf(n: Node)
    requires NoNestedAnchorsOf(n)
    ensures ElementsByTagNameOf(ReplaceAnchorsOf(n), "div") == ReplaceEach(WithTags(SubtreesOf(n), {"a", "div"}))
    decreases n
  {
    var below := if n.Element? then Subtrees(n.children) else [];
    WithTagsConcat([n], below, {"a", "div"});
    assert [n][1..] == [];
    if n.Element? {
      ReplaceEachConcat(WithTags([n], {"a", "div"}), WithTags(below, {"a", "div"}));
      if n.tag == "a" {
        NoAnchorsNoNested(n.children);
        NoAnchorsUnchanged(n.children);
      }
      ReplaceAnchorsDivsIn(n.children);
    }
  }

  /** With no anchor nested in another, the anchors and divs of a forest and
      the divs after the replacement correspond one for one, in document order:
      an anchor becomes a div that carries the underline style alone and the
      anchor's children; a div keeps its attributes and its text. */
  lemma {:induction false} ReplaceAnchorsDivs(ns: seq<Node>)
    requires NoNestedAnchors(ns)
    ensures var before := WithTags(Subtrees(ns), {"a", "div"});
            var after := ElementsByTagName(ReplaceAnchors(ns), "div");
            && |after| == |before|
            && forall i :: 0 <= i < |before| ==>
                 && (before[i].tag == "a" ==> after[i] == Element("div", [Underline], before[i].children))
                 && (before[i].tag == "div" ==> after[i].attrs == before[i].attrs && InnerText(after[i]) == InnerText(before[i]))
  {
    var before := WithTags(Subtrees(ns), {"a", "div"});
    ReplaceAnchorsDivsIn(ns);
    forall i | 0 <= i < |before| ensures InnerText(ReplaceAnchorsOf(before[i])) == InnerText(before[i]) {
      ReplaceAnchorsOfKeepsText(before[i]);
    }
  }

  /* ---------------------------------------------------------------------
     Replacing the attributes of every element with a tag
     --------------------------------------------------------------------- */

  /** Reading the attributes back gives the lists that were written. */
  lemma {:induction false} SetAttributesThenRead(ns: seq<Node>, tag: string, lists: seq<seq<Attr>>)
    requires |lists| == |ElementsByTagName(ns, tag)|
    ensures |ElementsByTagName(SetAttributes(ns, tag, lists), tag)| == |lists|
    ensures AttributesOf(ElementsByTagName(SetAttributes(ns, tag, lists), tag)) == lists
    decreases ns
  {
    if ns != [] {
      var k := |ElementsByTagNameOf(ns[0], tag)|;
      var h := SetAttributesOf(ns[0], tag, lists[..k]);
      var t := SetAttributes(ns[1..], tag, lists[k..]);
      SetAttributesOfThenRead(ns[0], tag, lists[..k]);
      SetAttributesThenRead(ns[1..], tag, lists[k..]);
      ConsSplit(h, t);
      AttributesOfConcat(ElementsByTagNameOf(h, tag), ElementsByTagName(t, tag));
      assert lists == lists[..k] + lists[k..];
    }
  }

  lemma {:induction false} SetAttributesOfThenRead(n: Node, tag: string, lists: seq<seq<Attr>>)
    requires |lists| == |ElementsByTagNameOf(n, tag)|
    ensures |ElementsByTagNameOf(SetAttributesOf(n, tag, lists), tag)| == |lists|
    ensures AttributesOf(ElementsByTagNameOf(SetAttributesOf(n, tag, lists), tag)) == lists
    decreases n
  {
    if n.Element? {
      var m := SetAttributesOf(n, tag, lists);
      if n.tag == tag {
        SetAttributesThenRead(n.children, tag, lists[1..]);
        AttributesOfConcat([m], ElementsByTagName(m.children, tag));
        assert lists == [lists[0]] + lists[1..];
      } else {
        SetAttributesThenRead(n.children, tag, lists);
      }
    }
  }

  /** Writing back the attributes that were read changes nothing. */
  lemma {:induction false} SetAttributesOfRead(ns: seq<Node>, tag: string)
    ensures SetAttributes(ns, tag, AttributesOf(ElementsByTagName(ns, tag))) == ns
    decreases ns
  {
    if ns != [] {
      var lists := AttributesOf(ElementsByTagName(ns, tag));
      var k := |ElementsByTagNameOf(ns[0], tag)|;
      AttributesOfConcat(ElementsByTagNameOf(ns[0], tag), ElementsByTagName(ns[1..], tag));
      assert lists[..k] == AttributesOf(ElementsByTagNameOf(ns[0], tag));
      assert lists[k..] == AttributesOf(ElementsByTagName(ns[1..], tag));
      SetAttributesOfOfRead(ns[0], tag);
      SetAttributesOfRead(ns[1..], tag);
      assert ns == [ns[0]] + ns[1..];
    }
  }

  lemma {:induction false} SetAttributesOfOfRead(n: Node, tag: string)
    ensures SetAttributesOf(n, tag, AttributesOf(ElementsByTagNameOf(n, tag))) == n
    decreases n
  {
    if n.Element? {
      var lists := AttributesOf(ElementsByTagNameOf(n, tag));
      SetAttributesOfRead(n.children, tag);
      if n.tag == tag {
        AttributesOfConcat([n], ElementsByTagName(n.children, tag));
        assert lists[1..] == AttributesOf(ElementsByTagName(n.children, tag));
        assert lists[0] == n.attrs;
      } else {
        assert ElementsByTagNameOf(n, tag) == ElementsByTagName(n.children, tag);
      }
    }
  }

  /** Replacing attributes leaves the number of elements with any tag alone. */
  lemma {:induction false} SetAttributesCount(ns: seq<Node>, tag: string, lists: seq<seq<Attr>>, u: string)
    requires |lists| == |ElementsByTagName(ns, tag)|
    ensures |ElementsByTagName(SetAttributes(ns, tag, lists), u)| == |ElementsByTagName(ns, u)|
    decreases ns
  {
    if ns != [] {
      var k := |ElementsByTagNameOf(ns[0], tag)|;
      var h := SetAttributesOf(ns[0], tag, lists[..k]);
      var t := SetAttributes(ns[1..], tag, lists[k..]);
      SetAttributesOfCount(ns[0], tag, lists[..k], u);
      SetAttributesCount(ns[1..], tag, lists[k..], u);
      ConsSplit(h, t);
    }
  }

  lemma {:induction false} SetAttributesOfCount(n: Node, tag: string, lists: seq<seq<Attr>>, u: string)
    requires |lists| == |ElementsByTagNameOf(n, tag)|
    ensures |ElementsByTagNameOf(SetAttributesOf(n, tag, lists), u)| == |ElementsByTagNameOf(n, u)|
    decreases n
  {
    if n.Element? {
      if n.tag == tag {
        SetAttributesCount(n.children, tag, lists[1..], u);
      } else {
        SetAttributesCount(n.children, tag, lists, u);
      }
    }
  }
}
