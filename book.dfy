/** The Book class of libEpub/Book.cs: an EPUB 2 archive built one chapter at
    a time and finished by Close.

    The archive only ever receives new entries, so it is a sequence the
    methods extend.  The chapter counter, the navigation points, the manifest
    items, the spine references and the closed flag are the fields of the
    same names.  A manifest item's key (ghost) says what the item stands for;
    it is how uniqueness of the manifest ids is stated.

    Two invariants are kept apart.  Valid holds whatever the caller does,
    including after a call that threw half-way.  Sound holds as long as no
    call has failed: then the nav map and the spine are in step, the manifest
    ids are unique and every href of the manifest and of the nav map names an
    entry of the archive. */
module EpubBook {
  import opened Options
  import opened Digits
  import opened Paths
  import opened Markup
  import opened Chapter
  import opened Xhtml
  import opened Epub
  import opened Images

  /** The entries the constructor writes (Book.cs:45-47). */
  const MimetypeEntry := Entry("mimetype", TextContent("application/epub+zip"))
  const ContainerEntry := Entry("META-INF/container.xml", ContainerFile(ContainerInfo))
  const NotFoundEntry := Entry("OEBPS/" + NotFoundSource, ResourceStream("libEpub.not-found.jpg"))
  const ConstructorEntries := [MimetypeEntry, ContainerEntry, NotFoundEntry]

  /** The stylesheet Close writes last (Book.cs:75-78). */
  const StylesheetEntry := Entry("OEBPS/stylesheet.css", ResourceStream("libEpub.stylesheet.css"))

  /** The package record as InitializeContentOpf leaves it (Book.cs:81-99). */
  const InitialPackage := Package("2.0", "uidParam", [], [], "ncx", [], CoverGuide)

  /** The entry SaveDocument writes for a chapter serialised as xhtml. */
  function ChapterEntry(fileName: string, xhtml: string): Entry {
    Entry("OEBPS/" + fileName, TextContent(ReformatAndCleanXhtml(xhtml)))
  }

  /** The manifest item AddContentOpfRecord adds (Book.cs:229-237). */
  function ChapterManifestItem(chapter: nat, fileName: string): Item {
    Item(ItemId(ChapterItem(chapter)), fileName, "application/xhtml+xml")
  }

  /** The attribute lists of a document's <img> elements, in document order. */
  function ImageAttributes(doc: seq<Node>): (lists: seq<seq<Attr>>)
    ensures |lists| == |ElementsByTagName(doc, "img")|
  {
    AttributesOf(ElementsByTagName(doc, "img"))
  }

  /** AddChapter runs to its end: the suggested name is a usable path, the
      document still has an <html> once its links are gone, and no image src
      is refused by Path.GetExtension. */
  predicate ChapterAccepted(doc: seq<Node>, suggestedFileName: string, load: string -> Loaded,
                            toJpeg: Bytes -> Option<Bytes>, guid: nat -> Guid)
  {
    !HasInvalidPathChars(suggestedFileName) && ContentAccepted(doc, load, toJpeg, guid)
  }

  /** The document keeps an <html> once its links are gone, and no image src
      is refused by Path.GetExtension. */
  predicate ContentAccepted(doc: seq<Node>, load: string -> Loaded, toJpeg: Bytes -> Option<Bytes>, guid: nat -> Guid)
  {
    && AddCssReference(CleanUpTags(doc)).Some?
    && var outs := Outcomes(ImageAttributes(AddCssReference(CleanUpTags(doc)).value), load, toJpeg, guid);
       forall i :: 0 <= i < |outs| ==> !outs[i].Rejected?
  }

  /** The path inside the archive a manifest href names: hrefs are relative
      to OEBPS/Content.opf, and only the table of contents sits above it. */
  function PackagePath(href: string): string {
    if |href| >= 3 && href[0] == '.' && href[1] == '.' && href[2] == '/' then href[3..] else "OEBPS/" + href
  }

  /* ---------------------------------------------------------------------
     Invariants, on values
     --------------------------------------------------------------------- */

  /** The spine lists the chapters added so far, in order. */
  predicate SpineInOrder(counter: nat, itemRefs: seq<string>) {
    |itemRefs| + 1 == counter &&
    forall j :: 0 <= j < |itemRefs| ==> itemRefs[j] == ItemId(ChapterItem(j + 1))
  }

  /** Each manifest item carries the id of its key. */
  predicate KeysName(items: seq<Item>, keys: seq<ItemKey>) {
    |keys| == |items| &&
    forall j :: 0 <= j < |items| ==> WellFormedKey(keys[j]) && items[j].id == ItemId(keys[j])
  }

  /** The nav map has one point per chapter added, numbered from 1, each
      pointing at an entry of the archive. */
  predicate NavInStep(counter: nat, navPoints: seq<NavPoint>, entries: seq<Entry>) {
    |navPoints| + 1 == counter &&
    forall j :: 0 <= j < |navPoints| ==>
      && navPoints[j].id == "NavPoint-" + Decimal(j + 1)
      && navPoints[j].playOrder == Decimal(j + 1)
      && HasEntry(entries, navPoints[j].src)
  }

  /** No key twice; chapter and image keys belong to chapters added so far,
      each of which has its chapter key; the fixed keys only once closed. */
  predicate KeysFresh(keys: seq<ItemKey>, counter: nat, closed: bool) {
    && (forall a, b :: 0 <= a < b < |keys| ==> keys[a] != keys[b])
    && (forall j :: 0 <= j < |keys| ==> if keys[j].FixedItem? then closed else keys[j].chapter < counter)
    && (forall c :: 1 <= c < counter ==> ChapterItem(c) in keys)
  }

  /** Every manifest href names an entry of the archive. */
  predicate ManifestResolves(items: seq<Item>, entries: seq<Entry>) {
    forall j :: 0 <= j < |items| ==> HasEntry(entries, PackagePath(items[j].href))
  }

  predicate IdsUnique(items: seq<Item>) {
    forall a, b :: 0 <= a < b < |items| ==> items[a].id != items[b].id
  }

  /** The book's state is sound: the placeholder image is in the archive,
      the nav map is in step with the chapters, the keys are fresh and the
      manifest resolves. */
  predicate SoundState(counter: nat, navPoints: seq<NavPoint>, items: seq<Item>, keys: seq<ItemKey>,
                       entries: seq<Entry>, closed: bool)
  {
    && HasEntry(entries, NotFoundEntry.name)
    && NavInStep(counter, navPoints, entries)
    && KeysFresh(keys, counter, closed)
    && ManifestResolves(items, entries)
  }

  predicate IsManifestId(items: seq<Item>, id: string) {
    exists m :: 0 <= m < |items| && items[m].id == id
  }

  /** Every idref of the spine is the id of a manifest item. */
  predicate SpineResolves(spine: seq<string>, items: seq<Item>) {
    forall j :: 0 <= j < |spine| ==> IsManifestId(items, spine[j])
  }

  /* ---------------------------------------------------------------------
     The invariants across a chapter and across Close
     --------------------------------------------------------------------- */

  lemma {:induction false} HasEntryGrows(es: seq<Entry>, more: seq<Entry>)
    ensures forall n :: HasEntry(es, n) ==> HasEntry(es + more, n)
    ensures forall j :: 0 <= j < |more| ==> HasEntry(es + more, more[j].name)
  {
    forall n | HasEntry(es, n) ensures HasEntry(es + more, n) {
      var j :| 0 <= j < |es| && es[j].name == n;
      assert (es + more)[j] == es[j];
    }
    forall j | 0 <= j < |more| ensures HasEntry(es + more, more[j].name) {
      assert (es + more)[|es| + j] == more[j];
    }
  }

  /** A name with no separator is not above OEBPS/. */
  lemma {:induction false} PackagePathOfPlainName(name: string)
    requires NoSeparator(name)
    ensures PackagePath(name) == "OEBPS/" + name
  {
  }

  lemma {:induction false} PackagePathOfImage(href: string)
    requires |href| >= 1 && href[0] == 'i'
    ensures PackagePath(href) == "OEBPS/" + href
  {
  }

  /** The keys a chapter adds are new, and afterwards the next chapter's are. */
  lemma {:induction false} ChapterKeysFresh(keys: seq<ItemKey>, counter: nat, closed: bool, outs: seq<ImageOutcome>)
    requires KeysFresh(keys, counter, closed)
    ensures KeysFresh(keys + ImageKeys(counter, outs) + [ChapterItem(counter)], counter + 1, closed)
  {
    var ik := ImageKeys(counter, outs);
    var keys' := keys + ik + [ChapterItem(counter)];
    ImageKeysIncrease(counter, outs);
    forall a, b | 0 <= a < b < |keys'| ensures keys'[a] != keys'[b] {
      if b < |keys| {
      } else if b < |keys| + |ik| {
        assert keys'[b] == ik[b - |keys|];
        if a >= |keys| {
          assert keys'[a] == ik[a - |keys|];
        }
      } else {
        assert keys'[b] == ChapterItem(counter);
        if a >= |keys| {
          assert keys'[a] == ik[a - |keys|];
        }
      }
    }
    forall j | 0 <= j < |keys'|
      ensures if keys'[j].FixedItem? then closed else keys'[j].chapter < counter + 1
    {
      if j >= |keys| && j < |keys| + |ik| {
        assert keys'[j] == ik[j - |keys|];
      }
    }
    forall c | 1 <= c < counter + 1 ensures ChapterItem(c) in keys' {
      if c < counter {
        var j :| 0 <= j < |keys| && keys[j] == ChapterItem(c);
        assert keys'[j] == keys[j];
      } else {
        assert keys'[|keys'| - 1] == ChapterItem(c);
      }
    }
  }

  /** The items a chapter adds carry the ids of the keys it adds. */
  lemma {:induction false} ChapterKeysName(items: seq<Item>, keys: seq<ItemKey>, counter: nat, fileName: string,
                        outs: seq<ImageOutcome>)
    requires StoresJpeg(outs) && KeysName(items, keys)
    ensures KeysName(items + ImageItems(counter, outs) + [ChapterManifestItem(counter, fileName)],
                     keys + ImageKeys(counter, outs) + [ChapterItem(counter)])
  {
    ImagesKeepKeysName(items, keys, counter, outs);
    ChapterItemKeepsKeysName(items + ImageItems(counter, outs), keys + ImageKeys(counter, outs), counter, fileName);
  }

  /** The chapter's manifest item carries the id of the chapter's key. */
  lemma {:induction false} ChapterItemKeepsKeysName(items: seq<Item>, keys: seq<ItemKey>, counter: nat, fileName: string)
    requires KeysName(items, keys)
    ensures KeysName(items + [ChapterManifestItem(counter, fileName)], keys + [ChapterItem(counter)])
  {
    var items', keys' := items + [ChapterManifestItem(counter, fileName)], keys + [ChapterItem(counter)];
    forall j | 0 <= j < |items'| ensures WellFormedKey(keys'[j]) && items'[j].id == ItemId(keys'[j]) {
      if j < |items| {
        assert items'[j] == items[j] && keys'[j] == keys[j];
      }
    }
  }

  /** The hrefs of the items a chapter adds name the entries it writes. */
  lemma {:induction false} ChapterItemsResolve(items: seq<Item>, entries: seq<Entry>, counter: nat,
                            fileName: string, xhtml: string, outs: seq<ImageOutcome>)
    requires StoresJpeg(outs) && NoSeparator(fileName)
    requires ManifestResolves(items, entries)
    ensures ManifestResolves(items + ImageItems(counter, outs) + [ChapterManifestItem(counter, fileName)],
                             entries + ImageEntries(outs) + [ChapterEntry(fileName, xhtml)])
  {
    var ii, ie := ImageItems(counter, outs), ImageEntries(outs);
    var tail := ie + [ChapterEntry(fileName, xhtml)];
    var items' := items + ii + [ChapterManifestItem(counter, fileName)];
    var entries' := entries + tail;
    assert entries + ie + [ChapterEntry(fileName, xhtml)] == entries';
    ImageEntriesMatchItems(counter, outs);
    HasEntryGrows(entries, tail);
    forall j | 0 <= j < |items'|
      ensures HasEntry(entries', PackagePath(items'[j].href))
    {
      if j < |items| {
        assert items'[j] == items[j];
      } else if j < |items| + |ii| {
        var m := j - |items|;
        assert items'[j] == ii[m] && tail[m] == ie[m];
        PackagePathOfImage(ii[m].href);
      } else {
        assert items'[j] == ChapterManifestItem(counter, fileName);
        PackagePathOfPlainName(fileName);
        assert tail[|ie|] == ChapterEntry(fileName, xhtml);
      }
    }
  }

  /** A chapter that runs to its end keeps a sound book sound. */
  lemma {:induction false} ChapterKeepsSound(counter: nat, navPoints: seq<NavPoint>, items: seq<Item>, keys: seq<ItemKey>,
                          entries: seq<Entry>, closed: bool, fileName: string, title: string,
                          xhtml: string, outs: seq<ImageOutcome>, navPoints': seq<NavPoint>, items': seq<Item>,
                          keys': seq<ItemKey>, entries': seq<Entry>)
    requires StoresJpeg(outs) && NoSeparator(fileName)
    requires KeysName(items, keys) && SoundState(counter, navPoints, items, keys, entries, closed)
    requires items' == items + ImageItems(counter, outs) + [ChapterManifestItem(counter, fileName)]
    requires keys' == keys + ImageKeys(counter, outs) + [ChapterItem(counter)]
    requires entries' == entries + ImageEntries(outs) + [ChapterEntry(fileName, xhtml)]
    requires navPoints' == navPoints + [ChapterNavPoint(counter, fileName, title)]
    ensures KeysName(items', keys') && SoundState(counter + 1, navPoints', items', keys', entries', closed)
  {
    ChapterKeysFresh(keys, counter, closed, outs);
    ChapterKeysName(items, keys, counter, fileName, outs);
    ChapterItemsResolve(items, entries, counter, fileName, xhtml, outs);
    var tail := ImageEntries(outs) + [ChapterEntry(fileName, xhtml)];
    assert entries + ImageEntries(outs) + [ChapterEntry(fileName, xhtml)] == entries + tail;
    HasEntryGrows(entries, tail);
    NavPointAdded(counter, navPoints, entries, tail, fileName, title);
  }

  /** A chapter's nav point, numbered by the counter, keeps the nav map in
      step once the archive holds the chapter file. */
  lemma {:induction false} NavPointAdded(counter: nat, navPoints: seq<NavPoint>, entries: seq<Entry>,
                                         tail: seq<Entry>, fileName: string, title: string)
    requires NavInStep(counter, navPoints, entries)
    requires tail != [] && tail[|tail| - 1].name == "OEBPS/" + fileName
    ensures NavInStep(counter + 1, navPoints + [ChapterNavPoint(counter, fileName, title)], entries + tail)
  {
    var nav' := navPoints + [ChapterNavPoint(counter, fileName, title)];
    HasEntryGrows(entries, tail);
    forall j | 0 <= j < |nav'|
      ensures && nav'[j].id == "NavPoint-" + Decimal(j + 1)
              && nav'[j].playOrder == Decimal(j + 1)
              && HasEntry(entries + tail, nav'[j].src)
    {
      if j < |navPoints| {
        assert nav'[j] == navPoints[j];
      } else {
        assert tail[|tail| - 1].name == nav'[j].src;
      }
    }
  }

  /** Where the manifest hrefs of the four fixed items point. */
  lemma {:induction false} NcxItemPath()
    ensures PackagePath(NcxItem.href) == "toc.ncx"
  {
    assert "../toc.ncx"[3..] == "toc.ncx";
  }

  lemma {:induction false} CoverItemPath()
    ensures PackagePath(CoverItem.href) == "OEBPS/cover.jpg"
  {
    assert "OEBPS/" + "cover.jpg" == "OEBPS/cover.jpg";
  }

  lemma {:induction false} StylesheetItemPath()
    ensures PackagePath(StylesheetItem.href) == "OEBPS/stylesheet.css"
  {
    assert "OEBPS/" + "stylesheet.css" == "OEBPS/stylesheet.css";
  }

  lemma {:induction false} NotFoundItemPath()
    ensures PackagePath(NotFoundItem.href) == NotFoundEntry.name
  {
  }

  /** The fixed items carry the ids of the fixed keys. */
  lemma {:induction false} FixedKeysName(items: seq<Item>, keys: seq<ItemKey>)
    requires KeysName(items, keys)
    ensures KeysName(items + FixedItems, keys + FixedKeys)
  {
    var items', keys' := items + FixedItems, keys + FixedKeys;
    forall j | 0 <= j < |items'|
      ensures WellFormedKey(keys'[j]) && items'[j].id == ItemId(keys'[j])
    {
      if j < |items| {
        assert items'[j] == items[j] && keys'[j] == keys[j];
      } else {
        assert items'[j] == FixedItems[j - |items|] && keys'[j] == FixedKeys[j - |items|];
      }
    }
  }

  /** Once toc.ncx, the cover and the stylesheet are written, each fixed
      item names an entry of the archive. */
  lemma {:induction false} FixedItemsResolve(items: seq<Item>, entries: seq<Entry>, tail: seq<Entry>)
    requires ManifestResolves(items, entries)
    requires HasEntry(entries, NotFoundEntry.name)
    requires |tail| == 4 && tail[0].name == "toc.ncx" && tail[2].name == "OEBPS/cover.jpg"
    requires tail[3].name == "OEBPS/stylesheet.css"
    ensures ManifestResolves(items + FixedItems, entries + tail)
  {
    var items', entries' := items + FixedItems, entries + tail;
    HasEntryGrows(entries, tail);
    NcxItemPath();
    CoverItemPath();
    StylesheetItemPath();
    NotFoundItemPath();
    forall j | 0 <= j < |items'|
      ensures HasEntry(entries', PackagePath(items'[j].href))
    {
      if j < |items| {
        assert items'[j] == items[j];
      } else {
        var m := j - |items|;
        assert items'[j] == FixedItems[m];
        if m == 0 {
          assert entries'[|entries|] == tail[0];
        } else if m == 1 {
          assert entries'[|entries| + 2] == tail[2];
        } else if m == 2 {
          assert entries'[|entries| + 3] == tail[3];
        }
      }
    }
  }

  /** The fixed keys are new to a book not yet closed, and chapter keys stay
      below the counter. */
  lemma {:induction false} FixedKeysFresh(keys: seq<ItemKey>, counter: nat)
    requires KeysFresh(keys, counter, false)
    ensures KeysFresh(keys + FixedKeys, counter, true)
  {
    var keys' := keys + FixedKeys;
    forall a, b | 0 <= a < b < |keys'| ensures keys'[a] != keys'[b] {
      if a < |keys| && b >= |keys| {
        assert keys'[a] == keys[a] && keys'[b] == FixedKeys[b - |keys|];
      } else if a >= |keys| {
        assert keys'[a] == FixedKeys[a - |keys|] && keys'[b] == FixedKeys[b - |keys|];
      }
    }
    forall j | 0 <= j < |keys'|
      ensures if keys'[j].FixedItem? then true else keys'[j].chapter < counter
    {
      if j < |keys| {
        assert keys'[j] == keys[j];
      } else {
        assert keys'[j] == FixedKeys[j - |keys|];
      }
    }
    forall c | 1 <= c < counter ensures ChapterItem(c) in keys' {
      var j :| 0 <= j < |keys| && keys[j] == ChapterItem(c);
      assert keys'[j] == keys[j];
    }
  }

  /** Close keeps a sound book sound: the four fixed items are new, and each
      names an entry once toc.ncx, the cover and the stylesheet are written. */
  lemma {:induction false} CloseKeepsSound(counter: nat, navPoints: seq<NavPoint>, items: seq<Item>, keys: seq<ItemKey>,
                        entries: seq<Entry>, tail: seq<Entry>)
    requires KeysName(items, keys) && SoundState(counter, navPoints, items, keys, entries, false)
    requires |tail| == 4 && tail[0].name == "toc.ncx" && tail[2].name == "OEBPS/cover.jpg"
    requires tail[3].name == "OEBPS/stylesheet.css"
    ensures KeysName(items + FixedItems, keys + FixedKeys)
    ensures SoundState(counter, navPoints, items + FixedItems, keys + FixedKeys, entries + tail, true)
  {
    FixedKeysName(items, keys);
    FixedItemsResolve(items, entries, tail);
    FixedKeysFresh(keys, counter);
    HasEntryGrows(entries, tail);
  }

  /** Close keeps a sound book sound, and its package then has unique ids
      and a spine that resolves. */
  lemma {:induction false} ClosedSound(counter: nat, navPoints: seq<NavPoint>, itemRefs: seq<string>,
                                       items: seq<Item>, keys: seq<ItemKey>, entries: seq<Entry>,
                                       items': seq<Item>, keys': seq<ItemKey>, entries': seq<Entry>)
    requires SpineInOrder(counter, itemRefs)
    requires KeysName(items, keys) && SoundState(counter, navPoints, items, keys, entries, false)
    requires items' == items + FixedItems && keys' == keys + FixedKeys
    requires |entries'| == |entries| + 4 && entries'[..|entries|] == entries
    requires entries'[|entries|].name == "toc.ncx" && entries'[|entries| + 2].name == "OEBPS/cover.jpg"
    requires entries'[|entries| + 3].name == "OEBPS/stylesheet.css"
    ensures SoundState(counter, navPoints, items', keys', entries', true)
    ensures IdsUnique(items') && SpineResolves(itemRefs, items')
  {
    var tail := entries'[|entries|..];
    assert entries' == entries + tail;
    CloseKeepsSound(counter, navPoints, items, keys, entries, tail);
    SoundPackage(counter, itemRefs, items', keys', true);
  }

  /** The images of a chapter handled so far: entries, items and keys are
      the starting ones followed by what the outcomes outs store. */
  predicate ImagesAdded(counter: nat, outs: seq<ImageOutcome>, entries0: seq<Entry>, items0: seq<Item>,
                        keys0: seq<ItemKey>, entries: seq<Entry>, items: seq<Item>, keys: seq<ItemKey>)
  {
    && entries == entries0 + ImageEntries(outs)
    && items == items0 + ImageItems(counter, outs)
    && keys == keys0 + ImageKeys(counter, outs)
  }

  /** The next chapter's id extends a spine in order. */
  lemma {:induction false} SpineStep(counter: nat, itemRefs: seq<string>)
    requires SpineInOrder(counter, itemRefs)
    ensures SpineInOrder(counter + 1, itemRefs + [ItemId(ChapterItem(counter))])
  {
    var refs' := itemRefs + [ItemId(ChapterItem(counter))];
    forall j | 0 <= j < |refs'| ensures refs'[j] == ItemId(ChapterItem(j + 1)) {
      if j < |itemRefs| {
        assert refs'[j] == itemRefs[j];
      }
    }
  }

  /** A sequence stays the prefix of what is appended to it. */
  lemma PrefixKept<T>(a: seq<T>, b: seq<T>)
    ensures |a| <= |a + b| && (a + b)[..|a|] == a
  {
  }

  /** Stored images keep the manifest items named by their keys. */
  lemma {:induction false} ImagesKeepKeysName(items: seq<Item>, keys: seq<ItemKey>, counter: nat, outs: seq<ImageOutcome>)
    requires KeysName(items, keys) && StoresJpeg(outs)
    ensures KeysName(items + ImageItems(counter, outs), keys + ImageKeys(counter, outs))
  {
    var ii, ik := ImageItems(counter, outs), ImageKeys(counter, outs);
    ImageEntriesMatchItems(counter, outs);
    forall j | 0 <= j < |items + ii|
      ensures WellFormedKey((keys + ik)[j]) && (items + ii)[j].id == ItemId((keys + ik)[j])
    {
      if j >= |items| {
        assert (items + ii)[j] == ii[j - |items|] && (keys + ik)[j] == ik[j - |items|];
      }
    }
  }

  /** One more image handled: a stored one adds its entry, item and key, any
      other outcome adds nothing. */
  lemma {:induction false} ImagesAddedStep(counter: nat, outs: seq<ImageOutcome>, k: nat,
                        entries0: seq<Entry>, items0: seq<Item>, keys0: seq<ItemKey>,
                        entries: seq<Entry>, items: seq<Item>, keys: seq<ItemKey>,
                        entries': seq<Entry>, items': seq<Item>, keys': seq<ItemKey>)
    requires k < |outs|
    requires ImagesAdded(counter, outs[..k], entries0, items0, keys0, entries, items, keys)
    requires outs[k].Stored? ==> && entries' == entries + [StoredEntry(outs[k])]
                                 && items' == items + [StoredItem(counter, k + 1, outs[k])]
                                 && keys' == keys + [ImageItem(counter, k + 1)]
    requires !outs[k].Stored? ==> entries' == entries && items' == items && keys' == keys
    ensures ImagesAdded(counter, outs[..k + 1], entries0, items0, keys0, entries', items', keys')
    ensures NewAttributes(outs[..k + 1]) == NewAttributes(outs[..k]) + [[Attr("src", Source(outs[k]))]]
  {
    OutcomesSnoc(counter, outs, k);
  }

  /** In a sound book the manifest ids are unique and the spine names only
      manifest items: what Content.opf publishes is a consistent package. */
  lemma {:induction false} SoundPackage(counter: nat, itemRefs: seq<string>, items: seq<Item>, keys: seq<ItemKey>, closed: bool)
    requires SpineInOrder(counter, itemRefs) && KeysName(items, keys) && KeysFresh(keys, counter, closed)
    ensures IdsUnique(items)
    ensures SpineResolves(itemRefs, items)
  {
    forall a, b | 0 <= a < b < |items| ensures items[a].id != items[b].id {
      if items[a].id == items[b].id {
        ItemIdInjective(keys[a], keys[b]);
      }
    }
    forall j | 0 <= j < |itemRefs| ensures IsManifestId(items, itemRefs[j]) {
      assert ChapterItem(j + 1) in keys;
      var w :| 0 <= w < |keys| && keys[w] == ChapterItem(j + 1);
      assert items[w].id == itemRefs[j];
    }
  }

  /** The nav map and the spine of a sound book are in step: the j-th spine
      entry is the chapter whose nav point has play order j + 1. */
  lemma {:induction false} NavMatchesSpine(counter: nat, navPoints: seq<NavPoint>, itemRefs: seq<string>, entries: seq<Entry>)
    requires NavInStep(counter, navPoints, entries) && SpineInOrder(counter, itemRefs)
    ensures |navPoints| == |itemRefs|
    ensures forall j :: 0 <= j < |itemRefs| ==>
              itemRefs[j] == "id" + navPoints[j].playOrder &&
              ParseDecimal(navPoints[j].playOrder) == j + 1
  {
    forall j | 0 <= j < |itemRefs|
      ensures ParseDecimal(navPoints[j].playOrder) == j + 1
    {
      ParseDecimalOfDecimal(j + 1);
    }
  }

  /* ---------------------------------------------------------------------
     What the operations leave behind
     --------------------------------------------------------------------- */

  /** What the last steps of AddChapter (Book.cs:197-200) leave, from the
      state counter0, entries0, items0, keys0, itemRefs0: the images handled
      before the first refused src are stored, entry and manifest item each;
      when no src is refused the chapter file, its manifest item and spine
      entry follow and the counter goes up, and otherwise nothing more. */
  ghost predicate ChapterStored(document: seq<Node>, fileName: string, load: string -> Loaded,
                                toJpeg: Bytes -> Option<Bytes>, guid: nat -> Guid, serialize: seq<Node> -> string,
                                counter0: nat, entries0: seq<Entry>, items0: seq<Item>, keys0: seq<ItemKey>,
                                itemRefs0: seq<string>, ok: bool, counter: nat, entries: seq<Entry>,
                                items: seq<Item>, keys: seq<ItemKey>, itemRefs: seq<string>)
  {
    var outs := Outcomes(ImageAttributes(document), load, toJpeg, guid);
    var done := Handled(outs);
    && (ok <==> done == |outs|)
    && (!ok ==> && ImagesAdded(counter0, outs[..done], entries0, items0, keys0, entries, items, keys)
                && itemRefs == itemRefs0 && counter == counter0)
    && (ok ==> && entries == entries0 + ImageEntries(outs)
                             + [ChapterEntry(fileName, serialize(SetAttributes(document, "img", NewAttributes(outs))))]
               && items == items0 + ImageItems(counter0, outs) + [ChapterManifestItem(counter0, fileName)]
               && keys == keys0 + ImageKeys(counter0, outs) + [ChapterItem(counter0)]
               && itemRefs == itemRefs0 + [ItemId(ChapterItem(counter0))]
               && counter == counter0 + 1)
  }

  /** What the content steps of AddChapter (Book.cs:193-200) leave: a chapter
      without <html> once its links are gone makes AddCssReference throw
      before anything is stored; otherwise the cleaned and linked chapter is
      stored as ChapterStored says. */
  ghost predicate ContentStored(doc: seq<Node>, fileName: string, load: string -> Loaded,
                                toJpeg: Bytes -> Option<Bytes>, guid: nat -> Guid, serialize: seq<Node> -> string,
                                counter0: nat, entries0: seq<Entry>, items0: seq<Item>, keys0: seq<ItemKey>,
                                itemRefs0: seq<string>, ok: bool, counter: nat, entries: seq<Entry>,
                                items: seq<Item>, keys: seq<ItemKey>, itemRefs: seq<string>)
  {
    match AddCssReference(CleanUpTags(doc))
    case None =>
      && !ok && entries == entries0 && items == items0 && keys == keys0
      && itemRefs == itemRefs0 && counter == counter0
    case Some(styled) =>
      ChapterStored(styled, fileName, load, toJpeg, guid, serialize, counter0, entries0, items0, keys0,
                    itemRefs0, ok, counter, entries, items, keys, itemRefs)
  }

  /** A chapter stored to its end, under a name without separators, keeps a
      sound book sound. */
  lemma {:induction false} ContentKeepsSound(doc: seq<Node>, fileName: string, title: string, load: string -> Loaded,
                                             toJpeg: Bytes -> Option<Bytes>, guid: nat -> Guid,
                                             serialize: seq<Node> -> string, closed: bool,
                                             counter0: nat, navPoints0: seq<NavPoint>, entries0: seq<Entry>,
                                             items0: seq<Item>, keys0: seq<ItemKey>, itemRefs0: seq<string>,
                                             counter: nat, navPoints: seq<NavPoint>, entries: seq<Entry>,
                                             items: seq<Item>, keys: seq<ItemKey>, itemRefs: seq<string>)
    requires NoSeparator(fileName)
    requires KeysName(items0, keys0) && SoundState(counter0, navPoints0, items0, keys0, entries0, closed)
    requires ContentStored(doc, fileName, load, toJpeg, guid, serialize, counter0, entries0, items0, keys0,
                           itemRefs0, true, counter, entries, items, keys, itemRefs)
    requires navPoints == navPoints0 + [ChapterNavPoint(counter0, fileName, title)]
    ensures KeysName(items, keys) && SoundState(counter, navPoints, items, keys, entries, closed)
  {
    var styled := AddCssReference(CleanUpTags(doc)).value;
    var outs := Outcomes(ImageAttributes(styled), load, toJpeg, guid);
    var xhtml := serialize(SetAttributes(styled, "img", NewAttributes(outs)));
    OutcomesStoreJpeg(ImageAttributes(styled), load, toJpeg, guid);
    ChapterKeepsSound(counter0, navPoints0, items0, keys0, entries0, closed, fileName, title, xhtml, outs,
                      navPoints, items, keys, entries);
  }

  /** The entries the second half of Close writes: Content.opf unless Authors
      is null, then the cover and the stylesheet unless Authors is empty. */
  function PackageFiles(package: Package, title: string, authors: Option<seq<string>>,
                        bookId: Guid, now: DateTime): seq<Entry>
  {
    if authors.None? then []
    else
      var opf := Entry("OEBPS/Content.opf",
                       PackageFile(package.(metadata := PackageMetadata(title, authors.value, bookId, FormatTimestamp(now)))));
      if authors.value == [] then [opf]
      else [opf, Entry("OEBPS/cover.jpg", CoverImage(authors.value[0], title)), StylesheetEntry]
  }

  /** What Close (Book.cs:453-548) leaves, from the state closed0, toc0,
      entries0, items0, keys0, package0.  A closed book is left as it is.
      Otherwise the table of contents takes the nav points; when toc.ncx is
      already in the archive, from a Close that threw before, adding it throws
      again and nothing else changes.  Else toc.ncx is written, the fixed items
      join the manifest, the package takes manifest and spine, and the package
      files follow; the book is closed exactly when Authors is neither null nor
      empty. */
  ghost predicate CloseEffect(closed0: bool, toc0: Ncx, entries0: seq<Entry>, items0: seq<Item>, keys0: seq<ItemKey>,
                              package0: Package, navPoints: seq<NavPoint>, itemRefs: seq<string>, title: string,
                              authors: Option<seq<string>>, bookId: Guid, now: DateTime,
                              ok: bool, closed: bool, toc: Ncx, entries: seq<Entry>, items: seq<Item>,
                              keys: seq<ItemKey>, package: Package)
  {
    if closed0 then
      && ok && closed && toc == toc0 && entries == entries0 && items == items0 && keys == keys0 && package == package0
    else
      && toc == toc0.(navMap := navPoints)
      && closed == ok
      && (ok <==> !HasEntry(entries0, "toc.ncx") && authors.Some? && authors.value != [])
      && (HasEntry(entries0, "toc.ncx") ==>
            entries == entries0 && items == items0 && keys == keys0 && package == package0)
      && (!HasEntry(entries0, "toc.ncx") ==>
            && items == items0 + FixedItems && keys == keys0 + FixedKeys
            && package == package0.(manifest := items, spine := itemRefs)
            && entries == entries0 + [Entry("toc.ncx", NcxFile(toc))] + PackageFiles(package, title, authors, bookId, now))
  }

  /* ---------------------------------------------------------------------
     The book
     --------------------------------------------------------------------- */

  class Book {
    var entries: seq<Entry>           // _archive
    var counter: nat                  // _chapterCounter
    var navPoints: seq<NavPoint>      // _navigationPoints
    var items: seq<Item>              // _packageItems
    var itemRefs: seq<string>         // _itemReferences
    var closed: bool                  // _isClosed
    var archiveOpen: bool             // _archive not yet closed by Dispose
    var title: string                 // _title
    var toc: Ncx                      // _tableOfContents
    var package: Package              // _contentOpf
    var authors: Option<seq<string>>  // Authors
    ghost var keys: seq<ItemKey>

    ghost predicate Valid()
      reads this`counter, this`itemRefs, this`items, this`keys, this`closed, this`archiveOpen
    {
      && counter >= 1
      && SpineInOrder(counter, itemRefs)
      && KeysName(items, keys)
      && (!archiveOpen ==> closed)
    }

    ghost predicate Sound()
      reads this`counter, this`itemRefs, this`items, this`keys, this`closed, this`archiveOpen
      reads this`entries, this`navPoints
    {
      Valid() && SoundState(counter, navPoints, items, keys, entries, closed)
    }

    /** Book(Stream): the archive starts with mimetype, META-INF/container.xml
        and the not-found placeholder, in that order (Book.cs:37-52). */
    constructor (uid: Guid)
      ensures Valid() && Sound()
      ensures entries == ConstructorEntries
      ensures counter == 1 && navPoints == [] && items == [] && itemRefs == [] && keys == []
      ensures !closed && archiveOpen && authors == None
      ensures title == "Untitled" && toc == InitialNcx(uid) && package == InitialPackage
    {
      entries := ConstructorEntries;
      assert ConstructorEntries[2].name == NotFoundEntry.name;
      counter := 1;
      navPoints := [];
      items := [];
      itemRefs := [];
      keys := [];
      closed := false;
      archiveOpen := true;
      title := "Untitled";
      toc := InitialNcx(uid);
      package := InitialPackage;
      authors := None;
    }

    /** The Title setter: the title of the book and of the table of contents
        (Book.cs:27-31). */
    method SetTitle(value: string)
      requires Valid()
      modifies this`title, this`toc
      ensures Valid()
      ensures title == value && toc == old(toc).(docTitle := Some(value))
      ensures old(Sound()) ==> Sound()
    {
      title := value;
      toc := toc.(docTitle := Some(value));
    }

    /** The Authors setter; None stands for null. */
    method SetAuthors(value: Option<seq<string>>)
      requires Valid()
      modifies this`authors
      ensures Valid()
      ensures authors == value
      ensures old(Sound()) ==> Sound()
    {
      authors := value;
    }

    /** AddNavigationPointToTableOfContents (Book.cs:361-371). */
    method AddNavigationPoint(fileName: string, chapterTitle: string)
      modifies this`navPoints
      ensures navPoints == old(navPoints) + [ChapterNavPoint(counter, fileName, chapterTitle)]
    {
      var navPoint := NavPoint("NavPoint-" + Decimal(counter), Decimal(counter), chapterTitle, "OEBPS/" + fileName);
      navPoints := navPoints + [navPoint];
    }

    /** One iteration of ResolveAndDownloadImages (Book.cs:249-306): the
        image-th <img>, with attributes attrs. */
    method DownloadImage(attrs: seq<Attr>, image: nat, load: string -> Loaded,
                         toJpeg: Bytes -> Option<Bytes>, guid: nat -> Guid)
      returns (o: ImageOutcome)
      modifies this`entries, this`items, this`keys
      ensures o == ImageOutcomeOf(attrs, image, load, toJpeg, guid)
      ensures o.Stored? ==> && entries == old(entries) + [StoredEntry(o)]
                            && items == old(items) + [StoredItem(counter, image, o)]
                            && keys == old(keys) + [ImageItem(counter, image)]
      ensures !o.Stored? ==> entries == old(entries) && items == old(items) && keys == old(keys)
    {
      if !HasAttribute(attrs, "src") {
        return NoSource;
      }
      var src := AttributeValue(attrs, "src");
      if HasInvalidPathChars(src) {
        return Rejected;
      }
      var imageExt := Extension(src);
      var loaded := load(src);
      if loaded.LoadFailed? {
        o := Failed;
      } else if imageExt != ".jpg" && imageExt != ".jpeg" {
        var jpeg := toJpeg(loaded.data);
        o := if jpeg.None? then Failed else Stored(guid(image), ".jpg", jpeg.value);
      } else {
        o := Stored(guid(image), imageExt, loaded.data);
      }
      if o.Stored? {
        AddImage(o, image);
        StoredMediaType(o);
      }
    }

    /** The entry and the manifest item of a stored image (Book.cs:273 or 282,
        285-291); the href is the entry name without its OEBPS/ prefix.  The
        loop only stores .jpg and .jpeg images, on which GetMimeType as written
        and MimeType agree (Images.StoredSource). */
    method AddImage(o: ImageOutcome, image: nat)
      requires o.Stored? && (o.ext == ".jpg" || o.ext == ".jpeg")
      modifies this`entries, this`items, this`keys
      ensures entries == old(entries) + [StoredEntry(o)]
      ensures items == old(items) + [Item(ItemId(ImageItem(counter, image)), Source(o), MimeType(Source(o)))]
      ensures keys == old(keys) + [ImageItem(counter, image)]
    {
      var href := "images/" + o.guid + o.ext;
      entries := entries + [Entry("OEBPS/" + href, Binary(o.data))];
      items := items + [Item(ItemId(ImageItem(counter, image)), href, MimeType(href))];
      keys := keys + [ImageItem(counter, image)];
    }

    /** ResolveAndDownloadImages (Book.cs:244-308): the images of the chapter
        in document order, the image counter going up by one for each.  The
        run stops at the first src Path.GetExtension refuses, done being the
        number of images handled before it; lists are the attribute lists the
        handled images are left with. */
    method ResolveAndDownloadImages(imgs: seq<seq<Attr>>, load: string -> Loaded,
                                    toJpeg: Bytes -> Option<Bytes>, guid: nat -> Guid)
      returns (done: nat, lists: seq<seq<Attr>>)
      modifies this`entries, this`items, this`keys
      ensures var outs := Outcomes(imgs, load, toJpeg, guid);
              && done <= |imgs|
              && (forall i :: 0 <= i < done ==> !outs[i].Rejected?)
              && (done < |imgs| ==> outs[done].Rejected?)
              && lists == NewAttributes(outs[..done])
              && ImagesAdded(counter, outs[..done], old(entries), old(items), old(keys), entries, items, keys)
    {
      ghost var outs := Outcomes(imgs, load, toJpeg, guid);
      done := 0;
      lists := [];
      while done < |imgs|
        invariant 0 <= done <= |imgs|
        invariant forall i :: 0 <= i < done ==> !outs[i].Rejected?
        invariant lists == NewAttributes(outs[..done])
        invariant ImagesAdded(counter, outs[..done], old(entries), old(items), old(keys), entries, items, keys)
        decreases |imgs| - done
      {
        ghost var entries1, items1, keys1 := entries, items, keys;
        OutcomeAt(imgs, done, load, toJpeg, guid);
        var o := DownloadImage(imgs[done], done + 1, load, toJpeg, guid);
        assert o == outs[done];
        if o.Rejected? {
          return;
        }
        ImagesAddedStep(counter, outs, done, old(entries), old(items), old(keys),
                        entries1, items1, keys1, entries, items, keys);
        lists := lists + [[Attr("src", Source(o))]];
        done := done + 1;
      }
    }

    /** SaveDocument (Book.cs:373-394): the serialised chapter, after the
        textual cleanup, stored under OEBPS/. */
    method SaveDocument(doc: seq<Node>, fileName: string, serialize: seq<Node> -> string)
      modifies this`entries
      ensures entries == old(entries) + [ChapterEntry(fileName, serialize(doc))]
    {
      var xhtml := ReformatAndCleanXhtml(serialize(doc));
      entries := entries + [Entry("OEBPS/" + fileName, TextContent(xhtml))];
    }

    /** AddContentOpfRecord (Book.cs:229-242). */
    method AddContentOpfRecord(fileName: string)
      modifies this`items, this`itemRefs, this`keys
      ensures items == old(items) + [ChapterManifestItem(counter, fileName)]
      ensures itemRefs == old(itemRefs) + [ItemId(ChapterItem(counter))]
      ensures keys == old(keys) + [ChapterItem(counter)]
    {
      var itemId := "id" + Decimal(counter);
      items := items + [Item(itemId, fileName, "application/xhtml+xml")];
      itemRefs := itemRefs + [itemId];
      keys := keys + [ChapterItem(counter)];
    }

    /** The last steps of AddChapter (Book.cs:197-200): the images, the
        chapter file, its manifest item and spine entry, and the counter.  A
        refused image src ends the call with ok false after the images before
        it. */
    method StoreChapter(document: seq<Node>, fileName: string, load: string -> Loaded,
                        toJpeg: Bytes -> Option<Bytes>, guid: nat -> Guid, serialize: seq<Node> -> string)
      returns (ok: bool)
      requires Valid()
      modifies this`entries, this`items, this`itemRefs, this`keys, this`counter
      ensures Valid()
      ensures ChapterStored(document, fileName, load, toJpeg, guid, serialize,
                            old(counter), old(entries), old(items), old(keys), old(itemRefs),
                            ok, counter, entries, items, keys, itemRefs)
      ensures |old(entries)| <= |entries| && entries[..|old(entries)|] == old(entries)
    {
      var imgs := ImageAttributes(document);
      ghost var outs := Outcomes(imgs, load, toJpeg, guid);
      var done, lists := ResolveAndDownloadImages(imgs, load, toJpeg, guid);
      HandledIs(outs, done);
      assert entries == old(entries) + ImageEntries(outs[..done]);
      OutcomesStoreJpeg(imgs, load, toJpeg, guid);
      StoresJpegPrefix(outs, done);
      ImagesKeepKeysName(old(items), old(keys), counter, outs[..done]);
      if done < |imgs| {
        PrefixKept(old(entries), ImageEntries(outs[..done]));
        return false;
      }
      assert outs[..done] == outs;
      RecordChapter(SetAttributes(document, "img", lists), fileName, serialize);
      ok := true;
      PrefixKept(old(entries), ImageEntries(outs) + [ChapterEntry(fileName, serialize(SetAttributes(document, "img", lists)))]);
    }

    /** The chapter file, its manifest item and spine entry, and the counter
        (Book.cs:198-200). */
    method RecordChapter(document: seq<Node>, fileName: string, serialize: seq<Node> -> string)
      requires Valid()
      modifies this`entries, this`items, this`itemRefs, this`keys, this`counter
      ensures Valid()
      ensures entries == old(entries) + [ChapterEntry(fileName, serialize(document))]
      ensures items == old(items) + [ChapterManifestItem(old(counter), fileName)]
      ensures keys == old(keys) + [ChapterItem(old(counter))]
      ensures itemRefs == old(itemRefs) + [ItemId(ChapterItem(old(counter)))]
      ensures counter == old(counter) + 1
    {
      SaveDocument(document, fileName, serialize);
      AddContentOpfRecord(fileName);
      ChapterItemKeepsKeysName(old(items), old(keys), counter, fileName);
      SpineStep(counter, old(itemRefs));
      counter := counter + 1;
    }

    /** The steps of AddChapter once the file name is known (Book.cs:190-200):
        the navigation point, then the tags are cleaned up, the stylesheet is
        linked and the chapter is stored.  A document without <html> makes
        AddCssReference throw.  A chapter file name without separators keeps
        a sound book sound. */
    method AddChapterContent(doc: seq<Node>, fileName: string, title: string, load: string -> Loaded,
                             toJpeg: Bytes -> Option<Bytes>, guid: nat -> Guid, serialize: seq<Node> -> string)
      returns (ok: bool)
      requires Valid()
      modifies this`entries, this`navPoints, this`items, this`itemRefs, this`keys, this`counter
      ensures Valid()
      ensures navPoints == old(navPoints) + [ChapterNavPoint(old(counter), fileName, title)]
      ensures ok == ContentAccepted(doc, load, toJpeg, guid)
      ensures |old(entries)| <= |entries| && entries[..|old(entries)|] == old(entries)
      ensures ContentStored(doc, fileName, load, toJpeg, guid, serialize,
                            old(counter), old(entries), old(items), old(keys), old(itemRefs),
                            ok, counter, entries, items, keys, itemRefs)
    {
      AddNavigationPoint(fileName, title);
      var styled := AddCssReference(CleanUpTags(doc));
      if styled.None? {
        return false;
      }
      ok := StoreChapter(styled.value, fileName, load, toJpeg, guid, serialize);
    }

    /** AddChapter(content, suggestedFilename, onImageLoading) (Book.cs:170-201),
        on the parsed document doc; serialize is the XmlWriter of SaveDocument.
        A step that throws ends the call with ok false and leaves what the
        steps before it did. */
    method AddChapter(doc: seq<Node>, suggestedFileName: string, load: string -> Loaded,
                      toJpeg: Bytes -> Option<Bytes>, guid: nat -> Guid, serialize: seq<Node> -> string)
      returns (ok: bool)
      requires Valid() && archiveOpen
      modifies this`entries, this`navPoints, this`items, this`itemRefs, this`keys, this`counter
      ensures Valid()
      ensures ok == ChapterAccepted(doc, suggestedFileName, load, toJpeg, guid)
      ensures |old(entries)| <= |entries| && entries[..|old(entries)|] == old(entries)
      ensures HasInvalidPathChars(suggestedFileName) ==>
                && entries == old(entries) && navPoints == old(navPoints) && items == old(items)
                && keys == old(keys) && itemRefs == old(itemRefs) && counter == old(counter)
      ensures !HasInvalidPathChars(suggestedFileName) ==>
                && navPoints == old(navPoints) + [ChapterNavPoint(old(counter), ChapterFileName(suggestedFileName), ChapterTitle(doc, old(counter)))]
                && ContentStored(doc, ChapterFileName(suggestedFileName), load, toJpeg, guid, serialize,
                                 old(counter), old(entries), old(items), old(keys), old(itemRefs),
                                 ok, counter, entries, items, keys, itemRefs)
      ensures ok && old(Sound()) ==> Sound()
    {
      if HasInvalidPathChars(suggestedFileName) {
        return false;
      }
      var fileName := ChapterFileName(suggestedFileName);
      var chapterTitle := ChapterTitle(doc, counter);
      ChapterFileNameNoSeparator(suggestedFileName);
      ghost var entries0, navPoints0, items0, keys0, itemRefs0, counter0 := entries, navPoints, items, keys, itemRefs, counter;
      ghost var wasSound := SoundState(counter0, navPoints0, items0, keys0, entries0, closed);
      ok := AddChapterContent(doc, fileName, chapterTitle, load, toJpeg, guid, serialize);
      if ok && wasSound {
        ContentKeepsSound(doc, fileName, chapterTitle, load, toJpeg, guid, serialize, closed,
                          counter0, navPoints0, entries0, items0, keys0, itemRefs0,
                          counter, navPoints, entries, items, keys, itemRefs);
      }
    }

    /** AddChapter(content, onImageLoading) (Book.cs:436-439): the chapter is
        stored under a fresh GUID, so its name is never refused. */
    method AddChapterUnnamed(doc: seq<Node>, name: Guid, load: string -> Loaded,
                             toJpeg: Bytes -> Option<Bytes>, guid: nat -> Guid, serialize: seq<Node> -> string)
      returns (ok: bool)
      requires Valid() && archiveOpen
      modifies this`entries, this`navPoints, this`items, this`itemRefs, this`keys, this`counter
      ensures Valid()
      ensures ok == ChapterAccepted(doc, name, load, toJpeg, guid)
      ensures |old(entries)| <= |entries| && entries[..|old(entries)|] == old(entries)
      ensures navPoints == old(navPoints) + [ChapterNavPoint(old(counter), name + ".xhtml", ChapterTitle(doc, old(counter)))]
      ensures ContentStored(doc, name + ".xhtml", load, toJpeg, guid, serialize,
                            old(counter), old(entries), old(items), old(keys), old(itemRefs),
                            ok, counter, entries, items, keys, itemRefs)
      ensures ok && old(Sound()) ==> Sound()
    {
      GuidIsPlainName(name);
      PlainNameStem(name);
      ok := AddChapter(doc, name, load, toJpeg, guid, serialize);
    }

    /** The table of contents takes the nav points and is written to
        toc.ncx at the root of the archive (Book.cs:457-458, 442-451); the
        archive refuses a second entry of that name. */
    method WriteTableOfContents() returns (ok: bool)
      requires Valid()
      modifies this`toc, this`entries
      ensures Valid()
      ensures toc == old(toc).(navMap := navPoints)
      ensures ok <==> !HasEntry(old(entries), "toc.ncx")
      ensures ok ==> entries == old(entries) + [Entry("toc.ncx", NcxFile(toc))]
      ensures !ok ==> entries == old(entries)
    {
      toc := toc.(navMap := navPoints);
      if HasEntry(entries, "toc.ncx") {
        return false;
      }
      entries := entries + [Entry("toc.ncx", NcxFile(toc))];
      ok := true;
    }

    /** The four fixed manifest items, then the manifest and the spine of
        the package record (Book.cs:460-492). */
    method AddFixedItems()
      requires Valid()
      modifies this`items, this`keys, this`package
      ensures Valid()
      ensures items == old(items) + FixedItems && keys == old(keys) + FixedKeys
      ensures package == old(package).(manifest := items, spine := itemRefs)
    {
      FixedKeysName(items, keys);
      items := items + [NcxItem, CoverItem, StylesheetItem, NotFoundItem];
      keys := keys + FixedKeys;
      package := package.(manifest := items, spine := itemRefs);
    }

    /** Content.opf: the package record with its metadata (Book.cs:494-541).
        Authors null makes Authors.Select throw before anything is written. */
    method WriteContentOpf(bookId: Guid, now: DateTime) returns (ok: bool)
      requires Valid()
      modifies this`entries
      ensures Valid()
      ensures ok <==> authors.Some?
      ensures !ok ==> entries == old(entries)
      ensures ok ==> entries == old(entries) + [Entry("OEBPS/Content.opf",
                PackageFile(package.(metadata := PackageMetadata(title, authors.value, bookId, FormatTimestamp(now)))))]
    {
      if authors.None? {
        return false;
      }
      var metadata := PackageMetadata(title, authors.value, bookId, FormatTimestamp(now));
      entries := entries + [Entry("OEBPS/Content.opf", PackageFile(package.(metadata := metadata)))];
      ok := true;
    }

    /** AddCover (Book.cs:54-73): a 200x320 picture of the first author and
        the title; "unknown" when Authors is null, and an empty Authors makes
        First() throw. */
    method AddCover() returns (ok: bool)
      requires Valid()
      modifies this`entries
      ensures Valid()
      ensures ok <==> authors.None? || authors.value != []
      ensures !ok ==> entries == old(entries)
      ensures ok ==> entries == old(entries) + [Entry("OEBPS/cover.jpg",
                CoverImage(if authors.None? then "unknown" else authors.value[0], title))]
    {
      var author;
      if authors.None? {
        author := "unknown";
      } else if authors.value == [] {
        return false;
      } else {
        author := authors.value[0];
      }
      entries := entries + [Entry("OEBPS/cover.jpg", CoverImage(author, title))];
      ok := true;
    }

    /** AddStyleSheet (Book.cs:75-78). */
    method AddStyleSheet()
      requires Valid()
      modifies this`entries
      ensures Valid()
      ensures entries == old(entries) + [StylesheetEntry]
    {
      entries := entries + [StylesheetEntry];
    }

    /** The first half of Close (Book.cs:457-492): toc.ncx, then the fixed
        items, the manifest and the spine; when toc.ncx is refused nothing
        after it happens. */
    method WriteManifest() returns (ok: bool)
      requires Valid()
      modifies this`toc, this`entries, this`items, this`keys, this`package
      ensures Valid()
      ensures toc == old(toc).(navMap := navPoints)
      ensures ok <==> !HasEntry(old(entries), "toc.ncx")
      ensures !ok ==> entries == old(entries) && items == old(items) && keys == old(keys) && package == old(package)
      ensures ok ==> && entries == old(entries) + [Entry("toc.ncx", NcxFile(toc))]
                     && items == old(items) + FixedItems && keys == old(keys) + FixedKeys
                     && package == old(package).(manifest := items, spine := itemRefs)
    {
      ok := WriteTableOfContents();
      if ok {
        AddFixedItems();
      }
    }

    /** The second half of Close (Book.cs:494-545): Content.opf, the cover
        and the stylesheet, each step stopping the rest when it throws. */
    method WritePackageFiles(bookId: Guid, now: DateTime) returns (ok: bool)
      requires Valid()
      modifies this`entries
      ensures Valid()
      ensures ok <==> authors.Some? && authors.value != []
      ensures entries == old(entries) + PackageFiles(package, title, authors, bookId, now)
    {
      ok := WriteContentOpf(bookId, now);
      if !ok {
        return;
      }
      ok := AddCover();
      if !ok {
        return;
      }
      AddStyleSheet();
    }

    /** Close (Book.cs:453-548), with the identifier GUID and the clock
        reading as parameters; CloseEffect says what it leaves.  Authors null
        makes Authors.Select throw after toc.ncx and the fixed items; an empty
        Authors makes AddCover's Authors.First() throw after Content.opf; and
        a Close after one of those throws again at toc.ncx.  In each case the
        book is not closed. */
    method Close(bookId: Guid, now: DateTime) returns (ok: bool)
      requires Valid()
      modifies this`toc, this`entries, this`items, this`keys, this`package, this`closed
      ensures Valid()
      ensures CloseEffect(old(closed), old(toc), old(entries), old(items), old(keys), old(package),
                          navPoints, itemRefs, title, authors, bookId, now,
                          ok, closed, toc, entries, items, keys, package)
      ensures ok && old(Sound()) ==> Sound()
      ensures ok && !old(closed) && old(Sound()) ==>
                IdsUnique(package.manifest) && SpineResolves(package.spine, package.manifest)
    {
      if closed {
        return true;
      }
      ghost var entries0, items0, keys0 := entries, items, keys;
      ghost var wasSound := SoundState(counter, navPoints, items0, keys0, entries0, closed);
      ok := WriteManifest();
      if !ok {
        return;
      }
      ok := WritePackageFiles(bookId, now);
      if !ok {
        return;
      }
      closed := true;
      if wasSound {
        ClosedSound(counter, navPoints, itemRefs, items0, keys0, entries0, items, keys, entries);
      }
    }

    /** Dispose (Book.cs:551-556): Close, then the archive is closed; when
        Close throws, the archive stays open. */
    method Dispose(bookId: Guid, now: DateTime) returns (ok: bool)
      requires Valid()
      modifies this`toc, this`entries, this`items, this`keys, this`package, this`closed, this`archiveOpen
      ensures Valid()
      ensures CloseEffect(old(closed), old(toc), old(entries), old(items), old(keys), old(package),
                          navPoints, itemRefs, title, authors, bookId, now,
                          ok, closed, toc, entries, items, keys, package)
      ensures ok ==> !archiveOpen
      ensures !ok ==> archiveOpen == old(archiveOpen)
      ensures ok && old(Sound()) ==> Sound()
    {
      ok := Close(bookId, now);
      if ok {
        archiveOpen := false;
      }
    }
  }
}
