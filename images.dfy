/** What ResolveAndDownloadImages (libEpub/Book.cs:244-308) does with one
    <img> element, and what a run over the images of a chapter adds to the
    archive and to the manifest.

    The caller's loader (onImageLoading) and the System.Drawing decode and
    JPEG re-encode are parameters: each either yields bytes or throws, and a
    throw inside the try block of Book.cs:259-296 is an ordinary outcome.
    Guid.NewGuid is a parameter too, read at the image's counter. */
module Images {
  import opened Options
  import opened Paths
  import opened Markup
  import opened Epub

  /** onImageLoading(src) wrapped in a BufferedStream: the bytes of the
      stream, or failure (an exception, or a null stream). */
  datatype Loaded = Loaded(data: Bytes) | LoadFailed

  /** How one <img> ends. */
  datatype ImageOutcome =
    | NoSource                                      // no src attribute (Book.cs:298-305)
    | Rejected                                      // an exception outside the try (Book.cs:255)
    | Failed                                        // the try block threw (Book.cs:293-296)
    | Stored(guid: Guid, ext: string, data: Bytes)  // stored as images/<guid><ext>

  /** The outcome for the <img> with attributes attrs, the index-th of its
      chapter (counting from 1). */
  function ImageOutcomeOf(attrs: seq<Attr>, index: nat, load: string -> Loaded,
                          toJpeg: Bytes -> Option<Bytes>, guid: nat -> Guid): ImageOutcome
  {
    if !HasAttribute(attrs, "src") then NoSource
    else
      var src := AttributeValue(attrs, "src");
      if HasInvalidPathChars(src) then Rejected
      else
        var imageExt := Extension(src);
        if imageExt != ".jpg" && imageExt != ".jpeg" then
          match load(src)
          case LoadFailed => Failed
          case Loaded(raw) =>
            match toJpeg(raw)
            case None => Failed
            case Some(jpeg) => Stored(guid(index), ".jpg", jpeg)
        else
          match load(src)
          case LoadFailed => Failed
          case Loaded(raw) => Stored(guid(index), imageExt, raw)
  }

  /** The src the element carries afterwards. */
  function Source(o: ImageOutcome): string {
    if o.Stored? then "images/" + o.guid + o.ext else NotFoundSource
  }

  /** The archive entry of a stored image. */
  function StoredEntry(o: ImageOutcome): Entry
    requires o.Stored?
  {
    Entry("OEBPS/" + Source(o), Binary(o.data))
  }

  /** The manifest item of a stored image, the index-th of its chapter.  Its
      media type is what GetMimeType gives for every stored src (StoredSource
      below). */
  function StoredItem(chapter: nat, index: nat, o: ImageOutcome): Item
    requires o.Stored?
  {
    Item(ItemId(ImageItem(chapter, index)), Source(o), "image/jpeg")
  }

  /** The outcomes of the images of a chapter, in document order. */
  function Outcomes(imgs: seq<seq<Attr>>, load: string -> Loaded, toJpeg: Bytes -> Option<Bytes>,
                    guid: nat -> Guid): (outs: seq<ImageOutcome>)
    ensures |outs| == |imgs|
    decreases |imgs|
  {
    if imgs == [] then []
    else Outcomes(imgs[..|imgs| - 1], load, toJpeg, guid) + [ImageOutcomeOf(imgs[|imgs| - 1], |imgs|, load, toJpeg, guid)]
  }

  /** The k-th outcome is the k-th image's, the image counter being k + 1. */
  lemma {:induction false} OutcomeAt(imgs: seq<seq<Attr>>, k: nat, load: string -> Loaded,
                                     toJpeg: Bytes -> Option<Bytes>, guid: nat -> Guid)
    requires k < |imgs|
    ensures Outcomes(imgs, load, toJpeg, guid)[k] == ImageOutcomeOf(imgs[k], k + 1, load, toJpeg, guid)
    decreases |imgs|
  {
    var init := imgs[..|imgs| - 1];
    var last := ImageOutcomeOf(imgs[|imgs| - 1], |imgs|, load, toJpeg, guid);
    assert Outcomes(imgs, load, toJpeg, guid) == Outcomes(init, load, toJpeg, guid) + [last];
    if k < |init| {
      OutcomeAt(init, k, load, toJpeg, guid);
      assert init[k] == imgs[k];
    }
  }

  /** The number of images a run handles: those before the first refused src,
      or all of them when none is refused. */
  function Handled(outs: seq<ImageOutcome>): (k: nat)
    ensures k <= |outs|
    ensures forall i :: 0 <= i < k ==> !outs[i].Rejected?
    ensures k < |outs| ==> outs[k].Rejected?
    decreases |outs|
  {
    if outs == [] || outs[0].Rejected? then 0 else 1 + Handled(outs[1..])
  }

  /** The first refused index is the one Handled counts up to. */
  lemma {:induction false} HandledIs(outs: seq<ImageOutcome>, k: nat)
    requires k <= |outs|
    requires forall i :: 0 <= i < k ==> !outs[i].Rejected?
    requires k < |outs| ==> outs[k].Rejected?
    ensures Handled(outs) == k
    decreases k
  {
    if k > 0 {
      HandledIs(outs[1..], k - 1);
    }
  }

  /** The attribute list each <img> is left with: src alone. */
  function NewAttributes(outs: seq<ImageOutcome>): (lists: seq<seq<Attr>>)
    ensures |lists| == |outs|
    decreases |outs|
  {
    if outs == [] then []
    else NewAttributes(outs[..|outs| - 1]) + [[Attr("src", Source(outs[|outs| - 1]))]]
  }

  /** The archive entries a run of outcomes writes, in order. */
  function ImageEntries(outs: seq<ImageOutcome>): seq<Entry>
    decreases |outs|
  {
    if outs == [] then []
    else
      var o := outs[|outs| - 1];
      ImageEntries(outs[..|outs| - 1]) + (if o.Stored? then [StoredEntry(o)] else [])
  }

  /** The manifest items a run of outcomes adds; the i-th image has counter i. */
  function ImageItems(chapter: nat, outs: seq<ImageOutcome>): seq<Item>
    decreases |outs|
  {
    if outs == [] then []
    else
      var o := outs[|outs| - 1];
      ImageItems(chapter, outs[..|outs| - 1]) + (if o.Stored? then [StoredItem(chapter, |outs|, o)] else [])
  }

  /** What those manifest items stand for. */
  function ImageKeys(chapter: nat, outs: seq<ImageOutcome>): seq<ItemKey>
    decreases |outs|
  {
    if outs == [] then []
    else
      var o := outs[|outs| - 1];
      ImageKeys(chapter, outs[..|outs| - 1]) + (if o.Stored? then [ImageItem(chapter, |outs|)] else [])
  }

  /** One more outcome adds its own entry, item, key and attribute list. */
  lemma {:induction false} OutcomesSnoc(chapter: nat, outs: seq<ImageOutcome>, k: nat)
    requires k < |outs|
    ensures var o := outs[k];
            && ImageEntries(outs[..k + 1]) == ImageEntries(outs[..k]) + (if o.Stored? then [StoredEntry(o)] else [])
            && ImageItems(chapter, outs[..k + 1]) == ImageItems(chapter, outs[..k]) + (if o.Stored? then [StoredItem(chapter, k + 1, o)] else [])
            && ImageKeys(chapter, outs[..k + 1]) == ImageKeys(chapter, outs[..k]) + (if o.Stored? then [ImageItem(chapter, k + 1)] else [])
            && NewAttributes(outs[..k + 1]) == NewAttributes(outs[..k]) + [[Attr("src", Source(o))]]
  {
    assert outs[..k + 1][..k] == outs[..k];
  }

  /* ---------------------------------------------------------------------
     Properties
     --------------------------------------------------------------------- */

  /** An image is stored exactly when it has a usable src that loads and, for
      any extension but .jpg or .jpeg (compared case-sensitively), decodes.
      A .jpg or .jpeg image keeps its extension and its bytes; any other is
      re-encoded and stored as .jpg.  A missing src, or a load or decode that
      throws, leaves the placeholder; a refused path aborts. */
  lemma {:induction false} ImageOutcomeCases(attrs: seq<Attr>, index: nat, load: string -> Loaded,
                          toJpeg: Bytes -> Option<Bytes>, guid: nat -> Guid)
    ensures var o := ImageOutcomeOf(attrs, index, load, toJpeg, guid);
            && (o.NoSource? <==> !HasAttribute(attrs, "src"))
            && (o.Stored? ==> o.guid == guid(index) && (o.ext == ".jpg" || o.ext == ".jpeg"))
    ensures var o := ImageOutcomeOf(attrs, index, load, toJpeg, guid);
            HasAttribute(attrs, "src") ==>
              var src := AttributeValue(attrs, "src");
              var ext := Extension(src);
              && (o.Rejected? <==> HasInvalidPathChars(src))
              && (o.Stored? ==> load(src).Loaded?)
              && (o.Stored? && (ext == ".jpg" || ext == ".jpeg") ==> o.ext == ext && o.data == load(src).data)
              && (o.Stored? && ext != ".jpg" && ext != ".jpeg" ==> o.ext == ".jpg" && toJpeg(load(src).data) == Some(o.data))
              && (!HasInvalidPathChars(src) && load(src).LoadFailed? ==> o.Failed?)
              && ((!HasInvalidPathChars(src) && load(src).Loaded? && ext != ".jpg" && ext != ".jpeg"
                   && toJpeg(load(src).data).None?) ==> o.Failed?)
  {
  }

  /** The outcome as Book.cs:298-305 is written for an <img> without src: the
      new src attribute is handed to XmlNode.AppendChild, which refuses an
      attribute node and throws outside the try, so the run and the chapter
      end there, as they do for a refused src.  With a src, the outcome is
      ImageOutcomeOf's. */
  function ImageOutcomeAsWritten(attrs: seq<Attr>, index: nat, load: string -> Loaded,
                                 toJpeg: Bytes -> Option<Bytes>, guid: nat -> Guid): ImageOutcome
  {
    if !HasAttribute(attrs, "src") then Rejected else ImageOutcomeOf(attrs, index, load, toJpeg, guid)
  }

  /** An <img> with no attributes: as written it ends the chapter; the evident
      intent, which ImageOutcomeOf models, is the placeholder src. */
  lemma {:induction false} MissingSourceAborts(index: nat, load: string -> Loaded,
                                               toJpeg: Bytes -> Option<Bytes>, guid: nat -> Guid)
    ensures ImageOutcomeAsWritten([], index, load, toJpeg, guid) == Rejected
    ensures ImageOutcomeOf([], index, load, toJpeg, guid) == NoSource
    ensures Source(ImageOutcomeOf([], index, load, toJpeg, guid)) == NotFoundSource
  {
  }

  /** A stored image's src names the GUID and the extension it was stored
      under, and both the written and the corrected media-type lookup give
      image/jpeg for it. */
  lemma {:induction false} StoredSource(o: ImageOutcome)
    requires o.Stored? && (o.ext == ".jpg" || o.ext == ".jpeg")
    ensures Extension(Source(o)) == o.ext
    ensures FileNameWithoutExtension(Source(o)) == o.guid
    ensures MimeType(Source(o)) == GetMimeTypeAsWritten(Source(o)) == "image/jpeg"
    ensures StoredEntry(o).name == "OEBPS/" + Source(o)
  {
    GuidIsPlainName(o.guid);
    var dir := "images/";
    assert IsSeparator(dir[|dir| - 1]);
    assert IsExtension(o.ext);
    ExtensionOfAppended(dir, o.guid, o.ext);
    MimeTypeByExtension(Source(o));
  }

  /** The media type of a stored image, as the corrected lookup gives it. */
  lemma {:induction false} StoredMediaType(o: ImageOutcome)
    requires o.Stored? && (o.ext == ".jpg" || o.ext == ".jpeg")
    ensures MimeType(Source(o)) == "image/jpeg"
  {
    StoredSource(o);
  }

  /** Every outcome of Outcomes is stored under .jpg or .jpeg. */
  lemma {:induction false} OutcomesStoreJpeg(imgs: seq<seq<Attr>>, load: string -> Loaded,
                          toJpeg: Bytes -> Option<Bytes>, guid: nat -> Guid)
    ensures StoresJpeg(Outcomes(imgs, load, toJpeg, guid))
  {
    var outs := Outcomes(imgs, load, toJpeg, guid);
    forall i | 0 <= i < |outs| && outs[i].Stored?
      ensures outs[i].ext == ".jpg" || outs[i].ext == ".jpeg"
    {
      OutcomeAt(imgs, i, load, toJpeg, guid);
      ImageOutcomeCases(imgs[i], i + 1, load, toJpeg, guid);
    }
  }

  predicate StoresJpeg(outs: seq<ImageOutcome>) {
    forall i :: 0 <= i < |outs| && outs[i].Stored? ==> outs[i].ext == ".jpg" || outs[i].ext == ".jpeg"
  }

  lemma {:induction false} StoresJpegPrefix(outs: seq<ImageOutcome>, k: nat)
    requires StoresJpeg(outs) && k <= |outs|
    ensures StoresJpeg(outs[..k])
  {
    forall i | 0 <= i < k && outs[..k][i].Stored? ensures outs[..k][i].ext == ".jpg" || outs[..k][i].ext == ".jpeg" {
      assert outs[..k][i] == outs[i];
    }
  }

  /** An archive entry, a manifest item and a key that belong together: the
      item's href is the entry's name below OEBPS/ and starts with images/,
      its id is the key's and its media type is image/jpeg. */
  predicate ImageRecord(e: Entry, it: Item, k: ItemKey) {
    && e.name == "OEBPS/" + it.href
    && |it.href| > 0 && it.href[0] == 'i'
    && WellFormedKey(k) && it.id == ItemId(k)
    && it.mediaType == "image/jpeg"
  }

  lemma {:induction false} StoredRecord(chapter: nat, index: nat, o: ImageOutcome)
    requires o.Stored? && (o.ext == ".jpg" || o.ext == ".jpeg")
    ensures ImageRecord(StoredEntry(o), StoredItem(chapter, index, o), ImageItem(chapter, index))
  {
    StoredSource(o);
  }

  /** The entries and the manifest items of a run go in step: one of each per
      stored image, the item's href is its entry's name below OEBPS/, its id
      is the id of its key, and its media type is image/jpeg. */
  lemma {:induction false} ImageEntriesMatchItems(chapter: nat, outs: seq<ImageOutcome>)
    requires StoresJpeg(outs)
    ensures |ImageEntries(outs)| == |ImageItems(chapter, outs)| == |ImageKeys(chapter, outs)|
    ensures forall j :: 0 <= j < |ImageItems(chapter, outs)| ==>
              ImageRecord(ImageEntries(outs)[j], ImageItems(chapter, outs)[j], ImageKeys(chapter, outs)[j])
    decreases |outs|
  {
    if outs != [] {
      var front := outs[..|outs| - 1];
      var o := outs[|outs| - 1];
      assert StoresJpeg(front) by {
        forall i | 0 <= i < |front| && front[i].Stored?
          ensures front[i].ext == ".jpg" || front[i].ext == ".jpeg"
        {
          assert front[i] == outs[i];
        }
      }
      ImageEntriesMatchItems(chapter, front);
      var es, its, ks := ImageEntries(front), ImageItems(chapter, front), ImageKeys(chapter, front);
      if o.Stored? {
        StoredRecord(chapter, |outs|, o);
        var es', its', ks' := es + [StoredEntry(o)], its + [StoredItem(chapter, |outs|, o)], ks + [ImageItem(chapter, |outs|)];
        assert ImageEntries(outs) == es' && ImageItems(chapter, outs) == its' && ImageKeys(chapter, outs) == ks';
        forall j | 0 <= j < |its'|
          ensures ImageRecord(es'[j], its'[j], ks'[j])
        {
          if j < |its| {
            assert es'[j] == es[j] && its'[j] == its[j] && ks'[j] == ks[j];
          }
        }
      } else {
        assert ImageEntries(outs) == es + [];
        assert ImageItems(chapter, outs) == its + [];
        assert ImageKeys(chapter, outs) == ks + [];
      }
    }
  }

  /** The keys of a run are the chapter's image keys, with counters between 1
      and the number of images, strictly increasing: no two are the same. */
  lemma {:induction false} ImageKeysIncrease(chapter: nat, outs: seq<ImageOutcome>)
    ensures forall j :: 0 <= j < |ImageKeys(chapter, outs)| ==>
              && ImageKeys(chapter, outs)[j].ImageItem?
              && ImageKeys(chapter, outs)[j].chapter == chapter
              && 1 <= ImageKeys(chapter, outs)[j].index <= |outs|
    ensures forall a, b :: 0 <= a < b < |ImageKeys(chapter, outs)| ==>
              ImageKeys(chapter, outs)[a].index < ImageKeys(chapter, outs)[b].index
    decreases |outs|
  {
    if outs != [] {
      ImageKeysIncrease(chapter, outs[..|outs| - 1]);
    }
  }

  /** Every src an image is left with names an archive entry below OEBPS/:
      the placeholder (written when the book was created) or the entry the
      run wrote for that very image. */
  lemma {:induction false} SourcesResolve(outs: seq<ImageOutcome>)
    ensures forall i :: 0 <= i < |outs| ==>
              Source(outs[i]) == NotFoundSource || HasEntry(ImageEntries(outs), "OEBPS/" + Source(outs[i]))
    decreases |outs|
  {
    if outs != [] {
      var front := outs[..|outs| - 1];
      var o := outs[|outs| - 1];
      SourcesResolve(front);
      var es := ImageEntries(outs);
      forall i | 0 <= i < |outs| && outs[i].Stored?
        ensures HasEntry(es, "OEBPS/" + Source(outs[i]))
      {
        if i < |front| {
          assert outs[i] == front[i];
          var j :| 0 <= j < |ImageEntries(front)| && ImageEntries(front)[j].name == "OEBPS/" + Source(front[i]);
          assert es[j] == ImageEntries(front)[j];
        } else {
          assert es[|es| - 1] == StoredEntry(o);
        }
      }
    }
  }
}
