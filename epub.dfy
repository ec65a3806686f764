/** The records the book accumulates and the archive entries it writes:
    navigation points of the NCX table of contents, manifest items and spine
    references of the OPF package, the package metadata, and the fixed
    infrastructure files (Open Packaging Format 2.0.1, Open Container Format
    2.0.1).  The XmlSerializer output of these records is not modelled: an
    entry holds the record itself. */
module Epub {
  import opened Options
  import opened Digits
  import opened Paths

  type Bytes = seq<bv8>

  /* ---------------------------------------------------------------------
     GUID text
     --------------------------------------------------------------------- */

  predicate IsLowerHex(c: char) {
    '0' <= c <= '9' || 'a' <= c <= 'f'
  }

  /** Guid.ToString(): 32 lower-case hex digits in groups 8-4-4-4-12. */
  predicate IsGuidText(s: string) {
    |s| == 36 &&
    forall i :: 0 <= i < 36 ==>
      if i == 8 || i == 13 || i == 18 || i == 23 then s[i] == '-' else IsLowerHex(s[i])
  }

  type Guid = s: string | IsGuidText(s) witness "00000000-0000-0000-0000-000000000000"

  /** A GUID is a plain file name: no dot, no separator, nothing a path refuses. */
  lemma {:induction false} GuidIsPlainName(g: Guid)
    ensures NoSeparator(g) && !HasInvalidPathChars(g)
    ensures forall i :: 0 <= i < |g| ==> !IsDotOrSeparator(g[i])
  {
    forall i | 0 <= i < |g| ensures !IsDotOrSeparator(g[i]) && !IsInvalidPathChar(g[i]) {
      assert i == 8 || i == 13 || i == 18 || i == 23 || IsLowerHex(g[i]);
    }
  }

  /* ---------------------------------------------------------------------
     Manifest ids
     --------------------------------------------------------------------- */

  /** What a manifest item stands for: a chapter, the i-th image of a chapter,
      or one of the four items Close adds. */
  datatype ItemKey =
    | ChapterItem(chapter: nat)
    | ImageItem(chapter: nat, index: nat)
    | FixedItem(name: string)

  predicate IsFixedName(name: string) {
    name == "ncx" || name == "cover" || name == "stylesheet" || name == "notfound"
  }

  predicate WellFormedKey(k: ItemKey) {
    k.FixedItem? ==> IsFixedName(k.name)
  }

  /** The manifest id of a key (Book.cs:231, 285, 465, 471, 477, 484). */
  function ItemId(k: ItemKey): string {
    match k
    case ChapterItem(n) => "id" + Decimal(n)
    case ImageItem(n, i) => "imageId" + Decimal(n) + "_" + Decimal(i)
    case FixedItem(name) => name
  }

  /** Digits cannot hold '_', so the text before the first '_' is fixed. */
  lemma {:induction false} SplitAtUnderscore(a: string, b: string, c: string, d: string)
    requires AllDigits(a) && AllDigits(c)
    requires a + "_" + b == c + "_" + d
    ensures a == c && b == d
  {
    var x := a + "_" + b;
    assert x[|a|] == '_' && x[|c|] == '_';
    assert |a| == |c|;
    assert a == x[..|a|] && c == x[..|c|];
    assert b == x[|a| + 1..] && d == x[|c| + 1..];
  }

  /** Chapter ids start "id", image ids "im", fixed ids with no 'i'. */
  lemma {:induction false} ItemIdShape(k: ItemKey)
    requires WellFormedKey(k)
    ensures |ItemId(k)| >= 2
    ensures ItemId(k)[0] == 'i' <==> !k.FixedItem?
    ensures k.ChapterItem? ==> ItemId(k)[1] == 'd'
    ensures k.ImageItem? ==> ItemId(k)[1] == 'm'
  {
  }

  /** Different keys have different ids, so the manifest ids are unique as
      long as the keys are. */
  lemma {:induction false} ItemIdInjective(k1: ItemKey, k2: ItemKey)
    requires WellFormedKey(k1) && WellFormedKey(k2)
    requires ItemId(k1) == ItemId(k2)
    ensures k1 == k2
  {
    ItemIdShape(k1);
    ItemIdShape(k2);
    if k1.ChapterItem? && k2.ChapterItem? {
      ChapterIdInjective(k1.chapter, k2.chapter);
    } else if k1.ImageItem? && k2.ImageItem? {
      ImageIdInjective(k1.chapter, k1.index, k2.chapter, k2.index);
    }
  }

  lemma {:induction false} ChapterIdInjective(n: nat, m: nat)
    requires ItemId(ChapterItem(n)) == ItemId(ChapterItem(m))
    ensures n == m
  {
    var s := ItemId(ChapterItem(n));
    assert Decimal(n) == s[2..] == Decimal(m);
    DecimalInjective(n, m);
  }

  lemma {:induction false} ImageIdInjective(n: nat, i: nat, m: nat, j: nat)
    requires ItemId(ImageItem(n, i)) == ItemId(ImageItem(m, j))
    ensures n == m && i == j
  {
    var s := ItemId(ImageItem(n, i));
    assert Decimal(n) + "_" + Decimal(i) == s[7..] == Decimal(m) + "_" + Decimal(j);
    SplitAtUnderscore(Decimal(n), Decimal(i), Decimal(m), Decimal(j));
    DecimalInjective(n, m);
    DecimalInjective(i, j);
  }

  /* ---------------------------------------------------------------------
     Table of contents and package records
     --------------------------------------------------------------------- */

  /** ncxNavPoint (Book.cs:363-369). */
  datatype NavPoint = NavPoint(id: string, playOrder: string, text: string, src: string)

  /** The navigation point of the chapter with counter n stored as fileName. */
  function ChapterNavPoint(n: nat, fileName: string, title: string): NavPoint {
    NavPoint("NavPoint-" + Decimal(n), Decimal(n), title, "OEBPS/" + fileName)
  }

  /** packageItem: a manifest entry. */
  datatype Item = Item(id: string, href: string, mediaType: string)

  /** The placeholder image below OEBPS/: what a missing or failed image
      points at, and the href of the last fixed item. */
  const NotFoundSource := "images/not-found.jpg"

  /** The four items Close appends, in order (Book.cs:460-486). */
  const NcxItem := Item("ncx", "../toc.ncx", "application/x-dtbncx+xml")
  const CoverItem := Item("cover", "cover.jpg", "image/jpeg")
  const StylesheetItem := Item("stylesheet", "stylesheet.css", "text/css")
  const NotFoundItem := Item("notfound", NotFoundSource, "image/jpeg")
  const FixedItems := [NcxItem, CoverItem, StylesheetItem, NotFoundItem]
  const FixedKeys := [FixedItem("ncx"), FixedItem("cover"), FixedItem("stylesheet"), FixedItem("notfound")]

  /** ncxMeta: a name/content pair of the NCX head. */
  datatype Meta = Meta(name: string, content: string)

  /** The ncx record (Book.cs:108-122); the nav map is filled in by Close. */
  datatype Ncx = Ncx(version: string, head: seq<Meta>, docTitle: Option<string>, navMap: seq<NavPoint>)

  function InitialNcx(uid: Guid): Ncx {
    Ncx("2005-1",
        [Meta("dtb:uid", uid), Meta("dtb:depth", "1"), Meta("dtb:totalPageCount", "0"), Meta("dtb:maxPageNumber", "0")],
        None, [])
  }

  /** The entries Close appends to the metadata element (Book.cs:494-533). */
  datatype MetadataEntry =
    | Description(text: string)
    | DcTitle(text: string)
    | CoverMeta                               // <meta name="cover" content="cover"/>
    | Language(code: string)
    | Identifier(id: string, value: string)
    | Creator(fileAs: string, role: string)   // the name is in opf:file-as only
    | Date(text: string)

  /** The cover guide reference of the package (Book.cs:88-93). */
  datatype GuideReference = GuideReference(href: string, kind: string, title: string)

  /** The package record serialised as Content.opf. */
  datatype Package = Package(
    version: string,
    uniqueIdentifier: string,
    metadata: seq<MetadataEntry>,
    manifest: seq<Item>,
    spineToc: string,
    spine: seq<string>,
    guide: GuideReference)

  const CoverGuide := GuideReference("cover.jpg", "cover", "conver")

  /** epub.container (Book.cs:139-148). */
  datatype Container = Container(version: string, fullPath: string, mediaType: string)

  const ContainerInfo := Container("1.0", "OEBPS/Content.opf", "application/oebps-package+xml")

  /* ---------------------------------------------------------------------
     Archive entries
     --------------------------------------------------------------------- */

  /** What an archive entry holds: text, raw bytes, an embedded resource of
      the assembly, one of the serialised records, or the rendered cover. */
  datatype Content =
    | TextContent(text: string)
    | Binary(data: Bytes)
    | ResourceStream(resource: string)
    | ContainerFile(container: Container)
    | NcxFile(ncx: Ncx)
    | PackageFile(package: Package)
    | CoverImage(author: string, title: string)

  datatype Entry = Entry(name: string, content: Content)

  predicate HasEntry(es: seq<Entry>, name: string) {
    exists j :: 0 <= j < |es| && es[j].name == name
  }

  /* ---------------------------------------------------------------------
     Metadata
     --------------------------------------------------------------------- */

  /** The metadata of the package in the order Close appends it. */
  function PackageMetadata(title: string, authors: seq<string>, bookId: Guid, date: string): seq<MetadataEntry> {
    [Description(title), DcTitle(title), CoverMeta, Language("ru"), Identifier("uidParam", bookId)]
    + seq(|authors|, i requires 0 <= i < |authors| => Creator(authors[i], "aut"))
    + [Date(date)]
  }

  /** The authors a metadata list names, in order. */
  function CreatorsOf(md: seq<MetadataEntry>): seq<string> {
    if md == [] then []
    else (if md[0].Creator? then [md[0].fileAs] else []) + CreatorsOf(md[1..])
  }

  /** The titles a metadata list names, in order. */
  function TitlesOf(md: seq<MetadataEntry>): seq<string> {
    if md == [] then []
    else (if md[0].DcTitle? then [md[0].text] else []) + TitlesOf(md[1..])
  }

  lemma {:induction false} CreatorsOfConcat(a: seq<MetadataEntry>, b: seq<MetadataEntry>)
    ensures CreatorsOf(a + b) == CreatorsOf(a) + CreatorsOf(b)
  {
    if a == [] {
      assert a + b == b;
    } else {
      var a' := a[1..];
      assert (a + b)[0] == a[0] && (a + b)[1..] == a' + b;
      CreatorsOfConcat(a', b);
      var c := if a[0].Creator? then [a[0].fileAs] else [];
      assert CreatorsOf(a + b) == c + (CreatorsOf(a') + CreatorsOf(b));
      assert CreatorsOf(a) == c + CreatorsOf(a');
    }
  }

  lemma {:induction false} TitlesOfConcat(a: seq<MetadataEntry>, b: seq<MetadataEntry>)
    ensures TitlesOf(a + b) == TitlesOf(a) + TitlesOf(b)
  {
    if a == [] {
      assert a + b == b;
    } else {
      var a' := a[1..];
      assert (a + b)[0] == a[0] && (a + b)[1..] == a' + b;
      TitlesOfConcat(a', b);
      var c := if a[0].DcTitle? then [a[0].text] else [];
      assert TitlesOf(a + b) == c + (TitlesOf(a') + TitlesOf(b));
      assert TitlesOf(a) == c + TitlesOf(a');
    }
  }

  lemma {:induction false} CreatorsOfAuthors(authors: seq<string>)
    ensures CreatorsOf(seq(|authors|, i requires 0 <= i < |authors| => Creator(authors[i], "aut"))) == authors
    ensures TitlesOf(seq(|authors|, i requires 0 <= i < |authors| => Creator(authors[i], "aut"))) == []
  {
    var cs := seq(|authors|, i requires 0 <= i < |authors| => Creator(authors[i], "aut"));
    if authors != [] {
      CreatorsOfAuthors(authors[1..]);
      assert cs[1..] == seq(|authors[1..]|, i requires 0 <= i < |authors[1..]| => Creator(authors[1..][i], "aut"));
      assert authors == [authors[0]] + authors[1..];
    }
  }

  /** The metadata names every author once, in order, as a creator, and the
      title once, and carries the book identifier under the id the package
      declares as its unique identifier. */
  lemma {:induction false} PackageMetadataNames(title: string, authors: seq<string>, bookId: Guid, date: string)
    ensures var md := PackageMetadata(title, authors, bookId, date);
            && CreatorsOf(md) == authors
            && TitlesOf(md) == [title]
            && md[4] == Identifier("uidParam", bookId)
            && md[3] == Language("ru")
            && md[|md| - 1] == Date(date)
  {
    var head: seq<MetadataEntry> := [Description(title), DcTitle(title), CoverMeta, Language("ru"), Identifier("uidParam", bookId)];
    var cs := seq(|authors|, i requires 0 <= i < |authors| => Creator(authors[i], "aut"));
    var date': seq<MetadataEntry> := [Date(date)];
    CreatorsOfConcat(head, cs);
    CreatorsOfConcat(head + cs, date');
    TitlesOfConcat(head, cs);
    TitlesOfConcat(head + cs, date');
    CreatorsOfAuthors(authors);
    HeadMetadataNames(title, bookId);
    assert CreatorsOf(date') == [] && TitlesOf(date') == [];
  }

  /** The fixed entries before the creators name no author and the title once. */
  lemma {:induction false} HeadMetadataNames(title: string, bookId: Guid)
    ensures var head: seq<MetadataEntry> := [Description(title), DcTitle(title), CoverMeta, Language("ru"), Identifier("uidParam", bookId)];
            CreatorsOf(head) == [] && TitlesOf(head) == [title]
  {
    var head: seq<MetadataEntry> := [Description(title), DcTitle(title), CoverMeta, Language("ru"), Identifier("uidParam", bookId)];
    var h4: seq<MetadataEntry> := [Identifier("uidParam", bookId)];
    var h3 := [Language("ru")] + h4;
    var h2 := [CoverMeta] + h3;
    var h1 := [DcTitle(title)] + h2;
    NamesOfCons(Identifier("uidParam", bookId), []);
    assert h4 == [Identifier("uidParam", bookId)] + [];
    NamesOfCons(Language("ru"), h4);
    NamesOfCons(CoverMeta, h3);
    NamesOfCons(DcTitle(title), h2);
    NamesOfCons(Description(title), h1);
    assert head == [Description(title)] + h1;
  }

  /** One entry in front of a metadata list. */
  lemma {:induction false} NamesOfCons(e: MetadataEntry, rest: seq<MetadataEntry>)
    ensures CreatorsOf([e] + rest) == (if e.Creator? then [e.fileAs] else []) + CreatorsOf(rest)
    ensures TitlesOf([e] + rest) == (if e.DcTitle? then [e.text] else []) + TitlesOf(rest)
  {
    assert ([e] + rest)[0] == e && ([e] + rest)[1..] == rest;
  }

  /* ---------------------------------------------------------------------
     Timestamp
     --------------------------------------------------------------------- */

  /** The clock reading Close formats (DateTime.Now, Book.cs:524). */
  datatype DateTime = DateTime(year: nat, month: nat, day: nat, hour: nat, minute: nat, second: nat)

  predicate ValidDateTime(d: DateTime) {
    1 <= d.year <= 9999 && 1 <= d.month <= 12 && 1 <= d.day <= 31 &&
    d.hour < 24 && d.minute < 60 && d.second < 60
  }

  function Zeros(k: nat): (z: string)
    ensures |z| == k && AllDigits(z) && forall i :: 0 <= i < k ==> z[i] == '0'
  {
    if k == 0 then [] else Zeros(k - 1) + "0"
  }

  /** A custom format field: the decimal digits, left-padded with zeros to width. */
  function Pad(n: nat, width: nat): (s: string)
    ensures AllDigits(s) && |s| >= width
  {
    var d := Decimal(n);
    if |d| >= width then d else Zeros(width - |d|) + d
  }

  /** ToString("yyyy-MM-ddTHH:mm:ss"); 'T' is not a specifier and is copied. */
  function FormatTimestamp(d: DateTime): string {
    Pad(d.year, 4) + "-" + Pad(d.month, 2) + "-" + Pad(d.day, 2) + "T" +
    Pad(d.hour, 2) + ":" + Pad(d.minute, 2) + ":" + Pad(d.second, 2)
  }

  function Pow10(k: nat): nat {
    if k == 0 then 1 else 10 * Pow10(k - 1)
  }

  lemma {:induction false} DecimalLength(n: nat, k: nat)
    requires k >= 1 && n < Pow10(k)
    ensures |Decimal(n)| <= k
  {
    if n >= 10 {
      DecimalLength(n / 10, k - 1);
    }
  }

  lemma {:induction false} ParseDecimalAppend(a: string, b: string)
    requires AllDigits(a) && AllDigits(b)
    ensures AllDigits(a + b)
    ensures ParseDecimal(a + b) == ParseDecimal(a) * Pow10(|b|) + ParseDecimal(b)
    decreases |b|
  {
    if b == [] {
      assert a + b == a;
    } else {
      var b' := b[..|b| - 1];
      var d := b[|b| - 1] as int - '0' as int;
      assert AllDigits(b');
      assert (a + b)[..|a + b| - 1] == a + b';
      assert (a + b)[|a + b| - 1] == b[|b| - 1];
      ParseDecimalAppend(a, b');
      var pa, pb, p := ParseDecimal(a), ParseDecimal(b'), Pow10(|b'|);
      calc {
        ParseDecimal(a + b);
        10 * ParseDecimal(a + b') + d;
        10 * (pa * p + pb) + d;
        { ShiftDigit(pa, p, pb, d); }
        pa * (10 * p) + (10 * pb + d);
        pa * Pow10(|b|) + ParseDecimal(b);
      }
    }
  }

  /** One more digit after a number scaled by p: the arithmetic step of
      ParseDecimalAppend. */
  lemma ShiftDigit(a: int, p: int, b: int, d: int)
    ensures 10 * (a * p + b) + d == a * (10 * p) + (10 * b + d)
  {
  }

  lemma {:induction false} ParseZeros(k: nat)
    ensures ParseDecimal(Zeros(k)) == 0
  {
    if k > 0 {
      assert Zeros(k)[..k - 1] == Zeros(k - 1);
      ParseZeros(k - 1);
    }
  }

  lemma ZeroTimes(a: int, b: int)
    requires a == 0
    ensures a * b == 0
  {
  }

  /** A padded field has exactly the width when the number fits, and reads
      back as the number. */
  lemma {:induction false} PadFits(n: nat, width: nat)
    requires width >= 1 && n < Pow10(width)
    ensures |Pad(n, width)| == width
    ensures ParseDecimal(Pad(n, width)) == n
  {
    var d := Decimal(n);
    DecimalLength(n, width);
    ParseDecimalOfDecimal(n);
    if |d| < width {
      var z := Zeros(width - |d|);
      assert Pad(n, width) == z + d;
      ParseZeros(width - |d|);
      ParseDecimalAppend(z, d);
      ZeroTimes(ParseDecimal(z), Pow10(|d|));
    }
  }

  /** The timestamp has the fixed shape yyyy-MM-ddTHH:mm:ss, and each field
      reads back as the component of the date it came from. */
  lemma {:induction false} FormatTimestampRoundTrip(d: DateTime)
    requires ValidDateTime(d)
    ensures var s := FormatTimestamp(d);
            && |s| == 19
            && s[4] == '-' && s[7] == '-' && s[10] == 'T' && s[13] == ':' && s[16] == ':'
            && AllDigits(s[0..4]) && ParseDecimal(s[0..4]) == d.year
            && AllDigits(s[5..7]) && ParseDecimal(s[5..7]) == d.month
            && AllDigits(s[8..10]) && ParseDecimal(s[8..10]) == d.day
            && AllDigits(s[11..13]) && ParseDecimal(s[11..13]) == d.hour
            && AllDigits(s[14..16]) && ParseDecimal(s[14..16]) == d.minute
            && AllDigits(s[17..19]) && ParseDecimal(s[17..19]) == d.second
  {
    assert Pow10(2) == 100 && Pow10(4) == 10000 by {
      assert Pow10(1) == 10;
      assert Pow10(3) == 1000;
    }
    PadFits(d.year, 4);
    PadFits(d.month, 2);
    PadFits(d.day, 2);
    PadFits(d.hour, 2);
    PadFits(d.minute, 2);
    PadFits(d.second, 2);
    TimestampFields(Pad(d.year, 4), Pad(d.month, 2), Pad(d.day, 2), Pad(d.hour, 2), Pad(d.minute, 2), Pad(d.second, 2));
  }

  /** Where each field of the timestamp layout sits. */
  lemma {:induction false} TimestampFields(y: string, mo: string, dd: string, h: string, mi: string, se: string)
    requires |y| == 4 && |mo| == 2 && |dd| == 2 && |h| == 2 && |mi| == 2 && |se| == 2
    ensures var s := y + "-" + mo + "-" + dd + "T" + h + ":" + mi + ":" + se;
            && |s| == 19
            && s[4] == '-' && s[7] == '-' && s[10] == 'T' && s[13] == ':' && s[16] == ':'
            && s[0..4] == y && s[5..7] == mo && s[8..10] == dd
            && s[11..13] == h && s[14..16] == mi && s[17..19] == se
  {
    var date := y + "-" + mo + "-" + dd;
    var time := h + ":" + mi + ":" + se;
    var s := y + "-" + mo + "-" + dd + "T" + h + ":" + mi + ":" + se;
    assert s == date + "T" + time;
    ThreeFields(y, '-', mo, dd);
    ThreeFields(h, ':', mi, se);
    assert s[0..10] == date && s[11..19] == time;
    assert s[0..4] == date[0..4] && s[5..7] == date[5..7] && s[8..10] == date[8..10];
    assert s[11..13] == time[0..2] && s[14..16] == time[3..5] && s[17..19] == time[6..8];
  }

  /** Where each field of a layout a-b-c, with separator sep, sits. */
  lemma {:induction false} ThreeFields(a: string, sep: char, b: string, c: string)
    requires |b| == 2 && |c| == 2
    ensures var s := a + [sep] + b + [sep] + c;
            && |s| == |a| + 6
            && s[|a|] == sep && s[|a| + 3] == sep
            && s[0..|a|] == a && s[|a| + 1..|a| + 3] == b && s[|a| + 4..|a| + 6] == c
  {
    var s := a + [sep] + b + [sep] + c;
    var n := |a|;
    assert s[n + 1..n + 3] == b by {
      assert forall i :: 0 <= i < 2 ==> s[n + 1 + i] == b[i];
    }
    assert s[n + 4..n + 6] == c by {
      assert forall i :: 0 <= i < 2 ==> s[n + 4 + i] == c[i];
    }
  }

  /* ---------------------------------------------------------------------
     Media types of images
     --------------------------------------------------------------------- */

  function ToLowerAscii(s: string): (r: string)
    ensures |r| == |s|
    ensures forall i :: 0 <= i < |s| ==> r[i] == if 'A' <= s[i] <= 'Z' then (s[i] as int + 32) as char else s[i]
  {
    if s == [] then [] else
      var c := s[0];
      [if 'A' <= c <= 'Z' then (c as int + 32) as char else c] + ToLowerAscii(s[1..])
  }

  /** The switch of GetMimeType (Book.cs:316-327), on the label it is given. */
  function MediaTypeForLabel(name: string): string {
    if name == "gif" then "image/gif"
    else if name == "jpg" || name == "jpeg" then "image/jpeg"
    else if name == "bmp" then "image/bmp"
    else if name == "png" then "image/png"
    else "image/jpeg"
  }

  /** GetMimeType as written (Book.cs:310-328): the extension Path.GetExtension
      returns still has its dot, and the switch compares it with labels that
      have none. */
  function GetMimeTypeAsWritten(filePath: string): string {
    var ext := Extension(filePath);
    if ext == "" then "image/jpeg" else MediaTypeForLabel(ToLowerAscii(ext))
  }

  /** As written, every path is given image/jpeg: no case of the switch is
      ever reached. */
  lemma {:induction false} GetMimeTypeAlwaysJpeg(filePath: string)
    ensures GetMimeTypeAsWritten(filePath) == "image/jpeg"
  {
    var ext := Extension(filePath);
    if ext != "" {
      var e := ToLowerAscii(ext);
      assert e[0] == '.';
      assert e != "gif" && e != "jpg" && e != "jpeg" && e != "bmp" && e != "png";
    }
  }

  /** GetMimeType as evidently intended: the switch on the lower-cased
      extension without its dot. */
  function MimeType(filePath: string): string {
    var ext := Extension(filePath);
    if ext == "" then "image/jpeg" else MediaTypeForLabel(ToLowerAscii(ext[1..]))
  }

  /** The switch names png, gif and bmp for exactly those labels. */
  lemma {:induction false} MediaTypeForLabelIff(name: string)
    ensures MediaTypeForLabel(name) == "image/png" <==> name == "png"
    ensures MediaTypeForLabel(name) == "image/gif" <==> name == "gif"
    ensures MediaTypeForLabel(name) == "image/bmp" <==> name == "bmp"
    ensures name == "jpg" || name == "jpeg" ==> MediaTypeForLabel(name) == "image/jpeg"
  {
  }

  /** The corrected lookup names the type the extension stands for, in any
      letter case, and agrees with the written one on .jpg and .jpeg, the only
      extensions the book stores images under. */
  lemma {:induction false} MimeTypeByExtension(filePath: string)
    ensures var ext := Extension(filePath);
            && (MimeType(filePath) == "image/png" <==> ext != "" && ToLowerAscii(ext[1..]) == "png")
            && (MimeType(filePath) == "image/gif" <==> ext != "" && ToLowerAscii(ext[1..]) == "gif")
            && (MimeType(filePath) == "image/bmp" <==> ext != "" && ToLowerAscii(ext[1..]) == "bmp")
            && (ext == ".jpg" || ext == ".jpeg" ==> MimeType(filePath) == GetMimeTypeAsWritten(filePath) == "image/jpeg")
  {
    var ext := Extension(filePath);
    GetMimeTypeAlwaysJpeg(filePath);
    if ext != "" {
      MediaTypeForLabelIff(ToLowerAscii(ext[1..]));
      JpegLabels(ext);
    }
  }

  lemma {:induction false} JpegLabels(ext: string)
    ensures ext == ".jpg" ==> ToLowerAscii(ext[1..]) == "jpg"
    ensures ext == ".jpeg" ==> ToLowerAscii(ext[1..]) == "jpeg"
  {
  }
}
