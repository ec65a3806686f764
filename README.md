# epubcs Book, modelled in Dafny

libEpub's `Book` class builds an EPUB 2 book one chapter at a time. The
constructor writes `mimetype`, `META-INF/container.xml` and the placeholder
image. `AddChapter` does the following, in order:

- names the chapter file after the suggested name;
- adds a navigation point;
- cleans the parsed HTML tree and injects the stylesheet link;
- downloads, and where needed re-encodes, every `<img>`;
- stores the serialised and textually cleaned XHTML;
- adds the chapter to the manifest and the spine.

`Close` writes `toc.ncx`, adds the four fixed manifest items, writes
`OEBPS/Content.opf` with its metadata, then the cover and the stylesheet.
`Dispose` closes the book and then the archive.

The model is organised as follows:

- `Book` is a class whose fields are the source's fields. The zip archive
  is a sequence of entries that the methods only ever extend.
- The parsed chapter is a tree datatype. The DOM edits of `CleanUpTags` and
  `AddCssReference` become functions from the old tree to the new one.
- The regex pass over the serialised text is a set of scanners.
- The .NET path queries are modelled as the .NET Framework implements them
  on Windows.
- The caller's image loader, the JPEG re-encoder, `Guid.NewGuid`, the clock
  and the XML writer are parameters.

Two invariants are proved:

- `Valid` holds after every call, including one that throws half-way.
- `Sound` holds as long as no call has thrown. It says that:
  - the nav map and the spine are in step;
  - every manifest id is unique;
  - every href of the manifest and of the nav map names an archive entry.

  `Close` then yields a package whose ids are unique and whose spine
  resolves.

Files, in dependency order: `options.dfy`, `digits.dfy` (counter text),
`paths.dfy` (`Path.*`), `markup.dfy` (the element tree),
`chapter.dfy` (title, `CleanUpTags`, `AddCssReference`), `xhtml.dfy`
(`ReformatAndCleanXhtml`), `epub.dfy` (records, ids, metadata, timestamp,
media types), `images.dfy` (image outcomes) and `book.dfy` (the class).

Where the code does something other than what its surrounding comments and
names suggest, the model follows the code:

- The placeholder image is written by the constructor (Book.cs:47), not at
  finalisation.
- The script regex (Book.cs:396) deletes `<script …>` and `</script>` tags
  but keeps the text between them (`Xhtml.ScriptElementKeepsText`).
- The CDATA regex (Book.cs:399) deletes a whole CDATA section with its text,
  not only its markers (`Xhtml.CDataSectionRemoved`).
- "No script, meta, comment or CDATA marker survives" does not hold for a
  single left-to-right pass: a deletion can join the text around it into a
  new match (`Xhtml.DeletionCanJoinMatch`).

## Model

| member | source | states |
|---|---|---|
| Digits.Decimal | libEpub/Book.cs:366-367 | a counter prints as canonical decimal digits (no sign, no superfluous leading zero), starting with '0' only for 0 |
| Digits.ParseDecimalOfDecimal | libEpub/Book.cs:366 | reading the printed counter back gives the counter |
| Digits.DecimalOfParseDecimal | libEpub/Book.cs:366 | printing the value of canonical digit text gives the text back |
| Digits.DecimalInjective | libEpub/Book.cs:231 | distinct counters print as distinct text, which keeps chapter ids, nav ids and play orders apart |
| Digits.ParseDecimalZero | libEpub/Book.cs:366 | digit text whose value is zero is all zeros |
| Paths.HasInvalidPathChars | libEpub/Book.cs:172 | the characters .NET Framework's Path.GetFileName and Path.GetExtension (Book.cs:255) refuse with an exception; stated by Epub.GuidIsPlainName and Images.ImageOutcomeCases |
| Paths.LastWhere | libEpub/Book.cs:172 | the index found is the last character of the class, or -1 when there is none |
| Paths.LastWhereIs | libEpub/Book.cs:172 | an index with a class character and none after it is the one the search finds |
| Paths.FileName | libEpub/Book.cs:172 | Path.GetFileName is a suffix of the path without separators, preceded by a separator unless it is the whole path |
| Paths.FileNameWithoutExtension | libEpub/Book.cs:172 | the stem is a prefix of the file name: all of it when it has no dot, otherwise up to its last dot |
| Paths.Extension | libEpub/Book.cs:255 | Path.GetExtension is empty or a suffix of the path that starts with its only dot and holds no separator |
| Paths.ExtensionOfAppended | libEpub/Book.cs:172 | for a directory, a name and an extension, the three queries give back the extension, name+extension and name |
| Paths.ExtensionAfterLastDot | libEpub/Book.cs:255 | an extension appended to any text is what GetExtension returns |
| Paths.FileNameAfterSeparator | libEpub/Book.cs:172 | a name without separators after a directory is its file name |
| Paths.FileNameOfAppended | libEpub/Book.cs:172 | the file name of dir+name+extension is name+extension |
| Paths.StemBeforeLastDot | libEpub/Book.cs:172 | a file name name+extension has stem name |
| Paths.ChapterFileName | libEpub/Book.cs:172 | the chapter file name, the stem of the suggested name plus .xhtml; stated by ChapterFileNameStable, ChapterFileNameExtension and ChapterFileNameNoSeparator |
| Paths.ChapterFileNameStable | libEpub/Book.cs:172 | the chapter file name ends in .xhtml, keeps the stem of the suggested name, and naming it again changes nothing |
| Paths.ChapterFileNameExtension | libEpub/Book.cs:172 | the chapter file name's extension is .xhtml |
| Paths.ChapterFileNameStem | libEpub/Book.cs:172 | the stem of stem+".xhtml" is the stem |
| Paths.ChapterFileNameNoSeparator | libEpub/Book.cs:172 | a chapter file name never holds a separator, so OEBPS/ + it names a file directly under OEBPS |
| Paths.AppendedNoSeparator | libEpub/Book.cs:172 | a stem and an extension without separators join into a name without separators |
| Paths.PlainNameStem | libEpub/Book.cs:436-439 | a name with no dot or separator is its own file name and stem, so its chapter file is name + ".xhtml" |
| Markup.ElementsByTagName | libEpub/Book.cs:247 | GetElementsByTagName returns only elements of the tag asked for |
| Markup.ElementsByTagNameOf | libEpub/Book.cs:247 | the same, for the subtree of one node |
| Markup.ElementsByTagNameInOrder | libEpub/Book.cs:247 | GetElementsByTagName is exactly the nodes of the tag in a pre-order walk of the tree, in document order |
| Markup.ElementsByTagNameComplete | libEpub/Book.cs:247 | a node is returned if and only if it is an element of the tag somewhere in the tree: none is missed |
| Markup.AttributeValue | libEpub/Book.cs:251 | the value read is that of an attribute with the name asked for |
| Markup.InnerText | libEpub/Book.cs:423 | XmlNode.InnerText, the concatenated text of a subtree; stated by InnerTextConcat |
| Markup.EditFirst | libEpub/Book.cs:210-215 | the edit of the first element of a tag in document order, as GetElementsByTagName(..).First() then an in-place change; stated by EditFirstIsFirst, EditFirstCount and EditFirstKeepsAttributes |
| Markup.RemoveElements | libEpub/Book.cs:337-342 | every element of a tag removed with its subtree; stated by RemoveElementsRemovesAll |
| Markup.ReplaceAnchors | libEpub/Book.cs:217-226 | each anchor replaced by an underlined div holding its content; stated by ReplaceAnchorsDivs, ReplaceAnchorsCount, ReplaceAnchorsRemovesAll, ReplaceAnchorsKeepsText and ReplaceAnchorsKeepsAttributes |
| Markup.SetAttributes | libEpub/Book.cs:252-253 | the img elements given new attribute lists in document order; stated by SetAttributesThenRead, SetAttributesOfRead and SetAttributesCount |
| Markup.FirstInside | libEpub/Book.cs:332 | whether the first element of a tag lies inside an element of another tag; stated by FirstInsideSticky |
| Markup.ElementsByTagNameConcat | libEpub/Book.cs:247 | document order: the elements of a forest a+b are those of a, then those of b |
| Markup.InnerTextConcat | libEpub/Book.cs:221 | the text of a forest a+b is the text of a, then that of b |
| Markup.AttributesOfConcat | libEpub/Book.cs:249 | attribute lists of a+b are those of a, then those of b |
| Markup.RemoveElementsRemovesAll | libEpub/Book.cs:337-342 | after removing every element of a tag, none is left |
| Markup.RemoveElementsOfRemovesAll | libEpub/Book.cs:337-342 | the same, inside a node that is not itself removed |
| Markup.EditFirstIsFirst | libEpub/Book.cs:210-215 | editing the first element of a tag leaves the edited element first of that tag |
| Markup.EditFirstOfIsFirst | libEpub/Book.cs:210-215 | the same, inside one node |
| Markup.EditFirstCount | libEpub/Book.cs:210-215 | editing the first element changes the number of elements of any tag only by what the edit adds |
| Markup.EditFirstOfCount | libEpub/Book.cs:210-215 | the same, inside one node |
| Markup.EditFirstKeepsAttributes | libEpub/Book.cs:210-215 | elements of another tag, which the edit does not add, keep their attribute lists |
| Markup.EditFirstOfKeepsAttributes | libEpub/Book.cs:210-215 | the same, inside one node |
| Markup.ReplaceAnchorsKeepsAttributes | libEpub/Book.cs:217-226 | replacing anchors by divs leaves the attributes of every other tag as they were |
| Markup.ReplaceAnchorsOfKeepsAttributes | libEpub/Book.cs:217-226 | the same, inside one node |
| Markup.ReplaceAnchorsCount | libEpub/Book.cs:217-226 | anchors plus divs are as many after the replacement as before |
| Markup.ReplaceAnchorsOfCount | libEpub/Book.cs:217-226 | the same, inside one node |
| Markup.ReplaceAnchorsRemovesAll | libEpub/Book.cs:217-226 | when no anchor lies inside another, no anchor is left |
| Markup.ReplaceAnchorsOfRemovesAll | libEpub/Book.cs:217-226 | the same, inside one node |
| Markup.ReplaceAnchorsKeepsText | libEpub/Book.cs:221 | the div takes the anchor's inner content, so the document's text is unchanged |
| Markup.ReplaceAnchorsOfKeepsText | libEpub/Book.cs:221 | the same, inside one node |
| Markup.ReplaceAnchorsDivs | libEpub/Book.cs:217-226 | with no nested anchors, the anchors and divs before and the divs after correspond one for one in document order: each anchor becomes a div with only the underline style and the anchor's children, each div keeps its attributes and text |
| Markup.SetAttributesThenRead | libEpub/Book.cs:252-253 | giving the img elements new attribute lists, then reading them, returns the lists |
| Markup.SetAttributesOfThenRead | libEpub/Book.cs:252-253 | the same, inside one node |
| Markup.SetAttributesOfRead | libEpub/Book.cs:252-253 | setting the attribute lists the elements already have changes nothing |
| Markup.SetAttributesOfOfRead | libEpub/Book.cs:252-253 | the same, inside one node |
| Markup.SetAttributesCount | libEpub/Book.cs:252-253 | setting attributes keeps the number of elements of every tag |
| Markup.SetAttributesOfCount | libEpub/Book.cs:252-253 | the same, inside one node |
| Chapter.ChapterTitle | libEpub/Book.cs:420-424 | GetChapterTitle; stated by ChapterTitleFallback |
| Chapter.ChapterTitleFallback | libEpub/Book.cs:420-424 | the title is the text of the first title element, or the counter in decimal when there is none |
| Chapter.CleanUpTags | libEpub/Book.cs:208-227 | CleanUpTags on the tree as a value; stated by CleanUpTagsEffect and CleanUpTagsDivs |
| Chapter.EditFirstAbsent | libEpub/Book.cs:211 | without a body element CleanUpTags' first edit changes nothing |
| Chapter.ClearKeepsNoNestedAnchors | libEpub/Book.cs:212-215 | clearing body attributes creates no nested anchor |
| Chapter.ClearKeepsNoNestedAnchorsOf | libEpub/Book.cs:212-215 | the same, inside one node |
| Chapter.EditFirstAbsentOrCounted | libEpub/Book.cs:212-215 | clearing body attributes adds no anchor |
| Chapter.ClearKeepsText | libEpub/Book.cs:212-215 | clearing attributes keeps the document's text |
| Chapter.ClearKeepsTextOf | libEpub/Book.cs:212-215 | the same, inside one node |
| Chapter.CleanUpTagsEffect | libEpub/Book.cs:208-227 | no body: nothing changes; otherwise the first body has no attributes, anchors+divs are preserved in number, text is kept, anchors vanish when none nests, and other tags keep their attributes |
| Chapter.CleanUpTagsDivs | libEpub/Book.cs:208-227 | with a body and no nested anchors, the i-th anchor or div becomes the i-th div: an anchor turns into a div whose only attribute is the underline style, with the anchor's text and, unless the cleared body lies inside it, its very children; a div keeps its attributes and text |
| Chapter.AddCssReference | libEpub/Book.cs:330-359 | AddCssReference, None for the null html element; stated by AddCssReferenceHtml, AddCssReferenceNewHead, AddCssReferenceExistingHead and AddCssReferenceDetachedHead |
| Chapter.FirstInsideSticky | libEpub/Book.cs:332 | once an element of the tag has been met, the first one stays found |
| Chapter.FirstInsideStickyOf | libEpub/Book.cs:332 | the same, inside one node |
| Chapter.RemoveAddsNone | libEpub/Book.cs:337-342 | removing links adds no element of another tag |
| Chapter.RemoveAddsNoneOf | libEpub/Book.cs:337-342 | the same, inside one node |
| Chapter.RemoveKeepsFirst | libEpub/Book.cs:332-342 | the head found before the links go is still the first head afterwards, minus its links, unless it lay inside a link |
| Chapter.RemoveKeepsFirstOf | libEpub/Book.cs:332-342 | the same, inside one node |
| Chapter.StylesheetQueries | libEpub/Book.cs:426-434 | the created link is one link element, and a new head holds exactly it |
| Chapter.AddCssReferenceHtml | libEpub/Book.cs:346-348 | the call fails exactly when no html element is left once the links are gone; otherwise the first html has no attributes |
| Chapter.AddCssReferenceNewHead | libEpub/Book.cs:349-354 | without a head, the new head holding the stylesheet link is the html's first child and the document's only head and link |
| Chapter.NewHeadIsTheHead | libEpub/Book.cs:351-353 | prepending the new head gives the document exactly one head |
| Chapter.HeadBeforeHtmlOf | libEpub/Book.cs:353 | a head that is the first child of the first html is the only head |
| Chapter.HeadBeforeHtmlIn | libEpub/Book.cs:353 | the same, over a forest |
| Chapter.HeadCountOnly | libEpub/Book.cs:353 | the first html's first child being a head makes the document have one |
| Chapter.HeadCountOnlyOf | libEpub/Book.cs:353 | the same, inside one node |
| Chapter.AddCssReferenceExistingHead | libEpub/Book.cs:355-358 | an existing head keeps its attributes and gets the stylesheet link as its last child, the only link of the document |
| Chapter.AddCssReferenceDetachedHead | libEpub/Book.cs:332-357 | a first head inside a link is detached with the link, so the appended stylesheet link is lost and no link remains |
| Xhtml.IndexFrom | libEpub/Book.cs:396-397 | the index of the first given character from i on, or -1 when there is none |
| Xhtml.SkipBlanks | libEpub/Book.cs:398 | the end of a run of blanks [ \r\n\t] |
| Xhtml.DashesFrom | libEpub/Book.cs:398 | the first "--" from i on, or -1 |
| Xhtml.TagMatch | libEpub/Book.cs:396-397 | "<name" or "</name" followed by a '>' is matched exactly up to the first '>' after the prefix; anything else is no match |
| Xhtml.CommentMatch | libEpub/Book.cs:398 | a comment match runs from '<' to '>' |
| Xhtml.CDataMatch | libEpub/Book.cs:399 | a CDATA match runs from '<' to '>' |
| Xhtml.MatchLength | libEpub/Book.cs:396-399 | every pattern's match starts with '<' |
| Xhtml.DeleteAll | libEpub/Book.cs:407-410 | Regex.Replace with "": leftmost matches deleted in one left-to-right pass; stated by DeleteAllShrinks, DeleteAllNoMatch, DeleteAllFixedPoint, DeleteAllPlainPrefix, DeleteAllAfterMatch and DeleteAllSkip |
| Xhtml.DeleteAllShrinks | libEpub/Book.cs:407-410 | Regex.Replace with "" never lengthens the text, and shortens it when there is a match |
| Xhtml.DeleteAllNoMatch | libEpub/Book.cs:407-410 | text without a match is left as it is |
| Xhtml.DeleteAllFixedPoint | libEpub/Book.cs:407-410 | the pass leaves the text unchanged exactly when the pattern does not occur |
| Xhtml.NoAngleNoMatch | libEpub/Book.cs:396-399 | text without '<' has no match |
| Xhtml.DeleteAllPlainPrefix | libEpub/Book.cs:407-410 | text without '<' is copied and the scan continues after it |
| Xhtml.DeleteAllAfterMatch | libEpub/Book.cs:407-410 | a match is deleted and the scan continues after it |
| Xhtml.DeleteAllSkip | libEpub/Book.cs:407-410 | a character before a '<' is copied |
| Xhtml.ScriptElementKeepsText | libEpub/Book.cs:396-407 | a script element loses its tags but keeps its text |
| Xhtml.CloseScriptDeleted | libEpub/Book.cs:396-407 | a closing script tag is deleted |
| Xhtml.IndexFromIs | libEpub/Book.cs:396-397 | the first c from i on is found |
| Xhtml.CDataSectionRemoved | libEpub/Book.cs:399-410 | a CDATA section is deleted with its text |
| Xhtml.CommentRemoved | libEpub/Book.cs:398-409 | a well-formed comment is deleted whole |
| Xhtml.CommentMatchWhole | libEpub/Book.cs:398 | the comment pattern matches the whole comment |
| Xhtml.DashesFromIs | libEpub/Book.cs:398 | the first "--" from i on is found |
| Xhtml.DeletionCanJoinMatch | libEpub/Book.cs:407-410 | one pass can leave a match behind: deleting a match can join a '<' with the following text into a new one |
| Xhtml.ScriptTagMatch | libEpub/Book.cs:396 | "<script" + attributes + ">" is matched up to its '>' |
| Xhtml.MetaTagMatch | libEpub/Book.cs:397 | "<meta" + attributes + ">" is matched up to its '>' |
| Xhtml.MetaTagDeleted | libEpub/Book.cs:397-408 | a meta tag followed by text without '<' is deleted and the text kept |
| Xhtml.ReplaceHtml | libEpub/Book.cs:406 | String.Replace of "<html>" by the namespaced tag; stated by ReplaceHtmlComplete, ReplaceHtmlNone and ReplaceHtmlFixedPoint |
| Xhtml.ReplaceHtmlPrefix | libEpub/Book.cs:406 | a prefix without '<' survives the html rewrite both ways |
| Xhtml.NamespaceTagShape | libEpub/Book.cs:406 | the namespaced html tag has no second '<' and differs from "<html>" at its sixth character |
| Xhtml.ReplaceHtmlComplete | libEpub/Book.cs:406 | after String.Replace no bare "<html>" is left |
| Xhtml.NoTagAfterNamespace | libEpub/Book.cs:406 | the replacement does not start a new "<html>" with what follows |
| Xhtml.NoTagAfterCopy | libEpub/Book.cs:406 | a copied character does not start a new "<html>" with the rewritten rest |
| Xhtml.CopyKeepsNoTag | libEpub/Book.cs:406 | a character before text without "<html>" creates none unless the original had one there |
| Xhtml.TagAtStartSplits | libEpub/Book.cs:406 | an "<html>" at the start is '<' followed by "html>" |
| Xhtml.TagFromParts | libEpub/Book.cs:406 | '<' followed by "html>" starts an "<html>" |
| Xhtml.ReplaceHtmlNone | libEpub/Book.cs:406 | text without "<html>" is left unchanged |
| Xhtml.ReplaceHtmlFixedPoint | libEpub/Book.cs:406 | the html rewrite changes the text exactly when it contains "<html>" |
| Xhtml.ReformatAndCleanXhtml | libEpub/Book.cs:401-418 | the html rewrite, then the script, meta, comment and CDATA passes in that order; stated by PlainTextUnchanged and, pass by pass, by the lemmas above |
| Xhtml.PlainTextUnchanged | libEpub/Book.cs:401-418 | the whole textual cleanup leaves text without '<' unchanged |
| Epub.GuidIsPlainName | libEpub/Book.cs:438 | a GUID's text has no dot, separator or invalid path character |
| Epub.ItemId | libEpub/Book.cs:463-483 | the manifest id of an item: id{n} for a chapter (Book.cs:231), imageId{n}_{i} for an image (Book.cs:289), and the four fixed ids; stated by ItemIdInjective |
| Epub.ChapterNavPoint | libEpub/Book.cs:363-369 | the nav point of chapter n: id NavPoint-n, play order n, the title, src OEBPS/ + file name; stated by EpubBook.NavPointAdded and EpubBook.NavMatchesSpine |
| Epub.ItemIdInjective | libEpub/Book.cs:463-483 | the ids "id{n}", "imageId{n}_{i}" and the four fixed ids are distinct for distinct items |
| Epub.ChapterIdInjective | libEpub/Book.cs:231 | two chapters share an id only if they share a counter |
| Epub.ImageIdInjective | libEpub/Book.cs:289 | two images share an id only if chapter and image counters agree |
| Epub.SplitAtUnderscore | libEpub/Book.cs:289 | digit text then "_" splits uniquely |
| Epub.ItemIdShape | libEpub/Book.cs:231 | chapter and image ids start with 'i' and differ at their second character; fixed ids do not start with 'i' |
| Epub.PackageMetadata | libEpub/Book.cs:498-533 | the metadata element of Content.opf; stated by PackageMetadataNames and HeadMetadataNames |
| Epub.CreatorsOfConcat | libEpub/Book.cs:526-533 | the creators of appended metadata are those of the first part, then those of the second |
| Epub.TitlesOfConcat | libEpub/Book.cs:526-533 | the same for titles |
| Epub.CreatorsOfAuthors | libEpub/Book.cs:515-521 | one creator per author, in the order of Authors, and no title among them |
| Epub.PackageMetadataNames | libEpub/Book.cs:498-533 | the metadata names every author once, in order, and the title once; it carries the language ru, the book id under uidParam and ends with the date |
| Epub.HeadMetadataNames | libEpub/Book.cs:500-512 | the entries before the creators name the title once and no author |
| Epub.Zeros | libEpub/Book.cs:524 | k zero digits |
| Epub.Pad | libEpub/Book.cs:524 | a padded field is digits and at least as wide as asked |
| Epub.DecimalLength | libEpub/Book.cs:524 | a number below 10^k has at most k digits |
| Epub.ParseDecimalAppend | libEpub/Book.cs:524 | the value of digit text a+b is value(a)·10^\|b\| + value(b) |
| Epub.ParseZeros | libEpub/Book.cs:524 | zeros have value 0 |
| Epub.PadFits | libEpub/Book.cs:524 | a number that fits is padded to exactly the width and reads back as itself |
| Epub.FormatTimestamp | libEpub/Book.cs:524 | DateTime.ToString("yyyy-MM-ddTHH:mm:ss"); stated by FormatTimestampRoundTrip and TimestampFields |
| Epub.FormatTimestampRoundTrip | libEpub/Book.cs:524 | the date has the shape yyyy-MM-ddTHH:mm:ss and each field reads back as the date's component |
| Epub.TimestampFields | libEpub/Book.cs:524 | where each field and separator of the layout sits |
| Epub.ToLowerAscii | libEpub/Book.cs:314 | String.ToLower on ASCII text: letters A-Z lowered, every other character kept, length kept |
| Epub.GetMimeTypeAsWritten | libEpub/Book.cs:310-328 | GetMimeType as written; stated by GetMimeTypeAlwaysJpeg |
| Epub.MimeType | libEpub/Book.cs:312-327 | GetMimeType as evidently intended, matching the extension without its dot; stated by MimeTypeByExtension |
| Epub.GetMimeTypeAlwaysJpeg | libEpub/Book.cs:310-328 | as written, GetMimeType returns image/jpeg for every path |
| Epub.MediaTypeForLabelIff | libEpub/Book.cs:315-327 | the switch answers png, gif and bmp for exactly those labels, and jpeg for jpg and jpeg |
| Epub.MimeTypeByExtension | libEpub/Book.cs:310-328 | the corrected lookup answers png, gif and bmp exactly for those extensions in any case, and agrees with the code as written on .jpg and .jpeg |
| Epub.JpegLabels | libEpub/Book.cs:314-321 | .jpg and .jpeg lower to the jpg and jpeg labels |
| Images.Outcomes | libEpub/Book.cs:247 | one outcome per img element |
| Images.OutcomeAt | libEpub/Book.cs:246-247 | the k-th outcome is that of the k-th img, with image counter k+1 |
| Images.NewAttributes | libEpub/Book.cs:285-303 | one new attribute list per handled image |
| Images.Handled | libEpub/Book.cs:244-308 | the number of images handled before the first refused src: none before it is refused, and it is refused unless all are handled |
| Images.OutcomesSnoc | libEpub/Book.cs:247-306 | one more image adds its entry, item and key exactly when stored, and always its src list |
| Images.ImageOutcomeOf | libEpub/Book.cs:249-305 | what happens to one img, with the intended placeholder for a missing src; stated by ImageOutcomeCases and StoredSource |
| Images.ImageOutcomeCases | libEpub/Book.cs:249-305 | no src gives NoSource; a src with invalid path chars is rejected; a failed load or re-encoding fails; .jpg and .jpeg are stored as loaded, anything else re-encoded as .jpg |
| Images.ImageOutcomeAsWritten | libEpub/Book.cs:297-305 | the same as written, where a missing src throws; stated by MissingSourceAborts |
| Images.MissingSourceAborts | libEpub/Book.cs:298-305 | an img without attributes ends the chapter as written, while the intended outcome keeps it with the placeholder src |
| Images.StoredSource | libEpub/Book.cs:272-290 | a stored image's src is images/{guid}{ext}, its entry is OEBPS/ + src, and its media type is image/jpeg both as written and corrected |
| Images.StoredMediaType | libEpub/Book.cs:290 | a stored image gets media type image/jpeg |
| Images.OutcomesStoreJpeg | libEpub/Book.cs:262-283 | every stored image has extension .jpg or .jpeg |
| Images.StoresJpegPrefix | libEpub/Book.cs:262-283 | the same holds for the images handled before a stop |
| Images.StoredRecord | libEpub/Book.cs:273-291 | a stored image's entry, item and key agree: id from the key, href naming the entry |
| Images.ImageEntriesMatchItems | libEpub/Book.cs:273-291 | a chapter's image entries, items and keys correspond one to one |
| Images.ImageKeysIncrease | libEpub/Book.cs:289 | image keys of one chapter have that chapter and strictly increasing image counters within 1..n |
| Images.SourcesResolve | libEpub/Book.cs:285-303 | every new src is the placeholder or names an image entry written for the chapter |
| EpubBook.ImageAttributes | libEpub/Book.cs:247 | one attribute list per img element of the document |
| EpubBook.HasEntryGrows | libEpub/Book.cs:41 | the archive only grows: entries present stay present, and appended ones are present |
| EpubBook.PackagePathOfPlainName | libEpub/Book.cs:234 | a chapter href names OEBPS/ + the file name |
| EpubBook.PackagePathOfImage | libEpub/Book.cs:285 | an image href names OEBPS/ + href |
| EpubBook.ChapterKeysFresh | libEpub/Book.cs:231 | a chapter's image keys and its chapter key are new and belong to that chapter |
| EpubBook.ChapterKeysName | libEpub/Book.cs:286-291 | a chapter's new items carry the ids of their keys |
| EpubBook.ChapterItemKeepsKeysName | libEpub/Book.cs:231-237 | the chapter item carries the chapter's id |
| EpubBook.ChapterItemsResolve | libEpub/Book.cs:273-291 | every new manifest href names an entry written for the chapter |
| EpubBook.ChapterKeepsSound | libEpub/Book.cs:170-201 | a completed chapter keeps the book sound with the counter one higher |
| EpubBook.ContentKeepsSound | libEpub/Book.cs:193-200 | a chapter stored to its end under a name without separators keeps a sound book sound, with the nav point added |
| EpubBook.NavPointAdded | libEpub/Book.cs:361-371 | the chapter's nav point, numbered by the counter, keeps the nav map in step once its file is stored |
| EpubBook.NcxItemPath | libEpub/Book.cs:458-462 | ../toc.ncx names the toc.ncx entry |
| EpubBook.CoverItemPath | libEpub/Book.cs:468 | cover.jpg names OEBPS/cover.jpg |
| EpubBook.StylesheetItemPath | libEpub/Book.cs:475 | stylesheet.css names OEBPS/stylesheet.css |
| EpubBook.NotFoundItemPath | libEpub/Book.cs:482 | images/not-found.jpg names the placeholder entry |
| EpubBook.FixedKeysName | libEpub/Book.cs:460-485 | the fixed items carry the ids of their keys |
| EpubBook.FixedItemsResolve | libEpub/Book.cs:460-485 | the fixed items' hrefs name entries once toc.ncx, the cover and the stylesheet are written |
| EpubBook.FixedKeysFresh | libEpub/Book.cs:460-485 | the fixed keys are new when added once |
| EpubBook.CloseKeepsSound | libEpub/Book.cs:453-548 | a completed Close keeps the book sound |
| EpubBook.ClosedSound | libEpub/Book.cs:453-548 | after a completed Close the package's manifest ids are unique and its spine resolves |
| EpubBook.SpineStep | libEpub/Book.cs:238-241 | the new chapter's itemref extends a spine in order |
| EpubBook.ImagesKeepKeysName | libEpub/Book.cs:286-291 | stored images' items carry their keys' ids |
| EpubBook.ImagesAddedStep | libEpub/Book.cs:247-306 | one more handled image extends the entries, items and keys by its own |
| EpubBook.SoundPackage | libEpub/Book.cs:488-489 | in a sound book, manifest ids are unique and every spine idref is a manifest id |
| EpubBook.NavMatchesSpine | libEpub/Book.cs:361-371 | the j-th spine entry is the chapter whose nav point has play order j+1 |
| EpubBook.ChapterStored | libEpub/Book.cs:197-200 | the state the last steps of AddChapter leave, on the refused-src and the completed path; ensured by Book.StoreChapter |
| EpubBook.ContentStored | libEpub/Book.cs:193-200 | the state the content steps of AddChapter leave, no html or stored; ensured by Book.AddChapterContent, Book.AddChapter and Book.AddChapterUnnamed |
| EpubBook.PackageFiles | libEpub/Book.cs:494-545 | the entries Close writes after the manifest, by Authors null, empty or not; ensured by Book.WritePackageFiles |
| EpubBook.CloseEffect | libEpub/Book.cs:453-548 | the state Close leaves, the retry after a failed Close included; ensured by Book.Close and Book.Dispose |
| EpubBook.Book.Valid | libEpub/Book.cs:156-162 | the counter is positive, the spine lists the chapters in order, manifest items carry their keys' ids, a disposed book is closed; ensured by every method |
| EpubBook.Book.Sound | libEpub/Book.cs:156-162 | Valid, and the nav map and spine in step, manifest ids unique, every href naming an entry; kept by ChapterKeepsSound, ContentKeepsSound and ClosedSound, used by SoundPackage |
| EpubBook.Book.constructor | libEpub/Book.cs:37-52 | the archive starts with mimetype, container.xml and the placeholder; counter 1; title Untitled; valid and sound |
| EpubBook.Book.SetTitle | libEpub/Book.cs:24-32 | the title is set in the book and in the table of contents |
| EpubBook.Book.SetAuthors | libEpub/Book.cs:34 | Authors is set; nothing else changes |
| EpubBook.Book.AddNavigationPoint | libEpub/Book.cs:361-371 | appends the nav point numbered by the chapter counter |
| EpubBook.Book.DownloadImage | libEpub/Book.cs:249-305 | one img: the outcome is the specification's; a stored image adds its entry, item and key, any other outcome adds nothing |
| EpubBook.Book.AddImage | libEpub/Book.cs:273-291 | for the .jpg or .jpeg image the loop stores, appends its entry, its item with media type image/jpeg as GetMimeType gives it, and its key |
| EpubBook.Book.ResolveAndDownloadImages | libEpub/Book.cs:244-308 | handles images in order until a rejected src; what it adds and the new attribute lists are those of the handled outcomes |
| EpubBook.Book.SaveDocument | libEpub/Book.cs:373-394 | appends OEBPS/{fileName} holding the cleaned serialisation |
| EpubBook.Book.AddContentOpfRecord | libEpub/Book.cs:229-242 | appends the chapter's item and itemref with id id{counter} |
| EpubBook.Book.StoreChapter | libEpub/Book.cs:197-200 | a refused src ends it with the images before it stored (entries, items, keys) and spine and counter unchanged; otherwise the images' entries and items, then the chapter file, item and itemref, and the counter one higher |
| EpubBook.Book.RecordChapter | libEpub/Book.cs:198-200 | appends the chapter file, item and itemref and increments the counter |
| EpubBook.Book.AddChapterContent | libEpub/Book.cs:193-200 | the nav point is always added; no html left: nothing else changes; otherwise StoreChapter's outcome on the cleaned and linked chapter; success exactly when html survives and no src is refused |
| EpubBook.Book.AddChapter | libEpub/Book.cs:170-201 | a refused name changes nothing; otherwise the nav point is added and the rest is AddChapterContent's outcome, success included; a sound book stays sound |
| EpubBook.Book.AddChapterUnnamed | libEpub/Book.cs:436-439 | AddChapter's outcome with the file name {guid}.xhtml, whose name is never refused; a sound book stays sound |
| EpubBook.Book.WriteTableOfContents | libEpub/Book.cs:457-458 | the nav map takes the nav points; toc.ncx is appended, or refused with nothing written when the archive already holds it |
| EpubBook.Book.AddFixedItems | libEpub/Book.cs:460-489 | appends the four fixed items; the package takes the manifest and the spine |
| EpubBook.Book.WriteContentOpf | libEpub/Book.cs:491-541 | null Authors throws and writes nothing; otherwise Content.opf with the metadata is appended |
| EpubBook.Book.AddCover | libEpub/Book.cs:54-73 | the cover shows the first author, or unknown for null Authors; empty Authors throws and writes nothing |
| EpubBook.Book.AddStyleSheet | libEpub/Book.cs:75-78 | appends the stylesheet entry |
| EpubBook.Book.WriteManifest | libEpub/Book.cs:457-489 | toc.ncx, the fixed items, the manifest and the spine; none of them when toc.ncx is refused |
| EpubBook.Book.WritePackageFiles | libEpub/Book.cs:491-545 | Content.opf unless Authors is null, then cover and stylesheet unless it is empty; succeeds exactly when Authors is non-null and non-empty |
| EpubBook.Book.Close | libEpub/Book.cs:453-548 | idempotent once closed; otherwise the exact toc, entries, items and package it leaves, closed exactly when toc.ncx was not yet written and Authors is non-null and non-empty; a sound book stays sound with unique ids and a resolving spine |
| EpubBook.Book.Dispose | libEpub/Book.cs:551-556 | Close's outcome, then the archive is closed exactly when Close succeeded |

## Findings

| source | as written | input that shows it | evidently intended | confidence | as-written member | corrected member |
|---|---|---|---|---|---|---|
| libEpub/Book.cs:297-305 | an img without src gets a new src attribute through XmlNode.AppendChild, which refuses an attribute child and throws; the throw is outside the try, so AddChapter fails there | an `<img>` with no attributes | the img keeps the placeholder src images/not-found.jpg and the chapter goes on | high, not executed | Images.MissingSourceAborts | Images.ImageOutcomeCases |
| libEpub/Book.cs:310-328 | GetMimeType switches on Path.GetExtension's result, which keeps its dot (".png"), against labels without one ("png"), so no case matches | "images/x.png" gives image/jpeg | image/png for .png, image/gif for .gif, image/bmp for .bmp | high, not executed | Epub.GetMimeTypeAlwaysJpeg | Epub.MimeTypeByExtension |

Stored images always end in .jpg or .jpeg (Book.cs:262-283), so the book
itself only ever asks GetMimeType about JPEG names. On those, the corrected
lookup `Epub.MimeType` and the code as written agree (`Images.StoredSource`).

## Left out

- Int32 counters: the chapter and image counters are unbounded naturals. Wrap-around after 2^31 chapters is not modelled.
- Zip internals (Ionic.Zip): compression and the on-disk format are not modelled. The archive is the sequence of entries written, and an entry holds a record, not its bytes.
- Duplicate entry names: Ionic.Zip's AddEntry throws on a name already present. This is modelled for toc.ncx, which a Close retried after a failed one finds already written (`Close` then fails). Chapters or images with the same name are modelled as appended twice. The soundness invariants do not depend on names being distinct.
- XmlSerializer and XmlWriter output: toc.ncx, Content.opf and container.xml hold the serialised records. The chapter's XML serialisation is a parameter (`serialize`); the textual cleanup after it is modelled.
- SGML parsing (Book.cs:174-187): the chapter arrives as a parsed tree. The Sgml reader and its case folding are not modelled.
- System.Drawing: the cover is a record of author and title (`CoverImage`). Image decoding and JPEG re-encoding are a parameter `toJpeg` that may fail.
- Guid.NewGuid and DateTime.Now are parameters. GUIDs are not assumed fresh, so two images with equal GUIDs would have equal entry names.
- The ncx `dtb:uid` GUID (Book.cs:116) is a constructor parameter.
- Book.cs:304 hands the new src attribute to AppendChild, which throws outside the try (first row of the findings). The class models the evident intent, the placeholder src as Book.cs:295 sets it; the code as written is `Images.ImageOutcomeAsWritten`.
- In-place DOM aliasing: CleanUpTags and AddCssReference edit the XmlDocument in place; the model gives the edited tree as a value. Book.cs:353 rebuilds the html element's content through InnerXml; the model prepends the new head as a node instead. Likewise Book.cs:221 copies an anchor's content into the div by re-parsing its InnerXml; the model moves the children themselves, so namespace and entity details of that round trip are not modelled.
- `_allowedTags` (Book.cs:203-206) and `Publisher` (Book.cs:35) are never read by the class and are not modelled.
- Use after Dispose: adding chapters to a closed archive throws in Ionic.Zip. `AddChapter` requires the archive to be open.
- Adding a chapter after Close is accepted by the source and the model. The model's soundness then holds for the manifest written at Close, not for later chapters.
- Stream positions, Flush and the MemoryStream plumbing are not modelled.
- The null-Authors cover fallback (Book.cs:56) is modelled in `AddCover`. Close never reaches it with null Authors, because Authors.Select throws first (Book.cs:515).
- html2epub/Program.cs (the command-line caller) and libEpub/CompressedFile.cs are not part of this model.
- ToLowerAscii: String.ToLower (Book.cs:314) uses the current culture and lowers non-ASCII letters too (under a Turkish culture "I" lowers to a dotless ı). The model lowers A-Z only, as the invariant culture does for ASCII text. As written, GetMimeType answers image/jpeg whatever the lowering (`Epub.GetMimeTypeAlwaysJpeg`); under a Turkish culture the corrected lookup would not recognise ".GIF", which lowers to ".gıf".
- FormatTimestampRoundTrip: DateTime.ToString (Book.cs:524) uses the current culture's calendar and time separator for the custom ':'. The model formats the Gregorian fields with ':' as the invariant culture does.
- TimestampFields: the same assumption of the invariant culture's calendar and ':' separator.

