/** The three System.IO.Path queries libEpub/Book.cs relies on, as the .NET
    Framework implements them on Windows: the separators are the directory
    separator '\', the alternative separator '/' and the volume separator ':'.
    They decide each chapter's file name (Book.cs:172) and whether an image is
    copied verbatim or re-encoded as JPEG (Book.cs:255, 262).  Before it looks
    at a path, each of them throws ArgumentException when the path holds a
    character the framework refuses in paths. */
module Paths {

  predicate IsSeparator(c: char) {
    c == '\\' || c == '/' || c == ':'
  }

  predicate IsDot(c: char) {
    c == '.'
  }

  predicate IsDotOrSeparator(c: char) {
    IsDot(c) || IsSeparator(c)
  }

  /** The characters the .NET Framework refuses in a path: '"', '<', '>', '|'
      and the control characters below U+0020. */
  predicate IsInvalidPathChar(c: char) {
    c == '"' || c == '<' || c == '>' || c == '|' || c < ' '
  }

  /** The paths on which GetFileName, GetFileNameWithoutExtension and
      GetExtension throw instead of answering. */
  predicate HasInvalidPathChars(s: string) {
    exists j :: 0 <= j < |s| && IsInvalidPathChar(s[j])
  }

  /** The kinds of character the path queries look for from the end. */
  datatype CharClass = Separators | Dots | DotsOrSeparators

  predicate InClass(c: char, cls: CharClass) {
    match cls
    case Separators => IsSeparator(c)
    case Dots => IsDot(c)
    case DotsOrSeparators => IsDotOrSeparator(c)
  }

  /** The index of the last character of s in class cls, or -1. */
  function LastWhere(s: string, cls: CharClass): (k: int)
    ensures -1 <= k < |s|
    ensures k >= 0 ==> InClass(s[k], cls)
    ensures forall j :: k < j < |s| ==> !InClass(s[j], cls)
  {
    if s == [] then -1
    else if InClass(s[|s| - 1], cls) then |s| - 1
    else LastWhere(s[..|s| - 1], cls)
  }

  /** The last index is determined by the characters after it. */
  lemma {:induction false} LastWhereIs(s: string, cls: CharClass, d: int)
    requires -1 <= d < |s|
    requires d >= 0 ==> InClass(s[d], cls)
    requires forall j :: d < j < |s| ==> !InClass(s[j], cls)
    ensures LastWhere(s, cls) == d
  {
  }

  /** Path.GetFileName: what follows the last separator. */
  function FileName(path: string): (name: string)
    ensures |name| <= |path| && name == path[|path| - |name|..]
    ensures forall j :: 0 <= j < |name| ==> !IsSeparator(name[j])
    ensures |name| < |path| ==> IsSeparator(path[|path| - |name| - 1])
  {
    path[LastWhere(path, Separators) + 1..]
  }

  /** Path.GetFileNameWithoutExtension: the file name cut at its last dot. */
  function FileNameWithoutExtension(path: string): (stem: string)
    ensures stem <= FileName(path)
    ensures forall j :: 0 <= j < |stem| ==> !IsSeparator(stem[j])
    ensures stem == FileName(path) <==> forall j :: 0 <= j < |FileName(path)| ==> !IsDot(FileName(path)[j])
    ensures stem != FileName(path) ==>
              IsDot(FileName(path)[|stem|]) &&
              forall j :: |stem| < j < |FileName(path)| ==> !IsDot(FileName(path)[j])
  {
    var name := FileName(path);
    var k := LastWhere(name, Dots);
    if k < 0 then name else name[..k]
  }

  /** Path.GetExtension: from the last dot of the file name on, including the dot;
      empty when there is no dot or the dot is the last character. */
  function Extension(path: string): (ext: string)
    ensures ext == "" || (2 <= |ext| <= |path| && IsDot(ext[0]) && ext == path[|path| - |ext|..])
    ensures forall j :: 1 <= j < |ext| ==> !IsDotOrSeparator(ext[j])
  {
    var k := LastWhere(path, DotsOrSeparators);
    if k >= 0 && IsDot(path[k]) && k != |path| - 1 then path[k..] else ""
  }

  /** A text with no separator: it names a file, not a directory path. */
  predicate NoSeparator(s: string) {
    forall j :: 0 <= j < |s| ==> !IsSeparator(s[j])
  }

  /** An extension as Path.GetExtension returns it: a dot and at least one more
      character, none of them a dot or a separator. */
  predicate IsExtension(ext: string) {
    |ext| >= 2 && IsDot(ext[0]) && forall j :: 1 <= j < |ext| ==> !IsDotOrSeparator(ext[j])
  }

  /** The name of the file that stores a chapter (Book.cs:172). */
  function ChapterFileName(suggestedFileName: string): string {
    FileNameWithoutExtension(suggestedFileName) + ".xhtml"
  }

  /** Appending an extension to a name without separators is undone by the
      three queries. */
  lemma {:induction false} ExtensionOfAppended(prefix: string, name: string, ext: string)
    requires NoSeparator(name) && IsExtension(ext)
    requires prefix == [] || IsSeparator(prefix[|prefix| - 1])
    ensures Extension(prefix + name + ext) == ext
    ensures FileName(prefix + name + ext) == name + ext
    ensures FileNameWithoutExtension(prefix + name + ext) == name
  {
    ExtensionAfterLastDot(prefix + name, ext);
    FileNameOfAppended(prefix, name, ext);
    StemBeforeLastDot(prefix + name + ext, name, ext);
  }

  lemma {:induction false} ExtensionAfterLastDot(head: string, ext: string)
    requires IsExtension(ext)
    ensures Extension(head + ext) == ext
  {
    var path := head + ext;
    var d := |head|;
    assert path[d] == ext[0];
    forall j | d < j < |path| ensures !IsDotOrSeparator(path[j]) {
      assert path[j] == ext[j - d];
    }
    LastWhereIs(path, DotsOrSeparators, d);
    assert path[d..] == ext;
  }

  lemma {:induction false} FileNameAfterSeparator(prefix: string, name: string)
    requires NoSeparator(name)
    requires prefix == [] || IsSeparator(prefix[|prefix| - 1])
    ensures FileName(prefix + name) == name
  {
    var path := prefix + name;
    forall j | |prefix| <= j < |path| ensures !IsSeparator(path[j]) {
      assert path[j] == name[j - |prefix|];
    }
    if prefix == [] {
      LastWhereIs(path, Separators, -1);
    } else {
      assert path[|prefix| - 1] == prefix[|prefix| - 1];
      LastWhereIs(path, Separators, |prefix| - 1);
    }
    assert path[|prefix|..] == name;
  }

  lemma {:induction false} FileNameOfAppended(prefix: string, name: string, ext: string)
    requires NoSeparator(name) && IsExtension(ext)
    requires prefix == [] || IsSeparator(prefix[|prefix| - 1])
    ensures FileName(prefix + name + ext) == name + ext
  {
    forall j | 0 <= j < |name + ext| ensures !IsSeparator((name + ext)[j]) {
      if j >= |name| {
        assert (name + ext)[j] == ext[j - |name|];
      }
    }
    FileNameAfterSeparator(prefix, name + ext);
    assert prefix + name + ext == prefix + (name + ext);
  }

  lemma {:induction false} StemBeforeLastDot(path: string, name: string, ext: string)
    requires IsExtension(ext)
    requires FileName(path) == name + ext
    ensures FileNameWithoutExtension(path) == name
  {
    var fn := name + ext;
    assert IsDot(fn[|name|]);
    forall j | |name| < j < |fn| ensures !IsDot(fn[j]) {
      assert fn[j] == ext[j - |name|];
    }
    LastWhereIs(fn, Dots, |name|);
    assert fn[..|name|] == name;
  }

  /** A chapter's file name keeps the stem of the suggested name and always has
      the extension .xhtml, so naming a chapter file twice changes nothing. */
  lemma {:induction false} ChapterFileNameStable(suggestedFileName: string)
    ensures Extension(ChapterFileName(suggestedFileName)) == ".xhtml"
    ensures FileNameWithoutExtension(ChapterFileName(suggestedFileName)) == FileNameWithoutExtension(suggestedFileName)
    ensures ChapterFileName(ChapterFileName(suggestedFileName)) == ChapterFileName(suggestedFileName)
  {
    ChapterFileNameExtension(suggestedFileName);
    ChapterFileNameStem(FileNameWithoutExtension(suggestedFileName));
  }

  lemma {:induction false} ChapterFileNameExtension(suggestedFileName: string)
    ensures Extension(ChapterFileName(suggestedFileName)) == ".xhtml"
  {
    assert IsExtension(".xhtml");
    ExtensionAfterLastDot(FileNameWithoutExtension(suggestedFileName), ".xhtml");
  }

  lemma {:induction false} ChapterFileNameStem(stem: string)
    requires NoSeparator(stem)
    ensures FileNameWithoutExtension(stem + ".xhtml") == stem
  {
    var name := stem + ".xhtml";
    assert IsExtension(".xhtml");
    AppendedNoSeparator(stem, ".xhtml");
    LastWhereIs(name, Separators, -1);
    assert FileName(name) == name;
    StemBeforeLastDot(name, stem, ".xhtml");
  }

  /** A chapter's file name names a file, never a directory path. */
  lemma {:induction false} ChapterFileNameNoSeparator(suggestedFileName: string)
    ensures NoSeparator(ChapterFileName(suggestedFileName))
  {
    assert IsExtension(".xhtml");
    AppendedNoSeparator(FileNameWithoutExtension(suggestedFileName), ".xhtml");
  }

  lemma {:induction false} AppendedNoSeparator(stem: string, ext: string)
    requires NoSeparator(stem) && IsExtension(ext)
    ensures NoSeparator(stem + ext)
  {
    forall j | 0 <= j < |stem + ext| ensures !IsSeparator((stem + ext)[j]) {
      if j >= |stem| {
        assert (stem + ext)[j] == ext[j - |stem|];
      }
    }
  }

  /** A plain name, with neither dot nor separator, is its own stem. */
  lemma {:induction false} PlainNameStem(name: string)
    requires forall j :: 0 <= j < |name| ==> !IsDotOrSeparator(name[j])
    ensures FileName(name) == name
    ensures FileNameWithoutExtension(name) == name
    ensures ChapterFileName(name) == name + ".xhtml"
  {
    LastWhereIs(name, Separators, -1);
    LastWhereIs(name, Dots, -1);
  }
}
