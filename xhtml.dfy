/** The textual pass ReformatAndCleanXhtml (libEpub/Book.cs:396-418) runs over
    a serialised chapter: `<html>` gains the XHTML namespace, then four fixed
    regular expressions are replaced by the empty string, one after the other.

    Each expression is modelled by the length of its match at the start of a
    text (0: no match).  Every one of them begins with '<' and, once its
    literal prefix is seen, matches in only one way, so the leftmost
    non-overlapping scan of Regex.Replace is a left-to-right deletion. */
module Xhtml {

  /** The four deletions, in the order they run (Book.cs:396-399, 407-410). */
  datatype Pattern =
    | ScriptTag  // <\/?script[^>]*>
    | MetaTag    // <\/?meta[^>]*>
    | Comment    // \<![ \r\n\t]*(--([^\-]|[\r\n]|-[^\-])*--[ \r\n\t]*)\>
    | CData      // \<\!\[CDATA\[(?<text>[^\]]*)\]\]\>

  predicate IsBlank(c: char) {
    c == ' ' || c == '\r' || c == '\n' || c == '\t'
  }

  /** The first index at or after i whose character is c, or -1. */
  function IndexFrom(s: string, i: nat, c: char): (k: int)
    requires i <= |s|
    ensures k == -1 || (i <= k < |s| && s[k] == c)
    ensures forall j :: i <= j < |s| && (k == -1 || j < k) ==> s[j] != c
    decreases |s| - i
  {
    if i == |s| then -1 else if s[i] == c then i else IndexFrom(s, i + 1, c)
  }

  /** The end of the run of blanks that starts at i. */
  function SkipBlanks(s: string, i: nat): (k: nat)
    requires i <= |s|
    ensures i <= k <= |s|
    ensures forall j :: i <= j < k ==> IsBlank(s[j])
    ensures k < |s| ==> !IsBlank(s[k])
    decreases |s| - i
  {
    if i < |s| && IsBlank(s[i]) then SkipBlanks(s, i + 1) else i
  }

  /** The first index at or after i where "--" starts, or -1. */
  function DashesFrom(s: string, i: nat): (k: int)
    requires i <= |s|
    ensures k == -1 || (i <= k && k + 2 <= |s| && s[k] == '-' && s[k + 1] == '-')
    ensures forall j :: i <= j && j + 1 < |s| && (k == -1 || j < k) ==> !(s[j] == '-' && s[j + 1] == '-')
    decreases |s| - i
  {
    if i + 1 >= |s| then -1
    else if s[i] == '-' && s[i + 1] == '-' then i
    else DashesFrom(s, i + 1)
  }

  /** The length of the literal prefix `<name` or `</name` s starts with; 0 for neither. */
  function TagPrefix(name: string, s: string): nat {
    if "<" + name <= s then 1 + |name| else if "</" + name <= s then 2 + |name| else 0
  }

  /** `<name...>` or `</name...>`: the prefix, then everything up to the first '>'.
      A match exists exactly when s starts with the prefix and a '>' follows it,
      and it ends at the first such '>'. */
  function TagMatch(name: string, s: string): (m: nat)
    ensures m <= |s|
    ensures m > 0 ==> s[0] == '<' && s[m - 1] == '>'
    ensures m > 0 <==> TagPrefix(name, s) > 0 && exists j :: TagPrefix(name, s) <= j < |s| && s[j] == '>'
    ensures m > 0 ==> TagPrefix(name, s) < m && forall j :: TagPrefix(name, s) <= j < m - 1 ==> s[j] != '>'
  {
    var k := TagPrefix(name, s);
    if k == 0 then 0
    else
      var g := IndexFrom(s, k, '>');
      if g < 0 then 0 else g + 1
  }

  /** `<!`, blanks, `--`, a body up to the first `--`, blanks, `>`.  The body of
      the expression cannot hold `--` nor end with '-', and must be followed by
      `--`, so it always ends at the first `--`. */
  function CommentMatch(s: string): (m: nat)
    ensures m <= |s|
    ensures m > 0 ==> s[0] == '<' && s[m - 1] == '>'
  {
    if !("<!" <= s) then 0
    else
      var q := SkipBlanks(s, 2);
      if !(q + 2 <= |s| && s[q] == '-' && s[q + 1] == '-') then 0
      else
        var d := DashesFrom(s, q + 2);
        if d < 0 then 0
        else
          var w := SkipBlanks(s, d + 2);
          if w < |s| && s[w] == '>' then w + 1 else 0
  }

  /** `<![CDATA[`, everything up to the first ']', which must begin `]]>`. */
  function CDataMatch(s: string): (m: nat)
    ensures m <= |s|
    ensures m > 0 ==> s[0] == '<' && s[m - 1] == '>'
  {
    if !("<![CDATA[" <= s) then 0
    else
      var e := IndexFrom(s, 9, ']');
      if e >= 0 && e + 3 <= |s| && s[e..e + 3] == "]]>" then e + 3 else 0
  }

  /** The length of the match of the pattern at the start of s; 0 for none. */
  function MatchLength(p: Pattern, s: string): (m: nat)
    ensures m <= |s|
    ensures m > 0 ==> s[0] == '<'
  {
    match p
    case ScriptTag => TagMatch("script", s)
    case MetaTag => TagMatch("meta", s)
    case Comment => CommentMatch(s)
    case CData => CDataMatch(s)
  }

  /** Regex.Replace(s, ""): each leftmost match is deleted, and the scan goes
      on after it.  Every pattern starts with '<', so other characters are
      copied without a look at the pattern. */
  function DeleteAll(p: Pattern, s: string): string
    decreases |s|
  {
    if s == [] then []
    else if s[0] != '<' then [s[0]] + DeleteAll(p, s[1..])
    else
      var m := MatchLength(p, s);
      if m > 0 then DeleteAll(p, s[m..]) else [s[0]] + DeleteAll(p, s[1..])
  }

  const HtmlTag := "<html>"
  const HtmlTagWithNamespace := "<html xmlns=\"http://www.w3.org/1999/xhtml\">"

  /** String.Replace("<html>", ...): occurrences replaced left to right. */
  function ReplaceHtml(s: string): string
    decreases |s|
  {
    if s == [] then []
    else if HtmlTag <= s then HtmlTagWithNamespace + ReplaceHtml(s[|HtmlTag|..])
    else [s[0]] + ReplaceHtml(s[1..])
  }

  /** The whole textual pass, in the source's order. */
  function ReformatAndCleanXhtml(s: string): string {
    DeleteAll(CData, DeleteAll(Comment, DeleteAll(MetaTag, DeleteAll(ScriptTag, ReplaceHtml(s)))))
  }

  predicate NoAngle(s: string) {
    forall i :: 0 <= i < |s| ==> s[i] != '<'
  }

  predicate HasMatch(p: Pattern, s: string) {
    exists i :: 0 <= i < |s| && MatchLength(p, s[i..]) > 0
  }

  /** `<html>` starts at index i. */
  predicate HtmlTagAt(s: string, i: nat) {
    i + |HtmlTag| <= |s| && s[i..i + |HtmlTag|] == HtmlTag
  }

  predicate ContainsHtmlTag(s: string) {
    exists i :: 0 <= i < |s| && HtmlTagAt(s, i)
  }

  /* ---------------------------------------------------------------------
     Deletion
     --------------------------------------------------------------------- */

  /** A deletion never lengthens the text, and shortens it whenever the
      pattern occurs somewhere. */
  lemma {:induction false} DeleteAllShrinks(p: Pattern, s: string)
    ensures |DeleteAll(p, s)| <= |s|
    ensures HasMatch(p, s) ==> |DeleteAll(p, s)| < |s|
    decreases |s|
  {
    if s != [] {
      var m := MatchLength(p, s);
      if s[0] == '<' && m > 0 {
        DeleteAllShrinks(p, s[m..]);
      } else {
        DeleteAllShrinks(p, s[1..]);
        if HasMatch(p, s) {
          var i :| 0 <= i < |s| && MatchLength(p, s[i..]) > 0;
          assert i > 0;
          assert s[1..][i - 1..] == s[i..];
          assert HasMatch(p, s[1..]);
        }
      }
    }
  }

  /** Where the pattern does not occur the text is kept. */
  lemma {:induction false} DeleteAllNoMatch(p: Pattern, s: string)
    requires !HasMatch(p, s)
    ensures DeleteAll(p, s) == s
    decreases |s|
  {
    if s != [] {
      assert s[0..] == s;
      assert !HasMatch(p, s[1..]) by {
        forall i | 0 <= i < |s[1..]| ensures MatchLength(p, s[1..][i..]) == 0 {
          assert s[1..][i..] == s[i + 1..];
        }
      }
      DeleteAllNoMatch(p, s[1..]);
      assert s == [s[0]] + s[1..];
    }
  }

  /** A deletion leaves the text as it is exactly when the pattern does not occur. */
  lemma {:induction false} DeleteAllFixedPoint(p: Pattern, s: string)
    ensures DeleteAll(p, s) == s <==> !HasMatch(p, s)
  {
    DeleteAllShrinks(p, s);
    if !HasMatch(p, s) {
      DeleteAllNoMatch(p, s);
    }
  }

  /** Text without '<' passes every deletion untouched. */
  lemma {:induction false} NoAngleNoMatch(p: Pattern, s: string)
    requires NoAngle(s)
    ensures !HasMatch(p, s)
  {
    forall i | 0 <= i < |s| ensures MatchLength(p, s[i..]) == 0 {
      assert s[i..][0] == s[i];
    }
  }

  /** A leading stretch without '<' is copied and the scan resumes after it. */
  lemma {:induction false} DeleteAllPlainPrefix(p: Pattern, t: string, rest: string)
    requires NoAngle(t)
    ensures DeleteAll(p, t + rest) == t + DeleteAll(p, rest)
    decreases |t|
  {
    if t != [] {
      var t' := t[1..];
      assert (t + rest)[1..] == t' + rest;
      DeletePlainChar(p, t + rest);
      assert NoAngle(t') by {
        forall i | 0 <= i < |t'| ensures t'[i] != '<' {
          assert t'[i] == t[i + 1];
        }
      }
      DeleteAllPlainPrefix(p, t', rest);
      assert t == [t[0]] + t';
    } else {
      assert t + rest == rest;
    }
  }

  /** A character other than '<' is copied. */
  lemma {:induction false} DeletePlainChar(p: Pattern, s: string)
    requires s != [] && s[0] != '<'
    ensures DeleteAll(p, s) == [s[0]] + DeleteAll(p, s[1..])
  {
  }

  /** A match is deleted and the scan resumes after it. */
  lemma {:induction false} DeleteAllAfterMatch(p: Pattern, s: string, rest: string)
    requires MatchLength(p, s + rest) == |s| > 0
    ensures DeleteAll(p, s + rest) == DeleteAll(p, rest)
  {
    assert (s + rest)[|s|..] == rest;
  }

  /** Script tags go but the text between them stays. */
  lemma {:induction false} ScriptElementKeepsText(attrs: string, t: string)
    requires forall i :: 0 <= i < |attrs| ==> attrs[i] != '>'
    requires NoAngle(t)
    ensures DeleteAll(ScriptTag, "<script" + attrs + ">" + t + "</script>") == t
  {
    var open := "<script" + attrs + ">";
    var close := "</script>";
    var s := open + t + close;
    ScriptTagMatch(attrs, t + close);
    assert s == open + (t + close);
    DeleteAllAfterMatch(ScriptTag, open, t + close);
    DeleteAllPlainPrefix(ScriptTag, t, close);
    CloseScriptDeleted();
    assert t + [] == t;
  }

  /** A closing script tag on its own goes entirely. */
  lemma {:induction false} CloseScriptDeleted()
    ensures DeleteAll(ScriptTag, "</script>") == []
  {
    var close := "</script>";
    assert close[..8] == "</script";
    assert close[1] != "<script"[1];
    assert IndexFrom(close, 8, '>') == 8;
    assert close + [] == close;
    DeleteAllAfterMatch(ScriptTag, close, []);
  }

  lemma {:induction false} IndexFromIs(s: string, i: nat, c: char, k: nat)
    requires i <= k < |s| && s[k] == c
    requires forall j :: i <= j < k ==> s[j] != c
    ensures IndexFrom(s, i, c) == k
    decreases k - i
  {
    if i < k {
      IndexFromIs(s, i + 1, c, k);
    }
  }

  /** A whole CDATA section goes, its text included. */
  lemma {:induction false} CDataSectionRemoved(t: string)
    requires forall i :: 0 <= i < |t| ==> t[i] != ']'
    ensures DeleteAll(CData, "<![CDATA[" + t + "]]>") == ""
  {
    var s := "<![CDATA[" + t + "]]>";
    assert "<![CDATA[" <= s;
    forall j | 9 <= j < 9 + |t| ensures s[j] != ']' {
      assert s[j] == t[j - 9];
    }
    IndexFromIs(s, 9, ']', 9 + |t|);
    assert s[9 + |t|..9 + |t| + 3] == "]]>";
    assert s + [] == s;
    DeleteAllAfterMatch(CData, s, []);
  }

  /** A comment goes when its text holds no "--" and does not end in '-'. */
  lemma {:induction false} CommentRemoved(t: string)
    requires forall i :: 0 <= i < |t| - 1 ==> !(t[i] == '-' && t[i + 1] == '-')
    requires t == [] || t[|t| - 1] != '-'
    ensures DeleteAll(Comment, "<!--" + t + "-->") == ""
  {
    var s := "<!--" + t + "-->";
    CommentMatchWhole(t);
    assert s + [] == s;
    DeleteAllAfterMatch(Comment, s, []);
  }

  lemma {:induction false} CommentMatchWhole(t: string)
    requires forall i :: 0 <= i < |t| - 1 ==> !(t[i] == '-' && t[i + 1] == '-')
    requires t == [] || t[|t| - 1] != '-'
    ensures CommentMatch("<!--" + t + "-->") == |t| + 7
  {
    var s := "<!--" + t + "-->";
    var d := 4 + |t|;
    assert s[0] == '<' && s[1] == '!' && s[2] == '-' && s[3] == '-';
    assert s[d] == '-' && s[d + 1] == '-' && s[d + 2] == '>' && |s| == d + 3;
    assert s[..2] == "<!";
    forall j | 4 <= j < d ensures !(s[j] == '-' && s[j + 1] == '-') {
      assert s[j] == t[j - 4];
      if j + 1 < d {
        assert s[j + 1] == t[j - 3];
      }
    }
    DashesFromIs(s, 4, d);
  }

  lemma {:induction false} DashesFromIs(s: string, i: nat, k: nat)
    requires i <= k && k + 1 < |s| && s[k] == '-' && s[k + 1] == '-'
    requires forall j :: i <= j < k ==> !(s[j] == '-' && s[j + 1] == '-')
    ensures DashesFrom(s, i) == k
    decreases k - i
  {
    if i < k {
      DashesFromIs(s, i + 1, k);
    }
  }

  /** One pass is not enough to rid a text of a pattern: deleting a match can
      join a stray '<' before it with the text after it into a new match.  With
      m = `<script>` and rest = `script>`, `<<script>script>` becomes `<script>`. */
  lemma {:induction false} DeletionCanJoinMatch(p: Pattern, m: string, rest: string)
    requires |m| > 0 && m[0] == '<' && MatchLength(p, m + rest) == |m|
    requires NoAngle(rest) && MatchLength(p, ['<'] + rest) > 0
    ensures DeleteAll(p, ['<'] + (m + rest)) == ['<'] + rest
    ensures HasMatch(p, DeleteAll(p, ['<'] + (m + rest)))
  {
    DeleteAllSkip(p, '<', m + rest);
    DeleteAllAfterMatch(p, m, rest);
    DeleteAllPlainPrefix(p, rest, []);
    assert rest + [] == rest;
    assert (['<'] + rest)[0..] == ['<'] + rest;
  }

  /** A '<' followed by another '<' starts no match and is copied. */
  lemma {:induction false} DeleteAllSkip(p: Pattern, c: char, s: string)
    requires s != [] && s[0] == '<'
    ensures DeleteAll(p, [c] + s) == [c] + DeleteAll(p, s)
  {
    var x := [c] + s;
    assert x[1..] == s;
    if c == '<' {
      assert x[1] == '<';
      assert MatchLength(p, x) == 0 by {
        match p
        case ScriptTag =>
        case MetaTag =>
        case Comment =>
        case CData =>
      }
    }
  }

  /** An opening script tag is a whole match of the script pattern. */
  lemma {:induction false} ScriptTagMatch(attrs: string, rest: string)
    requires forall i :: 0 <= i < |attrs| ==> attrs[i] != '>'
    ensures MatchLength(ScriptTag, "<script" + attrs + ">" + rest) == |attrs| + 8
  {
    var s := "<script" + attrs + ">" + rest;
    assert s[..7] == "<script";
    forall j | 7 <= j < 7 + |attrs| ensures s[j] != '>' {
      assert s[j] == attrs[j - 7];
    }
    IndexFromIs(s, 7, '>', 7 + |attrs|);
  }

  /** An opening meta tag is a whole match of the meta pattern. */
  lemma {:induction false} MetaTagMatch(attrs: string, rest: string)
    requires forall i :: 0 <= i < |attrs| ==> attrs[i] != '>'
    ensures MatchLength(MetaTag, "<meta" + attrs + ">" + rest) == |attrs| + 6
  {
    var s := "<meta" + attrs + ">" + rest;
    assert s[..5] == "<meta";
    forall j | 5 <= j < 5 + |attrs| ensures s[j] != '>' {
      assert s[j] == attrs[j - 5];
    }
    IndexFromIs(s, 5, '>', 5 + |attrs|);
  }

  /** A meta tag goes entirely, and the text after it stays. */
  lemma {:induction false} MetaTagDeleted(attrs: string, t: string)
    requires forall i :: 0 <= i < |attrs| ==> attrs[i] != '>'
    requires NoAngle(t)
    ensures DeleteAll(MetaTag, "<meta" + attrs + ">" + t) == t
  {
    var tag := "<meta" + attrs + ">";
    MetaTagMatch(attrs, t);
    DeleteAllAfterMatch(MetaTag, tag, t);
    DeleteAllPlainPrefix(MetaTag, t, []);
    assert t + [] == t;
  }

  /* ---------------------------------------------------------------------
     The namespace on <html>
     --------------------------------------------------------------------- */

  /** A prefix without '<' is a prefix of the rewritten text exactly when it is
      one of the original: the replacement starts with '<'. */
  lemma {:induction false} ReplaceHtmlPrefix(w: string, s: string)
    requires NoAngle(w)
    ensures w <= ReplaceHtml(s) <==> w <= s
    decreases |w|
  {
    if w != [] && s != [] {
      var r := ReplaceHtml(s);
      if HtmlTag <= s {
        assert r[0] == '<' && s[0] == '<';
      } else {
        assert r == [s[0]] + ReplaceHtml(s[1..]);
        ReplaceHtmlPrefix(w[1..], s[1..]);
        assert w <= r <==> (w[0] == s[0] && w[1..] <= ReplaceHtml(s[1..]));
        assert w <= s <==> (w[0] == s[0] && w[1..] <= s[1..]);
      }
    }
  }

  lemma {:induction false} NamespaceTagShape()
    ensures |HtmlTagWithNamespace| == 43 && |HtmlTag| == 6
    ensures HtmlTagWithNamespace[5] == ' ' && HtmlTag[5] == '>'
    ensures forall i :: 1 <= i < |HtmlTagWithNamespace| ==> HtmlTagWithNamespace[i] != '<'
  {
  }

  /** After the rewrite no bare `<html>` is left. */
  lemma {:induction false} ReplaceHtmlComplete(s: string)
    ensures !ContainsHtmlTag(ReplaceHtml(s))
    decreases |s|
  {
    if s != [] {
      if HtmlTag <= s {
        ReplaceHtmlComplete(s[|HtmlTag|..]);
        NoTagAfterNamespace(ReplaceHtml(s[|HtmlTag|..]));
      } else {
        ReplaceHtmlComplete(s[1..]);
        NoTagAfterCopy(s);
      }
    }
  }

  lemma {:induction false} NoTagAfterNamespace(t: string)
    requires !ContainsHtmlTag(t)
    ensures !ContainsHtmlTag(HtmlTagWithNamespace + t)
  {
    var r := HtmlTagWithNamespace + t;
    NamespaceTagShape();
    forall i | 0 <= i < |r| ensures !HtmlTagAt(r, i) {
      if i >= |HtmlTagWithNamespace| {
        var k := i - |HtmlTagWithNamespace|;
        if i + |HtmlTag| <= |r| {
          assert r[i..i + |HtmlTag|] == t[k..k + |HtmlTag|];
          assert !HtmlTagAt(t, k);
        }
      } else if i + |HtmlTag| <= |r| {
        assert r[i..i + |HtmlTag|][0] == r[i];
        assert r[i..i + |HtmlTag|][5] == r[i + 5];
        assert r[5] == ' ';
      }
    }
  }

  lemma {:induction false} NoTagAfterCopy(s: string)
    requires s != [] && !(HtmlTag <= s)
    requires !ContainsHtmlTag(ReplaceHtml(s[1..]))
    ensures !ContainsHtmlTag(ReplaceHtml(s))
  {
    assert ReplaceHtml(s) == [s[0]] + ReplaceHtml(s[1..]);
    ReplaceHtmlPrefix("html>", s[1..]);
    assert s == [s[0]] + s[1..];
    CopyKeepsNoTag(s[0], s[1..], ReplaceHtml(s[1..]));
  }

  /** A character put before a text without `<html>` starts one only when the
      text starts with `html>`. */
  lemma {:induction false} CopyKeepsNoTag(c: char, s1: string, t: string)
    requires !(HtmlTag <= [c] + s1)
    requires "html>" <= t ==> "html>" <= s1
    requires !ContainsHtmlTag(t)
    ensures !ContainsHtmlTag([c] + t)
  {
    var r := [c] + t;
    forall i | 0 <= i < |r| ensures !HtmlTagAt(r, i) {
      if i > 0 {
        if i + |HtmlTag| <= |r| {
          assert r[i..i + |HtmlTag|] == t[i - 1..i - 1 + |HtmlTag|];
          assert !HtmlTagAt(t, i - 1);
        }
      } else {
        TagAtStartSplits(c, t);
        TagFromParts(c, s1);
      }
    }
  }

  /** `<html>` at the front of c + t means c is `<` and t starts with `html>`. */
  lemma {:induction false} TagAtStartSplits(c: char, t: string)
    ensures HtmlTagAt([c] + t, 0) ==> c == '<' && "html>" <= t
  {
    var r := [c] + t;
    if HtmlTagAt(r, 0) {
      assert r[..6] == HtmlTag;
      assert r[0] == HtmlTag[0] == '<';
      assert t[..5] == r[..6][1..] == HtmlTag[1..] == "html>";
    }
  }

  /** `<` followed by a text that starts with `html>` starts with `<html>`. */
  lemma {:induction false} TagFromParts(c: char, s1: string)
    ensures c == '<' && "html>" <= s1 ==> HtmlTag <= [c] + s1
  {
    if c == '<' && "html>" <= s1 {
      assert ([c] + s1)[..6] == [c] + s1[..5];
    }
  }

  /** Without `<html>` the rewrite changes nothing. */
  lemma {:induction false} ReplaceHtmlNone(s: string)
    requires !ContainsHtmlTag(s)
    ensures ReplaceHtml(s) == s
    decreases |s|
  {
    if s != [] {
      assert !(HtmlTag <= s) by {
        if HtmlTag <= s {
          assert HtmlTagAt(s, 0);
        }
      }
      assert !ContainsHtmlTag(s[1..]) by {
        forall i | 0 <= i < |s[1..]| ensures !HtmlTagAt(s[1..], i) {
          if HtmlTagAt(s[1..], i) {
            assert s[1..][i..i + |HtmlTag|] == s[i + 1..i + 1 + |HtmlTag|];
            assert HtmlTagAt(s, i + 1);
          }
        }
      }
      ReplaceHtmlNone(s[1..]);
      assert s == [s[0]] + s[1..];
    }
  }

  /** The rewrite leaves a text as it is exactly when it holds no `<html>`. */
  lemma {:induction false} ReplaceHtmlFixedPoint(s: string)
    ensures ReplaceHtml(s) == s <==> !ContainsHtmlTag(s)
  {
    ReplaceHtmlComplete(s);
    if !ContainsHtmlTag(s) {
      ReplaceHtmlNone(s);
    }
  }

  /** Text without markup comes through the whole pass unchanged. */
  lemma {:induction false} PlainTextUnchanged(s: string)
    requires NoAngle(s)
    ensures ReformatAndCleanXhtml(s) == s
  {
    assert !ContainsHtmlTag(s) by {
      forall i | 0 <= i < |s| ensures !HtmlTagAt(s, i) {
        assert s[i] != '<';
      }
    }
    ReplaceHtmlNone(s);
    NoAngleNoMatch(ScriptTag, s);
    DeleteAllNoMatch(ScriptTag, s);
    NoAngleNoMatch(MetaTag, s);
    DeleteAllNoMatch(MetaTag, s);
    NoAngleNoMatch(Comment, s);
    DeleteAllNoMatch(Comment, s);
    NoAngleNoMatch(CData, s);
    DeleteAllNoMatch(CData, s);
  }
}
