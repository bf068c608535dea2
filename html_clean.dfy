/** `cleanHtmlContent` of the EPUB parser: nine global regular-expression
    deletions, applied one after another, followed by `trim`. Each regular
    expression is described by a `Pattern` and matched by a function that
    follows the backtracking of the JavaScript engine; `Strip` is
    `String.prototype.replace(re, "")` with the `g` flag. Nothing here keeps
    only an allow-list of tags or attributes: markup that uses none of the
    deleted forms passes through untouched. */
module HtmlClean {
  import opened Core
  import opened Text

  datatype Pattern =
    | Literal(text: string)                // the fixed string itself
    | Delimited(open: string, close: char) // open [^close]* close
    | XmlDeclaration                       // <\?xml[^>]*\?>
    | HeadElement                          // <head[^>]*>[\s\S]*?<\/head>
    | XmlnsAttribute                       // xmlns[^=]*="[^"]*"

  /** A pattern that cannot match the empty string. */
  predicate WellFormed(p: Pattern) {
    p.Literal? ==> p.text != []
  }

  /** The fixed text every match of `p` begins with. */
  function Lead(p: Pattern): string {
    match p
    case Literal(text) => text
    case Delimited(open, _) => open
    case XmlDeclaration => "<?xml"
    case HeadElement => "<head"
    case XmlnsAttribute => "xmlns"
  }

  /** `open[^close]*close` at the start of `s`: the match runs to the first
      `close` after `open`, and there is none when no `close` follows. */
  function MatchDelimited(s: string, open: string, close: char): (r: Option<nat>)
    ensures r.Some? <==> StartsWith(s, open) && close in s[|open|..]
    ensures r.Some? ==> |open| < r.value <= |s| && s[r.value - 1] == close
                        && close !in s[|open|..r.value - 1]
  {
    if !StartsWith(s, open) then None
    else
      var k := IndexOfChar(s, close, |open|);
      if k < 0 then
        assert forall c :: c in s[|open|..] ==> c != close;
        None
      else
        assert s[|open|..k + 1 - 1] == s[|open|..k];
        Some(k + 1)
  }

  /** `<\?xml[^>]*\?>`: `[^>]*` cannot pass the first `>`, so the match ends
      there and needs a `?` just before it. */
  function MatchXmlDeclaration(s: string): (r: Option<nat>)
    ensures r.Some? ==> r == MatchDelimited(s, "<?xml", '>') && r.value >= 7 && s[r.value - 2] == '?'
    ensures r.None? && MatchDelimited(s, "<?xml", '>').Some? ==>
              s[MatchDelimited(s, "<?xml", '>').value - 2] != '?'
  {
    var d := MatchDelimited(s, "<?xml", '>');
    if d.Some? && s[d.value - 2] == '?' then d else None
  }

  /** `<head[^>]*>[\s\S]*?<\/head>`: the opening tag up to its first `>`,
      then everything up to the first `</head>` after it. */
  function MatchHeadElement(s: string): (r: Option<nat>)
    ensures r.Some? ==>
              && MatchDelimited(s, "<head", '>').Some?
              && MatchDelimited(s, "<head", '>').value + 7 <= r.value <= |s|
              && OccursAt(s, "</head>", r.value - 7)
              && forall j: nat :: MatchDelimited(s, "<head", '>').value <= j < r.value - 7 ==>
                                 !OccursAt(s, "</head>", j)
    ensures r.None? && MatchDelimited(s, "<head", '>').Some? ==>
              IndexOf(s, "</head>", MatchDelimited(s, "<head", '>').value) < 0
  {
    match MatchDelimited(s, "<head", '>')
    case None => None
    case Some(k) =>
      var m := IndexOf(s, "</head>", k);
      if m < 0 then None else Some(m + 7)
  }

  /** `xmlns[^=]*="[^"]*"`: the name up to its first `=`, which must be
      followed by a quoted value. */
  function MatchXmlnsAttribute(s: string): (r: Option<nat>)
    ensures r.Some? ==> StartsWith(s, "xmlns")
    ensures r.Some? ==>
              && MatchDelimited(s, "xmlns", '=').Some?
              && var k := MatchDelimited(s, "xmlns", '=').value;
                 MatchDelimited(s[k..], "\"", '"') == Some(r.value - k)
    ensures (&& MatchDelimited(s, "xmlns", '=').Some?
             && MatchDelimited(s[MatchDelimited(s, "xmlns", '=').value..], "\"", '"').Some?) ==> r.Some?
  {
    match MatchDelimited(s, "xmlns", '=')
    case None => None
    case Some(k) =>
      match MatchDelimited(s[k..], "\"", '"')
      case None => None
      case Some(n) => Some(k + n)
  }

  /** The length of the match of `p` at the start of `s`, if it matches there. */
  function MatchLength(p: Pattern, s: string): (r: Option<nat>)
    requires WellFormed(p)
    ensures r.Some? ==> 0 < r.value <= |s| && StartsWith(s, Lead(p))
  {
    match p
    case Literal(text) => if StartsWith(s, text) then Some(|text|) else None
    case Delimited(open, close) => MatchDelimited(s, open, close)
    case XmlDeclaration => MatchXmlDeclaration(s)
    case HeadElement => MatchHeadElement(s)
    case XmlnsAttribute => MatchXmlnsAttribute(s)
  }

  /** `s.replace(re, "")` with the global flag: scanning left to right, each
      match is deleted and the scan resumes after it; elsewhere the scan keeps
      one character and moves on. */
  function Strip(p: Pattern, s: string): (r: string)
    requires WellFormed(p)
    ensures |r| <= |s|
    decreases |s|
  {
    if s == [] then []
    else
      match MatchLength(p, s)
      case Some(n) => Strip(p, s[n..])
      case None => [s[0]] + Strip(p, s[1..])
  }

  /** Text in which the pattern's leading string never occurs is left as it is. */
  lemma {:induction false} StripWithoutLead(p: Pattern, s: string)
    requires WellFormed(p) && !Contains(s, Lead(p))
    ensures Strip(p, s) == s
    decreases |s|
  {
    if s != [] {
      // no match can start here: it would begin with the leading text
      assert !OccursAt(s, Lead(p), 0);
      assert MatchLength(p, s).None?;
      if Contains(s[1..], Lead(p)) {
        ContainsSuffix(s, Lead(p), 1);
      }
      StripWithoutLead(p, s[1..]);
    }
  }

  const XmlDeclarationRe := XmlDeclaration
  const DoctypeRe := Delimited("<!DOCTYPE", '>')
  const HtmlOpenRe := Delimited("<html", '>')
  const HtmlCloseRe := Literal("</html>")
  const HeadRe := HeadElement
  const BodyOpenRe := Delimited("<body", '>')
  const BodyCloseRe := Literal("</body>")
  const EpubTypeRe := Delimited("epub:type=\"", '"')
  const XmlnsRe := XmlnsAttribute

  /** The nine deletions, in the order `cleanHtmlContent` applies them. */
  const CleaningPatterns: seq<Pattern> :=
    [XmlDeclarationRe, DoctypeRe, HtmlOpenRe, HtmlCloseRe, HeadRe,
     BodyOpenRe, BodyCloseRe, EpubTypeRe, XmlnsRe]

  /** The deletions of `patterns` applied one after another. */
  function StripAll(patterns: seq<Pattern>, s: string): (r: string)
    requires forall p :: p in patterns ==> WellFormed(p)
    ensures |r| <= |s|
    decreases |patterns|
  {
    if patterns == [] then s else StripAll(patterns[1..], Strip(patterns[0], s))
  }

  /** Applying the deletions from index `k` on is deleting `patterns[k]`
      and then applying the rest. */
  lemma StripAllStep(patterns: seq<Pattern>, k: int, s: string)
    requires forall p :: p in patterns ==> WellFormed(p)
    requires 0 <= k < |patterns|
    ensures StripAll(patterns[k..], s) == StripAll(patterns[k + 1..], Strip(patterns[k], s))
  {
    assert patterns[k..][1..] == patterns[k + 1..];
  }

  /** Text containing the leading string of none of `patterns` is left as it is. */
  lemma {:induction false} StripAllWithoutLeads(patterns: seq<Pattern>, s: string)
    requires forall p :: p in patterns ==> WellFormed(p) && !Contains(s, Lead(p))
    ensures StripAll(patterns, s) == s
    decreases |patterns|
  {
    if patterns != [] {
      StripWithoutLead(patterns[0], s);
      StripAllWithoutLeads(patterns[1..], s);
    }
  }

  /** What `cleanHtmlContent` returns for `html`. */
  function Cleaned(html: string): (r: string)
    ensures r != [] ==> !IsJsWhitespace(r[0]) && !IsJsWhitespace(r[|r| - 1])
    ensures |r| <= |html|
  {
    var stripped := StripAll(CleaningPatterns, html);
    var r := Trim(stripped);
    assert exists k: nat :: TrimmedAt(stripped, r, k);
    r
  }

  /** The cleaning pipeline, one reassignment of `clean` per deletion. */
  method CleanHtmlContent(html: string) returns (clean: string)
    ensures clean == Cleaned(html)
  {
    ghost var ps := CleaningPatterns;
    StripAllStep(ps, 0, html);
    clean := Strip(XmlDeclarationRe, html);
    StripAllStep(ps, 1, clean);
    clean := Strip(DoctypeRe, clean);
    StripAllStep(ps, 2, clean);
    clean := Strip(HtmlOpenRe, clean);
    StripAllStep(ps, 3, clean);
    clean := Strip(HtmlCloseRe, clean);
    StripAllStep(ps, 4, clean);
    clean := Strip(HeadRe, clean);
    StripAllStep(ps, 5, clean);
    clean := Strip(BodyOpenRe, clean);
    StripAllStep(ps, 6, clean);
    clean := Strip(BodyCloseRe, clean);
    StripAllStep(ps, 7, clean);
    clean := Strip(EpubTypeRe, clean);
    StripAllStep(ps, 8, clean);
    clean := Strip(XmlnsRe, clean);
    assert ps[9..] == [];
    clean := Trim(clean);
  }

  /** `s` contains the leading text of none of the nine deleted forms. */
  predicate UsesNoDeletedForm(s: string) {
    && !Contains(s, "<?xml") && !Contains(s, "<!DOCTYPE")
    && !Contains(s, "<html") && !Contains(s, "</html>")
    && !Contains(s, "<head")
    && !Contains(s, "<body") && !Contains(s, "</body>")
    && !Contains(s, "epub:type=\"") && !Contains(s, "xmlns")
  }

  /** Markup that uses none of the nine deleted forms comes out only trimmed:
      no tag or attribute is filtered for being unsafe. */
  lemma CleanedWithoutWrappers(s: string)
    requires UsesNoDeletedForm(s)
    ensures Cleaned(s) == Trim(s)
  {
    StripAllWithoutLeads(CleaningPatterns, s);
  }

  /** Each deleted form has a character missing from a string that contains
      no `?`, `!`, `h`, `b`, `u` or `x`. */
  lemma NoDeletedFormWithoutKeyChars(s: string)
    requires '?' !in s && '!' !in s && 'h' !in s && 'b' !in s && 'u' !in s && 'x' !in s
    ensures UsesNoDeletedForm(s)
  {
    MissingCharNotContained(s, "<?xml", 1);
    MissingCharNotContained(s, "<!DOCTYPE", 1);
    MissingCharNotContained(s, "<html", 1);
    MissingCharNotContained(s, "</html>", 2);
    MissingCharNotContained(s, "<head", 1);
    MissingCharNotContained(s, "<body", 1);
    MissingCharNotContained(s, "</body>", 2);
    MissingCharNotContained(s, "epub:type=\"", 2);
    MissingCharNotContained(s, "xmlns", 0);
  }

  /** Markup without the characters `?`, `!`, `h`, `b`, `u` and `x`, and
      without surrounding whitespace, comes out exactly as it went in. */
  lemma CleanedKeepsMarkupWithoutKeyChars(s: string)
    requires '?' !in s && '!' !in s && 'h' !in s && 'b' !in s && 'u' !in s && 'x' !in s
    requires s != [] ==> !IsJsWhitespace(s[0]) && !IsJsWhitespace(s[|s| - 1])
    ensures Cleaned(s) == s
  {
    NoDeletedFormWithoutKeyChars(s);
    CleanedWithoutWrappers(s);
    TrimUnchanged(s);
  }

  /** A prefix at none of whose positions the pattern matches is kept. */
  lemma {:induction false} StripKeepsUnmatchedPrefix(p: Pattern, a: string, b: string)
    requires WellFormed(p)
    requires forall i :: 0 <= i < |a| ==> MatchLength(p, a[i..] + b).None?
    ensures Strip(p, a + b) == a + Strip(p, b)
    decreases |a|
  {
    if a != [] {
      assert a[0..] + b == a + b;
      assert (a + b)[1..] == a[1..] + b;
      forall i | 0 <= i < |a[1..]| ensures MatchLength(p, a[1..][i..] + b).None? {
        assert a[1..][i..] == a[i + 1..];
      }
      StripKeepsUnmatchedPrefix(p, a[1..], b);
      assert MatchLength(p, a + b).None?;
      assert Strip(p, a + b) == [a[0]] + Strip(p, a[1..] + b);
      assert a == [a[0]] + a[1..];
    } else {
      assert a + b == b;
    }
  }

  /** A text beginning with a match loses that match and keeps the rest's stripping. */
  lemma StripLeadingMatch(p: Pattern, s: string, n: nat)
    requires WellFormed(p) && MatchLength(p, s) == Some(n)
    ensures Strip(p, s) == Strip(p, s[n..])
  {
  }

  /** A bare `<html>` tag in front of text without one is deleted, and only it. */
  lemma HtmlOpenTagDeleted(s: string, rest: string)
    requires s == "<html>" + rest && !Contains(rest, "<html")
    ensures Strip(HtmlOpenRe, s) == rest
  {
    assert StartsWith(s, "<html") && s[5] == '>';
    StripLeadingMatch(HtmlOpenRe, s, 6);
    assert s[6..] == rest;
    StripWithoutLead(HtmlOpenRe, rest);
  }

  /** The first three characters of the splice example are kept. */
  lemma SplicePrefixKept(s: string)
    requires s == "<ht<html>ml>"
    ensures Strip(HtmlOpenRe, s) == s[..3] + Strip(HtmlOpenRe, s[3..])
  {
    var a, b := s[..3], s[3..];
    assert s == a + b;
    forall i | 0 <= i < |a| ensures MatchLength(HtmlOpenRe, a[i..] + b).None? {
      var t := a[i..] + b;
      assert t[3 - i] == '<' != "<html"[3 - i];
      assert !StartsWith(t, "<html");
    }
    StripKeepsUnmatchedPrefix(HtmlOpenRe, a, b);
  }

  /** In the splice example, the inner `<html>` tag is deleted. */
  lemma SpliceInnerTagDeleted(s: string)
    requires s == "<ht<html>ml>"
    ensures Strip(HtmlOpenRe, s[3..]) == s[9..]
  {
    var rest := s[9..];
    assert '<' !in rest;
    MissingCharNotContained(rest, "<html", 0);
    HtmlOpenTagDeleted(s[3..], rest);
  }

  /** Deleting `<html…>` can splice a new one together, so a second
      deletion removes more: the deletion is not idempotent. */
  lemma HtmlOpenDeletionSplices(s: string)
    requires s == "<ht<html>ml>"
    ensures Strip(HtmlOpenRe, s) == "<html>"
    ensures Strip(HtmlOpenRe, Strip(HtmlOpenRe, s)) == ""
  {
    SplicePrefixKept(s);
    SpliceInnerTagDeleted(s);
    assert s[..3] == "<ht" && s[9..] == "ml>";
    assert !Contains([], "<html");
    HtmlOpenTagDeleted("<html>", []);
  }

  /** A script element survives cleaning unchanged. */
  lemma ScriptSurvives(s: string)
    requires s == "<script></script>"
    ensures Cleaned(s) == s
  {
    CleanedKeepsMarkupWithoutKeyChars(s);
  }

  /** An event-handler attribute survives cleaning unchanged. */
  lemma EventHandlerSurvives(s: string)
    requires s == "<i onclick=f()>"
    ensures Cleaned(s) == s
  {
    CleanedKeepsMarkupWithoutKeyChars(s);
  }
}
