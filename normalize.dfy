/** The text docs_export writes (yuque.py:184-213): a fenced metadata header
    built from the book, the document and, when the overview call succeeds,
    its contributors, followed by the downloaded Markdown in which every
    `<font style="...">X</font>` has been replaced by `X`. The replacement is
    Python's `re.sub(r'<font\s+style="[^"]*">(.*?)</font>', r'\1', body)`,
    applied to the body only. */
module Normalize {
  import opened Text
  import opened Optional
  import opened Entities

  const OpenTag: string := "<font"
  const StyleOpen: string := "style=\""
  const StyleClose: string := "\">"
  const CloseTag: string := "</font>"

  predicate StartsWith(s: string, p: string) {
    |p| <= |s| && s[..|p|] == p
  }

  /** What the greedy `\s+` consumes: the run of whitespace at the start. */
  function LeadingSpaces(s: string): (n: nat)
    ensures n <= |s|
    ensures forall i :: 0 <= i < n ==> IsSpace(s[i])
    ensures n < |s| ==> !IsSpace(s[n])
  {
    if s != [] && IsSpace(s[0]) then 1 + LeadingSpaces(s[1..]) else 0
  }

  /** The lazy `(.*?)</font>`: the first position where the closing tag
      begins, provided no line break comes before it (`.` does not match a
      line break). */
  function LazyClose(s: string): (r: Option<nat>)
    ensures r.Some? ==> r.value + |CloseTag| <= |s| && StartsWith(s[r.value..], CloseTag)
    ensures r.Some? ==> forall i :: 0 <= i < r.value ==> s[i] != '\n'
    decreases |s|
  {
    if StartsWith(s, CloseTag) then Some(0)
    else if s == [] || s[0] == '\n' then None
    else match LazyClose(s[1..]) {
      case Some(k) => assert s[1..][k..] == s[k + 1..]; Some(k + 1)
      case None => None
    }
  }

  /** A match of the pattern: the text of its group and the text that
      follows the whole match. */
  datatype Match = Match(group: string, rest: string)

  /** `(.*?)</font>` */
  function MatchGroup(t: string): (r: Option<Match>)
    ensures r.Some? ==> |r.value.group| + |CloseTag| + |r.value.rest| == |t|
    ensures r.Some? ==> StartsWith(t, r.value.group + CloseTag)
  {
    match LazyClose(t)
    case None => None
    case Some(k) =>
      assert t[..k + |CloseTag|] == t[..k] + t[k..][..|CloseTag|];
      Some(Match(t[..k], t[k + |CloseTag|..]))
  }

  /** `[^"]*">` then the group: the attribute value runs to the first quote. */
  function MatchAttribute(t: string): (r: Option<Match>)
    ensures r.Some? ==> |r.value.group| + |StyleClose| + |CloseTag| + |r.value.rest| <= |t|
  {
    var q := IndexOf(t, '"');
    if !StartsWith(t[q..], StyleClose) then None
    else MatchGroup(t[q + |StyleClose|..])
  }

  /** `style="` then the attribute. */
  function MatchStyle(t: string): (r: Option<Match>)
    ensures r.Some? ==> |r.value.group| + |StyleOpen| + |StyleClose| + |CloseTag| + |r.value.rest| <= |t|
  {
    if !StartsWith(t, StyleOpen) then None
    else MatchAttribute(t[|StyleOpen|..])
  }

  /** `\s+` then the style attribute: at least one whitespace character. */
  function MatchSpaces(t: string): (r: Option<Match>)
    ensures r.Some? ==> |r.value.group| + 1 + |StyleOpen| + |StyleClose| + |CloseTag| + |r.value.rest| <= |t|
  {
    var w := LeadingSpaces(t);
    if w == 0 then None else MatchStyle(t[w..])
  }

  /** Whether the pattern matches at the very start of `s`: the group and
      what follows the match. */
  function MatchFont(s: string): (r: Option<Match>)
    ensures r.Some? ==> |r.value.group| + |r.value.rest| + 22 <= |s|
  {
    if !StartsWith(s, OpenTag) then None
    else MatchSpaces(s[|OpenTag|..])
  }

  /** `re.sub` of the pattern by its group: scan left to right, replace each
      match by its group text and resume after it. */
  function StripFontTags(s: string): (r: string)
    ensures |r| <= |s|
    decreases |s|
  {
    if s == [] then []
    else match MatchFont(s)
      case Some(m) => m.group + StripFontTags(m.rest)
      case None => [s[0]] + StripFontTags(s[1..])
  }

  /** Text without any `<font` passes through unchanged. */
  lemma {:induction false} NoTagUnchanged(s: string)
    requires forall i :: 0 <= i < |s| ==> !StartsWith(s[i..], OpenTag)
    ensures StripFontTags(s) == s
    decreases |s|
  {
    if s != [] {
      assert s[0..] == s;
      assert forall i :: 0 <= i < |s| - 1 ==> s[1..][i..] == s[i + 1..];
      NoTagUnchanged(s[1..]);
    }
  }

  lemma {:induction false} LeadingSpacesOfRun(ws: string, rest: string)
    requires forall i :: 0 <= i < |ws| ==> IsSpace(ws[i])
    requires rest != [] && !IsSpace(rest[0])
    ensures LeadingSpaces(ws + rest) == |ws|
  {
    if ws != [] {
      assert (ws + rest)[1..] == ws[1..] + rest;
      LeadingSpacesOfRun(ws[1..], rest);
    }
  }

  /** The lazy group stops at the first closing tag. */
  lemma {:induction false} LazyCloseFinds(t: string, k: nat)
    requires k + |CloseTag| <= |t| && StartsWith(t[k..], CloseTag)
    requires forall i :: 0 <= i < k ==> t[i] != '\n' && !StartsWith(t[i..], CloseTag)
    ensures LazyClose(t) == Some(k)
    decreases k
  {
    if k > 0 {
      assert t[0..] == t;
      forall i | 0 <= i < k - 1
        ensures t[1..][i] != '\n' && !StartsWith(t[1..][i..], CloseTag)
      {
        assert t[1..][i..] == t[i + 1..];
      }
      assert t[1..][k - 1..] == t[k..];
      LazyCloseFinds(t[1..], k - 1);
    }
  }

  /** `</font>` does not occur in `s`. */
  predicate NoCloseTagIn(s: string) {
    forall i :: 0 <= i < |s| ==> !StartsWith(s[i..], CloseTag)
  }

  /** A closing tag cannot start inside `inner` and run into the closing tag
      that follows it, because no proper suffix of `</font>` is a prefix of it. */
  lemma FirstCloseAfter(inner: string, rest: string)
    requires NoCloseTagIn(inner)
    ensures forall i :: 0 <= i < |inner| ==> !StartsWith((inner + (CloseTag + rest))[i..], CloseTag)
  {
    var t := inner + (CloseTag + rest);
    forall i | 0 <= i < |inner|
      ensures !StartsWith(t[i..], CloseTag)
    {
      if i + |CloseTag| <= |inner| {
        assert t[i..][..|CloseTag|] == inner[i..][..|CloseTag|];
      } else {
        assert t[i..][|inner| - i] == '<';
      }
    }
  }

  /** One well-formed tag at the front is replaced by the text it wraps, and
      the scan resumes right after its closing tag. */
  lemma UnwrapFont(ws: string, style: string, inner: string, rest: string)
    requires ws != [] && forall i :: 0 <= i < |ws| ==> IsSpace(ws[i])
    requires '"' !in style
    requires forall i :: 0 <= i < |inner| ==> inner[i] != '\n'
    requires NoCloseTagIn(inner)
    ensures StripFontTags(OpenTag + (ws + (StyleOpen + (style + (StyleClose + (inner + (CloseTag + rest)))))))
      == inner + StripFontTags(rest)
  {
    var body := inner + (CloseTag + rest);
    GroupOf(inner, rest);
    var attribute := style + (StyleClose + body);
    AttributeOf(style, body);
    var styled := StyleOpen + attribute;
    assert styled[|StyleOpen|..] == attribute;
    var spaced := ws + styled;
    SpacesOf(ws, styled);
    var s := OpenTag + spaced;
    assert s[|OpenTag|..] == spaced;
    assert MatchFont(s) == Some(Match(inner, rest));
  }

  lemma GroupOf(inner: string, rest: string)
    requires forall i :: 0 <= i < |inner| ==> inner[i] != '\n'
    requires NoCloseTagIn(inner)
    ensures MatchGroup(inner + (CloseTag + rest)) == Some(Match(inner, rest))
  {
    var body := inner + (CloseTag + rest);
    FirstCloseAfter(inner, rest);
    assert body[|inner|..] == CloseTag + rest;
    LazyCloseFinds(body, |inner|);
    assert body[..|inner|] == inner;
    assert body[|inner| + |CloseTag|..] == rest;
  }

  lemma AttributeOf(style: string, body: string)
    requires '"' !in style
    ensures MatchAttribute(style + (StyleClose + body)) == MatchGroup(body)
  {
    var attribute := style + (StyleClose + body);
    assert StyleClose + body == ['"'] + (">" + body);
    IndexOfJoin(style, '"', ">" + body);
    assert attribute == style + ['"'] + (">" + body);
    assert attribute[|style|..] == StyleClose + body;
    assert StartsWith(attribute[|style|..], StyleClose);
    assert attribute[|style| + |StyleClose|..] == body;
  }

  lemma SpacesOf(ws: string, styled: string)
    requires ws != [] && forall i :: 0 <= i < |ws| ==> IsSpace(ws[i])
    requires StartsWith(styled, StyleOpen)
    ensures MatchSpaces(ws + styled) == MatchStyle(styled)
  {
    assert styled[0] == StyleOpen[0];
    LeadingSpacesOfRun(ws, styled);
    assert (ws + styled)[|ws|..] == styled;
  }

  /** `<font style="color:red">Hi</font>!` becomes `Hi!`. */
  lemma UnwrapExample()
    ensures StripFontTags(OpenTag + (" " + (StyleOpen + ("color:red" + (StyleClose + ("Hi" + (CloseTag + "!"))))))) == "Hi!"
  {
    UnwrapFont(" ", "color:red", "Hi", "!");
    NoTagUnchanged("!");
  }

  /** The source's loop `for contributor in ...: header += f"{name}({login}) "`. */
  function ContributorList(cs: seq<Contributor>): string {
    if cs == [] then ""
    else ContributorList(cs[..|cs| - 1]) + cs[|cs| - 1].name + "(" + cs[|cs| - 1].login + ") "
  }

  /** The f-string header, up to the contributor line. */
  function HeaderStart(baseUrl: string, book: Book, doc: Doc): string {
    FenceStart + HeaderLines(baseUrl, book, doc)
  }

  /** The book, document and link lines of the header. */
  function HeaderLines(baseUrl: string, book: Book, doc: Doc): string {
    "知识库名称：" + book.name + " (" + IntToString(book.id) + ")\n"
    + "介绍：" + book.description + " \n"
    + "于" + book.createdAt + "创建，最近更新在" + book.updatedAt + ".\n"
    + "---\n"
    + "文档名称：" + doc.title + " (" + IntToString(doc.id) + ")\n"
    + "介绍：" + doc.description + " (" + doc.customDescription + ")\n"
    + "于" + doc.createdAt + "最近更新在" + doc.updatedAt + ".\n"
    + "于" + doc.user + "创建,最近被" + doc.lastEditor + "编辑.\n"
    + "---\n"
    + "原文地址: " + baseUrl + "/" + book.slug + "/" + doc.slug + " \n"
  }

  const FenceStart: string := "\n```meta_data\n"
  const FenceEnd: string := "\n```\n\n"

  /** The whole header: the contributor line appears only when the overview
      call returned (`None` stands for the swallowed exception). */
  function Header(baseUrl: string, book: Book, doc: Doc, contributors: Option<seq<Contributor>>): string {
    HeaderStart(baseUrl, book, doc)
    + (if contributors.Some? then "由" + ContributorList(contributors.value) + "编辑" else "")
    + FenceEnd
  }

  /** Builds the header the way the source does, appending one contributor
      at a time. */
  method BuildHeader(baseUrl: string, book: Book, doc: Doc, contributors: Option<seq<Contributor>>)
    returns (header: string)
    ensures header == Header(baseUrl, book, doc, contributors)
  {
    header := HeaderStart(baseUrl, book, doc);
    if contributors.Some? {
      header := header + "由";
      header := AppendContributors(header, contributors.value);
      header := header + "编辑";
    }
    header := header + FenceEnd;
  }

  /** The loop over the contributors: `name(login) ` for each, in order. */
  method AppendContributors(prefix: string, cs: seq<Contributor>) returns (header: string)
    ensures header == prefix + ContributorList(cs)
  {
    header := prefix;
    for i := 0 to |cs|
      invariant header == prefix + ContributorList(cs[..i])
    {
      assert cs[..i + 1][..i] == cs[..i];
      header := header + cs[i].name + "(" + cs[i].login + ") ";
    }
    assert cs[..|cs|] == cs;
  }

  /** The file content docs_export commits: the header verbatim, then the
      normalised body. */
  function ExportedText(header: string, payload: string): (text: string)
    ensures StartsWith(text, header)
    ensures |text| <= |header| + |payload|
  {
    header + StripFontTags(payload)
  }

  /** The header opens and closes its fence whatever the contributors. */
  lemma HeaderFenced(baseUrl: string, book: Book, doc: Doc, contributors: Option<seq<Contributor>>)
    ensures StartsWith(Header(baseUrl, book, doc, contributors), FenceStart)
    ensures var h := Header(baseUrl, book, doc, contributors);
      |h| >= |FenceEnd| && h[|h| - |FenceEnd|..] == FenceEnd
  {
    var start := HeaderStart(baseUrl, book, doc);
    var middle := start + (if contributors.Some? then "由" + ContributorList(contributors.value) + "编辑" else "");
    assert start[..|FenceStart|] == FenceStart;
    assert middle[..|FenceStart|] == start[..|FenceStart|];
    assert (middle + FenceEnd)[..|FenceStart|] == middle[..|FenceStart|];
  }
}
