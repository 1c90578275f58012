/**
  Full-text acquisition (`src/extractor.py`): the local PDF path of a paper,
  the download with its publisher URL rewrite and acceptance gate, the HTML
  fallback with its regex clean-up, PDF text extraction, and the cascade
  PDF, then HTML, then abstract. The network answers and the text PyMuPDF
  reads from a file are inputs; the files on disk are a `Disk` object.
*/
module Extractor {
  import opened Wrappers
  import opened Strings
  import opened Models

  /** An HTTP answer, or the exception raised instead of one. */
  datatype Response = Response(status: int, contentType: string, body: string) | RequestFailed

  /** The files present under the papers directory. */
  class Disk {
    var files: set<string>
  }

  // ------------------------------------------------------------------ paths

  /** The PDF's file name: `to_filename()` with every `.md` made `.pdf`. */
  function PdfName(p: Paper): string
    requires ValidDate(p.published.date)
  {
    Replace(ToFilename(p), ".md", ".pdf")
  }

  /** `PAPERS_DIR / strftime("%Y") / PdfName`. */
  function PdfPath(papersDir: string, p: Paper): string
    requires ValidDate(p.published.date)
  {
    papersDir + "/" + Pad(p.published.date.year, 4) + "/" + PdfName(p)
  }

  /** The trailing `.md` of the identity filename is always the one that
      becomes `.pdf`: the PDF name is the rewritten stem plus `.pdf`. */
  lemma {:induction false} PdfNameEndsPdf(p: Paper)
    requires ValidDate(p.published.date)
    ensures var stem := ToFilename(p)[..|ToFilename(p)| - 3];
      PdfName(p) == Replace(stem, ".md", ".pdf") + ".pdf"
    ensures EndsWith(PdfName(p), ".pdf")
  {
    var f := ToFilename(p);
    FilenameEndsMd(p);
    var stem := f[..|f| - 3];
    assert f == stem + ".md";
    ReplaceAppendMd(stem);
  }

  /** A DOI without `.md` in it keeps its sanitised form in the PDF name. */
  lemma {:induction false} DoiPdfName(p: Paper)
    requires ValidDate(p.published.date) && Truthy(p.doi)
    requires !Contains(SanitizeDoi(p.doi.value), ".md")
    ensures PdfName(p) == SanitizeDoi(p.doi.value) + ".pdf"
  {
    PdfNameEndsPdf(p);
    var f := ToFilename(p);
    assert f[..|f| - 3] == SanitizeDoi(p.doi.value);
    ReplaceAbsent(SanitizeDoi(p.doi.value), ".md", ".pdf");
  }

  lemma {:induction false} ReplaceAppendMd(s: string)
    ensures Replace(s + ".md", ".md", ".pdf") == Replace(s, ".md", ".pdf") + ".pdf"
  {
    SplitAppendMd(s);
    JoinSnoc(Split(s, ".md"), "", ".pdf");
  }

  /** `.md` cannot overlap itself, so the occurrences in `s + ".md"` are
      those of `s` and the appended one. */
  lemma {:induction false} SplitAppendMd(s: string)
    ensures Split(s + ".md", ".md") == Split(s, ".md") + [""]
    decreases |s|
  {
    var md := ".md";
    var t := s + md;
    match IndexOf(s, md)
    case Some(i) =>
      MdKeepsFirst(s, i);
      var rest := s[i + 3..];
      assert t[i + 3..] == rest + md;
      assert t[..i] == s[..i];
      SplitAppendMd(rest);
      SplitFirst(t, md, i);
      SplitFirst(s, md, i);
      assert Split(t, md) == [s[..i]] + Split(rest + md, md);
    case None =>
      MdAppendedFirst(s);
      assert t[|s| + 3..] == [];
      SplitFirst(t, md, |s|);
      assert Split([], md) == [[]];
      assert Split(t, md) == [s] + [""];
  }

  lemma {:induction false} MdKeepsFirst(s: string, i: nat)
    requires IndexOf(s, ".md") == Some(i)
    ensures IndexOf(s + ".md", ".md") == Some(i)
  {
    var t := s + ".md";
    assert t[i..i + 3] == s[i..i + 3];
    forall j: nat | j < i ensures !OccursAt(t, ".md", j) {
      OccursInPrefix(s, ".md", ".md", j);
    }
    FirstOccurrence(t, ".md", i);
  }

  lemma {:induction false} MdAppendedFirst(s: string)
    requires IndexOf(s, ".md").None?
    ensures IndexOf(s + ".md", ".md") == Some(|s|)
  {
    var t := s + ".md";
    assert forall j: nat :: j < |s| ==> !OccursAt(t, ".md", j) by {
      forall j: nat | j < |s| ensures !OccursAt(t, ".md", j) {
        if j + 3 <= |s| {
          OccursInPrefix(s, ".md", ".md", j);
        } else {
          NoMdAcrossEnd(s, j);
        }
      }
    }
    assert OccursAt(t, ".md", |s|) by {
      assert t[|s|..] == ".md";
    }
    FirstOccurrence(t, ".md", |s|);
  }

  /** An occurrence starting in the last two characters of `s` would need
      the appended `.` to be `m` or `d`. */
  lemma {:induction false} NoMdAcrossEnd(s: string, j: nat)
    requires j < |s| < j + 3
    ensures !OccursAt(s + ".md", ".md", j)
  {
    var t := s + ".md";
    var w := t[j..j + 3];
    var k := |s| - j;
    assert w[k] == t[|s|] == '.';
    assert ".md"[k] != '.';
  }

  // ---------------------------------------------------------------- download

  const AgupubsPdfDirect: string := "https://agupubs.onlinelibrary.wiley.com/doi/pdfdirect/"

  /** The text up to the first `?` (`split("?")[0]`). */
  function BeforeQuery(s: string): string {
    Split(s, "?")[0]
  }

  /** The URL `_download_pdf` requests for a paper link: on `wiley.com`,
      an `/abs/` page becomes its `/pdfdirect/` page, and otherwise a `/doi/`
      URL that is not already a `/pdf/` URL becomes the agupubs
      `pdfdirect` URL of the DOI part; any other link is requested as is. */
  function DownloadUrl(link: string): string {
    if !Contains(link, "wiley.com") then link
    else if Contains(link, "/abs/") then Replace(link, "/abs/", "/pdfdirect/")
    else if Contains(link, "/doi/") && !Contains(link, "/pdf/") then
      AgupubsPdfDirect + BeforeQuery(Last(Split(link, "/doi/")))
    else link
  }

  /** Links off `wiley.com` are never rewritten. */
  lemma {:induction false} OtherPublishersUntouched(link: string)
    requires !Contains(link, "wiley.com")
    ensures DownloadUrl(link) == link
  {
  }

  /** A Wiley abstract page `a/abs/b` (one `/abs/`) is fetched as
      `a/pdfdirect/b`. */
  lemma {:induction false} WileyAbstractPage(a: string, b: string)
    requires Contains(a + "/abs/" + b, "wiley.com")
    requires IndexOf(a + "/abs/" + b, "/abs/") == Some(|a|) && !Contains(b, "/abs/")
    ensures DownloadUrl(a + "/abs/" + b) == a + "/pdfdirect/" + b
  {
    ReplaceOnce(a, "/abs/", b, "/pdfdirect/");
  }

  /** A Wiley `/doi/` link `a/doi/d` (one `/doi/`, no `/abs/`, no `/pdf/`)
      is fetched as the agupubs `pdfdirect` URL of `d` cut at its first `?`. */
  lemma {:induction false} WileyDoiPage(a: string, d: string)
    requires Contains(a + "/doi/" + d, "wiley.com")
    requires !Contains(a + "/doi/" + d, "/abs/") && !Contains(a + "/doi/" + d, "/pdf/")
    requires IndexOf(a + "/doi/" + d, "/doi/") == Some(|a|) && !Contains(d, "/doi/")
    ensures DownloadUrl(a + "/doi/" + d)
         == AgupubsPdfDirect + (match IndexOf(d, "?") case Some(q) => d[..q] case None => d)
  {
    LastPieceAfterOnly(a, "/doi/", d);
    BeforeQuerySpec(d);
  }

  /** `split("?")[0]` is the text before the first `?`, or all of it. */
  lemma {:induction false} BeforeQuerySpec(d: string)
    ensures BeforeQuery(d) == match IndexOf(d, "?") case Some(q) => d[..q] case None => d
  {
    match IndexOf(d, "?")
    case Some(q) => SplitFirst(d, "?", q);
    case None => SplitAbsent(d, "?");
  }

  /** The download is kept only for HTTP 200 with `application/pdf` in the
      lower-cased Content-Type. */
  predicate DownloadAccepted(r: Response) {
    r.Response? && r.status == 200 && Contains(Lower(r.contentType), "application/pdf")
  }

  /** `_download_pdf`: requests the rewritten URL and writes the file only
      when the answer is accepted. */
  method DownloadPdf(disk: Disk, link: string, savePath: string, response: Response)
    returns (requested: string, ok: bool)
    modifies disk
    ensures requested == DownloadUrl(link)
    ensures ok <==> DownloadAccepted(response)
    ensures disk.files == if ok then old(disk.files) + {savePath} else old(disk.files)
  {
    var targetUrl := link;
    if Contains(targetUrl, "wiley.com") {
      if Contains(targetUrl, "/abs/") {
        targetUrl := Replace(targetUrl, "/abs/", "/pdfdirect/");
      } else if Contains(targetUrl, "/doi/") && !Contains(targetUrl, "/pdf/") {
        var doiPart := BeforeQuery(Last(Split(targetUrl, "/doi/")));
        targetUrl := AgupubsPdfDirect + doiPart;
      }
    }
    requested := targetUrl;
    if response.RequestFailed? {
      return requested, false;
    }
    var contentType := Lower(response.contentType);
    if response.status == 200 && Contains(contentType, "application/pdf") {
      disk.files := disk.files + {savePath};
      ok := true;
    } else {
      ok := false;
    }
  }

  // ------------------------------------------------------------------- HTML

  /** The three regular expressions of the HTML clean-up, each anchored at
      the scan position: `<(script|style).*?</\1>`, `<!--.*?-->` and
      `<[^>]+>` (all across newlines). */
  datatype Pattern = ScriptOrStyle | Comment | Tag

  /** Length of the match of `p` at the start of `s`, if it matches there;
      the non-greedy bodies end at the first closing delimiter. */
  function MatchEnd(p: Pattern, s: string): (n: Option<nat>)
    ensures n.Some? ==> 0 < n.value <= |s|
  {
    match p
    case ScriptOrStyle =>
      if StartsWith(s, "<script") then CloseAfter(s, 7, "</script>")
      else if StartsWith(s, "<style") then CloseAfter(s, 6, "</style>")
      else None
    case Comment =>
      if StartsWith(s, "<!--") then CloseAfter(s, 4, "-->") else None
    case Tag =>
      if |s| >= 2 && s[0] == '<' && s[1] != '>' then CloseAfter(s, 1, ">") else None
  }

  /** The end of the first `close` at or after `open`. */
  function CloseAfter(s: string, open: nat, close: string): (n: Option<nat>)
    requires 0 < open <= |s|
    ensures n.Some? ==> 0 < n.value <= |s|
  {
    match IndexOf(s[open..], close)
    case Some(j) => Some(open + j + |close|)
    case None => None
  }

  /** `re.sub(pattern, repl, s)`: scanning left to right, every match is
      replaced and scanning resumes after it. */
  function Scrub(s: string, p: Pattern, repl: string): string
    decreases |s|
  {
    if s == [] then []
    else match MatchEnd(p, s)
      case Some(n) => repl + Scrub(s[n..], p, repl)
      case None => [s[0]] + Scrub(s[1..], p, repl)
  }

  /** Text the pattern matches nowhere is left as it is. */
  lemma {:induction false} ScrubAbsent(s: string, p: Pattern, repl: string)
    requires forall i :: 0 <= i < |s| ==> MatchEnd(p, s[i..]).None?
    ensures Scrub(s, p, repl) == s
    decreases |s|
  {
    if s != [] {
      assert MatchEnd(p, s[0..]).None? && s[0..] == s;
      forall i | 0 <= i < |s[1..]| ensures MatchEnd(p, s[1..][i..]).None? {
        assert s[1..][i..] == s[i + 1..];
      }
      ScrubAbsent(s[1..], p, repl);
    }
  }

  /** No tag is left where the tag pattern could match. */
  ghost predicate NoTags(s: string) {
    forall i :: 0 <= i < |s| ==> MatchEnd(Tag, s[i..]).None?
  }

  /** After replacing tags with spaces, the tag pattern matches nowhere: a
      `<` that survives is either followed at once by `>` or by no `>` at
      all. So stripping tags twice is stripping them once. */
  lemma {:induction false} TagsStripped(s: string)
    ensures NoTags(Scrub(s, Tag, " "))
    ensures Scrub(Scrub(s, Tag, " "), Tag, " ") == Scrub(s, Tag, " ")
    decreases |s|
  {
    var r := Scrub(s, Tag, " ");
    if s != [] {
      match MatchEnd(Tag, s)
      case Some(n) =>
        TagsStripped(s[n..]);
        NoTagsCons(' ', Scrub(s[n..], Tag, " "));
      case None =>
        TagsStripped(s[1..]);
        var rest := Scrub(s[1..], Tag, " ");
        assert MatchEnd(Tag, [s[0]] + rest).None? by {
          if s[0] == '<' && |s| >= 2 {
            if s[1] == '>' {
              assert MatchEnd(Tag, s[1..]).None?;
              assert rest[0] == '>';
            } else {
              assert IndexOf(s[1..], ">").None?;
              NoCloseKept(s[1..]);
              assert ([s[0]] + rest)[1..] == rest;
            }
          }
        }
        NoTagsCons(s[0], rest);
    }
    ScrubAbsent(r, Tag, " ");
  }

  /** A character the tag pattern cannot start at keeps text tag-free. */
  lemma {:induction false} NoTagsCons(c: char, rest: string)
    requires NoTags(rest) && MatchEnd(Tag, [c] + rest).None?
    ensures NoTags([c] + rest)
  {
    var r := [c] + rest;
    forall i | 0 < i < |r| ensures MatchEnd(Tag, r[i..]).None? {
      assert r[i..] == rest[i - 1..];
    }
    assert r[0..] == r;
  }

  /** Stripping tags adds no `>` to text that has none. */
  lemma {:induction false} NoCloseKept(s: string)
    requires IndexOf(s, ">").None?
    ensures IndexOf(Scrub(s, Tag, " "), ">").None?
    decreases |s|
  {
    var r := Scrub(s, Tag, " ");
    if s != [] {
      assert !OccursAt(s, ">", 0);
      assert s[0] != '>' by {
        assert s[0..1] == [s[0]];
      }
      assert IndexOf(s[1..], ">").None?;
      match MatchEnd(Tag, s)
      case Some(n) =>
        assert false;
      case None =>
        NoCloseKept(s[1..]);
        var rest := Scrub(s[1..], Tag, " ");
        assert r == [s[0]] + rest;
        forall j: nat ensures !OccursAt(r, ">", j) {
          if j > 0 && OccursAt(r, ">", j) {
            assert rest[j - 1..j] == r[j..j + 1];
            assert OccursAt(rest, ">", j - 1);
          }
        }
    }
  }

  /** Text before the first `<` passes through tag stripping unchanged. */
  lemma {:induction false} ScrubNoOpen(a: string, rest: string)
    requires forall i :: 0 <= i < |a| ==> a[i] != '<'
    ensures Scrub(a + rest, Tag, " ") == a + Scrub(rest, Tag, " ")
    decreases |a|
  {
    if a != [] {
      var s := a + rest;
      assert s[0] == a[0] && s[1..] == a[1..] + rest;
      assert MatchEnd(Tag, s).None?;
      assert Scrub(s, Tag, " ") == [a[0]] + Scrub(a[1..] + rest, Tag, " ");
      ScrubNoOpen(a[1..], rest);
      assert a == [a[0]] + a[1..];
    } else {
      assert a + rest == rest;
    }
  }

  /** A tag `<name>` is replaced by a single space and the text after it,
      free of `<`, is kept; with `ScrubNoOpen`, so is text before it. */
  lemma {:induction false} SingleTag(name: string, b: string)
    requires forall i :: 0 <= i < |b| ==> b[i] != '<'
    requires name != [] && forall i :: 0 <= i < |name| ==> name[i] != '>'
    ensures Scrub("<" + name + ">" + b, Tag, " ") == " " + b
  {
    var tag := "<" + name + ">" + b;
    var body := name + ">" + b;
    assert tag[1..] == body && tag[0] == '<' && tag[1] == name[0];
    assert IndexOf(body, ">") == Some(|name|) by {
      ClosingAfter(name, b);
    }
    assert MatchEnd(Tag, tag) == Some(|name| + 2);
    assert tag[|name| + 2..] == b;
    assert Scrub(b, Tag, " ") == b by {
      ScrubNoOpen(b, []);
      assert b + [] == b;
    }
  }

  lemma {:induction false} ClosingAfter(name: string, b: string)
    requires forall i :: 0 <= i < |name| ==> name[i] != '>'
    ensures IndexOf(name + ">" + b, ">") == Some(|name|)
  {
    var body := name + ">" + b;
    forall j: nat | j < |name| ensures !OccursAt(body, ">", j) {
      assert body[j..j + 1] == [name[j]];
    }
    assert body[|name|..|name| + 1] == ">";
    FirstOccurrence(body, ">", |name|);
  }

  /** The text under 500 characters that counts as a block or a redirect. */
  const MinHtmlChars: nat := 500

  /** The cleaned text of a page: blocks replaced by a space, comments
      removed, tags replaced by a space, whitespace collapsed. */
  function CleanHtml(html: string): string {
    CollapseSpace(Scrub(Scrub(Scrub(html, ScriptOrStyle, " "), Comment, ""), Tag, " "))
  }

  /** `_extract_from_html`: the cleaned page text, or `""` when the request
      fails, the status is not 200, or fewer than 500 characters remain. */
  function HtmlText(r: Response): (text: string)
    ensures text == "" || (|text| >= MinHtmlChars && Collapsed(text))
    ensures text != "" ==> r.Response? && r.status == 200 && text == CleanHtml(r.body)
  {
    if r.Response? && r.status == 200 then
      var text := CleanHtml(r.body);
      CollapseSpaceCollapsed(Scrub(Scrub(Scrub(r.body, ScriptOrStyle, " "), Comment, ""), Tag, " "));
      if |text| < MinHtmlChars then "" else text
    else ""
  }

  /** The cleaned text keeps every visible character of the tag-stripped
      page, and the tag pattern matches nowhere in the page before the
      whitespace is collapsed. */
  lemma {:induction false} CleanHtmlKeepsText(html: string)
    ensures var stripped := Scrub(Scrub(Scrub(html, ScriptOrStyle, " "), Comment, ""), Tag, " ");
      NoTags(stripped) && Ink(CleanHtml(html)) == Ink(stripped)
  {
    var blocksGone := Scrub(Scrub(html, ScriptOrStyle, " "), Comment, "");
    TagsStripped(blocksGone);
    CollapseSpaceKeepsInk(Scrub(blocksGone, Tag, " "));
  }

  // -------------------------------------------------------------------- PDF

  /** `_extract_text`: the pages' text concatenated, whitespace collapsed;
      `""` when the file cannot be read (`None`). */
  function PdfText(pages: Option<seq<string>>): string {
    match pages
    case None => ""
    case Some(ps) => CollapseSpace(Concat(ps))
  }

  /** The PDF text has no leading, trailing or repeated whitespace and keeps
      every non-whitespace character of the pages in order. */
  lemma {:induction false} PdfTextShape(pages: seq<string>)
    ensures Collapsed(PdfText(Some(pages)))
    ensures Ink(PdfText(Some(pages))) == Ink(Concat(pages))
  {
    CollapseSpaceCollapsed(Concat(pages));
    CollapseSpaceKeepsInk(Concat(pages));
  }

  method ExtractText(pages: Option<seq<string>>) returns (text: string)
    ensures text == PdfText(pages)
  {
    if pages.None? {
      return "";
    }
    var doc := pages.value;
    text := "";
    for i := 0 to |doc|
      invariant text == Concat(doc[..i])
    {
      ConcatSnoc(doc[..i], doc[i]);
      assert doc[..i + 1] == doc[..i] + [doc[i]];
      text := text + doc[i];
    }
    assert doc[..|doc|] == doc;
    text := CollapseSpace(text);
  }

  // ---------------------------------------------------------------- cascade

  /** `Extractor.process`: downloads the PDF when it is not on disk, records
      the local path on the paper whenever the file is there, and returns
      the first non-empty of the PDF text and the HTML text with the flag
      set, or else the abstract with the flag clear. `pages` is what the
      PDF reader yields for the file, `html` the answer to the page request. */
  method Process(disk: Disk, papersDir: string, paper: Paper, download: Response,
                 pages: Option<seq<string>>, html: Response)
    returns (text: string, isFullText: bool, updated: Paper, requested: Option<string>)
    requires ValidDate(paper.published.date)
    modifies disk
    ensures var path := PdfPath(papersDir, paper);
      && (path in old(disk.files) ==> requested.None? && disk.files == old(disk.files))
      && (path !in old(disk.files) ==>
            requested == Some(DownloadUrl(paper.link))
            && disk.files == if DownloadAccepted(download) then old(disk.files) + {path} else old(disk.files))
      && updated == (if path in disk.files then paper.(pdfLink := Some(path)) else paper)
    ensures var pdf := if PdfPath(papersDir, paper) in disk.files then PdfText(pages) else "";
      && (isFullText <==> pdf != "" || HtmlText(html) != "")
      && (pdf != "" ==> text == pdf)
      && (pdf == "" && HtmlText(html) != "" ==> text == HtmlText(html))
      && (!isFullText ==> text == paper.abstractText)
    ensures isFullText ==> text != "" && Collapsed(text)
  {
    var path := PdfPath(papersDir, paper);
    requested := None;
    if path !in disk.files {
      var url, ok := DownloadPdf(disk, paper.link, path, download);
      requested := Some(url);
    }
    text := "";
    isFullText := false;
    updated := paper;
    if path in disk.files {
      updated := paper.(pdfLink := Some(path));
      text := ExtractText(pages);
      if text != "" {
        isFullText := true;
        PdfTextShape(pages.value);
      }
    }
    if text == "" {
      text := HtmlText(html);
      if text != "" {
        isFullText := true;
      }
    }
    if text == "" {
      return paper.abstractText, false, updated, requested;
    }
  }
}
