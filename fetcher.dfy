/**
  RSS fetching (`src/fetcher.py`): each configured feed, already parsed, is
  turned into papers. Broken feeds are skipped; entries without a link,
  entries already seen and entries of excluded sources are dropped; authors
  come from the entry or, failing that, from the summary's HTML; the summary
  loses its title and author lines. At most five papers are returned.
  Parsing the feed XML is an input: a `Feed` is what `feedparser` returns.
*/
module Fetcher {
  import opened Wrappers
  import opened Strings
  import opened Models
  import opened Db

  /** The author keys of an entry, in the order the source looks for them. */
  datatype AuthorField =
    | AuthorList(names: seq<Option<string>>)   // `authors`: each with an optional `name`
    | AuthorString(text: string)               // `author`
    | AuthorDetail(name: Option<string>)       // `author_detail`
    | NoAuthor

  /** A parsed feed entry; an absent key is `None`. */
  datatype Entry = Entry(
    link: Option<string>,
    title: Option<string>,
    prismDoi: Option<string>,
    dcIdentifier: Option<string>,
    id: Option<string>,
    publishedParsed: Option<DateTime>,
    updatedParsed: Option<DateTime>,
    summary: Option<string>,
    description: Option<string>,
    author: AuthorField)

  /** A parsed feed: the `bozo` error flag, the channel title and the entries. */
  datatype Feed = Feed(bozo: bool, title: Option<string>, entries: seq<Entry>)

  /** The number of papers `fetch_all` hands back. */
  const FetchLimit: nat := 5

  const LineBreak: string := "<br />"

  // --------------------------------------------------------------------- DOI

  /** `_extract_doi`: the `prism_doi` key; else a `dc_identifier` mentioning
      "doi", without its `doi:` prefixes; else the `id` after its last
      `doi.org/`, or without `doi:` when it starts with it. */
  function ExtractDoi(e: Entry): Option<string> {
    if e.prismDoi.Some? then e.prismDoi
    else if e.dcIdentifier.Some? && Contains(e.dcIdentifier.value, "doi") then
      Some(Replace(e.dcIdentifier.value, "doi:", ""))
    else
      var id := e.id.GetOr("");
      if Contains(id, "doi.org/") then Some(Last(Split(id, "doi.org/")))
      else if StartsWith(id, "doi:") then Some(Replace(id, "doi:", ""))
      else None
  }

  /** The DOI found in a resolver URL is a tail of the `id` with no
      `doi.org/` left in it. */
  lemma {:induction false} ResolverDoiIsTail(e: Entry)
    requires e.prismDoi.None?
    requires e.dcIdentifier.None? || !Contains(e.dcIdentifier.value, "doi")
    requires Contains(e.id.GetOr(""), "doi.org/")
    ensures var id, d := e.id.GetOr(""), ExtractDoi(e);
      d.Some? && |d.value| < |id| && id[|id| - |d.value|..] == d.value && !Contains(d.value, "doi.org/")
  {
    var id := e.id.GetOr("");
    LastPieceSpec(id, "doi.org/");
  }

  /** A resolver URL whose only `doi.org/` is the resolver's own gives the
      bare DOI. */
  lemma {:induction false} ResolverDoi(e: Entry, host: string, bare: string)
    requires e.prismDoi.None? && e.dcIdentifier.None?
    requires e.id == Some(host + "doi.org/" + bare)
    requires IndexOf(host + "doi.org/" + bare, "doi.org/") == Some(|host|)
    requires !Contains(bare, "doi.org/")
    ensures ExtractDoi(e) == Some(bare)
  {
    LastPieceAfterOnly(host, "doi.org/", bare);
  }

  /** `doi:` followed by text without another `doi:` loses just the prefix. */
  lemma {:induction false} DoiSchemeStripped(bare: string)
    requires !Contains(bare, "doi:")
    ensures Replace("doi:" + bare, "doi:", "") == bare
  {
    var s := "doi:" + bare;
    assert s[..4] == "doi:" && s[4..] == bare;
    ReplacePrefix(s, "doi:", "");
    ReplaceAbsent(bare, "doi:", "");
  }

  /** A Dublin Core identifier `doi:<bare>` gives the bare DOI, unless a
      `prism_doi` takes precedence. */
  lemma {:induction false} DublinCoreDoi(e: Entry, bare: string)
    requires e.dcIdentifier == Some("doi:" + bare) && !Contains(bare, "doi:")
    ensures ExtractDoi(e) == if e.prismDoi.Some? then e.prismDoi else Some(bare)
  {
    var s := "doi:" + bare;
    assert OccursAt(s, "doi", 0) by {
      assert s[..3] == "doi";
    }
    DoiSchemeStripped(bare);
  }

  /** An `id` of the form `doi:<bare>` gives the bare DOI when nothing
      earlier supplies one. */
  lemma {:induction false} DoiSchemeId(e: Entry, bare: string)
    requires e.prismDoi.None? && e.dcIdentifier.None?
    requires e.id == Some("doi:" + bare)
    requires !Contains(bare, "doi:") && !Contains(bare, "doi.org/")
    ensures ExtractDoi(e) == Some(bare)
  {
    var s := "doi:" + bare;
    var pat := "doi.org/";
    forall j: nat ensures !OccursAt(s, pat, j) {
      if j >= 4 && j + |pat| <= |s| {
        assert s[j..j + |pat|] == bare[j - 4..j - 4 + |pat|];
        assert !OccursAt(bare, pat, j - 4);
      } else if j + |pat| <= |s| {
        assert s[j..j + |pat|][0] == s[j] && s[j..j + |pat|][3] == s[j + 3];
      }
    }
    assert s[..4] == "doi:";
    DoiSchemeStripped(bare);
  }

  // ----------------------------------------------------------------- authors

  function StripAll(parts: seq<string>): (r: seq<string>)
    ensures |r| == |parts|
    ensures forall i :: 0 <= i < |r| ==> r[i] == Strip(parts[i])
  {
    seq(|parts|, i requires 0 <= i < |parts| => Strip(parts[i]))
  }

  /** The separator an author string is split on: a comma if there is one,
      else a semicolon if there is one. */
  function NameSeparator(s: string): Option<string> {
    if Contains(s, ",") then Some(",")
    else if Contains(s, ";") then Some(";")
    else None
  }

  /** An author string split into stripped names. */
  function SplitAuthors(s: string): seq<string> {
    match NameSeparator(s)
    case Some(sep) => StripAll(Split(s, sep))
    case None => [Strip(s)]
  }

  /** Splitting an author string gives one name per separated piece; no
      name holds the separator or has whitespace at either end, and with no
      separator the whole string is the one name. */
  lemma {:induction false} SplitAuthorsSpec(s: string)
    ensures var names := SplitAuthors(s);
      && |names| >= 1
      && (forall n :: n in names ==> n == [] || (!IsSpace(n[0]) && !IsSpace(n[|n| - 1])))
      && (forall n :: n in names ==> !Contains(n, ","))
      && (NameSeparator(s).Some? ==>
            && |names| == |Split(s, NameSeparator(s).value)|
            && forall n :: n in names ==> !Contains(n, NameSeparator(s).value))
      && (NameSeparator(s).None? ==> names == [Strip(s)] && !Contains(names[0], ";"))
  {
    var names := SplitAuthors(s);
    match NameSeparator(s)
    case Some(sep) =>
      var parts := Split(s, sep);
      SplitPiecesFree(s, sep);
      forall k | 0 <= k < |parts|
        ensures !Contains(names[k], sep)
        ensures names[k] == [] || (!IsSpace(names[k][0]) && !IsSpace(names[k][|names[k]| - 1]))
      {
        StripKeepsFree(parts[k], sep);
      }
      if sep == ";" {
        forall k | 0 <= k < |parts| ensures !Contains(names[k], ",") {
          PieceOfFreeIsFree(s, sep, ",", k);
          StripKeepsFree(parts[k], ",");
        }
      }
    case None =>
      StripKeepsFree(s, ",");
      StripKeepsFree(s, ";");
  }

  /** Every piece of a split is a slice of the string, so it lacks whatever
      the string lacks. */
  lemma {:induction false} PieceOfFreeIsFree(s: string, sep: string, pat: string, k: nat)
    requires |sep| > 0 && !Contains(s, pat) && k < |Split(s, sep)|
    ensures !Contains(Split(s, sep)[k], pat)
    decreases |s|
  {
    match IndexOf(s, sep)
    case None =>
      assert Split(s, sep) == [s];
    case Some(i) =>
      SplitFirst(s, sep, i);
      if k == 0 {
        if Contains(s[..i], pat) {
          ContainsSlice(s, 0, i, pat);
        }
      } else {
        var rest := s[i + |sep|..];
        assert s[i + |sep|..|s|] == rest;
        if Contains(rest, pat) {
          ContainsSlice(s, i + |sep|, |s|, pat);
        }
        PieceOfFreeIsFree(rest, sep, pat, k - 1);
      }
  }

  /** The Copernicus-style heuristic: the second `<br />` piece of the
      summary, stripped, is the author line when it is non-empty and shorter
      than 300 characters. */
  function AuthorsFromSummary(summary: string): (names: seq<string>) {
    var parts := Split(summary, LineBreak);
    if |parts| < 2 then []
    else
      var line := Strip(parts[1]);
      if 0 < |line| < 300 then
        if Contains(line, ",") || Contains(line, ";") then SplitAuthors(line) else [line]
      else []
  }

  /** Authors are only read from a summary holding a line break, and a
      single name read from it is the whole stripped second line, shorter
      than 300 characters. */
  lemma {:induction false} AuthorsFromSummarySpec(summary: string)
    ensures var names := AuthorsFromSummary(summary);
      && (names != [] ==> Contains(summary, LineBreak))
      && (names != [] && NameSeparator(Strip(Split(summary, LineBreak)[1])).None? ==>
            names == [Strip(Split(summary, LineBreak)[1])] && 0 < |names[0]| < 300)
      && forall n :: n in names ==> !Contains(n, ",")
  {
    var parts := Split(summary, LineBreak);
    if !Contains(summary, LineBreak) {
      SplitAbsent(summary, LineBreak);
    }
    if |parts| >= 2 {
      var line := Strip(parts[1]);
      SplitAuthorsSpec(line);
      if !(Contains(line, ",") || Contains(line, ";")) {
        assert !Contains(line, ",");
      }
    }
  }

  /** The authors of an entry: from `authors`, `author` or `author_detail`,
      else from the summary. */
  function EntryAuthors(e: Entry, summaryText: string): seq<string> {
    var named :=
      match e.author
      case AuthorList(names) => seq(|names|, i requires 0 <= i < |names| => names[i].GetOr(""))
      case AuthorString(text) => SplitAuthors(text)
      case AuthorDetail(name) => [name.GetOr("")]
      case NoAuthor => [];
    if named == [] && summaryText != "" then AuthorsFromSummary(summaryText) else named
  }

  /** Authors named by the entry win; the summary is consulted only when the
      entry names nobody. */
  lemma {:induction false} EntryAuthorsPrecedence(e: Entry, summaryText: string)
    ensures e.author.AuthorString? ==> EntryAuthors(e, summaryText) == SplitAuthors(e.author.text)
    ensures e.author.AuthorDetail? ==> |EntryAuthors(e, summaryText)| == 1
    ensures e.author.NoAuthor? ==> EntryAuthors(e, summaryText) == (if summaryText == "" then [] else AuthorsFromSummary(summaryText))
  {
    if e.author.AuthorString? {
      SplitAuthorsSpec(e.author.text);
    }
  }

  // ---------------------------------------------------------------- abstract

  /** The abstract with the title and author lines removed: after the second
      `<br />` when there are two or more, after the first when there is
      one. */
  function CleanAbstract(summary: string): string {
    if Contains(summary, LineBreak) then
      var parts := Split(summary, LineBreak);
      if |parts| >= 3 then Strip(Join(parts[2..], LineBreak))
      else if |parts| == 2 then Strip(parts[1])
      else summary
    else summary
  }

  /** The cleaned abstract is exactly what follows the second line break
      (the first, when there is only one), stripped; what is dropped is a
      title line and an author line that hold no line break themselves. */
  lemma {:induction false} CleanAbstractSpec(summary: string)
    ensures !Contains(summary, LineBreak) ==> CleanAbstract(summary) == summary
    ensures Contains(summary, LineBreak) ==>
      var parts := Split(summary, LineBreak);
      && !Contains(parts[0], LineBreak)
      && (|parts| == 2 ==>
            summary == parts[0] + LineBreak + parts[1] && CleanAbstract(summary) == Strip(parts[1]))
      && (|parts| >= 3 ==>
            && !Contains(parts[1], LineBreak)
            && summary == parts[0] + LineBreak + parts[1] + LineBreak + Join(parts[2..], LineBreak)
            && CleanAbstract(summary) == Strip(Join(parts[2..], LineBreak)))
  {
    if Contains(summary, LineBreak) {
      var parts := Split(summary, LineBreak);
      SplitPiecesFree(summary, LineBreak);
      assert summary == Join(parts, LineBreak) by {
        JoinSplit(summary, LineBreak);
      }
      assert |parts| >= 2 by {
        SplitFirst(summary, LineBreak, IndexOf(summary, LineBreak).value);
      }
      if |parts| == 2 {
        assert Join(parts, LineBreak) == parts[0] + LineBreak + parts[1] by {
          JoinCons(parts[0], parts[1..], LineBreak);
          assert parts == [parts[0]] + parts[1..] && parts[1..] == [parts[1]];
        }
      } else {
        JoinTwoHeads(parts, LineBreak);
      }
    }
  }

  lemma {:induction false} JoinTwoHeads(parts: seq<string>, sep: string)
    requires |parts| >= 3
    ensures Join(parts, sep) == parts[0] + sep + parts[1] + sep + Join(parts[2..], sep)
  {
    var tail := parts[1..];
    assert Join(parts, sep) == parts[0] + sep + Join(tail, sep);
    assert tail[1..] == parts[2..];
    assert Join(tail, sep) == parts[1] + sep + Join(parts[2..], sep);
  }

  // ------------------------------------------------------------------ papers

  /** The journal an entry is filed under. */
  function FeedSource(f: Feed): string {
    f.title.GetOr("Unknown Journal")
  }

  const ExcludedSources: seq<string> := ["Zenodo", "Figshare", "Unknown Source", "Unknown Journal"]

  /** A source naming one of the excluded repositories anywhere in its title. */
  predicate Excluded(source: string) {
    exists k :: 0 <= k < |ExcludedSources| && Contains(source, ExcludedSources[k])
  }

  function EntryLink(e: Entry): string {
    e.link.GetOr("")
  }

  /** An entry that becomes a paper: it has a link, it is new unless seen
      papers are wanted too, and its source is not excluded. */
  predicate Admitted(e: Entry, source: string, rows: seq<SeenRow>, ignoreSeen: bool) {
    && EntryLink(e) != ""
    && (ignoreSeen || !SeenIn(rows, EntryLink(e), ExtractDoi(e)))
    && !Excluded(source)
  }

  /** The summary text: `summary` when non-empty, else `description`. */
  function SummaryText(e: Entry): string {
    if e.summary.GetOr("") != "" then e.summary.value else e.description.GetOr("")
  }

  /** The publication time: published, else updated, else the current time. */
  function EntryPublished(e: Entry, now: DateTime): DateTime {
    if e.publishedParsed.Some? then e.publishedParsed.value
    else if e.updatedParsed.Some? then e.updatedParsed.value
    else now
  }

  function EntryPaper(e: Entry, source: string, now: DateTime): Paper {
    var summaryText := SummaryText(e);
    NewPaper(e.title.GetOr("No Title"), EntryLink(e), EntryPublished(e, now), source, None,
             CleanAbstract(summaryText), EntryAuthors(e, summaryText), [], ExtractDoi(e), Some("article"))
  }

  /** The papers of one feed's entries, in entry order. */
  function FeedPapers(entries: seq<Entry>, source: string, rows: seq<SeenRow>, ignoreSeen: bool, now: DateTime): (r: seq<Paper>)
    ensures |r| <= |entries|
  {
    if entries == [] then []
    else
      var init, e := entries[..|entries| - 1], entries[|entries| - 1];
      FeedPapers(init, source, rows, ignoreSeen, now)
        + (if Admitted(e, source, rows, ignoreSeen) then [EntryPaper(e, source, now)] else [])
  }

  /** The papers of every readable feed, feed after feed. */
  function AllPapers(feeds: seq<Feed>, rows: seq<SeenRow>, ignoreSeen: bool, now: DateTime): seq<Paper> {
    if feeds == [] then []
    else
      var init, f := feeds[..|feeds| - 1], feeds[|feeds| - 1];
      AllPapers(init, rows, ignoreSeen, now)
        + (if f.bozo then [] else FeedPapers(f.entries, FeedSource(f), rows, ignoreSeen, now))
  }

  /** The entries of one feed, kept in order (the inner loop of `fetch_all`). */
  method FetchFeed(db: Database, feed: Feed, ignoreSeen: bool, now: DateTime) returns (papers: seq<Paper>)
    requires !feed.bozo
    ensures papers == FeedPapers(feed.entries, FeedSource(feed), db.seen, ignoreSeen, now)
  {
    var entries := feed.entries;
    var source := FeedSource(feed);
    papers := [];
    for i := 0 to |entries|
      invariant papers == FeedPapers(entries[..i], source, db.seen, ignoreSeen, now)
    {
      var e := entries[i];
      assert entries[..i + 1][..i] == entries[..i];
      var link := e.link.GetOr("");
      if link == "" {
        continue;
      }
      var doi := ExtractDoi(e);
      if !ignoreSeen && db.IsSeen(link, doi) {
        continue;
      }
      if Excluded(source) {
        continue;
      }
      papers := papers + [EntryPaper(e, source, now)];
    }
    assert entries[..|entries|] == entries;
  }

  /** `fetch_all`: the first five papers of all feeds, skipping broken ones. */
  method FetchAll(db: Database, feeds: seq<Feed>, ignoreSeen: bool, now: DateTime) returns (papers: seq<Paper>)
    ensures var all := AllPapers(feeds, db.seen, ignoreSeen, now);
      |papers| == (if |all| < FetchLimit then |all| else FetchLimit) && papers == all[..|papers|]
  {
    var found: seq<Paper> := [];
    for i := 0 to |feeds|
      invariant found == AllPapers(feeds[..i], db.seen, ignoreSeen, now)
    {
      assert feeds[..i + 1][..i] == feeds[..i];
      if feeds[i].bozo {
        continue;
      }
      var more := FetchFeed(db, feeds[i], ignoreSeen, now);
      found := found + more;
    }
    assert feeds[..|feeds|] == feeds;
    papers := if |found| < FetchLimit then found else found[..FetchLimit];
  }

  // ---------------------------------------------------------------- lemmas

  /** What every fetched paper satisfies: it has a link, its source is not
      excluded, it is an article with no source id or author ids, and unless
      seen papers were asked for, neither its link nor its DOI has been seen. */
  ghost predicate Fetchable(p: Paper, rows: seq<SeenRow>, ignoreSeen: bool) {
    && p.link != ""
    && !Excluded(p.source)
    && p.kind == Some("article") && p.sourceId.None? && p.authorIds == []
    && (ignoreSeen || !SeenIn(rows, p.link, p.doi))
  }

  lemma {:induction false} FeedPapersFetchable(entries: seq<Entry>, source: string, rows: seq<SeenRow>, ignoreSeen: bool, now: DateTime)
    ensures forall p :: p in FeedPapers(entries, source, rows, ignoreSeen, now) ==> Fetchable(p, rows, ignoreSeen)
  {
    if entries != [] {
      FeedPapersFetchable(entries[..|entries| - 1], source, rows, ignoreSeen, now);
    }
  }

  lemma {:induction false} AllPapersFetchable(feeds: seq<Feed>, rows: seq<SeenRow>, ignoreSeen: bool, now: DateTime)
    ensures forall p :: p in AllPapers(feeds, rows, ignoreSeen, now) ==> Fetchable(p, rows, ignoreSeen)
  {
    if feeds != [] {
      var f := feeds[|feeds| - 1];
      AllPapersFetchable(feeds[..|feeds| - 1], rows, ignoreSeen, now);
      FeedPapersFetchable(f.entries, FeedSource(f), rows, ignoreSeen, now);
    }
  }

  /** Every paper `fetch_all` returns is fetchable. */
  lemma {:induction false} FetchedPapersFetchable(papers: seq<Paper>, feeds: seq<Feed>, rows: seq<SeenRow>, ignoreSeen: bool, now: DateTime)
    requires |papers| <= |AllPapers(feeds, rows, ignoreSeen, now)|
    requires papers == AllPapers(feeds, rows, ignoreSeen, now)[..|papers|]
    ensures forall p :: p in papers ==> Fetchable(p, rows, ignoreSeen)
  {
    AllPapersFetchable(feeds, rows, ignoreSeen, now);
    var all := AllPapers(feeds, rows, ignoreSeen, now);
    forall p | p in papers ensures p in all {
      var k :| 0 <= k < |papers| && papers[k] == p;
      assert all[k] == p;
    }
  }

  /** A feed from an excluded source contributes nothing. */
  lemma {:induction false} ExcludedFeedEmpty(entries: seq<Entry>, source: string, rows: seq<SeenRow>, ignoreSeen: bool, now: DateTime)
    requires Excluded(source)
    ensures FeedPapers(entries, source, rows, ignoreSeen, now) == []
  {
    if entries != [] {
      ExcludedFeedEmpty(entries[..|entries| - 1], source, rows, ignoreSeen, now);
    }
  }

  /** A feed without a title is filed under "Unknown Journal", which is
      excluded, so an untitled feed never yields a paper. */
  lemma {:induction false} UntitledFeedEmpty(f: Feed, rows: seq<SeenRow>, ignoreSeen: bool, now: DateTime)
    requires f.title.None?
    ensures FeedPapers(f.entries, FeedSource(f), rows, ignoreSeen, now) == []
  {
    var s := FeedSource(f);
    assert OccursAt(s, ExcludedSources[3], 0);
    ExcludedFeedEmpty(f.entries, s, rows, ignoreSeen, now);
  }

  /** Broken feeds contribute nothing: the papers of a list of feeds are those
      of its readable feeds. */
  lemma {:induction false} BrokenFeedsIgnored(feeds: seq<Feed>, rows: seq<SeenRow>, ignoreSeen: bool, now: DateTime)
    ensures AllPapers(feeds, rows, ignoreSeen, now)
         == AllPapers(ReadableFeeds(feeds), rows, ignoreSeen, now)
  {
    if feeds != [] {
      var init, f := feeds[..|feeds| - 1], feeds[|feeds| - 1];
      BrokenFeedsIgnored(init, rows, ignoreSeen, now);
      if f.bozo {
        assert ReadableFeeds(feeds) == ReadableFeeds(init);
      } else {
        var r := ReadableFeeds(init) + [f];
        assert ReadableFeeds(feeds) == r;
        assert r[..|r| - 1] == ReadableFeeds(init) && r[|r| - 1] == f;
      }
    }
  }

  function ReadableFeeds(feeds: seq<Feed>): (r: seq<Feed>)
    ensures forall f :: f in r ==> !f.bozo
  {
    if feeds == [] then []
    else
      var init, f := feeds[..|feeds| - 1], feeds[|feeds| - 1];
      ReadableFeeds(init) + (if f.bozo then [] else [f])
  }

  /** With seen papers included, every entry with a link of a titled,
      non-excluded feed becomes a paper. */
  lemma {:induction false} IgnoreSeenKeepsLinked(entries: seq<Entry>, source: string, rows: seq<SeenRow>, now: DateTime)
    requires !Excluded(source)
    ensures |FeedPapers(entries, source, rows, true, now)| == |LinkedEntries(entries)|
  {
    if entries != [] {
      IgnoreSeenKeepsLinked(entries[..|entries| - 1], source, rows, now);
    }
  }

  function LinkedEntries(entries: seq<Entry>): (r: seq<Entry>)
    ensures forall e :: e in r ==> EntryLink(e) != ""
  {
    if entries == [] then []
    else
      var init, e := entries[..|entries| - 1], entries[|entries| - 1];
      LinkedEntries(init) + (if EntryLink(e) != "" then [e] else [])
  }
}
