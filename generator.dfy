/**
  Site generation (`src/generator.py`): reading each summary file's
  metadata (title, date and author from the file name, preview, original
  link), ordering the summaries newest first, picking the index and feed
  entries, and grouping the archive by year and month. The directory
  listing is an input; markdown rendering, templates and the written pages
  are not modelled.
*/
module Generator {
  import opened Wrappers
  import opened Strings
  import opened Sorting
  import opened Models

  /** A summary file in a year directory, with its modification time. */
  datatype SummaryFile = SummaryFile(name: string, content: string, mtime: DateTime)

  /** An entry of the summaries directory. */
  datatype YearDir = YearDir(name: string, isDir: bool, files: seq<SummaryFile>)

  /** The metadata `_collect_papers` gathers for one summary. */
  datatype SiteEntry = SiteEntry(
    title: string,
    author: string,
    date: DateTime,
    dateText: string,
    preview: string,
    markdown: string,
    relPath: string,
    originalLink: string,
    year: string,
    month: string,
    filename: string)

  const IndexSize: nat := 10
  const FeedSize: nat := 20

  const WarningStart: string := "<!-- warning_start -->"
  const WarningEnd: string := "<!-- warning_end -->"
  const ShortSummaryHeading: string := "## Short Summary"
  const LinkMarker: string := "<!-- metadata:original_link:"
  const CommentEnd: string := " -->"

  // ------------------------------------------------------------------ title

  /** The first line without its `# `, trimmed, when it is a heading;
      `Untitled` otherwise. */
  function ParseTitle(raw: string): string {
    var first := Split(raw, "\n")[0];
    if StartsWith(first, "# ") then Strip(first[2..]) else "Untitled"
  }

  /** A title read from a file is `Untitled` or a single trimmed line. */
  lemma {:induction false} ParseTitleSpec(raw: string)
    ensures var t := ParseTitle(raw);
      t == "Untitled" || (!Contains(t, "\n") && (t == [] || (!IsSpace(t[0]) && !IsSpace(t[|t| - 1]))))
  {
    var first := Split(raw, "\n")[0];
    SplitPiecesFree(raw, "\n");
    if StartsWith(first, "# ") {
      assert first[2..|first|] == first[2..];
      if Contains(first[2..], "\n") {
        ContainsSlice(first, 2, |first|, "\n");
      }
      StripKeepsFree(first[2..], "\n");
    }
  }

  /** A file that starts with `# <heading>` on its own line gets the trimmed
      heading as its title. */
  lemma {:induction false} HeadingTitle(heading: string, body: string)
    requires !Contains(heading, "\n")
    ensures ParseTitle("# " + heading + "\n" + body) == Strip(heading)
  {
    var first := "# " + heading;
    CharFree(heading, '\n');
    CharFree(first, '\n');
    assert forall j :: 2 <= j < |first| ==> first[j] == heading[j - 2];
    SplitAfterFree(first, "\n", body);
    assert first[2..] == heading;
  }

  // ---------------------------------------------------------- file names

  predicate AllDigits(s: string) {
    forall i :: 0 <= i < |s| ==> IsDigit(s[i])
  }

  /** `strptime(name[:8], "%Y%m%d")` when the name is longer than eight
      characters and starts with eight digits; `None` where it fails. */
  function FilenameDate(name: string): (r: Option<Date>)
    ensures r.Some? ==> ValidDate(r.value)
  {
    if |name| > 8 && AllDigits(name[..8]) then
      var d := Date(DigitsValue(name[..4]), DigitsValue(name[4..6]), DigitsValue(name[6..8]));
      if ValidDate(d) then Some(d) else None
    else None
  }

  /** Python's `s[start:len(s) - 3]` for a non-negative `start`. */
  function SliceToSuffix(s: string, start: nat): (r: string)
    ensures |r| <= |s|
  {
    var hi := if |s| >= 3 then |s| - 3 else 0;
    if start < hi then s[start..hi] else ""
  }

  /** `Path.stem` of a name ending in `.md`: the name less `.md`, except
      that `.md` alone has no suffix and is its own stem. */
  function Stem(name: string): string
    requires EndsWith(name, ".md")
  {
    if |name| > 3 then name[..|name| - 3] else name
  }

  /** The date and author a file name yields: the date in the name and the
      text after its ninth character, or the modification time and the stem. */
  function NameMetadata(name: string, mtime: DateTime): (DateTime, string)
    requires EndsWith(name, ".md")
  {
    match FilenameDate(name)
    case Some(d) => (DateTime(d, 0, 0), SliceToSuffix(name, 9))
    case None => (mtime, Stem(name))
  }

  /** Reading back a dated identity filename gives the publication date and
      the cleaned first author: the generator inverts `to_filename`. */
  lemma {:induction false} DatedFilenameRoundTrip(p: Paper, mtime: DateTime)
    requires ValidDate(p.published.date) && !Truthy(p.doi)
    ensures var name := ToFilename(p);
      EndsWith(name, ".md")
      && FilenameDate(name) == Some(p.published.date)
      && NameMetadata(name, mtime) == (DateTime(p.published.date, 0, 0), CleanFirstAuthor(p.authors))
  {
    var name := ToFilename(p);
    var d := p.published.date;
    DatedFilename(p);
    FilenameEndsMd(p);
    FormatYmdFields(d);
    var ymd := FormatYmd(d);
    assert name[..8] == ymd;
    assert name[..4] == ymd[..4] && name[4..6] == ymd[4..6] && name[6..8] == ymd[6..8];
  }

  /** A name whose first eight characters are not a valid date falls back on
      the modification time and the stem. */
  lemma {:induction false} UndatedName(name: string, mtime: DateTime)
    requires EndsWith(name, ".md") && FilenameDate(name).None?
    ensures NameMetadata(name, mtime).0 == mtime
    ensures |name| > 3 ==> NameMetadata(name, mtime).1 == name[..|name| - 3]
    ensures name == ".md" ==> NameMetadata(name, mtime).1 == ".md"
  {
  }

  /** A hidden summary such as `.draft.md` is listed like any other, and its
      record is filed under its stem `.draft`. */
  lemma {:induction false} HiddenSummaryCollected(year: string, f: SummaryFile, hidden: string)
    requires f.name == "." + hidden + ".md" && ValidDate(f.mtime.date)
    ensures YearEntries(year, [f]) == [MakeEntry(year, f)]
    ensures YearEntries(year, [f])[0].filename == "." + hidden
  {
    assert EndsWith(f.name, ".md") by {
      assert f.name[|f.name| - 3..] == ".md";
    }
    assert [f][..0] == [];
    assert f.name[..|f.name| - 3] == "." + hidden;
  }

  /** A DOI filename (`10.1234_x.md`) is undated: its fourth character is a
      dot, so its first eight characters are not all digits. */
  lemma {:induction false} DoiNameUndated(p: Paper)
    requires ValidDate(p.published.date) && Truthy(p.doi)
    requires |p.doi.value| > 8 && p.doi.value[..3] == "10."
    ensures FilenameDate(ToFilename(p)).None?
  {
    var name := ToFilename(p);
    DoiFilename(p);
    assert name[2] == SanitizeChar(p.doi.value[2]) == '.';
  }

  // --------------------------------------------------------------- preview

  /** The preview source: the text before the first warning marker followed
      by the text between the next warning end and the one after it. */
  function StripWarning(raw: string): string {
    if Contains(raw, WarningStart) then
      var parts := Split(raw, WarningStart);
      SplitFirst(raw, WarningStart, IndexOf(raw, WarningStart).value);
      var after := Split(parts[1], WarningEnd);
      if |after| > 1 then parts[0] + after[1] else raw
    else raw
  }

  lemma {:induction false} WarningMarkersLeadUnique()
    ensures LeadUnique(WarningStart) && LeadUnique(WarningEnd)
    ensures LeadUnique(LinkMarker) && LeadUnique(CommentEnd)
  {
  }

  /** A single warning block is cut out: the text before it and the text
      after it are kept. */
  lemma {:induction false} WarningBlockRemoved(before: string, warning: string, after: string)
    requires !Contains(before, WarningStart)
    requires !Contains(warning + WarningEnd + after, WarningStart)
    requires !Contains(warning, WarningEnd) && !Contains(after, WarningEnd)
    ensures StripWarning(before + WarningStart + warning + WarningEnd + after) == before + after
  {
    WarningMarkersLeadUnique();
    var tail := warning + WarningEnd + after;
    var raw := before + WarningStart + tail;
    assert raw == before + WarningStart + warning + WarningEnd + after;
    SplitAfterFree(before, WarningStart, tail);
    SplitAbsent(tail, WarningStart);
    assert Contains(raw, WarningStart) by {
      FirstAfterFree(before, WarningStart, tail);
    }
    SplitAfterFree(warning, WarningEnd, after);
    SplitAbsent(after, WarningEnd);
  }

  /** Text without warnings is its own preview source. */
  lemma {:induction false} NoWarningKept(raw: string)
    requires !Contains(raw, WarningStart)
    ensures StripWarning(raw) == raw
  {
  }

  /** The trimmed text between the first `## Short Summary` and the next
      `##`, or `""` without that heading. */
  function ShortSummary(clean: string): string {
    if Contains(clean, ShortSummaryHeading) then
      SplitFirst(clean, ShortSummaryHeading, IndexOf(clean, ShortSummaryHeading).value);
      Strip(Split(Split(clean, ShortSummaryHeading)[1], "##")[0])
    else ""
  }

  /** Python's `xs[lo:hi]` for `0 <= lo <= hi`. */
  function SliceSeq<T>(xs: seq<T>, lo: nat, hi: nat): (r: seq<T>)
    requires lo <= hi
    ensures |r| <= hi - lo
  {
    var h := if hi <= |xs| then hi else |xs|;
    var l := if lo <= h then lo else h;
    xs[l..h]
  }

  /** The preview: the short summary, or the third to fifth lines joined by
      spaces followed by `...`. */
  function Preview(raw: string): string {
    var summary := ShortSummary(StripWarning(raw));
    if summary != "" then summary
    else Join(SliceSeq(Split(raw, "\n"), 2, 5), " ") + "..."
  }

  /** A preview is never empty; a short summary is used when it has text,
      and it holds no `##` and no surrounding whitespace. */
  lemma {:induction false} PreviewSpec(raw: string)
    ensures Preview(raw) != ""
    ensures var s := ShortSummary(StripWarning(raw));
      (s != "" ==> Preview(raw) == s && !Contains(s, "##") && !IsSpace(s[0]) && !IsSpace(s[|s| - 1]))
      && (s == "" ==> EndsWith(Preview(raw), "..."))
  {
    var clean := StripWarning(raw);
    var s := ShortSummary(clean);
    if Contains(clean, ShortSummaryHeading) {
      SplitFirst(clean, ShortSummaryHeading, IndexOf(clean, ShortSummaryHeading).value);
      var section := Split(clean, ShortSummaryHeading)[1];
      SplitPiecesFree(section, "##");
      StripKeepsFree(Split(section, "##")[0], "##");
    }
  }

  /** A short-summary heading at the start of a line, followed by a section
      that the next heading ends, gives that section, trimmed. */
  lemma {:induction false} ShortSummarySection(before: string, section: string, rest: string)
    requires before == [] || before[|before| - 1] == '\n'
    requires !Contains(before, ShortSummaryHeading)
    requires !Contains(section + "##" + rest, ShortSummaryHeading)
    requires !Contains(section, "##") && (section == [] || section[|section| - 1] != '#')
    ensures ShortSummary(before + ShortSummaryHeading + section + "##" + rest) == Strip(section)
  {
    var tail := section + "##" + rest;
    var clean := before + ShortSummaryHeading + tail;
    assert before + ShortSummaryHeading + section + "##" + rest == clean;
    assert NoPartialEnd(before, ShortSummaryHeading) by {
      forall k | 0 < k < |ShortSummaryHeading| && k <= |before|
        ensures before[|before| - k..] != ShortSummaryHeading[..k]
      {
        assert before[|before| - k..][k - 1] == '\n' != ShortSummaryHeading[k - 1];
      }
    }
    SplitAfterFree(before, ShortSummaryHeading, tail);
    FirstAfterFree(before, ShortSummaryHeading, tail);
    SplitAbsent(tail, ShortSummaryHeading);
    assert NoPartialEnd(section, "##") by {
      forall k | 0 < k < 2 && k <= |section| ensures section[|section| - k..] != "##"[..k] {
        assert section[|section| - k..][0] == section[|section| - 1];
      }
    }
    SplitAfterFree(section, "##", rest);
  }

  // ------------------------------------------------------------------ link

  /** The trimmed text after the original-link marker up to ` -->`, or `#`. */
  function OriginalLink(raw: string): string {
    if Contains(raw, LinkMarker) then
      SplitFirst(raw, LinkMarker, IndexOf(raw, LinkMarker).value);
      Strip(Split(Split(raw, LinkMarker)[1], CommentEnd)[0])
    else "#"
  }

  /** The link written in the one metadata comment is read back, trimmed. */
  lemma {:induction false} OriginalLinkSpec(before: string, url: string, after: string)
    requires !Contains(before, LinkMarker) && !Contains(url, CommentEnd)
    requires !Contains(url + CommentEnd + after, LinkMarker)
    ensures OriginalLink(before + LinkMarker + url + CommentEnd + after) == Strip(url)
  {
    WarningMarkersLeadUnique();
    var tail := url + CommentEnd + after;
    var raw := before + LinkMarker + tail;
    assert raw == before + LinkMarker + url + CommentEnd + after;
    FirstAfterFree(before, LinkMarker, tail);
    SplitAfterFree(before, LinkMarker, tail);
    SplitAbsent(tail, LinkMarker);
    SplitAfterFree(url, CommentEnd, after);
  }

  // ------------------------------------------------------------ collecting

  /** `strftime("%B")`: the English month name. */
  function MonthName(m: int): string {
    match m
    case 1 => "January" case 2 => "February" case 3 => "March" case 4 => "April"
    case 5 => "May" case 6 => "June" case 7 => "July" case 8 => "August"
    case 9 => "September" case 10 => "October" case 11 => "November" case 12 => "December"
    case _ => ""
  }

  /** `strftime("%Y-%m-%d")`. */
  function DateText(d: Date): (r: string)
    requires ValidDate(d)
    ensures |r| == 10 && r[4] == '-' && r[7] == '-'
  {
    Pad(d.year, 4) + "-" + Pad(d.month, 2) + "-" + Pad(d.day, 2)
  }

  /** The files `glob("*.md")` lists: every name ending in `.md`, hidden
      names included (`pathlib` matches a leading `.` with `*`). */
  predicate Listed(f: SummaryFile) {
    EndsWith(f.name, ".md")
  }

  /** Modification times are real dates, as every `datetime` is. */
  predicate ValidListing(dirs: seq<YearDir>) {
    forall i, j :: 0 <= i < |dirs| && 0 <= j < |dirs[i].files| ==> ValidDate(dirs[i].files[j].mtime.date)
  }

  /** The record of one summary file in year directory `year`. */
  function MakeEntry(year: string, f: SummaryFile): (e: SiteEntry)
    requires Listed(f) && ValidDate(f.mtime.date)
    ensures e.year == year && e.filename == Stem(f.name)
    ensures ValidDate(e.date.date) && e.month == MonthName(e.date.date.month)
  {
    var (date, author) := NameMetadata(f.name, f.mtime);
    var stem := Stem(f.name);
    SiteEntry(
      ParseTitle(f.content), author, date, DateText(date.date), Preview(f.content),
      Replace(Replace(f.content, WarningStart, ""), WarningEnd, ""),
      "summaries/" + year + "/" + stem + ".html", OriginalLink(f.content),
      year, MonthName(date.date.month), stem)
  }

  /** The records of the listed files of one year directory, in listing order. */
  function YearEntries(year: string, files: seq<SummaryFile>): (r: seq<SiteEntry>)
    requires forall j :: 0 <= j < |files| ==> ValidDate(files[j].mtime.date)
    ensures |r| <= |files|
    ensures forall k :: 0 <= k < |r| ==> r[k].year == year
  {
    if files == [] then []
    else
      var init, f := files[..|files| - 1], files[|files| - 1];
      YearEntries(year, init) + (if Listed(f) then [MakeEntry(year, f)] else [])
  }

  /** The records of every summary, directory by directory. */
  function Collected(dirs: seq<YearDir>): seq<SiteEntry>
    requires ValidListing(dirs)
  {
    if dirs == [] then []
    else
      var init, d := dirs[..|dirs| - 1], dirs[|dirs| - 1];
      assert ValidListing(init) by {
        forall i, j | 0 <= i < |init| && 0 <= j < |init[i].files| ensures ValidDate(init[i].files[j].mtime.date) {
          assert init[i] == dirs[i];
        }
      }
      assert forall j :: 0 <= j < |d.files| ==> ValidDate(d.files[j].mtime.date) by {
        assert d == dirs[|dirs| - 1];
      }
      Collected(init) + (if d.isDir then YearEntries(d.name, d.files) else [])
  }

  /** The files of one year directory (the inner loop of `_collect_papers`). */
  method CollectYear(year: string, files: seq<SummaryFile>) returns (papers: seq<SiteEntry>)
    requires forall j :: 0 <= j < |files| ==> ValidDate(files[j].mtime.date)
    ensures papers == YearEntries(year, files)
  {
    papers := [];
    for i := 0 to |files|
      invariant papers == YearEntries(year, files[..i])
    {
      assert files[..i + 1][..i] == files[..i];
      var f := files[i];
      if !Listed(f) {
        continue;
      }
      papers := papers + [MakeEntry(year, f)];
    }
    assert files[..|files|] == files;
  }

  /** `_collect_papers`: every directory's summaries, skipping plain files. */
  method CollectPapers(dirs: seq<YearDir>) returns (papers: seq<SiteEntry>)
    requires ValidListing(dirs)
    ensures papers == Collected(dirs)
  {
    papers := [];
    for i := 0 to |dirs|
      invariant papers == Collected(dirs[..i])
    {
      assert dirs[..i + 1][..i] == dirs[..i];
      var d := dirs[i];
      if !d.isDir {
        continue;
      }
      assert forall j :: 0 <= j < |d.files| ==> ValidDate(d.files[j].mtime.date);
      var more := CollectYear(d.name, d.files);
      papers := papers + more;
    }
    assert dirs[..|dirs|] == dirs;
  }

  // ------------------------------------------------------------- ordering

  /** The order of `sort(key=date_obj, reverse=True)`: newer first. */
  predicate Newer(x: SiteEntry, y: SiteEntry) {
    DateTimeLe(y.date, x.date)
  }

  lemma {:induction false} NewerOrder()
    ensures Total(Newer) && Transitive(Newer)
  {
  }

  /** Python's `xs[:n]`. */
  function Take<T>(xs: seq<T>, n: nat): (r: seq<T>)
    ensures |r| == if |xs| < n then |xs| else n
    ensures r == xs[..|r|]
  {
    if |xs| <= n then xs else xs[..n]
  }

  /** The sorted summaries are newest first and a permutation of the
      collected ones; summaries of the same date keep their collection
      order. */
  lemma {:induction false} NewestFirst(papers: seq<SiteEntry>, date: DateTime)
    ensures var sorted := SortBy(papers, Newer);
      && SortedBy(sorted, Newer)
      && multiset(sorted) == multiset(papers)
      && Select(sorted, (x: SiteEntry) => x.date == date) == Select(papers, (x: SiteEntry) => x.date == date)
  {
    NewerOrder();
    SortBySorted(papers, Newer);
    SortByStable(papers, Newer, (x: SiteEntry) => x.date == date);
  }

  /** The index and feed hold the newest summaries: nothing left out is
      newer than anything shown, and the index is the start of the feed. */
  lemma {:induction false} IndexAndFeedNewest(sorted: seq<SiteEntry>)
    requires SortedBy(sorted, Newer)
    ensures var index, feed := Take(sorted, IndexSize), Take(sorted, FeedSize);
      && index == feed[..|index|]
      && (forall i, j :: 0 <= i < |index| <= j < |sorted| ==> Newer(index[i], sorted[j]))
      && (forall i, j :: 0 <= i < |feed| <= j < |sorted| ==> Newer(feed[i], sorted[j]))
  {
  }

  // -------------------------------------------------------------- archive

  type Archive = map<string, map<string, seq<SiteEntry>>>

  /** `_render_archive`'s grouping as a function of the papers. */
  function Grouped(papers: seq<SiteEntry>): Archive {
    if papers == [] then map[]
    else
      var a, p := Grouped(papers[..|papers| - 1]), papers[|papers| - 1];
      var months := if p.year in a then a[p.year] else map[];
      var list := if p.month in months then months[p.month] else [];
      a[p.year := months[p.month := list + [p]]]
  }

  /** The papers of one year and month, in order. */
  function MonthEntries(papers: seq<SiteEntry>, year: string, month: string): seq<SiteEntry> {
    if papers == [] then []
    else
      var init, p := papers[..|papers| - 1], papers[|papers| - 1];
      MonthEntries(init, year, month) + (if p.year == year && p.month == month then [p] else [])
  }

  /** `_render_archive`: each paper appended to its year's month list. */
  method GroupArchive(papers: seq<SiteEntry>) returns (archive: Archive)
    ensures archive == Grouped(papers)
  {
    archive := map[];
    for i := 0 to |papers|
      invariant archive == Grouped(papers[..i])
    {
      assert papers[..i + 1][..i] == papers[..i];
      var y, m := papers[i].year, papers[i].month;
      ghost var before := archive;
      ghost var months := if y in before then before[y] else map[];
      ghost var list := if m in months then months[m] else [];
      if y !in archive {
        archive := archive[y := map[]];
      }
      if m !in archive[y] {
        archive := archive[y := archive[y][m := []]];
      }
      assert archive[y][m] == list;
      assert archive[y][m := list + [papers[i]]] == months[m := list + [papers[i]]];
      archive := archive[y := archive[y][m := archive[y][m] + [papers[i]]]];
      assert archive == before[y := months[m := list + [papers[i]]]];
    }
    assert papers[..|papers|] == papers;
  }

  predicate InArchive(a: Archive, year: string, month: string) {
    year in a && month in a[year]
  }

  /** Each list of the archive is exactly the papers of its year and month,
      in their order, and a year-month has a list exactly when some paper
      falls in it: every paper lands in one list, its own. */
  lemma {:induction false} GroupedSpec(papers: seq<SiteEntry>, year: string, month: string)
    ensures InArchive(Grouped(papers), year, month) <==> MonthEntries(papers, year, month) != []
    ensures InArchive(Grouped(papers), year, month) ==> Grouped(papers)[year][month] == MonthEntries(papers, year, month)
  {
    if papers != [] {
      GroupedSpec(papers[..|papers| - 1], year, month);
    }
  }

  /** `build`: collect, sort newest first, then the index, the feed and the
      archive. */
  method Build(dirs: seq<YearDir>) returns (sorted: seq<SiteEntry>, index: seq<SiteEntry>, feed: seq<SiteEntry>, archive: Archive)
    requires ValidListing(dirs)
    ensures sorted == SortBy(Collected(dirs), Newer)
    ensures index == Take(sorted, IndexSize) && feed == Take(sorted, FeedSize)
    ensures archive == Grouped(sorted)
  {
    var papers := CollectPapers(dirs);
    sorted := SortBy(papers, Newer);
    index := Take(sorted, IndexSize);
    feed := Take(sorted, FeedSize);
    archive := GroupArchive(sorted);
  }
}
