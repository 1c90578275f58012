/**
  The paper record (`src/models.py`): its identity filename, derived from the
  DOI or from the publication date and first author, and the recasing of
  all-capitals titles that the dataclass applies at construction.
*/
module Models {
  import opened Wrappers
  import opened Strings

  // ------------------------------------------------------------------ dates

  predicate IsLeap(y: int) {
    y % 4 == 0 && (y % 100 != 0 || y % 400 == 0)
  }

  function DaysInMonth(y: int, m: int): int {
    if m == 2 then (if IsLeap(y) then 29 else 28)
    else if m == 4 || m == 6 || m == 9 || m == 11 then 30
    else 31
  }

  /** A calendar date, as Python's `datetime.date` accepts it. */
  datatype Date = Date(year: int, month: int, day: int)

  predicate ValidDate(d: Date) {
    1 <= d.year <= 9999 && 1 <= d.month <= 12 && 1 <= d.day <= DaysInMonth(d.year, d.month)
  }

  /** A naive `datetime`: a date, the second within that day and the
      microsecond within that second. */
  datatype DateTime = DateTime(date: Date, second: nat, micro: nat)

  /** Chronological order on `datetime` values. */
  predicate DateTimeLe(a: DateTime, b: DateTime) {
    if a.date.year != b.date.year then a.date.year < b.date.year
    else if a.date.month != b.date.month then a.date.month < b.date.month
    else if a.date.day != b.date.day then a.date.day < b.date.day
    else if a.second != b.second then a.second < b.second
    else a.micro <= b.micro
  }

  /** Days from 1970-01-01 to `d` in the proleptic Gregorian calendar (the
      day arithmetic `datetime` and `timedelta` do). */
  function DayOfDate(d: Date): int {
    var y := if d.month <= 2 then d.year - 1 else d.year;
    var era := y / 400;
    var yoe := y - era * 400;
    var mp := (d.month + 9) % 12;
    var doy := (153 * mp + 2) / 5 + d.day - 1;
    var doe := yoe * 365 + yoe / 4 - yoe / 100 + doy;
    era * 146097 + doe - 719468
  }

  /** The epoch is day 0. */
  lemma {:induction false} EpochIsDayZero()
    ensures DayOfDate(Date(1970, 1, 1)) == 0
  {
    assert (1 + 9) % 12 == 10;
    assert (153 * 10 + 2) / 5 == 306;
    assert 1969 / 400 == 4;
    assert 369 / 4 == 92 && 369 / 100 == 3;
  }

  /** 2000-01-01 is day 10957. */
  lemma {:induction false} Y2kIsDay10957()
    ensures DayOfDate(Date(2000, 1, 1)) == 10957
  {
    assert (1 + 9) % 12 == 10;
    assert (153 * 10 + 2) / 5 == 306;
    assert 1999 / 400 == 4;
    assert 399 / 4 == 99 && 399 / 100 == 3;
  }

  function Pow10(w: nat): (r: nat)
    ensures r > 0
  {
    if w == 0 then 1 else 10 * Pow10(w - 1)
  }

  function DigitChar(d: nat): (c: char)
    requires d < 10
    ensures IsDigit(c)
  {
    ('0' as int + d) as char
  }

  /** The last `width` decimal digits of `n`, zero-padded (`%0<width>d`). */
  function Pad(n: nat, width: nat): (r: string)
    ensures |r| == width
    ensures forall i :: 0 <= i < |r| ==> IsDigit(r[i])
  {
    if width == 0 then "" else Pad(n / 10, width - 1) + [DigitChar(n % 10)]
  }

  /** The number a string of ASCII digits denotes (`int(s)`). */
  function DigitsValue(s: string): int
    requires forall i :: 0 <= i < |s| ==> IsDigit(s[i])
  {
    if s == [] then 0 else 10 * DigitsValue(s[..|s| - 1]) + (s[|s| - 1] as int - '0' as int)
  }

  /** Reading back a padded number that fits its width gives the number. */
  lemma {:induction false} PadValue(n: nat, width: nat)
    requires n < Pow10(width)
    ensures DigitsValue(Pad(n, width)) == n
  {
    if width > 0 {
      PadValue(n / 10, width - 1);
      var r := Pad(n, width);
      assert r[..|r| - 1] == Pad(n / 10, width - 1);
    }
  }

  /** `str(n)` for a natural number: its decimal digits, which read back
      as `n` (`int(str(n)) == n`). */
  function NatText(n: nat): (r: string)
    ensures |r| >= 1 && forall i :: 0 <= i < |r| ==> IsDigit(r[i])
    ensures DigitsValue(r) == n
    ensures |r| > 1 ==> r[0] != '0'
    decreases n
  {
    if n < 10 then [DigitChar(n)]
    else
      var r := NatText(n / 10) + [DigitChar(n % 10)];
      assert r[..|r| - 1] == NatText(n / 10);
      r
  }

  /** `strftime("%Y%m%d")`, with the year zero-padded to four digits. */
  function FormatYmd(d: Date): (r: string)
    requires ValidDate(d)
    ensures |r| == 8 && forall i :: 0 <= i < 8 ==> IsDigit(r[i])
  {
    Pad(d.year, 4) + Pad(d.month, 2) + Pad(d.day, 2)
  }

  lemma {:induction false} ThreeParts(a: string, b: string, c: string)
    ensures (a + b + c)[..|a|] == a
    ensures (a + b + c)[|a|..|a| + |b|] == b
    ensures (a + b + c)[|a| + |b|..|a| + |b| + |c|] == c
  {
  }

  /** Reading the three fields back out of `FormatYmd` gives the date. */
  lemma {:induction false} FormatYmdFields(d: Date)
    requires ValidDate(d)
    ensures DigitsValue(FormatYmd(d)[..4]) == d.year
    ensures DigitsValue(FormatYmd(d)[4..6]) == d.month
    ensures DigitsValue(FormatYmd(d)[6..8]) == d.day
  {
    ThreeParts(Pad(d.year, 4), Pad(d.month, 2), Pad(d.day, 2));
    PadValue(d.year, 4);
    PadValue(d.month, 2);
    PadValue(d.day, 2);
  }

  // ------------------------------------------------------------------ paper

  /** The `Paper` dataclass. */
  datatype Paper = Paper(
    title: string,
    link: string,
    published: DateTime,
    source: string,
    sourceId: Option<string>,
    abstractText: string,
    authors: seq<string>,
    authorIds: seq<string>,
    doi: Option<string>,
    pdfLink: Option<string>,
    kind: Option<string>,
    isRelevant: bool,
    relevanceReason: string,
    isProcessed: bool,
    summaryPath: Option<string>)

  /** Python truthiness of an optional string: present and non-empty. */
  predicate Truthy(s: Option<string>) {
    s.Some? && s.value != ""
  }

  /** Constructing a `Paper`: defaults for the unset fields, then
      `__post_init__`'s title recasing. The contract only records which
      fields are passed through; what the recasing does to a title is proved
      by `RecaseOnlyUpper`, `RecasedWords` and `RecasePreservesWordCount`. */
  function NewPaper(title: string, link: string, published: DateTime, source: string,
                    sourceId: Option<string>, abstractText: string, authors: seq<string>,
                    authorIds: seq<string>, doi: Option<string>, kind: Option<string>): (p: Paper)
    ensures p.title == RecaseTitle(title)
    ensures p.link == link && p.doi == doi && p.authors == authors && p.authorIds == authorIds
    ensures p.pdfLink.None? && !p.isRelevant && !p.isProcessed && p.summaryPath.None?
  {
    Paper(RecaseTitle(title), link, published, source, sourceId, abstractText, authors, authorIds,
          doi, None, kind, false, "", false, None)
  }

  // --------------------------------------------------------- identity filename

  /** The characters a DOI keeps in its filename. */
  predicate SafeChar(c: char) {
    IsAlnum(c) || c == '.' || c == '-' || c == '_'
  }

  /** `c if c.isalnum() or c in ".-_" else "_"`. */
  function SanitizeChar(c: char): char {
    if SafeChar(c) then c else '_'
  }

  /** The DOI with every unsafe character replaced by `_`. The contract
      spells out the character-by-character replacement; the filename it
      builds is characterised by `DoiFilename`. */
  function SanitizeDoi(doi: string): (r: string)
    ensures |r| == |doi|
    ensures forall i :: 0 <= i < |r| ==> r[i] == SanitizeChar(doi[i])
  {
    seq(|doi|, i requires 0 <= i < |doi| => SanitizeChar(doi[i]))
  }

  /** `self.authors[0] if self.authors else "Unknown"`, alphanumerics only. */
  function CleanFirstAuthor(authors: seq<string>): string {
    Filter(if authors != [] then authors[0] else "Unknown", IsAlnum)
  }

  /** `Paper.to_filename()`. */
  function ToFilename(p: Paper): string
    requires ValidDate(p.published.date)
  {
    if Truthy(p.doi) then SanitizeDoi(p.doi.value) + ".md"
    else FormatYmd(p.published.date) + "-" + CleanFirstAuthor(p.authors) + ".md"
  }

  predicate EndsWith(s: string, suffix: string) {
    |suffix| <= |s| && s[|s| - |suffix|..] == suffix
  }

  /** Every identity filename ends in `.md`. */
  lemma {:induction false} FilenameEndsMd(p: Paper)
    requires ValidDate(p.published.date)
    ensures EndsWith(ToFilename(p), ".md")
  {
  }

  /** With a DOI, the stem is the DOI character for character, except that
      each character outside alphanumerics and `.-_` becomes `_`; so the stem
      holds only safe characters (no `/`, no `:`). */
  lemma {:induction false} DoiFilename(p: Paper)
    requires ValidDate(p.published.date) && Truthy(p.doi)
    ensures var f := ToFilename(p); var d := p.doi.value;
      && |f| == |d| + 3
      && f[|d|..] == ".md"
      && (forall i :: 0 <= i < |d| ==> (SafeChar(d[i]) ==> f[i] == d[i]) && (!SafeChar(d[i]) ==> f[i] == '_'))
      && (forall i :: 0 <= i < |d| ==> SafeChar(f[i]))
  {
  }

  /** With a DOI, neither the date nor the authors affect the filename. */
  lemma {:induction false} DoiFilenameIgnoresDateAndAuthors(p: Paper, published: DateTime, authors: seq<string>)
    requires ValidDate(p.published.date) && ValidDate(published.date) && Truthy(p.doi)
    ensures ToFilename(p.(published := published, authors := authors)) == ToFilename(p)
  {
  }

  /** Without a DOI: eight date digits, `-`, the first author's alphanumerics
      (or `Unknown`), `.md`. */
  lemma {:induction false} DatedFilename(p: Paper)
    requires ValidDate(p.published.date) && !Truthy(p.doi)
    ensures var f := ToFilename(p); var a := CleanFirstAuthor(p.authors);
      && |f| == 12 + |a|
      && f[..8] == FormatYmd(p.published.date)
      && f[8] == '-'
      && f[9..|f| - 3] == a
      && (forall i :: 0 <= i < |a| ==> IsAlnum(a[i]))
      && (p.authors == [] ==> a == "Unknown")
  {
    var a := CleanFirstAuthor(p.authors);
    var f := ToFilename(p);
    assert f == FormatYmd(p.published.date) + ("-" + a + ".md");
    if p.authors == [] {
      UnknownIsAlnum();
    }
  }

  lemma {:induction false} UnknownIsAlnum()
    ensures Filter("Unknown", IsAlnum) == "Unknown"
  {
    var u := "Unknown";
    assert forall i :: 0 <= i < |u| ==> IsAlnum(u[i]);
    FilterAll(u, IsAlnum);
  }

  /** Worked example: `10.1234/ab.cd` keeps its dots and loses its slash. */
  lemma {:induction false} DoiFilenameExample(p: Paper)
    requires ValidDate(p.published.date) && p.doi == Some("10.1234/ab.cd")
    ensures ToFilename(p) == "10.1234_ab.cd.md"
  {
    var d := "10.1234/ab.cd";
    var r := SanitizeDoi(d);
    assert r == "10.1234_ab.cd" by {
      assert |r| == 13;
      forall i | 0 <= i < 13 ensures r[i] == "10.1234_ab.cd"[i] {
        assert r[i] == SanitizeChar(d[i]);
      }
    }
  }

  lemma {:induction false} FormatYmdExample()
    ensures FormatYmd(Date(2024, 3, 5)) == "20240305"
  {
    assert Pad(2024, 4) == "2024" by {
      assert Pad(2, 1) == "2";
      assert Pad(20, 2) == "20";
      assert Pad(202, 3) == "202";
    }
    assert Pad(3, 2) == "03" by {
      assert Pad(0, 1) == "0";
    }
    assert Pad(5, 2) == "05" by {
      assert Pad(0, 1) == "0";
    }
  }

  /** Worked example: a DOI-less paper of 2024-03-05 without authors is
      filed under `20240305-Unknown.md`. */
  lemma {:induction false} DatedFilenameExample(p: Paper)
    requires p.published.date == Date(2024, 3, 5) && !Truthy(p.doi) && p.authors == []
    ensures ToFilename(p) == "20240305-Unknown.md"
  {
    UnknownIsAlnum();
    FormatYmdExample();
  }

  // ------------------------------------------------------------ title recasing

  /** `lower_words`: words that stay lower-case unless first or last in the
      title (only membership is used, so a sequence serves as the set). */
  const LowerWords: seq<string> :=
    ["a", "an", "the", "and", "but", "or", "for", "nor", "on", "at",
     "to", "from", "by", "of", "in", "with", "as"]

  predicate IsLowerWord(word: string) {
    word in LowerWords
  }

  /** `re.split('([- ])', word)`, each non-delimiter part capitalised, re-joined:
      for a whitespace-free word, capitalising each `-`-separated part. */
  function CapitalizeParts(word: string): string {
    Join(CapitalizeAll(Split(word, "-")), "-")
  }

  /** The rewrite of the word at index `i` of `n` lower-cased words. */
  function RecaseWord(i: nat, n: nat, word: string): string {
    if i == 0 || i == n - 1 || !IsLowerWord(word) then CapitalizeParts(word) else word
  }

  function RecaseWords(words: seq<string>): (r: seq<string>)
    ensures |r| == |words|
    ensures forall i :: 0 <= i < |r| ==> r[i] == RecaseWord(i, |words|, words[i])
  {
    seq(|words|, i requires 0 <= i < |words| => RecaseWord(i, |words|, words[i]))
  }

  /** `__post_init__`: an all-capitals title is lower-cased, split on
      whitespace, each word recased, and re-joined with single spaces. */
  function RecaseTitle(title: string): string {
    if IsUpperStr(title) then
      var words := Words(Lower(title));
      if words == [] then title else Join(RecaseWords(words), " ")
    else title
  }

  /** A title that is not all capitals is kept as it is. */
  lemma {:induction false} RecaseOnlyUpper(title: string)
    requires !IsUpperStr(title)
    ensures RecaseTitle(title) == title
  {
  }

  lemma {:induction false} LowerWordEnd(s: string)
    requires s != [] && !IsSpace(s[0])
    ensures Lower(s) != [] && !IsSpace(Lower(s)[0])
    ensures WordEnd(Lower(s)) == WordEnd(s)
  {
    if |s| > 1 && !IsSpace(s[1]) {
      assert Lower(s)[1..] == Lower(s[1..]);
      LowerWordEnd(s[1..]);
    }
  }

  /** Lower-casing commutes with splitting into words. */
  lemma {:induction false} WordsOfLower(s: string)
    ensures |Words(Lower(s))| == |Words(s)|
    ensures forall k :: 0 <= k < |Words(s)| ==> Words(Lower(s))[k] == Lower(Words(s)[k])
    decreases |s|
  {
    if s != [] {
      var l := Lower(s);
      if IsSpace(s[0]) {
        LowerSlices(s, 1);
        WordsOfLower(s[1..]);
      } else {
        LowerWordEnd(s);
        var n := WordEnd(s);
        LowerSlices(s, n);
        WordsOfLower(s[n..]);
        var ws, lws := Words(s[n..]), Words(Lower(s[n..]));
        assert Words(s) == [s[..n]] + ws;
        assert Words(l) == [Lower(s[..n])] + lws;
      }
    }
  }

  /** Lower-casing commutes with cutting a string in two. */
  lemma {:induction false} LowerSlices(s: string, n: nat)
    requires n <= |s|
    ensures Lower(s)[..n] == Lower(s[..n]) && Lower(s)[n..] == Lower(s[n..])
  {
  }

  /** Character-level reading of `CapitalizeParts`: a character is
      upper-cased when it starts the word or follows a `-`, lower-cased
      otherwise. */
  function HyphenCase(w: string): (r: string)
    ensures |r| == |w|
  {
    seq(|w|, i requires 0 <= i < |w| =>
      if i == 0 || w[i - 1] == '-' then ToUpperChar(w[i]) else ToLowerChar(w[i]))
  }

  function CapitalizeAll(parts: seq<string>): (r: seq<string>)
    ensures |r| == |parts|
  {
    seq(|parts|, k requires 0 <= k < |parts| => Capitalize(parts[k]))
  }

  lemma {:induction false} CapitalizeAllCons(head: string, tail: seq<string>)
    ensures CapitalizeAll([head] + tail) == [Capitalize(head)] + CapitalizeAll(tail)
  {
  }

  lemma {:induction false} CapitalizeNoHyphen(w: string)
    requires forall j :: 0 <= j < |w| ==> w[j] != '-'
    ensures Capitalize(w) == HyphenCase(w)
  {
    if w != [] {
      var c, h := Capitalize(w), HyphenCase(w);
      assert c[1..] == Lower(w[1..]);
      forall i | 0 < i < |w| ensures c[i] == h[i] {
        assert c[i] == c[1..][i - 1];
      }
    }
  }

  /** Cutting a word just before a `-` cuts its hyphen-casing there. */
  lemma {:induction false} HyphenCaseAppend(a: string, b: string)
    requires b != [] && b[0] == '-'
    ensures HyphenCase(a + b) == HyphenCase(a) + HyphenCase(b)
  {
    var w, l, r := a + b, HyphenCase(a), HyphenCase(b);
    forall i | 0 <= i < |w| ensures HyphenCase(w)[i] == (l + r)[i] {
      if i < |a| {
        assert w[i] == a[i];
        if i > 0 {
          assert w[i - 1] == a[i - 1];
        }
      } else if i > |a| {
        assert w[i] == b[i - |a|] && w[i - 1] == b[i - |a| - 1];
      }
    }
  }

  /** A leading `-` stays, and the character after it is upper-cased as a
      word start would be. */
  lemma {:induction false} HyphenCaseDash(rest: string)
    ensures HyphenCase("-" + rest) == "-" + HyphenCase(rest)
  {
    var w := "-" + rest;
    forall i | 1 <= i < |w| ensures HyphenCase(w)[i] == HyphenCase(rest)[i - 1] {
      assert w[i] == rest[i - 1];
      if i > 1 {
        assert w[i - 1] == rest[i - 2];
      }
    }
  }

  lemma {:induction false} HyphenCaseJoin(head: string, rest: string)
    requires forall j :: 0 <= j < |head| ==> head[j] != '-'
    ensures HyphenCase(head + "-" + rest) == Capitalize(head) + "-" + HyphenCase(rest)
  {
    CapitalizeNoHyphen(head);
    HyphenCaseAppend(head, "-" + rest);
    HyphenCaseDash(rest);
    assert head + "-" + rest == head + ("-" + rest);
  }

  lemma {:induction false} CapitalizePartsChars(w: string)
    ensures CapitalizeParts(w) == HyphenCase(w)
    decreases |w|
  {
    CharFree(w, '-');
    match IndexOf(w, "-")
    case None =>
      SplitAbsent(w, "-");
      CapitalizeNoHyphen(w);
    case Some(k) =>
      var head, rest := w[..k], w[k + 1..];
      HyphenCut(w, k);
      CapitalizePartsStep(w, k);
      CapitalizePartsChars(rest);
      HyphenCaseJoin(head, rest);
  }

  /** The leftmost `-` cuts a word into a hyphen-free head and the rest. */
  lemma {:induction false} HyphenCut(w: string, k: nat)
    requires IndexOf(w, "-") == Some(k)
    ensures k < |w| && w == w[..k] + "-" + w[k + 1..]
    ensures forall j :: 0 <= j < k ==> w[j] != '-'
  {
    assert OccursAt(w, "-", k);
    assert w == w[..k] + w[k..k + 1] + w[k + 1..];
    BeforeFirstFree(w, "-", k);
    CharFree(w[..k], '-');
  }

  /** `CapitalizeParts` capitalises the part before the leftmost `-` and
      carries on after it. */
  lemma {:induction false} CapitalizePartsStep(w: string, k: nat)
    requires IndexOf(w, "-") == Some(k)
    ensures CapitalizeParts(w) == Capitalize(w[..k]) + "-" + CapitalizeParts(w[k + 1..])
  {
    var head := w[..k];
    SplitFirst(w, "-", k);
    var tail := Split(w[k + 1..], "-");
    assert Split(w, "-") == [head] + tail;
    CapitalizeAllCons(head, tail);
    JoinCons(Capitalize(head), CapitalizeAll(tail), "-");
  }

  lemma {:induction false} CapitalizePartsWord(word: string)
    requires IsWord(word)
    ensures IsWord(CapitalizeParts(word))
  {
    CapitalizePartsChars(word);
  }

  lemma {:induction false} UpperTitleHasWords(title: string)
    requires IsUpperStr(title)
    ensures Words(Lower(title)) != []
  {
    var i :| 0 <= i < |title| && IsUpperChar(title[i]);
    assert !IsSpace(Lower(title)[i]);
    WordsEmpty(Lower(title));
  }

  /** An all-capitals title splits back into its recased words. */
  lemma {:induction false} RecasedTitleWords(title: string)
    requires IsUpperStr(title)
    ensures Words(RecaseTitle(title)) == RecaseWords(Words(Lower(title)))
  {
    var words := Words(Lower(title));
    UpperTitleHasWords(title);
    var recased := RecaseWords(words);
    forall k | 0 <= k < |recased| ensures IsWord(recased[k]) {
      CapitalizePartsWord(words[k]);
    }
    WordsOfJoin(recased);
  }

  /** Recasing keeps the number of words. */
  lemma {:induction false} RecasePreservesWordCount(title: string)
    ensures |Words(RecaseTitle(title))| == |Words(title)|
  {
    WordsOfLower(title);
    if IsUpperStr(title) {
      RecasedTitleWords(title);
    }
  }

  /** In a recased title the first and last words are capitalised part by
      part, inner words from `LowerWords` stay lower-case, and every other
      word is capitalised part by part. */
  lemma {:induction false} RecasedWords(title: string)
    requires IsUpperStr(title)
    ensures var words := Words(Lower(title)); var r := Words(RecaseTitle(title));
      && |r| == |words| > 0
      && r[0] == CapitalizeParts(words[0])
      && r[|r| - 1] == CapitalizeParts(words[|words| - 1])
      && (forall i :: 0 < i < |words| - 1 && IsLowerWord(words[i]) ==> r[i] == words[i])
      && (forall i :: 0 <= i < |words| && !IsLowerWord(words[i]) ==> r[i] == CapitalizeParts(words[i]))
  {
    var words := Words(Lower(title));
    UpperTitleHasWords(title);
    RecasedTitleWords(title);
    RecaseWordsSpec(words);
  }

  lemma {:induction false} RecaseWordsSpec(words: seq<string>)
    requires words != []
    ensures var r := RecaseWords(words);
      && r[0] == CapitalizeParts(words[0])
      && r[|r| - 1] == CapitalizeParts(words[|words| - 1])
      && (forall i :: 0 < i < |words| - 1 && IsLowerWord(words[i]) ==> r[i] == words[i])
      && (forall i :: 0 <= i < |words| && !IsLowerWord(words[i]) ==> r[i] == CapitalizeParts(words[i]))
  {
  }
}
