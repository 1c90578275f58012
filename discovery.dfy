/**
  Discovery (`src/discovery.py`): turning OpenAlex work records into papers,
  rebuilding abstracts from inverted indexes, batching an author's works for
  the citation search, merging configured and promoted tasks, and the date
  window of a run. HTTP answers are inputs: a `Fetch` is either the decoded
  response or the failure that the source catches.
*/
module Discovery {
  import opened Wrappers
  import opened Strings
  import opened Sorting
  import opened Models
  import opened Db

  /** A response from OpenAlex, or the exception raised while getting it. */
  datatype Fetch<T> = Fetched(value: T) | FetchFailed(error: string)

  // ------------------------------------------------- abstract reconstruction

  /** `abstract_inverted_index`: each word with the positions it occupies, in
      the dictionary's order. */
  type InvertedIndex = seq<(string, seq<int>)>

  /** Python's order on `(position, word)` tuples. */
  predicate PairLe(x: (int, string), y: (int, string)) {
    x.0 < y.0 || (x.0 == y.0 && StrLe(x.1, y.1))
  }

  lemma {:induction false} PairLeOrder()
    ensures Total(PairLe) && Transitive(PairLe)
  {
    forall x: (int, string), y: (int, string) ensures PairLe(x, y) || PairLe(y, x) {
      StrLeTotal(x.1, y.1);
    }
    forall x: (int, string), y: (int, string), z: (int, string) | PairLe(x, y) && PairLe(y, z)
      ensures PairLe(x, z)
    {
      if x.0 == y.0 && y.0 == z.0 {
        StrLeTrans(x.1, y.1, z.1);
      }
    }
  }

  /** The `(pos, word)` pairs of one dictionary entry. */
  function EntryPairs(word: string, positions: seq<int>): (r: seq<(int, string)>)
    ensures |r| == |positions|
  {
    seq(|positions|, k requires 0 <= k < |positions| => (positions[k], word))
  }

  /** All `(pos, word)` pairs of the index, entry by entry. */
  function IndexPairs(index: InvertedIndex): seq<(int, string)> {
    if index == [] then []
    else
      var last := index[|index| - 1];
      IndexPairs(index[..|index| - 1]) + EntryPairs(last.0, last.1)
  }

  function WordsOf(pairs: seq<(int, string)>): (r: seq<string>)
    ensures |r| == |pairs|
  {
    seq(|pairs|, k requires 0 <= k < |pairs| => pairs[k].1)
  }

  /** `_reconstruct_abstract`: the words of all pairs, sorted by position
      (ties by word), joined with single spaces; `""` without an index. */
  function AbstractText(index: Option<InvertedIndex>): string {
    if index.None? || index.value == [] then ""
    else Join(WordsOf(SortBy(IndexPairs(index.value), PairLe)), " ")
  }

  method ReconstructAbstract(index: Option<InvertedIndex>) returns (text: string)
    ensures text == AbstractText(index)
    ensures index.None? || index == Some([]) ==> text == ""
  {
    if index.None? || index.value == [] {
      return "";
    }
    var entries := index.value;
    var wordPositions: seq<(int, string)> := [];
    for i := 0 to |entries|
      invariant wordPositions == IndexPairs(entries[..i])
    {
      var word, positions := entries[i].0, entries[i].1;
      for j := 0 to |positions|
        invariant wordPositions == IndexPairs(entries[..i]) + EntryPairs(word, positions[..j])
      {
        assert EntryPairs(word, positions[..j + 1]) == EntryPairs(word, positions[..j]) + [(positions[j], word)];
        wordPositions := wordPositions + [(positions[j], word)];
      }
      assert positions[..|positions|] == positions;
      assert entries[..i + 1][..i] == entries[..i];
    }
    assert entries[..|entries|] == entries;
    wordPositions := SortBy(wordPositions, PairLe);
    text := Join(WordsOf(wordPositions), " ");
  }

  lemma {:induction false} EntryPairsMembership(word: string, positions: seq<int>, pos: int, w: string)
    ensures (pos, w) in EntryPairs(word, positions) <==> w == word && pos in positions
  {
    var e := EntryPairs(word, positions);
    if (pos, w) in e {
      var j :| 0 <= j < |e| && e[j] == (pos, w);
    }
    if w == word && pos in positions {
      var j :| 0 <= j < |positions| && positions[j] == pos;
      assert e[j] == (pos, w);
    }
  }

  /** A pair is in the index's pairs exactly when some entry has that word
      and lists that position. */
  lemma {:induction false} IndexPairsMembership(index: InvertedIndex, pos: int, word: string)
    ensures (pos, word) in IndexPairs(index)
        <==> exists k :: 0 <= k < |index| && index[k].0 == word && pos in index[k].1
  {
    if index != [] {
      var init, last := index[..|index| - 1], index[|index| - 1];
      IndexPairsMembership(init, pos, word);
      EntryPairsMembership(last.0, last.1, pos, word);
      assert IndexPairs(index) == IndexPairs(init) + EntryPairs(last.0, last.1);
      if k :| 0 <= k < |index| && index[k].0 == word && pos in index[k].1 {
        if k < |init| {
          assert init[k] == index[k];
        }
      }
      if k :| 0 <= k < |init| && init[k].0 == word && pos in init[k].1 {
        assert index[k] == init[k];
      }
    }
  }

  /** The rebuilt abstract lists one word per position of the index, all of
      them, in ascending order of position. */
  lemma {:induction false} AbstractOrdered(index: InvertedIndex)
    ensures var s := SortBy(IndexPairs(index), PairLe);
      && multiset(s) == multiset(IndexPairs(index))
      && (forall i, j :: 0 <= i < j < |s| ==> s[i].0 <= s[j].0)
  {
    PairLeOrder();
    SortBySorted(IndexPairs(index), PairLe);
  }

  /** `{"hydrology": [0, 2], "water": [1]}` reads `hydrology water hydrology`. */
  lemma {:induction false} AbstractExample()
    ensures AbstractText(Some([("hydrology", [0, 2]), ("water", [1])])) == "hydrology water hydrology"
  {
    ExamplePairs();
    ExampleSorted();
    ExampleWords();
  }

  lemma {:induction false} ExampleWords()
    ensures Join(WordsOf([(0, "hydrology"), (1, "water"), (2, "hydrology")]), " ") == "hydrology water hydrology"
  {
    var h, w := "hydrology", "water";
    assert WordsOf([(0, h), (1, w), (2, h)]) == [h, w, h];
    assert [h, w, h][1..] == [w, h] && [w, h][1..] == [h];
    assert Join([h], " ") == h;
    assert Join([w, h], " ") == w + " " + h;
  }

  lemma {:induction false} ExamplePairs()
    ensures IndexPairs([("hydrology", [0, 2]), ("water", [1])]) == [(0, "hydrology"), (2, "hydrology"), (1, "water")]
  {
    var index: InvertedIndex := [("hydrology", [0, 2]), ("water", [1])];
    assert index[..1] == [("hydrology", [0, 2])];
    assert index[..1][..0] == [];
    assert EntryPairs("hydrology", [0, 2]) == [(0, "hydrology"), (2, "hydrology")];
    assert EntryPairs("water", [1]) == [(1, "water")];
  }

  lemma {:induction false} ExampleSorted()
    ensures SortBy([(0, "hydrology"), (2, "hydrology"), (1, "water")], PairLe) == [(0, "hydrology"), (1, "water"), (2, "hydrology")]
  {
    SortsByPosition("hydrology", "water");
  }

  /** Sorting the example's pairs depends only on their positions. */
  lemma {:induction false} SortsByPosition(h: string, w: string)
    ensures SortBy([(0, h), (2, h), (1, w)], PairLe) == [(0, h), (1, w), (2, h)]
  {
    var pairs := [(0, h), (2, h), (1, w)];
    var last := [(1, w)];
    assert pairs[1..] == [(2, h)] + last && pairs[1..][1..] == last;
    assert SortBy(last, PairLe) == last by {
      assert last[1..] == [];
    }
    var two := Insert((2, h), last, PairLe);
    assert two == [(1, w), (2, h)] by {
      assert !PairLe((2, h), (1, w));
      assert last[1..] == [];
      assert Insert((2, h), [], PairLe) == [(2, h)];
      assert two == [(1, w)] + [(2, h)];
    }
    assert SortBy(pairs[1..], PairLe) == two;
    assert PairLe((0, h), (1, w));
    assert Insert((0, h), two, PairLe) == [(0, h)] + two;
  }

  // ---------------------------------------------------------- work records

  /** `primary_location.source` of a work. */
  datatype SourceInfo = SourceInfo(displayName: Option<string>, id: Option<string>)

  /** One `authorships[].author` of a work. */
  datatype Authorship = Authorship(displayName: Option<string>, id: Option<string>)

  /** The fields of an OpenAlex work that the pipeline reads. */
  datatype Work = Work(
    id: string,
    title: Option<string>,
    doi: Option<string>,
    publicationDate: Option<Date>,
    source: Option<SourceInfo>,
    invertedIndex: Option<InvertedIndex>,
    authorships: seq<Authorship>)

  const DoiUrlPrefix: string := "https://doi.org/"

  /** The paper's DOI: the raw DOI URL without `https://doi.org/`. */
  function WorkDoi(w: Work): Option<string> {
    if Truthy(w.doi) then Some(Replace(w.doi.value, DoiUrlPrefix, "")) else None
  }

  /** The paper's link: the raw DOI URL when present, else the work id. */
  function WorkLink(w: Work): string {
    if Truthy(w.doi) then w.doi.value else w.id
  }

  /** The display names that are present and non-empty, in order. */
  function AuthorNames(a: seq<Authorship>): (r: seq<string>)
    ensures |r| <= |a|
  {
    if a == [] then []
    else (if Truthy(a[0].displayName) then [a[0].displayName.value] else []) + AuthorNames(a[1..])
  }

  /** The author ids that are present and non-empty, each cut to its last
      `/`-segment, in order. */
  function AuthorIdsOf(a: seq<Authorship>): (r: seq<string>)
    ensures |r| <= |a|
  {
    if a == [] then []
    else (if Truthy(a[0].id) then [LastSegment(a[0].id.value, '/')] else []) + AuthorIdsOf(a[1..])
  }

  /** The paper `_fetch_openalex` builds from a work; `now` stands in when
      the work has no publication date. */
  function WorkPaper(w: Work, abstractText: string, now: DateTime): Paper {
    var published := if w.publicationDate.Some? then DateTime(w.publicationDate.value, 0, 0) else now;
    var source := if w.source.Some? then w.source.value.displayName.GetOr("Unknown Source") else "Unknown Source";
    var sourceId := if w.source.Some? && Truthy(w.source.value.id) then Some(LastSegment(w.source.value.id.value, '/')) else None;
    NewPaper(w.title.GetOr("No Title"), WorkLink(w), published, source, sourceId,
             abstractText, AuthorNames(w.authorships), AuthorIdsOf(w.authorships),
             WorkDoi(w), None)
  }

  /** The papers of the works not yet seen, in response order. */
  function UnseenPapers(works: seq<Work>, rows: seq<SeenRow>, now: DateTime): (r: seq<Paper>)
    ensures |r| <= |works|
  {
    if works == [] then []
    else
      var init, w := works[..|works| - 1], works[|works| - 1];
      UnseenPapers(init, rows, now) + (if SeenIn(rows, WorkLink(w), WorkDoi(w)) then [] else [WorkPaper(w, AbstractText(w.invertedIndex), now)])
  }

  /** `_fetch_openalex`: the unseen works as papers; a failed request logs an
      `ERROR` event and yields nothing. */
  method FetchOpenAlex(db: Database, response: Fetch<seq<Work>>, now: DateTime) returns (papers: seq<Paper>)
    modifies db`events
    ensures response.FetchFailed? ==> papers == [] && db.events == old(db.events) + [Event("ERROR", FetchErrorPrefix + response.error)]
    ensures response.Fetched? ==> papers == UnseenPapers(response.value, db.seen, now) && db.events == old(db.events)
  {
    if response.FetchFailed? {
      db.AddEvent("ERROR", FetchErrorPrefix + response.error);
      return [];
    }
    var works := response.value;
    papers := [];
    for i := 0 to |works|
      invariant papers == UnseenPapers(works[..i], db.seen, now)
      modifies {}
    {
      var w := works[i];
      assert works[..i + 1][..i] == works[..i];
      if db.IsSeen(WorkLink(w), WorkDoi(w)) {
        continue;
      }
      var abstractText := ReconstructAbstract(w.invertedIndex);
      var paper := WorkPaper(w, abstractText, now);
      papers := papers + [paper];
    }
    assert works[..|works|] == works;
  }

  /** A work already seen, by link or by DOI, yields no paper; every paper
      returned is unseen. */
  lemma {:induction false} UnseenPapersUnseen(works: seq<Work>, rows: seq<SeenRow>, now: DateTime)
    ensures forall p :: p in UnseenPapers(works, rows, now) ==> !SeenIn(rows, p.link, p.doi)
  {
    if works != [] {
      UnseenPapersUnseen(works[..|works| - 1], rows, now);
    }
  }

  /** A work with a DOI URL is filed under that URL as its link and under the
      bare DOI as its DOI. */
  lemma {:induction false} DoiAndLink(w: Work, bare: string)
    requires w.doi == Some(DoiUrlPrefix + bare) && !Contains(bare, DoiUrlPrefix)
    ensures WorkDoi(w) == Some(bare)
    ensures WorkLink(w) == DoiUrlPrefix + bare
  {
    StripDoiPrefix(bare);
  }

  lemma {:induction false} StripDoiPrefix(bare: string)
    requires !Contains(bare, DoiUrlPrefix)
    ensures Replace(DoiUrlPrefix + bare, DoiUrlPrefix, "") == bare
  {
    var s := DoiUrlPrefix + bare;
    assert s[..|DoiUrlPrefix|] == DoiUrlPrefix && s[|DoiUrlPrefix|..] == bare;
    ReplacePrefix(s, DoiUrlPrefix, "");
    ReplaceAbsent(bare, DoiUrlPrefix, "");
  }

  /** Names and ids are skipped independently, so the author and author-id
      lists can differ in length. */
  lemma {:induction false} AuthorListsIndependent()
    ensures var a := [Authorship(Some("Ada"), None), Authorship(Some(""), Some("https://openalex.org/A1"))];
      AuthorNames(a) == ["Ada"] && |AuthorIdsOf(a)| == 1
  {
    var a := [Authorship(Some("Ada"), None), Authorship(Some(""), Some("https://openalex.org/A1"))];
    assert a[1..] == [Authorship(Some(""), Some("https://openalex.org/A1"))];
    assert a[1..][1..] == [];
  }

  // ---------------------------------------------------------------- batches

  const BatchSize: nat := 50

  /** `ids[i:i + 50]` for `i` in `range(0, len(ids), 50)`. */
  function Batches(ids: seq<string>): seq<seq<string>>
    decreases |ids|
  {
    if ids == [] then []
    else if |ids| <= BatchSize then [ids]
    else [ids[..BatchSize]] + Batches(ids[BatchSize..])
  }

  function Flatten<T>(xss: seq<seq<T>>): seq<T> {
    if xss == [] then [] else xss[0] + Flatten(xss[1..])
  }

  /** The batches are consecutive, each of 1 to 50 ids, and together they
      are the id list. */
  lemma {:induction false} BatchesPartition(ids: seq<string>)
    ensures Flatten(Batches(ids)) == ids
    ensures forall k :: 0 <= k < |Batches(ids)| ==> 1 <= |Batches(ids)[k]| <= BatchSize
    ensures |Batches(ids)| == (|ids| + BatchSize - 1) / BatchSize
    decreases |ids|
  {
    if |ids| > BatchSize {
      var rest := ids[BatchSize..];
      BatchesPartition(rest);
      var b := Batches(ids);
      assert b == [ids[..BatchSize]] + Batches(rest);
      assert b[1..] == Batches(rest);
      assert ids == ids[..BatchSize] + rest;
      forall k | 1 <= k < |b| ensures 1 <= |b[k]| <= BatchSize {
        assert b[k] == Batches(rest)[k - 1];
      }
    }
  }

  /** How `_fetch_openalex` begins the message of a failed request. */
  const FetchErrorPrefix := "OpenAlex fetch error: "

  /** What `_fetch_openalex` yields for one response: its unseen works as
      papers, or nothing when the request failed. */
  function ResponsePapers(response: Fetch<seq<Work>>, rows: seq<SeenRow>, now: DateTime): seq<Paper> {
    if response.FetchFailed? then [] else UnseenPapers(response.value, rows, now)
  }

  /** The events `_fetch_openalex` logs for one response: one `ERROR` for a
      failed request, none otherwise. */
  function ResponseEvents(response: Fetch<seq<Work>>): seq<Event> {
    if response.FetchFailed? then [Event("ERROR", FetchErrorPrefix + response.error)] else []
  }

  /** The answer to each batch's citation query: `citing` answers one
      `|`-joined batch of work ids. */
  function BatchResponses(batches: seq<seq<string>>, citing: string -> Fetch<seq<Work>>): (r: seq<Fetch<seq<Work>>>)
    ensures |r| == |batches|
    ensures forall k :: 0 <= k < |batches| ==> r[k] == citing(Join(batches[k], "|"))
  {
    seq(|batches|, k requires 0 <= k < |batches| => citing(Join(batches[k], "|")))
  }

  /** The papers of each response, concatenated in batch order. */
  function CitingPapers(responses: seq<Fetch<seq<Work>>>, rows: seq<SeenRow>, now: DateTime): seq<Paper> {
    if responses == [] then [] else ResponsePapers(responses[0], rows, now) + CitingPapers(responses[1..], rows, now)
  }

  /** The `ERROR` events of the failed responses, in batch order. */
  function CitingErrors(responses: seq<Fetch<seq<Work>>>): seq<Event> {
    if responses == [] then [] else ResponseEvents(responses[0]) + CitingErrors(responses[1..])
  }

  /** The ids of an author's works: the present ids cut to their last
      `/`-segment. */
  function WorkIds(ids: seq<Option<string>>): seq<string> {
    if ids == [] then []
    else (if Truthy(ids[0]) then [LastSegment(ids[0].value, '/')] else []) + WorkIds(ids[1..])
  }

  /** `search_citations_for_author`: the author's work ids are searched for
      citations 50 at a time, each batch through `_fetch_openalex`, with a
      polite sleep after each (`sleeps` counts them); a failed first request
      yields nothing and logs no event. */
  method SearchCitationsForAuthor(db: Database, works: Fetch<seq<Option<string>>>, citing: string -> Fetch<seq<Work>>,
                                  now: DateTime)
    returns (papers: seq<Paper>, sleeps: nat)
    modifies db`events
    ensures works.FetchFailed? ==> papers == [] && sleeps == 0 && db.events == old(db.events)
    ensures works.Fetched? ==>
      var responses := BatchResponses(Batches(WorkIds(works.value)), citing);
      && papers == CitingPapers(responses, db.seen, now)
      && db.events == old(db.events) + CitingErrors(responses)
      && sleeps == |responses|
  {
    if works.FetchFailed? {
      return [], 0;
    }
    var responses := BatchResponses(Batches(WorkIds(works.value)), citing);
    ghost var found, errors;
    papers, sleeps, found, errors := FetchAllBatches(db, responses, now);
    CitingFolded(responses, found, errors, db.seen, now);
  }

  /** The batch loop of `search_citations_for_author`: every response goes
      through `_fetch_openalex` in turn, and `sleeps` counts the batches
      handled; `found` and `errors` record what each gave and logged. */
  method FetchAllBatches(db: Database, responses: seq<Fetch<seq<Work>>>, now: DateTime)
    returns (papers: seq<Paper>, sleeps: nat, ghost found: seq<seq<Paper>>, ghost errors: seq<seq<Event>>)
    modifies db`events
    ensures |found| == |responses| && BatchesDone(responses, found, errors, db.seen, now)
    ensures papers == Flatten(found) && db.events == old(db.events) + Flatten(errors) && sleeps == |responses|
  {
    found, errors := [], [];
    papers, sleeps := [], 0;
    while sleeps < |responses|
      invariant sleeps <= |responses| && Fetched(db, old(db.events), responses, found, errors, papers, sleeps, now)
      decreases |responses| - sleeps
    {
      papers, sleeps, found, errors := FetchBatch(db, old(db.events), responses, found, errors, papers, sleeps, now);
    }
  }

  /** The loop's state after `sleeps` batches: the record of what each gave
      and logged, the papers so far, and the events logged since `events0`. */
  ghost predicate Fetched(db: Database, events0: seq<Event>, responses: seq<Fetch<seq<Work>>>, found: seq<seq<Paper>>,
                          errors: seq<seq<Event>>, papers: seq<Paper>, sleeps: nat, now: DateTime)
    reads db
  {
    && |found| == sleeps && BatchesDone(responses, found, errors, db.seen, now)
    && papers == Flatten(found) && db.events == events0 + Flatten(errors)
  }

  /** The batch loop of `search_citations_for_author` after the first
      `|found|` responses: those gave `found` and logged `errors`, one entry
      per response, as `_fetch_openalex` answers them. */
  ghost predicate BatchesDone(responses: seq<Fetch<seq<Work>>>, found: seq<seq<Paper>>, errors: seq<seq<Event>>,
                              rows: seq<SeenRow>, now: DateTime)
  {
    && |found| == |errors| <= |responses|
    && (forall k :: 0 <= k < |found| ==> found[k] == ResponsePapers(responses[k], rows, now))
    && (forall k :: 0 <= k < |errors| ==> errors[k] == ResponseEvents(responses[k]))
  }

  /** One turn of the batch loop: the next response goes through
      `_fetch_openalex`, its papers are appended, its events logged, and the
      loop sleeps once more. */
  method FetchBatch(db: Database, ghost events0: seq<Event>, responses: seq<Fetch<seq<Work>>>,
                    ghost found: seq<seq<Paper>>, ghost errors: seq<seq<Event>>, papers: seq<Paper>, sleeps: nat,
                    now: DateTime)
    returns (papers': seq<Paper>, sleeps': nat, ghost found': seq<seq<Paper>>, ghost errors': seq<seq<Event>>)
    requires sleeps < |responses| && Fetched(db, events0, responses, found, errors, papers, sleeps, now)
    modifies db`events
    ensures sleeps' == sleeps + 1 && Fetched(db, events0, responses, found', errors', papers', sleeps', now)
  {
    var f := FetchOpenAlex(db, responses[sleeps], now);
    ghost var e := ResponseEvents(responses[sleeps]);
    BatchDone(responses, found, errors, f, e, db.seen, now);
    FlattenSnoc(found, f);
    FlattenSnoc(errors, e);
    papers', sleeps', found', errors' := papers + f, sleeps + 1, found + [f], errors + [e];
  }

  /** Handling the next response extends the loop's record by one entry. */
  lemma {:induction false} BatchDone(responses: seq<Fetch<seq<Work>>>, found: seq<seq<Paper>>, errors: seq<seq<Event>>,
                                     f: seq<Paper>, e: seq<Event>, rows: seq<SeenRow>, now: DateTime)
    requires BatchesDone(responses, found, errors, rows, now) && |found| < |responses|
    requires f == ResponsePapers(responses[|found|], rows, now) && e == ResponseEvents(responses[|found|])
    ensures BatchesDone(responses, found + [f], errors + [e], rows, now)
  {
    var found', errors' := found + [f], errors + [e];
    forall k | 0 <= k < |found'| ensures found'[k] == ResponsePapers(responses[k], rows, now) {
      if k < |found| {
        assert found'[k] == found[k];
      }
    }
    forall k | 0 <= k < |errors'| ensures errors'[k] == ResponseEvents(responses[k]) {
      if k < |errors| {
        assert errors'[k] == errors[k];
      }
    }
  }

  /** Once every response is handled, the papers and the events are those of
      the responses in order. */
  lemma {:induction false} CitingFolded(responses: seq<Fetch<seq<Work>>>, found: seq<seq<Paper>>, errors: seq<seq<Event>>,
                                        rows: seq<SeenRow>, now: DateTime)
    requires |found| == |responses| && BatchesDone(responses, found, errors, rows, now)
    ensures Flatten(found) == CitingPapers(responses, rows, now)
    ensures Flatten(errors) == CitingErrors(responses)
  {
    if responses != [] {
      assert BatchesDone(responses[1..], found[1..], errors[1..], rows, now) by {
        forall k | 0 <= k < |found| - 1 ensures found[1..][k] == ResponsePapers(responses[1..][k], rows, now) {
          assert found[1..][k] == found[k + 1];
        }
        forall k | 0 <= k < |errors| - 1 ensures errors[1..][k] == ResponseEvents(responses[1..][k]) {
          assert errors[1..][k] == errors[k + 1];
        }
      }
      CitingFolded(responses[1..], found[1..], errors[1..], rows, now);
    }
  }

  /** Citation search yields no paper already seen, and logs at most one
      `ERROR` per batch and no other event. */
  lemma {:induction false} CitingUnseenAndErrors(responses: seq<Fetch<seq<Work>>>, rows: seq<SeenRow>, now: DateTime)
    ensures forall p :: p in CitingPapers(responses, rows, now) ==> !SeenIn(rows, p.link, p.doi)
    ensures |CitingErrors(responses)| <= |responses|
    ensures forall e :: e in CitingErrors(responses) ==> e.kind == "ERROR"
  {
    if responses != [] {
      CitingUnseenAndErrors(responses[1..], rows, now);
      if responses[0].Fetched? {
        UnseenPapersUnseen(responses[0].value, rows, now);
      }
    }
  }

  // ------------------------------------------------------------------ tasks

  /** The kinds of discovery task; any other `type` is kept by name. */
  datatype TaskKind = SearchTask | AuthorTask | CitationTask | AuthorCitationsTask | JournalTask | IssnTask
                    | OtherTask(kind: string)

  /** A configured task: its name, kind, and the query, id, DOI or ISSN its
      kind takes. */
  datatype Task = Task(name: string, kind: TaskKind, arg: string)

  /** The configured tasks, then one journal task over the promoted journals
      and one author task over the promoted authors, each only when there
      is something promoted. */
  function MergedTasks(config: seq<Task>, journals: seq<string>, authors: seq<string>): (r: seq<Task>)
    ensures |r| == |config| + (if journals != [] then 1 else 0) + (if authors != [] then 1 else 0)
    ensures r[..|config|] == config
  {
    config
      + (if journals != [] then [Task("Auto-Promoted Journals", JournalTask, Join(journals, "|"))] else [])
      + (if authors != [] then [Task("Auto-Promoted Authors", AuthorTask, Join(authors, "|"))] else [])
  }

  /** The promoted journals' task carries exactly the promoted ids: its `|`-
      joined id splits back into them. */
  lemma {:induction false} PromotedJournalTask(config: seq<Task>, journals: seq<string>, authors: seq<string>)
    requires journals != []
    requires forall k :: 0 <= k < |journals| ==> !Contains(journals[k], "|")
    ensures var t := MergedTasks(config, journals, authors)[|config|];
      t.kind == JournalTask && Split(t.arg, "|") == journals
  {
    SplitJoin(journals, "|");
  }

  /** What a task yields: the oracle's answer for a known kind, nothing for
      an unknown one. */
  function Dispatch(task: Task, results: Task -> seq<Paper>): seq<Paper> {
    if task.kind.OtherTask? then [] else results(task)
  }

  /** The papers of one task that survive the seen filter. */
  function KeepNew(papers: seq<Paper>, rows: seq<SeenRow>, ignoreSeen: bool): (r: seq<Paper>)
    ensures |r| <= |papers|
  {
    if papers == [] then []
    else
      var init, p := papers[..|papers| - 1], papers[|papers| - 1];
      KeepNew(init, rows, ignoreSeen) + (if !ignoreSeen && SeenIn(rows, p.link, p.doi) then [] else [p])
  }

  /** The papers of all tasks, task by task. */
  function Discovered(tasks: seq<Task>, results: Task -> seq<Paper>, rows: seq<SeenRow>, ignoreSeen: bool): seq<Paper> {
    if tasks == [] then []
    else
      var init := tasks[..|tasks| - 1];
      Discovered(init, results, rows, ignoreSeen) + KeepNew(Dispatch(tasks[|tasks| - 1], results), rows, ignoreSeen)
  }

  /** `run_all_tasks`. */
  method RunAllTasks(db: Database, config: seq<Task>, results: Task -> seq<Paper>, ignoreSeen: bool)
    returns (papers: seq<Paper>)
    ensures papers == Discovered(MergedTasks(config, db.monitoredJournals, db.monitoredAuthors), results, db.seen, ignoreSeen)
  {
    var tasks := MergeTasks(db, config);
    papers := RunTasks(db, tasks, results, ignoreSeen);
  }

  /** The first half of `run_all_tasks`: the configured tasks extended with
      the promoted journals and authors. */
  method MergeTasks(db: Database, config: seq<Task>) returns (tasks: seq<Task>)
    ensures tasks == MergedTasks(config, db.monitoredJournals, db.monitoredAuthors)
  {
    tasks := config;
    var autoJournals := db.monitoredJournals;
    if autoJournals != [] {
      tasks := tasks + [Task("Auto-Promoted Journals", JournalTask, Join(autoJournals, "|"))];
    }
    var autoAuthors := db.monitoredAuthors;
    if autoAuthors != [] {
      tasks := tasks + [Task("Auto-Promoted Authors", AuthorTask, Join(autoAuthors, "|"))];
    }
  }

  /** The outer loop of `run_all_tasks`: every task's new papers, task by
      task. */
  method RunTasks(db: Database, tasks: seq<Task>, results: Task -> seq<Paper>, ignoreSeen: bool)
    returns (papers: seq<Paper>)
    ensures papers == Discovered(tasks, results, db.seen, ignoreSeen)
  {
    papers := [];
    for i := 0 to |tasks|
      invariant papers == Discovered(tasks[..i], results, db.seen, ignoreSeen)
    {
      var found := Dispatch(tasks[i], results);
      var kept := KeepUnseen(db, found, ignoreSeen);
      papers := papers + kept;
      assert tasks[..i + 1][..i] == tasks[..i] && tasks[..i + 1][i] == tasks[i];
    }
    assert tasks[..|tasks|] == tasks;
  }

  /** The inner loop of `run_all_tasks`: one task's papers, less the seen
      ones unless `ignore_seen`. */
  method KeepUnseen(db: Database, found: seq<Paper>, ignoreSeen: bool) returns (kept: seq<Paper>)
    ensures kept == KeepNew(found, db.seen, ignoreSeen)
  {
    kept := [];
    for j := 0 to |found|
      invariant kept == KeepNew(found[..j], db.seen, ignoreSeen)
    {
      var paper := found[j];
      assert found[..j + 1][..j] == found[..j];
      if !ignoreSeen && db.IsSeen(paper.link, paper.doi) {
        continue;
      }
      kept := kept + [paper];
    }
    assert found[..|found|] == found;
  }

  /** Without `ignore_seen`, nothing already seen comes out. */
  lemma {:induction false} DiscoveredUnseen(tasks: seq<Task>, results: Task -> seq<Paper>, rows: seq<SeenRow>)
    ensures forall p :: p in Discovered(tasks, results, rows, false) ==> !SeenIn(rows, p.link, p.doi)
  {
    if tasks != [] {
      DiscoveredUnseen(tasks[..|tasks| - 1], results, rows);
      KeepNewUnseen(Dispatch(tasks[|tasks| - 1], results), rows);
    }
  }

  lemma {:induction false} KeepNewUnseen(papers: seq<Paper>, rows: seq<SeenRow>)
    ensures forall p :: p in KeepNew(papers, rows, false) ==> !SeenIn(rows, p.link, p.doi)
  {
    if papers != [] {
      KeepNewUnseen(papers[..|papers| - 1], rows);
    }
  }

  /** With `ignore_seen`, every task's answer is kept whole, in task order;
      there is no de-duplication across tasks. */
  lemma {:induction false} DiscoveredIgnoringSeen(tasks: seq<Task>, results: Task -> seq<Paper>, rows: seq<SeenRow>)
    ensures Discovered(tasks, results, rows, true)
         == Flatten(seq(|tasks|, k requires 0 <= k < |tasks| => Dispatch(tasks[k], results)))
  {
    if tasks != [] {
      var init := tasks[..|tasks| - 1];
      DiscoveredIgnoringSeen(init, results, rows);
      KeepNewAll(Dispatch(tasks[|tasks| - 1], results), rows);
      var all := seq(|tasks|, k requires 0 <= k < |tasks| => Dispatch(tasks[k], results));
      var front := seq(|init|, k requires 0 <= k < |init| => Dispatch(init[k], results));
      assert all == front + [Dispatch(tasks[|tasks| - 1], results)];
      FlattenSnoc(front, Dispatch(tasks[|tasks| - 1], results));
    }
  }

  lemma {:induction false} KeepNewAll(papers: seq<Paper>, rows: seq<SeenRow>)
    ensures KeepNew(papers, rows, true) == papers
  {
    if papers != [] {
      KeepNewAll(papers[..|papers| - 1], rows);
      assert papers == papers[..|papers| - 1] + [papers[|papers| - 1]];
    }
  }

  lemma {:induction false} FlattenSnoc<T>(xss: seq<seq<T>>, xs: seq<T>)
    ensures Flatten(xss + [xs]) == Flatten(xss) + xs
  {
    if xss != [] {
      assert (xss + [xs])[1..] == xss[1..] + [xs];
      FlattenSnoc(xss[1..], xs);
    }
  }

  /** A task of unknown type adds nothing. */
  lemma {:induction false} UnknownTaskAddsNothing(tasks: seq<Task>, t: Task, results: Task -> seq<Paper>, rows: seq<SeenRow>, ignoreSeen: bool)
    requires t.kind.OtherTask?
    ensures Discovered(tasks + [t], results, rows, ignoreSeen) == Discovered(tasks, results, rows, ignoreSeen)
  {
    assert (tasks + [t])[..|tasks|] == tasks;
  }

  // ----------------------------------------------------------------- window

  /** The publication-date window of a run, as day numbers. */
  datatype Window = Window(fromDay: int, toDay: int)

  /** `Discovery.__init__`: from the override, else the last run's date, else
      90 days back; to the override, else 7 days ahead. */
  function DiscoveryWindow(fromOverride: Option<int>, toOverride: Option<int>, lastRun: Option<Date>, today: int): (w: Window)
    ensures fromOverride.Some? ==> w.fromDay == fromOverride.value
    ensures fromOverride.None? && lastRun.Some? ==> w.fromDay == DayOfDate(lastRun.value)
    ensures fromOverride.None? && lastRun.None? ==> w.fromDay == today - 90
    ensures toOverride.Some? ==> w.toDay == toOverride.value
    ensures toOverride.None? ==> w.toDay == today + 7
  {
    var fromDay := match fromOverride
      case Some(d) => d
      case None => (match lastRun case Some(d) => DayOfDate(d) case None => today - 90);
    var toDay := match toOverride case Some(d) => d case None => today + 7;
    Window(fromDay, toDay)
  }

  /** A first run without overrides covers 97 days around today, and any
      later run without overrides starts where the last one recorded a
      paper, so no day since then is skipped. */
  lemma {:induction false} WindowCoverage(lastRun: Option<Date>, today: int)
    ensures lastRun.None? ==> DiscoveryWindow(None, None, lastRun, today).toDay - DiscoveryWindow(None, None, lastRun, today).fromDay == 97
    ensures lastRun.Some? && DayOfDate(lastRun.value) <= today ==>
      DiscoveryWindow(None, None, lastRun, today).fromDay <= today < DiscoveryWindow(None, None, lastRun, today).toDay
  {
  }

  // ------------------------------------------------------------ fetch by DOI

  /** `fetch_by_doi`'s clean-up of the DOI argument. */
  function CleanDoiArgument(doi: string): string {
    Strip(Replace(doi, DoiUrlPrefix, ""))
  }

  /** A DOI given as its `https://doi.org/` URL is searched for as the bare
      DOI. */
  lemma {:induction false} CleanDoiArgumentUrl(bare: string)
    requires !Contains(bare, DoiUrlPrefix)
    requires bare == [] || (!IsSpace(bare[0]) && !IsSpace(bare[|bare| - 1]))
    ensures CleanDoiArgument(DoiUrlPrefix + bare) == bare
  {
    StripDoiPrefix(bare);
    StripUnpadded(bare);
  }
}
