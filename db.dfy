/**
  The ledger (`src/db.py`): the SQLite tables the pipeline keeps between runs,
  modelled as sequences of rows in a `Database` object whose methods append to
  them. `seen_papers` is keyed uniquely by link and by DOI, `paper_authors`
  by (paper, author), the monitored tables by their id; `events` and `usage`
  are append-only logs. Timestamps are the calendar values SQLite stores.
*/
module Db {
  import opened Wrappers
  import opened Strings
  import opened Models

  /** A row of `seen_papers`. */
  datatype SeenRow = SeenRow(
    id: nat,
    link: string,
    doi: Option<string>,
    title: string,
    sourceId: Option<string>,
    processed: DateTime)

  /** A row of `paper_authors`. */
  datatype AuthorLink = AuthorLink(paperId: nat, authorId: string)

  /** A row of `events` (its timestamp is not modelled). */
  datatype Event = Event(kind: string, message: string)

  /** A row of `usage`. */
  datatype UsageRow = UsageRow(
    model: string,
    promptTokens: int,
    completionTokens: int,
    totalTokens: int,
    cost: real,
    stamp: DateTime)

  /** What one attempt of `add_seen` meets when it opens the database: the
      database is usable, it is locked by another writer, or it raises some
      other `OperationalError`. */
  datatype Access = Available | Locked | Failing

  /** How `add_seen` ended: the row was inserted, the insert hit a UNIQUE
      constraint (`IntegrityError`), or every attempt raised `OperationalError`. */
  datatype AddSeenOutcome = Inserted(id: nat) | Duplicate | GaveUp

  const AddSeenRetries: nat := 3

  predicate Distinct<T(==)>(s: seq<T>) {
    forall i, j :: 0 <= i < j < |s| ==> s[i] != s[j]
  }

  // ------------------------------------------------------------- seen papers

  /** `is_seen`'s query: with a non-empty DOI, a row with that link or that
      DOI; otherwise a row with that link. */
  predicate SeenIn(rows: seq<SeenRow>, link: string, doi: Option<string>) {
    exists r :: r in rows && (r.link == link || (Truthy(doi) && r.doi == doi))
  }

  /** The UNIQUE constraints of `seen_papers`: a new row collides with a row
      of the same link or of the same non-NULL DOI. */
  predicate Collides(rows: seq<SeenRow>, link: string, doi: Option<string>) {
    exists r :: r in rows && (r.link == link || (doi.Some? && r.doi == doi))
  }

  /** The DOI column value `add_seen` stores: an empty DOI is stored as NULL,
      as `is_seen` treats it. */
  function StoredDoi(doi: Option<string>): (r: Option<string>)
    ensures r.Some? <==> Truthy(doi)
    ensures r.Some? ==> r == doi
  {
    if Truthy(doi) then doi else None
  }

  /** A paper counts as seen exactly when inserting it would collide: the
      read-side check and the write-side constraint agree. */
  lemma {:induction false} SeenIffCollides(rows: seq<SeenRow>, link: string, doi: Option<string>)
    ensures SeenIn(rows, link, doi) <==> Collides(rows, link, StoredDoi(doi))
  {
  }

  /** The UNIQUE check as the insert statement runs it on the raw DOI. */
  predicate CollidesAsWritten(rows: seq<SeenRow>, link: string, doi: Option<string>) {
    Collides(rows, link, doi)
  }

  /** Storing an empty DOI as written: a paper whose DOI is `""` and whose
      link is new collides with an earlier row whose DOI is `""`, so
      `add_seen` ends in `IntegrityError`, yet `is_seen` says it is unseen;
      such a paper is never recorded. */
  lemma {:induction false} EmptyDoiCollidesUnseen()
    ensures var rows := [SeenRow(1, "https://a.example/1", Some(""), "A", None, DateTime(Date(2024, 1, 1), 0, 0))];
      CollidesAsWritten(rows, "https://b.example/2", Some(""))
      && !SeenIn(rows, "https://b.example/2", Some(""))
  {
    var rows := [SeenRow(1, "https://a.example/1", Some(""), "A", None, DateTime(Date(2024, 1, 1), 0, 0))];
    assert rows[0] in rows;
  }

  // ----------------------------------------------------------- author links

  /** The author ids `add_seen` records, in order: each non-empty id reduced
      to its last `/`-segment. */
  function CleanIds(ids: seq<string>): (r: seq<string>)
    ensures |r| <= |ids|
  {
    if ids == [] then []
    else
      var last := ids[|ids| - 1];
      CleanIds(ids[..|ids| - 1]) + (if last != "" then [LastSegment(last, '/')] else [])
  }

  /** An id is recorded exactly when it is the last segment of a non-empty
      input id, and it never contains `/`. */
  lemma {:induction false} CleanIdsSpec(ids: seq<string>)
    ensures forall x :: x in CleanIds(ids) <==> exists a :: a in ids && a != "" && LastSegment(a, '/') == x
    ensures forall k :: 0 <= k < |CleanIds(ids)| ==> forall i :: 0 <= i < |CleanIds(ids)[k]| ==> CleanIds(ids)[k][i] != '/'
  {
    if ids != [] {
      var init, last := ids[..|ids| - 1], ids[|ids| - 1];
      CleanIdsSpec(init);
      assert ids == init + [last];
      LastSegmentSpec(last, '/');
      var r := CleanIds(ids);
      forall k | 0 <= k < |r| ensures forall i :: 0 <= i < |r[k]| ==> r[k][i] != '/' {
        if k == |CleanIds(init)| {
          assert r[k] == LastSegment(last, '/');
        } else {
          assert r[k] == CleanIds(init)[k];
        }
      }
    }
  }

  /** The first occurrence of each element, in order: what a run of
      `INSERT OR IGNORE` leaves behind. */
  function Dedup<T(==)>(s: seq<T>): (r: seq<T>)
    ensures |r| <= |s|
  {
    if s == [] then []
    else
      var d := Dedup(s[..|s| - 1]);
      if s[|s| - 1] in d then d else d + [s[|s| - 1]]
  }

  /** `Dedup` keeps every element once and nothing else. */
  lemma {:induction false} DedupSpec<T>(s: seq<T>)
    ensures Distinct(Dedup(s))
    ensures forall x :: x in Dedup(s) <==> x in s
  {
    if s != [] {
      var init := s[..|s| - 1];
      DedupSpec(init);
      assert s == init + [s[|s| - 1]];
    }
  }

  lemma {:induction false} CleanIdsStep(ids: seq<string>, i: nat)
    requires i < |ids|
    ensures CleanIds(ids[..i + 1]) == CleanIds(ids[..i]) + (if ids[i] != "" then [LastSegment(ids[i], '/')] else [])
  {
    assert ids[..i + 1][..i] == ids[..i];
  }

  lemma {:induction false} DedupSnoc<T>(s: seq<T>, x: T)
    ensures Dedup(s + [x]) == if x in Dedup(s) then Dedup(s) else Dedup(s) + [x]
  {
    assert (s + [x])[..|s|] == s;
  }

  lemma {:induction false} DistinctAppend<T>(s: seq<T>, x: T)
    requires Distinct(s) && x !in s
    ensures Distinct(s + [x])
  {
    forall i, j | 0 <= i < j < |s + [x]| ensures (s + [x])[i] != (s + [x])[j] {
      if j == |s| {
        assert s[i] in s;
      }
    }
  }

  function LinksFor(paperId: nat, authorIds: seq<string>): (r: seq<AuthorLink>)
    ensures |r| == |authorIds|
  {
    seq(|authorIds|, k requires 0 <= k < |authorIds| => AuthorLink(paperId, authorIds[k]))
  }

  lemma {:induction false} LinksForSnoc(paperId: nat, authorIds: seq<string>, a: string)
    ensures LinksFor(paperId, authorIds + [a]) == LinksFor(paperId, authorIds) + [AuthorLink(paperId, a)]
  {
  }

  lemma {:induction false} LinksAppend(before: seq<AuthorLink>, paperId: nat, authorIds: seq<string>, a: string)
    ensures before + LinksFor(paperId, authorIds + [a]) == before + LinksFor(paperId, authorIds) + [AuthorLink(paperId, a)]
  {
    LinksForSnoc(paperId, authorIds, a);
    var ext := LinksFor(paperId, authorIds);
    assert before + (ext + [AuthorLink(paperId, a)]) == before + ext + [AuthorLink(paperId, a)];
  }

  /** For a paper id no earlier link uses, a link of that paper is present
      exactly when its author is among the ones just recorded. */
  lemma {:induction false} FreshLinks(before: seq<AuthorLink>, paperId: nat, recorded: seq<string>, authorId: string)
    requires forall k :: 0 <= k < |before| ==> before[k].paperId != paperId
    ensures AuthorLink(paperId, authorId) in before + LinksFor(paperId, recorded) <==> authorId in recorded
  {
    var all := before + LinksFor(paperId, recorded);
    if AuthorLink(paperId, authorId) in all {
      var k :| 0 <= k < |all| && all[k] == AuthorLink(paperId, authorId);
      assert LinksFor(paperId, recorded)[k - |before|] == all[k];
    }
    if authorId in recorded {
      var k :| 0 <= k < |recorded| && recorded[k] == authorId;
      assert all[|before| + k] == AuthorLink(paperId, authorId);
    }
  }

  /** One step of the author loop: inserting the next cleaned id, unless
      already linked, extends the links by the de-duplicated cleaned ids. */
  lemma {:induction false} AuthorStep(before: seq<AuthorLink>, paperId: nat, ids: seq<string>, i: nat)
    requires i < |ids| && ids[i] != ""
    requires forall k :: 0 <= k < |before| ==> before[k].paperId != paperId
    ensures var links := before + LinksFor(paperId, Dedup(CleanIds(ids[..i])));
      var link := AuthorLink(paperId, LastSegment(ids[i], '/'));
      (if link in links then links else links + [link]) == before + LinksFor(paperId, Dedup(CleanIds(ids[..i + 1])))
  {
    var clean := LastSegment(ids[i], '/');
    var link := AuthorLink(paperId, clean);
    var cleaned := CleanIds(ids[..i]);
    var d := Dedup(cleaned);
    var links := before + LinksFor(paperId, d);
    CleanIdsStep(ids, i);
    assert CleanIds(ids[..i + 1]) == cleaned + [clean];
    DedupSnoc(cleaned, clean);
    FreshLinks(before, paperId, d, clean);
    if clean in d {
      assert link in links;
    } else {
      LinksAppend(before, paperId, d, clean);
      assert link !in links;
    }
  }

  // ---------------------------------------------------------- add_seen's effect

  /** The tables `add_seen` writes: `seen_papers`, `paper_authors` and the
      next `AUTOINCREMENT` id. */
  datatype SeenTables = SeenTables(seen: seq<SeenRow>, paperAuthors: seq<AuthorLink>, nextId: nat)

  /** What `add_seen` leaves behind: when one of its attempts reaches the
      database and the paper collides with no row, the paper's row under the
      next id and its cleaned, de-duplicated author links; otherwise the
      tables as they were. */
  function AfterAddSeen(t: SeenTables, link: string, title: string, doi: Option<string>, sourceId: Option<string>,
                        authorIds: seq<string>, env: seq<Access>, now: DateTime): SeenTables
    requires |env| == AddSeenRetries
  {
    if FirstAvailable(env).Some? && !Collides(t.seen, link, StoredDoi(doi)) then
      SeenTables(t.seen + [SeenRow(t.nextId, link, StoredDoi(doi), title, sourceId, now)],
                 t.paperAuthors + LinksFor(t.nextId, Dedup(CleanIds(authorIds))), t.nextId + 1)
    else t
  }

  /** `add_seen` adds at most one row, and only for a paper not yet seen
      when the database was reachable; afterwards the paper is seen exactly
      when it was before or an attempt reached the database; and another
      paper becomes seen only by sharing the new row's link or DOI. */
  lemma {:induction false} AfterAddSeenSpec(t: SeenTables, link: string, title: string, doi: Option<string>,
                                            sourceId: Option<string>, authorIds: seq<string>, env: seq<Access>, now: DateTime)
    requires |env| == AddSeenRetries
    ensures var r := AfterAddSeen(t, link, title, doi, sourceId, authorIds, env, now);
      && t.seen <= r.seen && t.paperAuthors <= r.paperAuthors
      && (r.seen == t.seen <==> FirstAvailable(env).None? || SeenIn(t.seen, link, doi))
      && (r.seen != t.seen ==> r.seen == t.seen + [SeenRow(t.nextId, link, StoredDoi(doi), title, sourceId, now)])
      && (r.seen == t.seen ==> r == t)
      && (SeenIn(r.seen, link, doi) <==> SeenIn(t.seen, link, doi) || FirstAvailable(env).Some?)
      && (forall l, d :: SeenIn(r.seen, l, d) && !SeenIn(t.seen, l, d) ==> l == link || (Truthy(d) && d == doi))
  {
    var r := AfterAddSeen(t, link, title, doi, sourceId, authorIds, env, now);
    SeenIffCollides(t.seen, link, doi);
    if r.seen != t.seen {
      var row := SeenRow(t.nextId, link, StoredDoi(doi), title, sourceId, now);
      assert row in r.seen;
      forall l, d | SeenIn(r.seen, l, d) && !SeenIn(t.seen, l, d) ensures l == link || (Truthy(d) && d == doi) {
        var x :| x in r.seen && (x.link == l || (Truthy(d) && x.doi == d));
        assert x !in t.seen;
        assert x == row;
      }
    }
  }

  // ------------------------------------------------------------- retry plan

  /** The attempt at which `add_seen` finds the database usable, if any of
      its three attempts does. */
  function FirstAvailable(env: seq<Access>): (r: Option<nat>)
    requires |env| == AddSeenRetries
    ensures r.Some? ==> r.value < AddSeenRetries && env[r.value] == Available
    ensures r.Some? ==> forall k :: 0 <= k < r.value ==> env[k] != Available
    ensures r.None? <==> forall k :: 0 <= k < AddSeenRetries ==> env[k] != Available
  {
    if env[0] == Available then Some(0)
    else if env[1] == Available then Some(1)
    else if env[2] == Available then Some(2)
    else None
  }

  /** Sleeps before attempt `n`: one per "locked" error among the first `n`
      attempts that was not the last attempt. */
  function SleepsBefore(env: seq<Access>, n: nat): (r: nat)
    requires n <= |env|
    ensures r <= n
  {
    if n == 0 then 0
    else SleepsBefore(env, n - 1) + (if env[n - 1] == Locked && n - 1 < AddSeenRetries - 1 then 1 else 0)
  }

  /** The attempts `add_seen` makes and the sleeps between them. */
  function RetryPlan(env: seq<Access>): (r: (nat, nat))
    requires |env| == AddSeenRetries
    ensures 1 <= r.0 <= AddSeenRetries
    ensures r.1 < r.0
  {
    var attempts := match FirstAvailable(env) case Some(k) => k + 1 case None => AddSeenRetries;
    assert SleepsBefore(env, attempts) <= attempts - 1 by {
      assert env[attempts - 1] != Locked || attempts - 1 == AddSeenRetries - 1;
    }
    (attempts, SleepsBefore(env, attempts))
  }

  /** Every sleep follows a "locked" error on an attempt that is not the
      last one, and a locked database on every attempt costs two sleeps. */
  lemma {:induction false} SleepsCountLocks(env: seq<Access>, n: nat)
    requires n <= |env| == AddSeenRetries
    ensures SleepsBefore(env, n) <= |set k | 0 <= k < n && k < AddSeenRetries - 1 && env[k] == Locked|
    ensures (forall k :: 0 <= k < |env| ==> env[k] == Locked) ==> SleepsBefore(env, n) == if n == 3 then 2 else n
  {
    SleepsAllLocked(env, n);
    if n > 0 {
      SleepsCountLocks(env, n - 1);
      var prev := set k | 0 <= k < n - 1 && k < AddSeenRetries - 1 && env[k] == Locked;
      var cur := set k | 0 <= k < n && k < AddSeenRetries - 1 && env[k] == Locked;
      if n - 1 < AddSeenRetries - 1 && env[n - 1] == Locked {
        assert cur == prev + {n - 1};
      } else {
        assert cur == prev;
      }
    }
  }

  lemma {:induction false} SleepsAllLocked(env: seq<Access>, n: nat)
    requires n <= |env| == AddSeenRetries
    ensures (forall k :: 0 <= k < |env| ==> env[k] == Locked) ==> SleepsBefore(env, n) == if n == 3 then 2 else n
  {
    if n > 0 {
      SleepsAllLocked(env, n - 1);
    }
  }

  // ------------------------------------------------------------------ costs

  /** `SUM(cost)` over the usage rows stamped in the given year and month. */
  function SumCost(rows: seq<UsageRow>, year: int, month: int): real {
    if rows == [] then 0.0
    else
      var last := rows[|rows| - 1];
      SumCost(rows[..|rows| - 1], year, month)
        + (if last.stamp.date.year == year && last.stamp.date.month == month then last.cost else 0.0)
  }

  /** Rows stamped in other months do not count towards a month's cost. */
  lemma {:induction false} SumCostOtherMonths(rows: seq<UsageRow>, year: int, month: int)
    requires forall k :: 0 <= k < |rows| ==> rows[k].stamp.date.year != year || rows[k].stamp.date.month != month
    ensures SumCost(rows, year, month) == 0.0
  {
    if rows != [] {
      SumCostOtherMonths(rows[..|rows| - 1], year, month);
    }
  }

  /** With non-negative costs the month's total never decreases as rows are
      added. */
  lemma {:induction false} SumCostNonNegative(rows: seq<UsageRow>, year: int, month: int)
    requires forall k :: 0 <= k < |rows| ==> rows[k].cost >= 0.0
    ensures SumCost(rows, year, month) >= 0.0
  {
    if rows != [] {
      SumCostNonNegative(rows[..|rows| - 1], year, month);
    }
  }

  // --------------------------------------------------------------- last run

  /** The row holding the latest `processed_date`. */
  function LatestRow(rows: seq<SeenRow>): (r: SeenRow)
    requires rows != []
    ensures r in rows
    ensures forall k :: 0 <= k < |rows| ==> DateTimeLe(rows[k].processed, r.processed)
  {
    if |rows| == 1 then rows[0]
    else
      var best := LatestRow(rows[1..]);
      assert forall k :: 1 <= k < |rows| ==> rows[k] == rows[1..][k - 1];
      if DateTimeLe(rows[0].processed, best.processed) then best else rows[0]
  }

  // -------------------------------------------------------------- promotion

  function SourceCount(rows: seq<SeenRow>, sourceId: string): (n: nat)
    ensures n <= |rows|
  {
    if rows == [] then 0
    else SourceCount(rows[..|rows| - 1], sourceId) + (if rows[|rows| - 1].sourceId == Some(sourceId) then 1 else 0)
  }

  function AuthorCount(links: seq<AuthorLink>, authorId: string): (n: nat)
    ensures n <= |links|
  {
    if links == [] then 0
    else AuthorCount(links[..|links| - 1], authorId) + (if links[|links| - 1].authorId == authorId then 1 else 0)
  }

  /** A journal is counted in some row exactly when its count is positive. */
  lemma {:induction false} SourceCountPositive(rows: seq<SeenRow>, sourceId: string)
    ensures SourceCount(rows, sourceId) > 0 <==> exists r :: r in rows && r.sourceId == Some(sourceId)
  {
    if rows != [] {
      var init := rows[..|rows| - 1];
      SourceCountPositive(init, sourceId);
      assert rows == init + [rows[|rows| - 1]];
    }
  }

  lemma {:induction false} AuthorCountPositive(links: seq<AuthorLink>, authorId: string)
    ensures AuthorCount(links, authorId) > 0 <==> exists l :: l in links && l.authorId == authorId
  {
    if links != [] {
      var init := links[..|links| - 1];
      AuthorCountPositive(init, authorId);
      assert links == init + [links[|links| - 1]];
    }
  }

  /** `get_promotable_journals(threshold)` over given tables: the non-NULL
      source ids with at least `threshold` seen papers that are not yet
      monitored (the query's row order is not modelled). */
  function PromotableJournalsIn(rows: seq<SeenRow>, monitored: seq<string>, threshold: int): set<string> {
    set r | r in rows && r.sourceId.Some? && SourceCount(rows, r.sourceId.value) >= threshold
                       && r.sourceId.value !in monitored :: r.sourceId.value
  }

  /** `get_promotable_authors(threshold)` over given tables. */
  function PromotableAuthorsIn(links: seq<AuthorLink>, monitored: seq<string>, threshold: int): set<string> {
    set l | l in links && AuthorCount(links, l.authorId) >= threshold && l.authorId !in monitored :: l.authorId
  }

  /** A journal is promotable exactly when it has at least `max(1, t)` seen
      papers and is not monitored. */
  lemma {:induction false} PromotableJournalsIff(rows: seq<SeenRow>, monitored: seq<string>, threshold: int, j: string)
    ensures j in PromotableJournalsIn(rows, monitored, threshold)
        <==> SourceCount(rows, j) >= threshold && SourceCount(rows, j) >= 1 && j !in monitored
  {
    SourceCountPositive(rows, j);
    if SourceCount(rows, j) >= threshold && SourceCount(rows, j) >= 1 && j !in monitored {
      var r :| r in rows && r.sourceId == Some(j);
      assert r.sourceId.value == j;
    }
  }

  /** An author is promotable exactly when linked to at least `max(1, t)`
      papers and not monitored. */
  lemma {:induction false} PromotableAuthorsIff(links: seq<AuthorLink>, monitored: seq<string>, threshold: int, a: string)
    ensures a in PromotableAuthorsIn(links, monitored, threshold)
        <==> AuthorCount(links, a) >= threshold && AuthorCount(links, a) >= 1 && a !in monitored
  {
    AuthorCountPositive(links, a);
    if AuthorCount(links, a) >= threshold && AuthorCount(links, a) >= 1 && a !in monitored {
      var l :| l in links && l.authorId == a;
      assert l.authorId == a;
    }
  }

  // --------------------------------------------------------------- database

  /** The constraints of `seen_papers`. */
  ghost predicate RowsValid(rows: seq<SeenRow>, nextId: nat) {
    && nextId >= 1
    && (forall k :: 0 <= k < |rows| ==> 1 <= rows[k].id < nextId)
    && (forall k :: 0 <= k < |rows| ==> rows[k].doi.None? || Truthy(rows[k].doi))
    && (forall i, j :: 0 <= i < j < |rows| ==>
          rows[i].id != rows[j].id && rows[i].link != rows[j].link
          && (rows[i].doi.Some? ==> rows[i].doi != rows[j].doi))
  }

  /** The constraints of `paper_authors`: pairs unique, each pointing at an
      id already handed out. */
  ghost predicate LinksValid(links: seq<AuthorLink>, nextId: nat) {
    && Distinct(links)
    && (forall k :: 0 <= k < |links| ==> 1 <= links[k].paperId < nextId)
  }

  class Database {
    var seen: seq<SeenRow>
    var paperAuthors: seq<AuthorLink>
    var monitoredJournals: seq<string>
    var monitoredAuthors: seq<string>
    var events: seq<Event>
    var usage: seq<UsageRow>
    /** The next `AUTOINCREMENT` id of `seen_papers`. */
    var nextId: nat

    /** The table constraints: ids below `nextId` and unique, links unique,
        non-NULL DOIs unique and non-empty, (paper, author) pairs unique and
        pointing at handed-out ids, monitored ids unique. */
    ghost predicate Valid()
      reads this
    {
      && RowsValid(seen, nextId)
      && LinksValid(paperAuthors, nextId)
      && Distinct(monitoredJournals)
      && Distinct(monitoredAuthors)
    }

    /** `_init_db` on a fresh file: every table empty. */
    constructor ()
      ensures Valid()
      ensures seen == [] && paperAuthors == [] && monitoredJournals == [] && monitoredAuthors == []
      ensures events == [] && usage == [] && nextId == 1
    {
      seen, paperAuthors, monitoredJournals, monitoredAuthors := [], [], [], [];
      events, usage, nextId := [], [], 1;
    }

    /** The tables `add_seen` writes, as they stand. */
    function Tables(): SeenTables
      reads this
    {
      SeenTables(seen, paperAuthors, nextId)
    }

    /** `is_seen(link, doi)`. */
    predicate IsSeen(link: string, doi: Option<string>)
      reads this
    {
      SeenIn(seen, link, doi)
    }

    /** `add_event`: appends one event. */
    method AddEvent(kind: string, message: string)
      modifies this`events
      ensures events == old(events) + [Event(kind, message)]
    {
      events := events + [Event(kind, message)];
    }

    /** `add_usage`: appends one usage row whose total is the sum of the
        prompt and completion tokens. */
    method AddUsage(model: string, promptTokens: int, completionTokens: int, cost: real, now: DateTime)
      modifies this
      ensures usage == old(usage) + [UsageRow(model, promptTokens, completionTokens, promptTokens + completionTokens, cost, now)]
      ensures usage[|usage| - 1].totalTokens == promptTokens + completionTokens
      ensures seen == old(seen) && paperAuthors == old(paperAuthors) && nextId == old(nextId)
      ensures monitoredJournals == old(monitoredJournals) && monitoredAuthors == old(monitoredAuthors)
      ensures events == old(events)
    {
      var total := promptTokens + completionTokens;
      usage := usage + [UsageRow(model, promptTokens, completionTokens, total, cost, now)];
    }

    /** `get_monthly_cost` in the month of `now`: the sum of that month's
        costs, or 0.0 when the query fails. */
    function MonthlyCost(now: DateTime, failed: bool): real
      reads this
    {
      if failed then 0.0 else SumCost(usage, now.date.year, now.date.month)
    }

    /** `get_last_run_date`: the date part of the latest `processed_date`,
        or None when nothing was seen. */
    function LastRunDate(): (r: Option<Date>)
      reads this
      ensures r.None? <==> seen == []
      ensures r.Some? ==> exists k :: 0 <= k < |seen| && seen[k].processed.date == r.value
      ensures r.Some? ==> LatestRow(seen).processed.date == r.value
      ensures r.Some? ==> forall k :: 0 <= k < |seen| ==> DateTimeLe(seen[k].processed, LatestRow(seen).processed)
    {
      if seen == [] then None else Some(LatestRow(seen).processed.date)
    }

    /** `add_seen`: up to three attempts; each attempt that finds the database
        usable either inserts the paper with its author links or hits a
        UNIQUE constraint, and both end the loop; a "locked" error on the
        first two attempts sleeps, any other `OperationalError` only logs. */
    method AddSeen(link: string, title: string, doi: Option<string>, sourceId: Option<string>,
                   authorIds: seq<string>, env: seq<Access>, now: DateTime)
      returns (outcome: AddSeenOutcome, attempts: nat, sleeps: nat)
      requires Valid()
      requires |env| == AddSeenRetries
      modifies this
      ensures Valid()
      ensures (attempts, sleeps) == RetryPlan(env)
      ensures outcome.GaveUp? <==> FirstAvailable(env).None?
      ensures outcome.Duplicate? <==> FirstAvailable(env).Some? && Collides(old(seen), link, StoredDoi(doi))
      ensures !outcome.Inserted? ==>
        seen == old(seen) && paperAuthors == old(paperAuthors) && nextId == old(nextId)
      ensures outcome.Inserted? ==>
        && outcome.id == old(nextId)
        && seen == old(seen) + [SeenRow(old(nextId), link, StoredDoi(doi), title, sourceId, now)]
        && paperAuthors == old(paperAuthors) + LinksFor(old(nextId), Dedup(CleanIds(authorIds)))
        && nextId == old(nextId) + 1
      ensures !outcome.GaveUp? ==> IsSeen(link, doi)
      ensures Tables() == AfterAddSeen(old(Tables()), link, title, doi, sourceId, authorIds, env, now)
      ensures monitoredJournals == old(monitoredJournals) && monitoredAuthors == old(monitoredAuthors)
      ensures events == old(events) && usage == old(usage)
    {
      outcome, attempts, sleeps := GaveUp, 0, 0;
      // The attempts that fail with an `OperationalError` change nothing;
      // the first usable one ends the loop.
      while attempts < AddSeenRetries && env[attempts] != Available
        invariant attempts <= AddSeenRetries
        invariant forall k :: 0 <= k < attempts ==> env[k] != Available
        invariant sleeps == SleepsBefore(env, attempts)
      {
        if env[attempts] == Locked && attempts < AddSeenRetries - 1 {
          sleeps := sleeps + 1;
        }
        attempts := attempts + 1;
      }
      if attempts < AddSeenRetries {
        assert FirstAvailable(env) == Some(attempts);
        attempts := attempts + 1;
        outcome := TryInsert(link, title, doi, sourceId, authorIds, now);
        if outcome.Duplicate? {
          SeenIffCollides(seen, link, doi);
        } else {
          assert seen[|seen| - 1] in seen;
        }
      }
    }

    /** One attempt that finds the database usable: the `INSERT`s of the
        paper and its author links, or the UNIQUE constraint's refusal. */
    method TryInsert(link: string, title: string, doi: Option<string>, sourceId: Option<string>,
                     authorIds: seq<string>, now: DateTime)
      returns (outcome: AddSeenOutcome)
      requires Valid()
      modifies this
      ensures Valid()
      ensures !outcome.GaveUp?
      ensures outcome.Duplicate? <==> Collides(old(seen), link, StoredDoi(doi))
      ensures outcome.Duplicate? ==> seen == old(seen) && paperAuthors == old(paperAuthors) && nextId == old(nextId)
      ensures outcome.Inserted? ==>
        && outcome.id == old(nextId)
        && seen == old(seen) + [SeenRow(old(nextId), link, StoredDoi(doi), title, sourceId, now)]
        && paperAuthors == old(paperAuthors) + LinksFor(old(nextId), Dedup(CleanIds(authorIds)))
        && nextId == old(nextId) + 1
      ensures monitoredJournals == old(monitoredJournals) && monitoredAuthors == old(monitoredAuthors)
      ensures events == old(events) && usage == old(usage)
    {
      if Collides(seen, link, StoredDoi(doi)) {
        outcome := Duplicate;
      } else {
        var id := nextId;
        AppendSeen(SeenRow(id, link, StoredDoi(doi), title, sourceId, now));
        InsertAuthors(id, authorIds);
        outcome := Inserted(id);
      }
    }

    /** The `INSERT INTO seen_papers` of a row that collides with nothing. */
    method AppendSeen(row: SeenRow)
      requires Valid()
      requires row.id == nextId
      requires row.doi.None? || Truthy(row.doi)
      requires !Collides(seen, row.link, row.doi)
      modifies this
      ensures Valid()
      ensures seen == old(seen) + [row] && nextId == old(nextId) + 1
      ensures paperAuthors == old(paperAuthors)
      ensures monitoredJournals == old(monitoredJournals) && monitoredAuthors == old(monitoredAuthors)
      ensures events == old(events) && usage == old(usage)
    {
      forall k | 0 <= k < |seen|
        ensures seen[k].link != row.link && (seen[k].doi.Some? ==> seen[k].doi != row.doi)
      {
        assert seen[k] in seen;
      }
      seen := seen + [row];
      nextId := nextId + 1;
    }

    /** The author loop of `add_seen`: each non-empty id, reduced to its last
        `/`-segment, inserted with `INSERT OR IGNORE` for the new paper. */
    method InsertAuthors(paperId: nat, authorIds: seq<string>)
      requires LinksValid(paperAuthors, nextId)
      requires 1 <= paperId < nextId
      requires forall k :: 0 <= k < |paperAuthors| ==> paperAuthors[k].paperId != paperId
      modifies this
      ensures LinksValid(paperAuthors, nextId)
      ensures paperAuthors == old(paperAuthors) + LinksFor(paperId, Dedup(CleanIds(authorIds)))
      ensures seen == old(seen) && nextId == old(nextId)
      ensures monitoredJournals == old(monitoredJournals) && monitoredAuthors == old(monitoredAuthors)
      ensures events == old(events) && usage == old(usage)
    {
      ghost var before := paperAuthors;
      ghost var rows, journals, authors, log, costs := seen, monitoredJournals, monitoredAuthors, events, usage;
      var i := 0;
      while i < |authorIds|
        invariant i <= |authorIds|
        invariant paperAuthors == before + LinksFor(paperId, Dedup(CleanIds(authorIds[..i])))
        invariant LinksValid(paperAuthors, nextId)
        invariant seen == rows && nextId == old(nextId)
        invariant monitoredJournals == journals && monitoredAuthors == authors
        invariant events == log && usage == costs
      {
        InsertAuthor(paperId, authorIds, i, before);
        i := i + 1;
      }
      assert authorIds[..i] == authorIds;
    }

    /** One turn of the author loop: the `i`-th id, when non-empty. */
    method InsertAuthor(paperId: nat, authorIds: seq<string>, i: nat, ghost before: seq<AuthorLink>)
      requires LinksValid(paperAuthors, nextId)
      requires 1 <= paperId < nextId && i < |authorIds|
      requires forall k :: 0 <= k < |before| ==> before[k].paperId != paperId
      requires paperAuthors == before + LinksFor(paperId, Dedup(CleanIds(authorIds[..i])))
      modifies this
      ensures LinksValid(paperAuthors, nextId)
      ensures paperAuthors == before + LinksFor(paperId, Dedup(CleanIds(authorIds[..i + 1])))
      ensures seen == old(seen) && nextId == old(nextId)
      ensures monitoredJournals == old(monitoredJournals) && monitoredAuthors == old(monitoredAuthors)
      ensures events == old(events) && usage == old(usage)
    {
      if authorIds[i] != "" {
        var clean := LastSegment(authorIds[i], '/');
        ghost var links := paperAuthors;
        AuthorStep(before, paperId, authorIds, i);
        InsertLinkOrIgnore(AuthorLink(paperId, clean));
        assert paperAuthors == if AuthorLink(paperId, clean) in links then links else links + [AuthorLink(paperId, clean)];
      } else {
        CleanIdsStep(authorIds, i);
        assert CleanIds(authorIds[..i + 1]) == CleanIds(authorIds[..i]);
      }
    }

    /** `INSERT OR IGNORE INTO paper_authors`: the pair is added unless
        present. */
    method InsertLinkOrIgnore(link: AuthorLink)
      requires LinksValid(paperAuthors, nextId)
      requires 1 <= link.paperId < nextId
      modifies this
      ensures LinksValid(paperAuthors, nextId)
      ensures link in paperAuthors
      ensures paperAuthors == if link in old(paperAuthors) then old(paperAuthors) else old(paperAuthors) + [link]
      ensures seen == old(seen) && nextId == old(nextId)
      ensures monitoredJournals == old(monitoredJournals) && monitoredAuthors == old(monitoredAuthors)
      ensures events == old(events) && usage == old(usage)
    {
      if link !in paperAuthors {
        DistinctAppend(paperAuthors, link);
        paperAuthors := paperAuthors + [link];
      }
    }

    /** `add_monitored_journal`: an idempotent set insert. */
    method AddMonitoredJournal(sourceId: string)
      requires Valid()
      modifies this
      ensures Valid()
      ensures sourceId in monitoredJournals
      ensures forall x :: x in monitoredJournals <==> x in old(monitoredJournals) || x == sourceId
      ensures sourceId in old(monitoredJournals) ==> monitoredJournals == old(monitoredJournals)
      ensures sourceId !in old(monitoredJournals) ==> monitoredJournals == old(monitoredJournals) + [sourceId]
      ensures seen == old(seen) && paperAuthors == old(paperAuthors) && nextId == old(nextId)
      ensures monitoredAuthors == old(monitoredAuthors) && events == old(events) && usage == old(usage)
    {
      if sourceId !in monitoredJournals {
        monitoredJournals := monitoredJournals + [sourceId];
      }
    }

    /** `add_monitored_author`: an idempotent set insert. */
    method AddMonitoredAuthor(authorId: string)
      requires Valid()
      modifies this
      ensures Valid()
      ensures authorId in monitoredAuthors
      ensures forall x :: x in monitoredAuthors <==> x in old(monitoredAuthors) || x == authorId
      ensures authorId in old(monitoredAuthors) ==> monitoredAuthors == old(monitoredAuthors)
      ensures authorId !in old(monitoredAuthors) ==> monitoredAuthors == old(monitoredAuthors) + [authorId]
      ensures seen == old(seen) && paperAuthors == old(paperAuthors) && nextId == old(nextId)
      ensures monitoredJournals == old(monitoredJournals) && events == old(events) && usage == old(usage)
    {
      if authorId !in monitoredAuthors {
        monitoredAuthors := monitoredAuthors + [authorId];
      }
    }

    /** `get_promotable_journals(threshold)`. */
    function PromotableJournals(threshold: int): set<string>
      reads this
    {
      PromotableJournalsIn(seen, monitoredJournals, threshold)
    }

    /** `get_promotable_authors(threshold)`. */
    function PromotableAuthors(threshold: int): set<string>
      reads this
    {
      PromotableAuthorsIn(paperAuthors, monitoredAuthors, threshold)
    }
  }

  // ----------------------------------------------------- properties across calls

  /** Marking a paper that is already seen changes nothing: whichever attempt
      reaches the database hits a UNIQUE constraint. */
  lemma {:induction false} SeenPaperIsDuplicate(rows: seq<SeenRow>, link: string, doi: Option<string>)
    requires SeenIn(rows, link, doi)
    ensures Collides(rows, link, StoredDoi(doi))
  {
    SeenIffCollides(rows, link, doi);
  }

  /** `seen_papers` only grows, so a paper once seen stays seen. */
  lemma {:induction false} SeenInGrows(rows: seq<SeenRow>, longer: seq<SeenRow>, link: string, doi: Option<string>)
    requires rows <= longer && SeenIn(rows, link, doi)
    ensures SeenIn(longer, link, doi)
  {
    var r :| r in rows && (r.link == link || (Truthy(doi) && r.doi == doi));
    var k :| 0 <= k < |rows| && rows[k] == r;
    assert longer[k] == r;
  }

  /** Adding a usage row adds its cost to the total of its own month and
      leaves every other month's total as it was. */
  lemma {:induction false} SumCostAppend(rows: seq<UsageRow>, row: UsageRow, year: int, month: int)
    ensures SumCost(rows + [row], year, month)
         == SumCost(rows, year, month) + (if row.stamp.date.year == year && row.stamp.date.month == month then row.cost else 0.0)
  {
    assert (rows + [row])[..|rows|] == rows;
  }

  /** Recording one more paper of a journal raises its count by one; other
      journals keep theirs. */
  lemma {:induction false} SourceCountAppend(rows: seq<SeenRow>, row: SeenRow, sourceId: string)
    ensures SourceCount(rows + [row], sourceId) == SourceCount(rows, sourceId) + (if row.sourceId == Some(sourceId) then 1 else 0)
  {
    assert (rows + [row])[..|rows|] == rows;
  }

  /** A higher threshold promotes fewer journals and authors. */
  lemma {:induction false} PromotableMonotone(rows: seq<SeenRow>, links: seq<AuthorLink>, journals: seq<string>, authors: seq<string>, t1: int, t2: int)
    requires t1 <= t2
    ensures PromotableJournalsIn(rows, journals, t2) <= PromotableJournalsIn(rows, journals, t1)
    ensures PromotableAuthorsIn(links, authors, t2) <= PromotableAuthorsIn(links, authors, t1)
  {
  }

  /** Once monitored, a journal or author is never promotable again. */
  lemma {:induction false} MonitoredNotPromotable(rows: seq<SeenRow>, links: seq<AuthorLink>, journals: seq<string>, authors: seq<string>, t: int)
    ensures forall j :: j in journals ==> j !in PromotableJournalsIn(rows, journals, t)
    ensures forall a :: a in authors ==> a !in PromotableAuthorsIn(links, authors, t)
  {
  }
}
