/**
  The pipeline driver (`src/main.py`): choosing the papers of a run, the
  per-paper state machine (skip if seen, mark irrelevant papers, warn on
  missing text, mark synthesized papers), the budget governor that switches
  from the paid engine to the local one, the run summary, and the promotion
  of journals and authors that reached the threshold. Relevance, extraction,
  synthesis and the monthly cost read mid-run are answers supplied from
  outside; the ledger is the `Database` class.
*/
module Pipeline {
  import opened Wrappers
  import opened Strings
  import opened Models
  import opened Db
  import opened Discovery

  const PaidEngine: string := "gemini-api"
  const LocalEngine: string := "ollama"
  const PromotionThreshold: int := 3

  /** The synthesizer's one piece of state the pipeline touches. */
  class Synthesizer {
    var engine: string

    constructor (engine: string)
      ensures this.engine == engine
    {
      this.engine := engine;
    }
  }

  /** The command-line switches the paper loop looks at. */
  datatype Flags = Flags(forceAll: bool, addDoi: Option<string>, rss: bool)

  /** `--add-doi` given with a non-empty DOI. */
  predicate AddDoiMode(flags: Flags) {
    Truthy(flags.addDoi)
  }

  /** The outside world's answers for the paper at one position of the run:
      the relevance verdict, the monthly cost if read before extraction, the
      extracted text and whether it is full text, the synthesis verdict, and
      the database's state at each of `add_seen`'s three attempts. */
  datatype Answers = Answers(
    relevant: bool,
    costNow: real,
    text: string,
    isFullText: bool,
    synthesized: bool,
    access: (Access, Access, Access))

  function Attempts(a: Answers): seq<Access> {
    [a.access.0, a.access.1, a.access.2]
  }

  // ------------------------------------------------------------- choosing papers

  /** The paper `--add-doi` processes: forced relevant, with the reason the
      source records. */
  function ForceRelevant(p: Paper): (r: Paper)
    ensures r.isRelevant && r.relevanceReason == "Manually added by user."
    ensures r.link == p.link && r.doi == p.doi && r.title == p.title && r.authorIds == p.authorIds
  {
    p.(isRelevant := true, relevanceReason := "Manually added by user.")
  }

  /** The papers of a run: in DOI mode the first paper found for the DOI,
      forced relevant, or nothing at all when none was found; otherwise the
      RSS papers (when enabled) followed by the discovered ones. */
  function RunPapers(flags: Flags, manual: seq<Paper>, rss: seq<Paper>, discovered: seq<Paper>): (r: Option<seq<Paper>>)
    ensures r.None? <==> AddDoiMode(flags) && manual == []
    ensures AddDoiMode(flags) && r.Some? ==> r.value == [ForceRelevant(manual[0])]
    ensures !AddDoiMode(flags) ==> r == Some((if flags.rss then rss else []) + discovered)
  {
    if AddDoiMode(flags) then
      if manual != [] then Some([ForceRelevant(manual[0])]) else None
    else Some((if flags.rss then rss else []) + discovered)
  }

  function NoMetadataMessage(doi: string): string {
    "Could not find metadata for DOI " + doi
  }

  // ------------------------------------------------------------ one paper

  /** What happened to one paper. */
  datatype Decision = Skipped | Irrelevant | MissingText | Synthesized | SynthesisFailed

  /** A paper that passed the relevance step. */
  predicate CountsRelevant(d: Decision) {
    d.MissingText? || d.Synthesized? || d.SynthesisFailed?
  }

  /** A paper the loop asks `add_seen` to record. */
  predicate Marks(d: Decision) {
    d.Irrelevant? || d.Synthesized?
  }

  /** The state machine of one paper: skipped when seen (unless forced or in
      DOI mode); recorded as irrelevant unless relevant or in DOI mode;
      without text a warning; with text, the synthesis verdict. */
  function Decide(seenBefore: bool, flags: Flags, a: Answers): Decision {
    if !flags.forceAll && !AddDoiMode(flags) && seenBefore then Skipped
    else if !(AddDoiMode(flags) || a.relevant) then Irrelevant
    else if a.text == "" then MissingText
    else if a.synthesized then Synthesized
    else SynthesisFailed
  }

  /** The governor's mid-run check: the paid engine gives way to the local
      one once the monthly cost has reached the cap. */
  function Governed(active: string, costNow: real, maxCost: real): string {
    if active == PaidEngine && costNow >= maxCost then LocalEngine else active
  }

  predicate SwitchFires(active: string, costNow: real, maxCost: real) {
    active == PaidEngine && costNow >= maxCost
  }

  /** The `BUDGET_WARNING` message, without the month's cost figure that
      the source formats into it. */
  const BudgetMessage: string := "Monthly budget reached during run. Switching to local synthesis for remaining papers."

  function MissingTextMessage(title: string): string {
    "Skipping synthesis for " + title + " due to missing text."
  }

  /** The events one paper adds: a budget warning when the switch fires,
      then a warning when the text is missing. */
  function StepEvents(d: Decision, active: string, a: Answers, maxCost: real, title: string): seq<Event> {
    (if CountsRelevant(d) && SwitchFires(active, a.costNow, maxCost) then [Event("BUDGET_WARNING", BudgetMessage)] else [])
    + (if d.MissingText? then [Event("WARNING", MissingTextMessage(title))] else [])
  }

  /** The tables after one paper: those `add_seen` leaves when the
      decision marks the paper, otherwise the tables as they were. */
  function PaperTables(t: SeenTables, p: Paper, d: Decision, a: Answers, now: DateTime): SeenTables {
    if Marks(d) then AfterAddSeen(t, p.link, p.title, p.doi, p.sourceId, p.authorIds, Attempts(a), now) else t
  }

  /** One iteration of the paper loop. */
  method ProcessPaper(db: Database, synth: Synthesizer, paper: Paper, flags: Flags, maxCost: real,
                      active: string, a: Answers, now: DateTime)
    returns (d: Decision, nextActive: string, used: Option<string>)
    requires db.Valid()
    modifies db, synth
    ensures db.Valid()
    ensures d == Decide(old(db.IsSeen(paper.link, paper.doi)), flags, a)
    ensures nextActive == if CountsRelevant(d) then Governed(active, a.costNow, maxCost) else active
    ensures used == if d.Synthesized? || d.SynthesisFailed? then Some(nextActive) else None
    ensures db.events == old(db.events) + StepEvents(d, active, a, maxCost, paper.title)
    ensures Marks(d) && FirstAvailable(Attempts(a)).Some? ==> db.IsSeen(paper.link, paper.doi)
    ensures db.Tables() == PaperTables(old(db.Tables()), paper, d, a, now)
    ensures db.monitoredJournals == old(db.monitoredJournals) && db.monitoredAuthors == old(db.monitoredAuthors)
    ensures synth.engine == old(synth.engine)
  {
    nextActive, used := active, None;
    if !flags.forceAll && !AddDoiMode(flags) && db.IsSeen(paper.link, paper.doi) {
      return Skipped, nextActive, used;
    }
    if AddDoiMode(flags) || a.relevant {
      nextActive := Govern(db, active, a.costNow, maxCost);
      if a.text != "" {
        d := Synthesize(db, synth, paper, nextActive, a, now);
        used := Some(nextActive);
      } else {
        d := MissingText;
        db.AddEvent("WARNING", MissingTextMessage(paper.title));
      }
    } else {
      d := Irrelevant;
      var _, _, _ := db.AddSeen(paper.link, paper.title, paper.doi, paper.sourceId, paper.authorIds, Attempts(a), now);
    }
  }

  /** The governor's mid-run check, logging a budget warning when it
      switches engines. */
  method Govern(db: Database, active: string, costNow: real, maxCost: real) returns (next: string)
    modifies db
    ensures next == Governed(active, costNow, maxCost)
    ensures db.events == old(db.events) + (if SwitchFires(active, costNow, maxCost) then [Event("BUDGET_WARNING", BudgetMessage)] else [])
    ensures db.seen == old(db.seen) && db.paperAuthors == old(db.paperAuthors) && db.nextId == old(db.nextId)
    ensures db.monitoredJournals == old(db.monitoredJournals) && db.monitoredAuthors == old(db.monitoredAuthors)
  {
    next := active;
    if active == PaidEngine && costNow >= maxCost {
      db.AddEvent("BUDGET_WARNING", BudgetMessage);
      next := LocalEngine;
    }
  }

  /** Synthesis of a paper with text on the engine the governor chose: the
      synthesizer runs on that engine and gets its own engine back after;
      only a successful synthesis records the paper. */
  method Synthesize(db: Database, synth: Synthesizer, paper: Paper, engine: string, a: Answers, now: DateTime)
    returns (d: Decision)
    requires db.Valid()
    modifies db, synth
    ensures db.Valid()
    ensures d == if a.synthesized then Synthesized else SynthesisFailed
    ensures d.Synthesized? && FirstAvailable(Attempts(a)).Some? ==> db.IsSeen(paper.link, paper.doi)
    ensures db.Tables() == PaperTables(old(db.Tables()), paper, d, a, now)
    ensures db.events == old(db.events)
    ensures db.monitoredJournals == old(db.monitoredJournals) && db.monitoredAuthors == old(db.monitoredAuthors)
    ensures synth.engine == old(synth.engine)
  {
    var original := synth.engine;
    synth.engine := engine;
    if a.synthesized {
      d := Synthesized;
      var _, _, _ := db.AddSeen(paper.link, paper.title, paper.doi, paper.sourceId, paper.authorIds, Attempts(a), now);
    } else {
      d := SynthesisFailed;
    }
    synth.engine := original;
  }

  // ------------------------------------------------------------ the loop

  function RelevantCount(ds: seq<Decision>): nat {
    if ds == [] then 0 else RelevantCount(ds[..|ds| - 1]) + (if CountsRelevant(ds[|ds| - 1]) then 1 else 0)
  }

  function SynthesizedCount(ds: seq<Decision>): nat {
    if ds == [] then 0 else SynthesizedCount(ds[..|ds| - 1]) + (if ds[|ds| - 1].Synthesized? then 1 else 0)
  }

  /** The number of events of one kind. */
  function KindCount(events: seq<Event>, kind: string): nat {
    if events == [] then 0 else KindCount(events[..|events| - 1], kind) + (if events[|events| - 1].kind == kind then 1 else 0)
  }

  /** Every synthesized paper was relevant, and no more papers are relevant
      than were decided. */
  lemma {:induction false} CountsOrdered(ds: seq<Decision>)
    ensures SynthesizedCount(ds) <= RelevantCount(ds) <= |ds|
  {
    if ds != [] {
      CountsOrdered(ds[..|ds| - 1]);
    }
  }

  lemma {:induction false} KindCountAppend(events: seq<Event>, more: seq<Event>, kind: string)
    ensures KindCount(events + more, kind) == KindCount(events, kind) + KindCount(more, kind)
    decreases |more|
  {
    if more != [] {
      var init := more[..|more| - 1];
      KindCountAppend(events, init, kind);
      assert (events + more)[..|events + more| - 1] == events + init;
      assert (events + more)[|events + more| - 1] == more[|more| - 1];
    } else {
      assert events + more == events;
    }
  }

  /** Engines used so far, in order: each is the starting one or the local
      one, and none follows the local one but the local one. */
  ghost predicate OneWay(engines: seq<string>, start: string)
    decreases |engines|
  {
    engines == [] ||
      var init, e := engines[..|engines| - 1], engines[|engines| - 1];
      && OneWay(init, start)
      && (e == start || e == LocalEngine)
      && (init != [] && init[|init| - 1] == LocalEngine ==> e == LocalEngine)
  }

  /** What `OneWay` means position by position: every engine is the starting
      or the local one, and once the local one is used every later synthesis
      uses it too. */
  lemma {:induction false} OneWayMeaning(engines: seq<string>, start: string)
    requires OneWay(engines, start)
    ensures forall k :: 0 <= k < |engines| ==> engines[k] == start || engines[k] == LocalEngine
    ensures forall i, j :: 0 <= i < j < |engines| && engines[i] == LocalEngine ==> engines[j] == LocalEngine
    decreases |engines|
  {
    if engines != [] {
      var init := engines[..|engines| - 1];
      OneWayMeaning(init, start);
      forall i, j | 0 <= i < j < |engines| && engines[i] == LocalEngine
        ensures engines[j] == LocalEngine
      {
        if j == |engines| - 1 && i < j {
          assert init[i] == LocalEngine;
          if i < |init| - 1 {
            assert init[|init| - 1] == LocalEngine;
          }
        } else {
          assert init[i] == engines[i] && init[j] == engines[j];
        }
      }
    }
  }

  /** What the paper loop keeps true after each paper: which engines ran,
      how many warnings and budget warnings it logged. */
  ghost predicate LoopInvariant(ds: seq<Decision>, added: seq<Event>, engines: seq<string>,
                                relevant: nat, processed: nat, start: string, active: string) {
    && relevant == RelevantCount(ds) && processed == SynthesizedCount(ds)
    && |engines| + KindCount(added, "WARNING") == RelevantCount(ds)
    && OneWay(engines, start) && (active == start || active == LocalEngine)
    && (engines != [] && engines[|engines| - 1] == LocalEngine ==> active == LocalEngine)
    && KindCount(added, "BUDGET_WARNING") == (if start == PaidEngine && active == LocalEngine then 1 else 0)
  }

  /** One paper keeps the loop invariant. */
  lemma {:induction false} LoopStep(ds: seq<Decision>, added: seq<Event>, engines: seq<string>, relevant: nat, processed: nat,
                 start: string, active: string,
                 d: Decision, a: Answers, maxCost: real, title: string, next: string, used: Option<string>)
    requires LoopInvariant(ds, added, engines, relevant, processed, start, active)
    requires next == if CountsRelevant(d) then Governed(active, a.costNow, maxCost) else active
    requires used == if d.Synthesized? || d.SynthesisFailed? then Some(next) else None
    ensures LoopInvariant(ds + [d], added + StepEvents(d, active, a, maxCost, title),
                          if used.Some? then engines + [used.value] else engines,
                          relevant + (if CountsRelevant(d) then 1 else 0),
                          processed + (if d.Synthesized? then 1 else 0), start, next)
  {
    CountsSnoc(ds, d);
    var step := StepEvents(d, active, a, maxCost, title);
    KindCountAppend(added, step, "WARNING");
    KindCountAppend(added, step, "BUDGET_WARNING");
    StepEventCounts(d, active, a, maxCost, title);
    if used.Some? {
      assert (engines + [used.value])[..|engines|] == engines;
    }
  }

  lemma {:induction false} CountsSnoc(ds: seq<Decision>, d: Decision)
    ensures RelevantCount(ds + [d]) == RelevantCount(ds) + (if CountsRelevant(d) then 1 else 0)
    ensures SynthesizedCount(ds + [d]) == SynthesizedCount(ds) + (if d.Synthesized? then 1 else 0)
  {
    assert (ds + [d])[..|ds|] == ds;
  }

  /** The paper loop's record after some papers: their decisions and the
      tables they leave. */
  datatype Progress = Progress(decisions: seq<Decision>, tables: SeenTables)

  /** The paper loop as a fold over the first `n` papers, from the tables
      `t0`: each paper is decided on whether the tables the papers before it
      left have it seen, and a marked paper goes through `add_seen`. */
  function Handled(papers: seq<Paper>, flags: Flags, answers: nat -> Answers, t0: SeenTables, now: DateTime, n: nat)
    : (r: Progress)
    requires n <= |papers|
    ensures |r.decisions| == n
  {
    if n == 0 then Progress([], t0)
    else
      var prev := Handled(papers, flags, answers, t0, now, n - 1);
      var p := papers[n - 1];
      var d := Decide(SeenIn(prev.tables.seen, p.link, p.doi), flags, answers(n - 1));
      Progress(prev.decisions + [d], PaperTables(prev.tables, p, d, answers(n - 1), now))
  }

  /** The fold one paper further: the next paper decided on the current
      tables, and the tables it leaves. */
  lemma {:induction false} HandledNext(papers: seq<Paper>, flags: Flags, answers: nat -> Answers, t0: SeenTables, now: DateTime,
                                       ds: seq<Decision>, t: SeenTables, d: Decision, t': SeenTables)
    requires |ds| < |papers| && Progress(ds, t) == Handled(papers, flags, answers, t0, now, |ds|)
    requires d == Decide(SeenIn(t.seen, papers[|ds|].link, papers[|ds|].doi), flags, answers(|ds|))
    requires t' == PaperTables(t, papers[|ds|], d, answers(|ds|), now)
    ensures Progress(ds + [d], t') == Handled(papers, flags, answers, t0, now, |ds| + 1)
  {
  }

  /** Paper `k` is decided on the seen flag it had when its turn came, that
      is over the tables the first `k` papers left; later papers change
      neither that decision nor remove any row. */
  lemma {:induction false} HandledTurn(papers: seq<Paper>, flags: Flags, answers: nat -> Answers, t0: SeenTables, now: DateTime,
                                       n: nat, k: nat)
    requires k < n <= |papers|
    ensures var seenThen := Handled(papers, flags, answers, t0, now, k).tables.seen;
      && Handled(papers, flags, answers, t0, now, n).decisions[k] == Decide(SeenIn(seenThen, papers[k].link, papers[k].doi), flags, answers(k))
      && seenThen <= Handled(papers, flags, answers, t0, now, n).tables.seen
    decreases n
  {
    var prev := Handled(papers, flags, answers, t0, now, n - 1);
    var d := Handled(papers, flags, answers, t0, now, n).decisions[n - 1];
    TablesGrow(prev.tables, papers[n - 1], d, answers(n - 1), now);
    if k < n - 1 {
      HandledTurn(papers, flags, answers, t0, now, n - 1, k);
    }
  }

  /** One paper never removes a row. */
  lemma {:induction false} TablesGrow(t: SeenTables, p: Paper, d: Decision, a: Answers, now: DateTime)
    ensures t.seen <= PaperTables(t, p, d, a, now).seen
  {
    if Marks(d) {
      AfterAddSeenSpec(t, p.link, p.title, p.doi, p.sourceId, p.authorIds, Attempts(a), now);
    }
  }

  /** A paper seen at the start is treated as seen, whatever came before
      it in the run. */
  lemma {:induction false} HandledStartSeen(papers: seq<Paper>, flags: Flags, answers: nat -> Answers, t0: SeenTables, now: DateTime, n: nat)
    requires n <= |papers|
    ensures forall k :: 0 <= k < n && SeenIn(t0.seen, papers[k].link, papers[k].doi) ==>
      Handled(papers, flags, answers, t0, now, n).decisions[k] == Decide(true, flags, answers(k))
  {
    forall k | 0 <= k < n && SeenIn(t0.seen, papers[k].link, papers[k].doi)
      ensures Handled(papers, flags, answers, t0, now, n).decisions[k] == Decide(true, flags, answers(k))
    {
      HandledTurn(papers, flags, answers, t0, now, n, k);
      HandledSeenPrefix(papers, flags, answers, t0, now, k);
      SeenInGrows(t0.seen, Handled(papers, flags, answers, t0, now, k).tables.seen, papers[k].link, papers[k].doi);
    }
  }

  /** A paper the loop marks is seen at the end unless the database was
      unusable on all three attempts. */
  lemma {:induction false} HandledMarkedSeen(papers: seq<Paper>, flags: Flags, answers: nat -> Answers, t0: SeenTables, now: DateTime, n: nat)
    requires n <= |papers|
    ensures var r := Handled(papers, flags, answers, t0, now, n);
      forall k :: 0 <= k < n && Marks(r.decisions[k]) && FirstAvailable(Attempts(answers(k))).Some? ==>
        SeenIn(r.tables.seen, papers[k].link, papers[k].doi)
    decreases n
  {
    if n > 0 {
      var prev := Handled(papers, flags, answers, t0, now, n - 1);
      var r := Handled(papers, flags, answers, t0, now, n);
      var p, a, d := papers[n - 1], answers(n - 1), r.decisions[n - 1];
      HandledMarkedSeen(papers, flags, answers, t0, now, n - 1);
      TablesGrow(prev.tables, p, d, a, now);
      if Marks(d) {
        AfterAddSeenSpec(prev.tables, p.link, p.title, p.doi, p.sourceId, p.authorIds, Attempts(a), now);
      }
      forall k | 0 <= k < n - 1 && Marks(r.decisions[k]) && FirstAvailable(Attempts(answers(k))).Some?
        ensures SeenIn(r.tables.seen, papers[k].link, papers[k].doi)
      {
        assert r.decisions[k] == prev.decisions[k];
        SeenInGrows(prev.tables.seen, r.tables.seen, papers[k].link, papers[k].doi);
      }
    }
  }

  /** A paper the loop does not mark (skipped, without text, or with a
      failed synthesis) adds no row, nor does a marked one while the
      database is unusable: whatever is seen at the end and was not at the
      start shares the link or the DOI of a paper the loop marked while the
      database was usable. */
  lemma {:induction false} HandledNewRows(papers: seq<Paper>, flags: Flags, answers: nat -> Answers, t0: SeenTables, now: DateTime, n: nat)
    requires n <= |papers|
    ensures var r := Handled(papers, flags, answers, t0, now, n);
      forall l, doi :: SeenIn(r.tables.seen, l, doi) && !SeenIn(t0.seen, l, doi) ==>
        exists k :: 0 <= k < n && Marks(r.decisions[k]) && FirstAvailable(Attempts(answers(k))).Some?
                 && (l == papers[k].link || (Truthy(doi) && doi == papers[k].doi))
    decreases n
  {
    if n > 0 {
      var prev := Handled(papers, flags, answers, t0, now, n - 1);
      var r := Handled(papers, flags, answers, t0, now, n);
      var p, a, d := papers[n - 1], answers(n - 1), r.decisions[n - 1];
      HandledNewRows(papers, flags, answers, t0, now, n - 1);
      if Marks(d) {
        AfterAddSeenSpec(prev.tables, p.link, p.title, p.doi, p.sourceId, p.authorIds, Attempts(a), now);
      }
      forall l, doi | SeenIn(r.tables.seen, l, doi) && !SeenIn(t0.seen, l, doi)
        ensures exists k :: 0 <= k < n && Marks(r.decisions[k]) && FirstAvailable(Attempts(answers(k))).Some?
                         && (l == papers[k].link || (Truthy(doi) && doi == papers[k].doi))
      {
        if SeenIn(prev.tables.seen, l, doi) {
          var k :| 0 <= k < n - 1 && Marks(prev.decisions[k]) && FirstAvailable(Attempts(answers(k))).Some?
                   && (l == papers[k].link || (Truthy(doi) && doi == papers[k].doi));
          assert r.decisions[k] == prev.decisions[k];
        } else {
          assert Marks(d) && FirstAvailable(Attempts(a)).Some?;
        }
      }
    }
  }

  /** The tables only grow from the start. */
  lemma {:induction false} HandledSeenPrefix(papers: seq<Paper>, flags: Flags, answers: nat -> Answers, t0: SeenTables, now: DateTime, n: nat)
    requires n <= |papers|
    ensures t0.seen <= Handled(papers, flags, answers, t0, now, n).tables.seen
    decreases n
  {
    if n > 0 {
      var prev := Handled(papers, flags, answers, t0, now, n - 1);
      HandledSeenPrefix(papers, flags, answers, t0, now, n - 1);
      TablesGrow(prev.tables, papers[n - 1], Handled(papers, flags, answers, t0, now, n).decisions[n - 1], answers(n - 1), now);
    }
  }

  /** A run of one paper not seen before, judged relevant and with text: a
      successful synthesis is `Synthesized`, counted as processed and
      recorded when the database is usable; a failed one is
      `SynthesisFailed` and leaves the tables as they were. */
  lemma {:induction false} FreshRelevantPaper(p: Paper, flags: Flags, answers: nat -> Answers, t0: SeenTables, now: DateTime)
    requires !SeenIn(t0.seen, p.link, p.doi)
    requires answers(0).relevant && answers(0).text != ""
    ensures var r := Handled([p], flags, answers, t0, now, 1);
      && r.decisions == [if answers(0).synthesized then Synthesized else SynthesisFailed]
      && SynthesizedCount(r.decisions) == (if answers(0).synthesized then 1 else 0)
      && (answers(0).synthesized && FirstAvailable(Attempts(answers(0))).Some? ==> SeenIn(r.tables.seen, p.link, p.doi))
      && (!answers(0).synthesized ==> r.tables == t0)
  {
    assert Handled([p], flags, answers, t0, now, 0) == Progress([], t0);
    var r := Handled([p], flags, answers, t0, now, 1);
    var d := if answers(0).synthesized then Synthesized else SynthesisFailed;
    assert r.decisions == [d];
    assert [d][..0] == [];
    if answers(0).synthesized {
      AfterAddSeenSpec(t0, p.link, p.title, p.doi, p.sourceId, p.authorIds, Attempts(answers(0)), now);
    }
  }

  /** One turn of the paper loop with its bookkeeping: the next paper is
      decided, and both the loop invariant and the fold carry over. */
  method ProcessNext(db: Database, synth: Synthesizer, papers: seq<Paper>, flags: Flags, maxCost: real,
                     start: string, answers: nat -> Answers, now: DateTime,
                     ds: seq<Decision>, engines: seq<string>, relevant: nat, processed: nat, active: string,
                     ghost t0: SeenTables, ghost events0: seq<Event>, ghost added: seq<Event>)
    returns (ds': seq<Decision>, engines': seq<string>, relevant': nat, processed': nat, active': string,
             ghost added': seq<Event>)
    requires db.Valid() && |ds| < |papers|
    requires Progress(ds, db.Tables()) == Handled(papers, flags, answers, t0, now, |ds|)
    requires LoopInvariant(ds, added, engines, relevant, processed, start, active)
    requires events0 <= db.events && added == db.events[|events0|..]
    modifies db, synth
    ensures db.Valid()
    ensures |ds'| == |ds| + 1 && Progress(ds', db.Tables()) == Handled(papers, flags, answers, t0, now, |ds'|)
    ensures LoopInvariant(ds', added', engines', relevant', processed', start, active')
    ensures events0 <= db.events && added' == db.events[|events0|..]
    ensures db.monitoredJournals == old(db.monitoredJournals) && db.monitoredAuthors == old(db.monitoredAuthors)
    ensures synth.engine == old(synth.engine)
  {
    var i := |ds|;
    ghost var before, tables := db.events, db.Tables();
    var d, next, used := ProcessPaper(db, synth, papers[i], flags, maxCost, active, answers(i), now);
    HandledNext(papers, flags, answers, t0, now, ds, tables, d, db.Tables());
    LoopStep(ds, added, engines, relevant, processed, start, active, d, answers(i), maxCost, papers[i].title, next, used);
    ghost var step := StepEvents(d, active, answers(i), maxCost, papers[i].title);
    assert db.events[|before|..] == step;
    ds', added' := ds + [d], added + step;
    relevant' := relevant + (if CountsRelevant(d) then 1 else 0);
    processed' := processed + (if d.Synthesized? then 1 else 0);
    engines' := if used.Some? then engines + [used.value] else engines;
    active' := next;
    SliceAppend(events0, before, db.events);
  }

  /** The events since `a` are those up to `b`, then those after. */
  lemma {:induction false} SliceAppend<T>(a: seq<T>, b: seq<T>, c: seq<T>)
    requires a <= b <= c
    ensures c[|a|..] == b[|a|..] + c[|b|..]
  {
  }

  /** The paper loop of `main`: the decisions and the tables it leaves are
      those of the fold `Handled` over every paper, so paper `i` is decided
      by the state machine on `answers(i)` and on whether it was seen when
      its turn came (`HandledTurn`, `HandledSeen`). */
  method ProcessAll(db: Database, synth: Synthesizer, papers: seq<Paper>, flags: Flags, maxCost: real,
                    start: string, answers: nat -> Answers, now: DateTime)
    returns (ds: seq<Decision>, engines: seq<string>, relevant: nat, processed: nat, active: string)
    requires db.Valid()
    modifies db, synth
    ensures db.Valid()
    ensures Progress(ds, db.Tables()) == Handled(papers, flags, answers, old(db.Tables()), now, |papers|)
    ensures old(db.events) <= db.events
    ensures LoopInvariant(ds, db.events[|old(db.events)|..], engines, relevant, processed, start, active)
    ensures db.monitoredJournals == old(db.monitoredJournals) && db.monitoredAuthors == old(db.monitoredAuthors)
    ensures synth.engine == old(synth.engine)
  {
    ds, engines, relevant, processed, active := [], [], 0, 0, start;
    ghost var before, journals, authors, engine := db.events, db.monitoredJournals, db.monitoredAuthors, synth.engine;
    ghost var t0 := db.Tables();
    ghost var added: seq<Event> := [];
    while |ds| < |papers|
      invariant db.Valid()
      invariant |ds| <= |papers|
      invariant before <= db.events && added == db.events[|before|..]
      invariant Progress(ds, db.Tables()) == Handled(papers, flags, answers, t0, now, |ds|)
      invariant LoopInvariant(ds, added, engines, relevant, processed, start, active)
      invariant db.monitoredJournals == journals && db.monitoredAuthors == authors
      invariant synth.engine == engine
      decreases |papers| - |ds|
    {
      ds, engines, relevant, processed, active, added :=
        ProcessNext(db, synth, papers, flags, maxCost, start, answers, now,
                    ds, engines, relevant, processed, active, t0, before, added);
    }
  }

  /** What the loop invariant gives once every paper is processed. */
  lemma {:induction false} LoopDone(ds: seq<Decision>, added: seq<Event>, engines: seq<string>, relevant: nat, processed: nat,
                 start: string, active: string)
    requires LoopInvariant(ds, added, engines, relevant, processed, start, active)
    ensures SynthesizedCount(ds) <= RelevantCount(ds) <= |ds|
    ensures |engines| == RelevantCount(ds) - KindCount(added, "WARNING")
    ensures start == LocalEngine ==> forall k :: 0 <= k < |engines| ==> engines[k] == LocalEngine
    ensures KindCount(added, "BUDGET_WARNING") <= (if start == PaidEngine then 1 else 0)
  {
    CountsOrdered(ds);
    OneWayMeaning(engines, start);
  }

  /** The warnings and budget warnings one paper adds. */
  lemma {:induction false} StepEventCounts(d: Decision, active: string, a: Answers, maxCost: real, title: string)
    ensures KindCount(StepEvents(d, active, a, maxCost, title), "WARNING") == (if d.MissingText? then 1 else 0)
    ensures KindCount(StepEvents(d, active, a, maxCost, title), "BUDGET_WARNING")
         == (if CountsRelevant(d) && SwitchFires(active, a.costNow, maxCost) then 1 else 0)
  {
    var b: seq<Event> := if CountsRelevant(d) && SwitchFires(active, a.costNow, maxCost) then [Event("BUDGET_WARNING", BudgetMessage)] else [];
    var w: seq<Event> := if d.MissingText? then [Event("WARNING", MissingTextMessage(title))] else [];
    KindCountAppend(b, w, "WARNING");
    KindCountAppend(b, w, "BUDGET_WARNING");
  }

  // ------------------------------------------------------------ promotion

  /** The configured journal ids: every journal task's id split on `|`. */
  function ConfiguredJournals(tasks: seq<Task>): seq<string> {
    if tasks == [] then []
    else
      var init, t := tasks[..|tasks| - 1], tasks[|tasks| - 1];
      ConfiguredJournals(init) + (if t.kind == JournalTask then Split(t.arg, "|") else [])
  }

  /** The configured author ids: the whole id of every author and
      author-citations task, not split. */
  function ConfiguredAuthors(tasks: seq<Task>): seq<string> {
    if tasks == [] then []
    else
      var init, t := tasks[..|tasks| - 1], tasks[|tasks| - 1];
      ConfiguredAuthors(init) + (if t.kind == AuthorTask || t.kind == AuthorCitationsTask then [t.arg] else [])
  }

  method CollectConfiguredJournals(tasks: seq<Task>) returns (ids: seq<string>)
    ensures ids == ConfiguredJournals(tasks)
  {
    ids := [];
    for i := 0 to |tasks|
      invariant ids == ConfiguredJournals(tasks[..i])
    {
      assert tasks[..i + 1][..i] == tasks[..i];
      if tasks[i].kind == JournalTask {
        ids := ids + Split(tasks[i].arg, "|");
      }
    }
    assert tasks[..|tasks|] == tasks;
  }

  method CollectConfiguredAuthors(tasks: seq<Task>) returns (ids: seq<string>)
    ensures ids == ConfiguredAuthors(tasks)
  {
    ids := [];
    for i := 0 to |tasks|
      invariant ids == ConfiguredAuthors(tasks[..i])
    {
      assert tasks[..i + 1][..i] == tasks[..i];
      if tasks[i].kind == AuthorTask || tasks[i].kind == AuthorCitationsTask {
        ids := ids + [tasks[i].arg];
      }
    }
    assert tasks[..|tasks|] == tasks;
  }

  /** A journal id listed inside a configured `|`-joined journal task is
      never promoted, but an author id inside a `|`-joined author task is:
      the author ids are compared whole. */
  lemma {:induction false} ConfiguredIdsAsymmetry(a: string, b: string)
    requires !Contains(a, "|") && !Contains(b, "|")
    ensures a in ConfiguredJournals([Task("journals", JournalTask, a + "|" + b)])
    ensures ConfiguredAuthors([Task("authors", AuthorTask, a + "|" + b)]) == [a + "|" + b]
    ensures a !in ConfiguredAuthors([Task("authors", AuthorTask, a + "|" + b)])
  {
    var tasks := [Task("journals", JournalTask, a + "|" + b)];
    assert tasks[..0] == [];
    SplitAfterFree(a, "|", b);
    assert Split(a + "|" + b, "|")[0] == a;
    assert |a + "|" + b| > |a|;
  }

  /** The message of a promotion event. */
  function PromotionMessage(isAuthor: bool, id: string): string {
    (if isAuthor then "Author " else "Journal ") + id + PromotionSuffix
  }

  /** The fixed tail of a promotion message. */
  const PromotionSuffix := " reached relevance threshold and is now being automatically monitored."

  /** The `PROMOTION` events for the ids promoted, in order. */
  function PromotionEvents(ids: seq<string>, isAuthor: bool): (r: seq<Event>)
    ensures |r| == |ids|
  {
    if ids == [] then []
    else PromotionEvents(ids[..|ids| - 1], isAuthor) + [Event("PROMOTION", PromotionMessage(isAuthor, ids[|ids| - 1]))]
  }

  /** One `PROMOTION` event per promoted id, naming it, in the same order. */
  lemma {:induction false} PromotionEventsAt(ids: seq<string>, isAuthor: bool)
    ensures forall k :: 0 <= k < |ids| ==>
      PromotionEvents(ids, isAuthor)[k] == Event("PROMOTION", PromotionMessage(isAuthor, ids[k]))
  {
    if ids != [] {
      PromotionEventsAt(ids[..|ids| - 1], isAuthor);
    }
  }

  lemma {:induction false} PromotionEventsSnoc(ids: seq<string>, id: string, isAuthor: bool)
    ensures PromotionEvents(ids + [id], isAuthor) == PromotionEvents(ids, isAuthor) + [Event("PROMOTION", PromotionMessage(isAuthor, id))]
  {
    assert (ids + [id])[..|ids|] == ids;
  }

  /** What promotion can touch in the ledger, seen from one kind: the
      monitored list of that kind, the other kind's list, the events, and
      the rest of the tables. */
  datatype Ledger = Ledger(
    monitored: seq<string>,
    other: seq<string>,
    events: seq<Event>,
    seen: seq<SeenRow>,
    links: seq<AuthorLink>,
    nextId: nat,
    usage: seq<UsageRow>)

  function Snapshot(db: Database, isAuthor: bool): Ledger
    reads db
  {
    Ledger(
      if isAuthor then db.monitoredAuthors else db.monitoredJournals,
      if isAuthor then db.monitoredJournals else db.monitoredAuthors,
      db.events, db.seen, db.paperAuthors, db.nextId, db.usage)
  }

  /** `after` is `before` with the ids of `order` monitored and announced,
      in that order, and nothing else changed. */
  ghost predicate Promoted(before: Ledger, after: Ledger, order: seq<string>, isAuthor: bool) {
    && (forall x :: x in after.monitored <==> x in before.monitored || x in order)
    && after.events == before.events + PromotionEvents(order, isAuthor)
    && after.other == before.other && after.seen == before.seen && after.links == before.links
    && after.nextId == before.nextId && after.usage == before.usage
  }

  lemma {:induction false} PromotedStep(before: Ledger, mid: Ledger, after: Ledger, order: seq<string>, id: string, isAuthor: bool)
    requires Promoted(before, mid, order, isAuthor)
    requires Promoted(mid, after, [id], isAuthor)
    ensures Promoted(before, after, order + [id], isAuthor)
  {
    PromotionEventsSnoc(order, id, isAuthor);
    assert PromotionEvents([id], isAuthor) == [Event("PROMOTION", PromotionMessage(isAuthor, id))] by {
      assert [id][..0] == [];
    }
  }

  /** Monitors one id and logs its `PROMOTION` event. */
  method PromoteOne(db: Database, id: string, isAuthor: bool)
    requires db.Valid()
    modifies db
    ensures db.Valid()
    ensures Promoted(old(Snapshot(db, isAuthor)), Snapshot(db, isAuthor), [id], isAuthor)
  {
    if isAuthor {
      db.AddMonitoredAuthor(id);
    } else {
      db.AddMonitoredJournal(id);
    }
    db.AddEvent("PROMOTION", PromotionMessage(isAuthor, id));
    assert [id][..0] == [];
  }

  /** The promotion loop shared by journals and authors: every promotable id
      that is not configured is monitored, with one `PROMOTION` event each,
      in the order the ids were taken. */
  method Promote(db: Database, promotable: set<string>, existing: seq<string>, isAuthor: bool)
    returns (order: seq<string>)
    requires db.Valid()
    modifies db
    ensures db.Valid()
    ensures forall x :: x in order <==> x in promotable && x !in existing
    ensures Distinct(order)
    ensures Promoted(old(Snapshot(db, isAuthor)), Snapshot(db, isAuthor), order, isAuthor)
  {
    order := [];
    var todo := promotable;
    ghost var start := Snapshot(db, isAuthor);
    assert Promoted(start, Snapshot(db, isAuthor), order, isAuthor);
    while todo != {}
      invariant db.Valid()
      invariant Taken(order, promotable, todo, existing)
      invariant Promoted(start, Snapshot(db, isAuthor), order, isAuthor)
      decreases todo
    {
      var s :| s in todo;
      TakeStep(order, promotable, todo, existing, s);
      todo := todo - {s};
      if s !in existing {
        ghost var mid := Snapshot(db, isAuthor);
        PromoteOne(db, s, isAuthor);
        PromotedStep(start, mid, Snapshot(db, isAuthor), order, s, isAuthor);
        order := order + [s];
      }
    }
  }

  /** The ids taken so far are exactly the promotable ones no longer to do
      and not configured, each once. */
  ghost predicate Taken(order: seq<string>, promotable: set<string>, todo: set<string>, existing: seq<string>) {
    && todo <= promotable
    && (forall x :: x in order <==> x in promotable && x !in todo && x !in existing)
    && Distinct(order)
  }

  lemma {:induction false} TakeStep(order: seq<string>, promotable: set<string>, todo: set<string>, existing: seq<string>, s: string)
    requires Taken(order, promotable, todo, existing) && s in todo
    ensures Taken(if s in existing then order else order + [s], promotable, todo - {s}, existing)
  {
  }

  /** The journal promotion step of `main`: the journals that reached the
      threshold and are not configured. */
  method PromoteJournals(db: Database, tasks: seq<Task>) returns (order: seq<string>)
    requires db.Valid()
    modifies db
    ensures db.Valid()
    ensures forall x :: x in order <==>
      x in PromotableJournalsIn(old(db.seen), old(db.monitoredJournals), PromotionThreshold) && x !in ConfiguredJournals(tasks)
    ensures Distinct(order)
    ensures forall x :: x in db.monitoredJournals <==> x in old(db.monitoredJournals) || x in order
    ensures db.events == old(db.events) + PromotionEvents(order, false)
    ensures db.seen == old(db.seen) && db.paperAuthors == old(db.paperAuthors) && db.nextId == old(db.nextId)
    ensures db.monitoredAuthors == old(db.monitoredAuthors) && db.usage == old(db.usage)
  {
    var promotable := db.PromotableJournals(PromotionThreshold);
    if promotable == {} {
      return [];
    }
    var existing := CollectConfiguredJournals(tasks);
    order := Promote(db, promotable, existing, false);
  }

  /** The author promotion step of `main`, comparing whole configured author
      ids. */
  method PromoteAuthors(db: Database, tasks: seq<Task>) returns (order: seq<string>)
    requires db.Valid()
    modifies db
    ensures db.Valid()
    ensures forall x :: x in order <==>
      x in PromotableAuthorsIn(old(db.paperAuthors), old(db.monitoredAuthors), PromotionThreshold) && x !in ConfiguredAuthors(tasks)
    ensures Distinct(order)
    ensures forall x :: x in db.monitoredAuthors <==> x in old(db.monitoredAuthors) || x in order
    ensures db.events == old(db.events) + PromotionEvents(order, true)
    ensures db.seen == old(db.seen) && db.paperAuthors == old(db.paperAuthors) && db.nextId == old(db.nextId)
    ensures db.monitoredJournals == old(db.monitoredJournals) && db.usage == old(db.usage)
  {
    var promotable := db.PromotableAuthors(PromotionThreshold);
    if promotable == {} {
      return [];
    }
    var existing := CollectConfiguredAuthors(tasks);
    order := Promote(db, promotable, existing, true);
  }

  // ------------------------------------------------------------ the run

  /** How a run ended: early for a DOI with no metadata, or after the loop
      with its counts, the engines synthesis ran on, each paper's decision,
      and the journals and authors promoted. */
  datatype RunOutcome =
    | NoMetadata
    | Finished(total: nat, relevant: nat, processed: nat, engines: seq<string>, decisions: seq<Decision>,
               journals: seq<string>, authors: seq<string>)

  /** The events a finished run logs after the paper loop: the summary, then
      one promotion event per promoted journal, then per promoted author. */
  function ClosingEvents(o: RunOutcome): seq<Event>
    requires o.Finished?
  {
    [Event("SUMMARY", SummaryMessage(o.total, o.relevant, o.processed))]
      + PromotionEvents(o.journals, false) + PromotionEvents(o.authors, true)
  }

  /** The engine a run starts on: the configured one, or the local one when
      the month's cost already reached the cap. */
  function StartEngine(configured: string, startCost: real, maxCost: real): string {
    if startCost >= maxCost then LocalEngine else configured
  }

  /** The events of a finished run: those of `before`, then the paper
      loop's `loop`, with at most one budget warning among them, then the
      closing events. */
  ghost predicate ClosedBy(before: seq<Event>, loop: seq<Event>, after: seq<Event>, o: RunOutcome)
    requires o.Finished?
  {
    && after == before + loop + ClosingEvents(o)
    && KindCount(loop, "BUDGET_WARNING") <= 1
  }

  /** Promotion at the end of a run: the promoted journals are exactly the
      promotable ones (over the final tables and the monitored list before
      the run) outside the configured journal tasks, the promoted authors
      likewise against whole configured author ids, each once; the monitored
      lists gain exactly those. */
  ghost predicate PromotedPerConfig(promotedJournals: seq<string>, promotedAuthors: seq<string>, tasks: seq<Task>,
                                    seen: seq<SeenRow>, links: seq<AuthorLink>,
                                    journals0: seq<string>, authors0: seq<string>, journals: seq<string>, authors: seq<string>)
  {
    && (forall x :: x in promotedJournals <==>
          x in PromotableJournalsIn(seen, journals0, PromotionThreshold) && x !in ConfiguredJournals(tasks))
    && (forall x :: x in promotedAuthors <==>
          x in PromotableAuthorsIn(links, authors0, PromotionThreshold) && x !in ConfiguredAuthors(tasks))
    && Distinct(promotedJournals) && Distinct(promotedAuthors)
    && (forall x :: x in journals <==> x in journals0 || x in promotedJournals)
    && (forall x :: x in authors <==> x in authors0 || x in promotedAuthors)
  }

  /** `main` after argument parsing, without site generation and
      deployment. A finished run decides every paper and leaves the tables
      as the fold `Handled` does, each paper on the seen flag it had when
      its turn came; it
      logs the loop's events, then the summary and the promotions
      (`ClosedBy`), and monitors exactly the promotable journals and authors
      that are not configured (`PromotedPerConfig`). */
  method Run(db: Database, synth: Synthesizer, flags: Flags, configured: string, maxCost: real,
             tasks: seq<Task>, manual: seq<Paper>, rss: seq<Paper>, discovered: seq<Paper>,
             answers: nat -> Answers, costFailed: bool, now: DateTime)
    returns (outcome: RunOutcome, ghost loopEvents: seq<Event>)
    requires db.Valid()
    modifies db, synth
    ensures db.Valid()
    ensures outcome.NoMetadata? <==> RunPapers(flags, manual, rss, discovered).None?
    ensures outcome.NoMetadata? ==>
      && db.events == old(db.events) + [Event("ERROR", NoMetadataMessage(flags.addDoi.value))]
      && db.Tables() == old(db.Tables()) && db.monitoredJournals == old(db.monitoredJournals)
      && db.monitoredAuthors == old(db.monitoredAuthors)
    ensures outcome.Finished? ==>
      var papers := RunPapers(flags, manual, rss, discovered).value;
      && outcome.total == |papers|
      && Progress(outcome.decisions, db.Tables()) == Handled(papers, flags, answers, old(db.Tables()), now, |papers|)
      && outcome.relevant == RelevantCount(outcome.decisions) && outcome.processed == SynthesizedCount(outcome.decisions)
      && outcome.processed <= outcome.relevant <= outcome.total
      && OneWay(outcome.engines, StartEngine(configured, old(db.MonthlyCost(now, costFailed)), maxCost))
      && (old(db.MonthlyCost(now, costFailed)) >= maxCost ==>
            forall k :: 0 <= k < |outcome.engines| ==> outcome.engines[k] == LocalEngine)
      && ClosedBy(old(db.events), loopEvents, db.events, outcome)
      && PromotedPerConfig(outcome.journals, outcome.authors, tasks, db.seen, db.paperAuthors, old(db.monitoredJournals), old(db.monitoredAuthors),
                           db.monitoredJournals, db.monitoredAuthors)
    ensures synth.engine == old(synth.engine)
  {
    loopEvents := [];
    var chosen := RunPapers(flags, manual, rss, discovered);
    if chosen.None? {
      db.AddEvent("ERROR", NoMetadataMessage(flags.addDoi.value));
      return NoMetadata, loopEvents;
    }
    outcome, loopEvents := RunChosen(db, synth, chosen.value, flags, configured, maxCost, tasks, answers, costFailed, now);
  }

  /** What the paper loop of a run guarantees: the decisions and the
      tables `t` are those of the fold `Handled` from the tables `t0`, the
      counts those of the decisions, and the engines used running one way
      from the start engine, all local when the run starts local. */
  ghost predicate LoopFacts(papers: seq<Paper>, flags: Flags, answers: nat -> Answers, now: DateTime, t0: SeenTables,
                            ds: seq<Decision>, t: SeenTables,
                            relevant: nat, processed: nat, engines: seq<string>, start: string) {
    && Progress(ds, t) == Handled(papers, flags, answers, t0, now, |papers|)
    && relevant == RelevantCount(ds) && processed == SynthesizedCount(ds)
    && processed <= relevant <= |papers|
    && OneWay(engines, start)
    && (start == LocalEngine ==> forall k :: 0 <= k < |engines| ==> engines[k] == LocalEngine)
  }

  /** A run once its papers are chosen: the loop, the summary and the
      promotions. */
  method RunChosen(db: Database, synth: Synthesizer, papers: seq<Paper>, flags: Flags, configured: string, maxCost: real,
                   tasks: seq<Task>, answers: nat -> Answers, costFailed: bool, now: DateTime)
    returns (outcome: RunOutcome, ghost loopEvents: seq<Event>)
    requires db.Valid()
    modifies db, synth
    ensures db.Valid()
    ensures outcome.Finished? && outcome.total == |papers|
    ensures LoopFacts(papers, flags, answers, now, old(db.Tables()), outcome.decisions, db.Tables(),
                      outcome.relevant, outcome.processed, outcome.engines,
                      StartEngine(configured, old(db.MonthlyCost(now, costFailed)), maxCost))
    ensures ClosedBy(old(db.events), loopEvents, db.events, outcome)
    ensures PromotedPerConfig(outcome.journals, outcome.authors, tasks, db.seen, db.paperAuthors,
                              old(db.monitoredJournals), old(db.monitoredAuthors), db.monitoredJournals, db.monitoredAuthors)
    ensures synth.engine == old(synth.engine)
  {
    var ds, relevant, processed, engines;
    ds, relevant, processed, engines, loopEvents := RunLoop(db, synth, papers, flags, configured, maxCost, answers, costFailed, now);
    outcome := Conclude(db, tasks, |papers|, relevant, processed, engines, ds);
  }

  /** The end of a run: the summary event, then journal and author
      promotion. Only the events and the monitored lists change. */
  method Conclude(db: Database, tasks: seq<Task>, total: nat, relevant: nat, processed: nat,
                  engines: seq<string>, ds: seq<Decision>)
    returns (outcome: RunOutcome)
    requires db.Valid()
    modifies db
    ensures db.Valid()
    ensures outcome.Finished? && outcome.total == total && outcome.relevant == relevant
    ensures outcome.processed == processed && outcome.engines == engines && outcome.decisions == ds
    ensures db.events == old(db.events) + ClosingEvents(outcome)
    ensures db.Tables() == old(db.Tables())
    ensures PromotedPerConfig(outcome.journals, outcome.authors, tasks, db.seen, db.paperAuthors, old(db.monitoredJournals), old(db.monitoredAuthors),
                              db.monitoredJournals, db.monitoredAuthors)
  {
    ghost var before := db.events;
    db.AddEvent("SUMMARY", SummaryMessage(total, relevant, processed));
    var journals, authors := PromoteAll(db, tasks);
    outcome := Finished(total, relevant, processed, engines, ds, journals, authors);
    AppendRegroup(before, [Event("SUMMARY", SummaryMessage(total, relevant, processed))],
                  PromotionEvents(journals, false), PromotionEvents(authors, true));
  }

  lemma {:induction false} AppendRegroup<T>(a: seq<T>, b: seq<T>, c: seq<T>, d: seq<T>)
    ensures a + b + c + d == a + (b + c + d)
  {
  }

  /** Journal promotion, then author promotion. */
  method PromoteAll(db: Database, tasks: seq<Task>) returns (journals: seq<string>, authors: seq<string>)
    requires db.Valid()
    modifies db
    ensures db.Valid()
    ensures db.events == old(db.events) + PromotionEvents(journals, false) + PromotionEvents(authors, true)
    ensures db.Tables() == old(db.Tables())
    ensures PromotedPerConfig(journals, authors, tasks, db.seen, db.paperAuthors, old(db.monitoredJournals), old(db.monitoredAuthors),
                              db.monitoredJournals, db.monitoredAuthors)
  {
    journals := PromoteJournals(db, tasks);
    authors := PromoteAuthors(db, tasks);
  }

  /** The budget check before the loop, then the loop: the run starts on
      the local engine when the month's cost already reached the cap, every
      paper is decided as `LoopFacts` says, and the governor logs at most
      one budget warning, none on a local start. */
  method RunLoop(db: Database, synth: Synthesizer, papers: seq<Paper>, flags: Flags, configured: string, maxCost: real,
                 answers: nat -> Answers, costFailed: bool, now: DateTime)
    returns (ds: seq<Decision>, relevant: nat, processed: nat, engines: seq<string>, ghost loopEvents: seq<Event>)
    requires db.Valid()
    modifies db, synth
    ensures db.Valid()
    ensures LoopFacts(papers, flags, answers, now, old(db.Tables()), ds, db.Tables(), relevant, processed, engines,
                      StartEngine(configured, old(db.MonthlyCost(now, costFailed)), maxCost))
    ensures db.events == old(db.events) + loopEvents
    ensures KindCount(loopEvents, "BUDGET_WARNING")
         <= (if StartEngine(configured, old(db.MonthlyCost(now, costFailed)), maxCost) == PaidEngine then 1 else 0)
    ensures db.monitoredJournals == old(db.monitoredJournals) && db.monitoredAuthors == old(db.monitoredAuthors)
    ensures synth.engine == old(synth.engine)
  {
    var startCost := db.MonthlyCost(now, costFailed);
    var active := StartEngine(configured, startCost, maxCost);
    ghost var events0 := db.events;
    var last;
    ds, engines, relevant, processed, last := ProcessAll(db, synth, papers, flags, maxCost, active, answers, now);
    loopEvents := db.events[|events0|..];
    LoopDone(ds, loopEvents, engines, relevant, processed, active, last);
    OneWayMeaning(engines, active);
    assert db.events == events0 + loopEvents;
  }

  /** The run summary, without its cost figures. */
  function SummaryMessage(total: nat, relevant: nat, processed: nat): string {
    "Pipeline finished. Found " + NatText(total) + " papers, " + NatText(relevant) + " were relevant, "
      + NatText(processed) + " successfully synthesized."
  }

  // ------------------------------------------------------------ backfill override

  /** `--backfill N`: discovery starts N days before today; the option is
      read as a truth value, so `--backfill 0` is the same as no option. */
  function BackfillOverride(backfill: Option<int>, today: int): (r: Option<int>)
    ensures r.Some? <==> backfill.Some? && backfill.value != 0
  {
    if backfill.Some? && backfill.value != 0 then Some(today - backfill.value) else None
  }

  /** With a non-zero `--backfill N` the discovery window opens N days ago
      whatever the last run was; with none, or zero, it opens at the last
      run's date. */
  lemma {:induction false} BackfillWindow(backfill: Option<int>, lastRun: Date, today: int)
    ensures backfill.Some? && backfill.value != 0 ==>
      DiscoveryWindow(BackfillOverride(backfill, today), None, Some(lastRun), today).fromDay == today - backfill.value
    ensures backfill.None? || backfill.value == 0 ==>
      DiscoveryWindow(BackfillOverride(backfill, today), None, Some(lastRun), today).fromDay == DayOfDate(lastRun)
    ensures DiscoveryWindow(BackfillOverride(backfill, today), None, Some(lastRun), today).toDay == today + 7
  {
  }

  // ------------------------------------------------------------ lemmas

  /** In DOI mode the paper is neither skipped as seen nor filtered out. */
  lemma {:induction false} DoiModeBypassesFilter(seenBefore: bool, flags: Flags, a: Answers)
    requires AddDoiMode(flags)
    ensures CountsRelevant(Decide(seenBefore, flags, a))
  {
  }

  /** A paper is recorded exactly when it is irrelevant or its synthesis
      succeeded; a paper without text, or whose synthesis failed, is left
      for a later run. */
  lemma {:induction false} MarkedIff(seenBefore: bool, flags: Flags, a: Answers)
    requires flags.forceAll || AddDoiMode(flags) || !seenBefore
    ensures Marks(Decide(seenBefore, flags, a)) <==>
      (!AddDoiMode(flags) && !a.relevant) || (a.text != "" && a.synthesized)
  {
  }

  /** A seen paper is skipped unless forced or in DOI mode. */
  lemma {:induction false} SeenSkipped(flags: Flags, a: Answers)
    ensures Decide(true, flags, a).Skipped? <==> !flags.forceAll && !AddDoiMode(flags)
  {
  }

  /** The governor only ever moves from the paid engine to the local one. */
  lemma {:induction false} GovernorOneWay(active: string, costNow: real, maxCost: real)
    ensures Governed(active, costNow, maxCost) == active || Governed(active, costNow, maxCost) == LocalEngine
    ensures active == LocalEngine ==> Governed(active, costNow, maxCost) == LocalEngine
    ensures Governed(active, costNow, maxCost) != active <==> SwitchFires(active, costNow, maxCost)
  {
  }
}
