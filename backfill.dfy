/**
  The backfill driver (`backfill.py`): each run walks a persisted cursor one
  week further into the past, down to 2000-01-01, and runs the pipeline for
  that week as a child process.

  Times are seconds since 1970-01-01 (naive local time, as `datetime.now()`
  gives it) and dates are day numbers since then. The cursor store is a map
  from key to the day number of the stored `%Y-%m-%d` text; the text of a
  date in a message is `dateText` of its day number; the child pipeline is
  its argument list plus an oracle for everything other than argument
  parsing.
*/
module Backfill {
  import opened Wrappers
  import opened Models
  import opened Db

  /** `datetime(2000, 1, 1)`, as a day number and in seconds. */
  const LimitDay: int := 10957
  const Limit: int := LimitDay * 86400
  const CursorKey: string := "backfill_cursor"

  lemma {:induction false} LimitIsY2k()
    ensures Limit == DayOfDate(Date(2000, 1, 1)) * 86400
  {
    Y2kIsDay10957();
  }

  /** The day a time falls on (`strftime("%Y-%m-%d")`, as a day number). */
  function DayOf(t: int): int {
    t / 86400
  }

  /** The key→text store behind `get_metadata`/`set_metadata`. */
  class Metadata {
    var entries: map<string, int>

    constructor ()
      ensures entries == map[]
    {
      entries := map[];
    }

    method Get(key: string) returns (r: Option<int>)
      ensures r == if key in entries then Some(entries[key]) else None
    {
      r := if key in entries then Some(entries[key]) else None;
    }

    method Set(key: string, value: int)
      modifies this
      ensures entries == old(entries)[key := value]
    {
      entries := entries[key := value];
    }
  }

  // ------------------------------------------------------------ the window

  /** The cursor: midnight of the stored date, or a week before now when
      nothing is stored. */
  function Cursor(stored: Option<int>, now: int): int {
    match stored
    case Some(day) => day * 86400
    case None => now - 7 * 86400
  }

  /** The week before the cursor, clamped to the limit; `None` once the
      whole week lies at or before the limit. */
  function StepWindow(cursor: int): (w: Option<(int, int)>)
    ensures w.None? <==> cursor <= Limit
    ensures w.Some? ==> Limit <= w.value.0 < w.value.1 == cursor && w.value.1 - w.value.0 <= 7 * 86400
    ensures w.Some? && cursor - 7 * 86400 >= Limit ==> w.value.0 == cursor - 7 * 86400
    ensures w.Some? && cursor - 7 * 86400 < Limit ==> w.value.0 == Limit
  {
    var start := cursor - 7 * 86400;
    if start < Limit then
      if cursor <= Limit then None else Some((Limit, cursor))
    else Some((start, cursor))
  }

  /** `(now - start_date).days`: whole days, rounded down. */
  function DaysBack(now: int, start: int): int {
    (now - start) / 86400
  }

  /** `main` turns `--backfill N` back into a date by going N days back from
      its own `now`; when the child starts on the same day as the step and
      the window starts at midnight (a stored cursor, or the limit), or at
      now's time of day (the first run), that is the window's first day. */
  lemma {:induction false} BackfillDateIsStart(now: int, start: int)
    requires start <= now
    requires start % 86400 == 0 || start % 86400 == now % 86400
    ensures DayOf(now - DaysBack(now, start) * 86400) == DayOf(start)
  {
    var q := DaysBack(now, start);
    var r := (now - start) % 86400;
    assert now - start == q * 86400 + r;
    assert now - q * 86400 == start + r;
    var sq, sr := start / 86400, start % 86400;
    assert start == sq * 86400 + sr;
    if sr == 0 {
      assert start + r == sq * 86400 + r;
    } else {
      var nq, nr := now / 86400, now % 86400;
      assert now == nq * 86400 + nr;
      assert now - start == (nq - sq) * 86400;
      assert r == 0;
    }
    assert start + r == sq * 86400 + (sr + r);
    assert 0 <= sr + r < 86400;
  }

  // ------------------------------------------------------------ the child

  /** The long options that occur on either side of the child call. */
  datatype OptionName = DeployOpt | ForceAllOpt | GenerateOnlyOpt | RssOpt | AddDoiOpt | BackfillOpt | ToDateOpt | BackfillModeOpt

  /** How each option is spelled on the command line. */
  function Spelling(n: OptionName): string {
    match n
    case DeployOpt => "--deploy"
    case ForceAllOpt => "--force-all"
    case GenerateOnlyOpt => "--generate-only"
    case RssOpt => "--rss"
    case AddDoiOpt => "--add-doi"
    case BackfillOpt => "--backfill"
    case ToDateOpt => "--to-date"
    case BackfillModeOpt => "--backfill-mode"
  }

  /** One command-line argument: an option, or a plain word (a value). */
  datatype Arg = Opt(name: OptionName) | Word(text: string)

  /** One option an `argparse` parser declares: a switch, or an option that
      takes the next argument as its value. */
  datatype OptionSpec = Switch(name: OptionName) | Valued(name: OptionName)

  /** The options `main` declares. */
  const MainOptions: seq<OptionSpec> := [
    Switch(DeployOpt), Switch(ForceAllOpt), Switch(GenerateOnlyOpt), Switch(RssOpt),
    Valued(AddDoiOpt), Valued(BackfillOpt)]

  /** `main` with the two options the backfill driver relies on. */
  const CorrectedMainOptions: seq<OptionSpec> := MainOptions + [Valued(ToDateOpt), Switch(BackfillModeOpt)]

  /** The declaration of an option, if the parser has one. */
  function Lookup(options: seq<OptionSpec>, n: OptionName): Option<OptionSpec> {
    if options == [] then None
    else if options[0].name == n then Some(options[0])
    else Lookup(options[1..], n)
  }

  /** An option is found exactly when one of that name is declared, and
      what is found is a declaration of that name. */
  lemma {:induction false} LookupMeaning(options: seq<OptionSpec>, n: OptionName)
    ensures Lookup(options, n).Some? <==> exists o :: o in options && o.name == n
    ensures Lookup(options, n).Some? ==> Lookup(options, n).value in options && Lookup(options, n).value.name == n
  {
    if options != [] && options[0].name != n {
      LookupMeaning(options[1..], n);
      assert forall o :: o in options <==> o == options[0] || o in options[1..];
    }
  }

  /** Options added after a table are found only when the table lacks
      them. */
  lemma {:induction false} LookupAppend(options: seq<OptionSpec>, more: seq<OptionSpec>, n: OptionName)
    ensures Lookup(options + more, n) == if Lookup(options, n).Some? then Lookup(options, n) else Lookup(more, n)
  {
    if options != [] {
      assert (options + more)[1..] == options[1..] + more;
      LookupAppend(options[1..], more, n);
    } else {
      assert options + more == more;
    }
  }

  /** Whether `parse_args` accepts an argument list; it exits with status 2
      on an undeclared option, a missing value or a stray word. */
  function Accepts(options: seq<OptionSpec>, args: seq<Arg>): bool
    decreases |args|
  {
    if args == [] then true
    else match args[0]
      case Word(_) => false
      case Opt(n) =>
        match Lookup(options, n)
        case None => false
        case Some(Switch(_)) => Accepts(options, args[1..])
        case Some(Valued(_)) => |args| >= 2 && args[1].Word? && Accepts(options, args[2..])
  }

  /** `str(n)`. */
  function IntText(n: int): string {
    if n < 0 then "-" + NatText(-n) else NatText(n)
  }

  /** The arguments the driver gives `src.main`. */
  function ChildArgs(daysBack: int, endText: string, deploy: bool): seq<Arg> {
    [Opt(BackfillOpt), Word(IntText(daysBack)), Opt(ToDateOpt), Word(endText), Opt(BackfillModeOpt)]
      + (if deploy then [Opt(DeployOpt)] else [])
  }

  /** A declared valued option and its word are consumed together. */
  lemma {:induction false} AcceptsValued(options: seq<OptionSpec>, n: OptionName, w: string, rest: seq<Arg>)
    requires Lookup(options, n) == Some(Valued(n))
    ensures Accepts(options, [Opt(n), Word(w)] + rest) == Accepts(options, rest)
  {
    assert ([Opt(n), Word(w)] + rest)[2..] == rest;
  }

  /** A declared switch is consumed alone. */
  lemma {:induction false} AcceptsSwitch(options: seq<OptionSpec>, n: OptionName, rest: seq<Arg>)
    requires Lookup(options, n) == Some(Switch(n))
    ensures Accepts(options, [Opt(n)] + rest) == Accepts(options, rest)
  {
    assert ([Opt(n)] + rest)[1..] == rest;
  }

  /** An undeclared option stops the parse. */
  lemma {:induction false} RejectsUndeclared(options: seq<OptionSpec>, n: OptionName, rest: seq<Arg>)
    requires Lookup(options, n).None?
    ensures !Accepts(options, [Opt(n)] + rest)
  {
  }

  /** Where the options the driver passes are declared in `main`. */
  lemma {:induction false} MainLookups()
    ensures Lookup(MainOptions, BackfillOpt) == Some(Valued(BackfillOpt))
    ensures Lookup(MainOptions, DeployOpt) == Some(Switch(DeployOpt))
    ensures Lookup(MainOptions, ToDateOpt).None?
    ensures Lookup(MainOptions, BackfillModeOpt).None?
  {
  }

  /** With the two added options every option the driver passes is declared. */
  lemma {:induction false} CorrectedLookups()
    ensures Lookup(CorrectedMainOptions, BackfillOpt) == Some(Valued(BackfillOpt))
    ensures Lookup(CorrectedMainOptions, DeployOpt) == Some(Switch(DeployOpt))
    ensures Lookup(CorrectedMainOptions, ToDateOpt) == Some(Valued(ToDateOpt))
    ensures Lookup(CorrectedMainOptions, BackfillModeOpt) == Some(Switch(BackfillModeOpt))
  {
    MainLookups();
    var added := [Valued(ToDateOpt), Switch(BackfillModeOpt)];
    LookupAppend(MainOptions, added, BackfillOpt);
    LookupAppend(MainOptions, added, DeployOpt);
    LookupAppend(MainOptions, added, ToDateOpt);
    LookupAppend(MainOptions, added, BackfillModeOpt);
  }

  /** As written, `main` rejects every command the driver builds: it
      declares no `--to-date`. */
  lemma {:induction false} ChildArgsRejected(daysBack: int, endText: string, deploy: bool)
    ensures !Accepts(MainOptions, ChildArgs(daysBack, endText, deploy))
  {
    var o := MainOptions;
    var tail: seq<Arg> := if deploy then [Opt(DeployOpt)] else [];
    var rest := [Word(endText), Opt(BackfillModeOpt)] + tail;
    var days := IntText(daysBack);
    assert ChildArgs(daysBack, endText, deploy) == [Opt(BackfillOpt), Word(days)] + ([Opt(ToDateOpt)] + rest);
    MainLookups();
    AcceptsValued(o, BackfillOpt, days, [Opt(ToDateOpt)] + rest);
    RejectsUndeclared(o, ToDateOpt, rest);
  }

  /** With both options declared, every command the driver builds parses. */
  lemma {:induction false} ChildArgsAccepted(daysBack: int, endText: string, deploy: bool)
    ensures Accepts(CorrectedMainOptions, ChildArgs(daysBack, endText, deploy))
  {
    var o := CorrectedMainOptions;
    var tail: seq<Arg> := if deploy then [Opt(DeployOpt)] else [];
    var r2 := [Opt(BackfillModeOpt)] + tail;
    var r1 := [Opt(ToDateOpt), Word(endText)] + r2;
    var days := IntText(daysBack);
    assert ChildArgs(daysBack, endText, deploy) == [Opt(BackfillOpt), Word(days)] + r1;
    CorrectedLookups();
    if deploy {
      AcceptsSwitch(o, DeployOpt, []);
      assert tail == [Opt(DeployOpt)] + [];
    }
    AcceptsSwitch(o, BackfillModeOpt, tail);
    AcceptsValued(o, ToDateOpt, endText, r2);
    AcceptsValued(o, BackfillOpt, days, r1);
  }

  // ------------------------------------------------------------ one run

  /** How one run ended: nothing to do, the week processed and the cursor
      moved, or the child failed and the driver exits with status 1. */
  datatype RunOutcome = Stopped | Advanced(start: int, end: int) | Failed(start: int, end: int, status: int)

  /** Whether the child accepts the command built for the window a cursor
      gives; with no window no child is started. */
  function ChildAccepts(options: seq<OptionSpec>, cursor: int, now: int, dateText: int -> string, deploy: bool): bool {
    match StepWindow(cursor)
    case None => true
    case Some((start, end)) => Accepts(options, ChildArgs(DaysBack(now, start), dateText(DayOf(end)), deploy))
  }

  /** The outcome of one run over a window, when the child exits cleanly
      exactly when `childOk` holds. */
  function StepOutcome(window: Option<(int, int)>, childOk: bool): RunOutcome {
    match window
    case None => Stopped
    case Some((start, end)) => if childOk then Advanced(start, end) else Failed(start, end, 1)
  }

  /** The outcome of one run from a cursor, when the child exits cleanly
      exactly when it accepts its arguments and `pipelineOk` holds. */
  function Outcome(options: seq<OptionSpec>, cursor: int, now: int, dateText: int -> string, deploy: bool, pipelineOk: bool): RunOutcome {
    StepOutcome(StepWindow(cursor), ChildAccepts(options, cursor, now, dateText, deploy) && pipelineOk)
  }

  /** As written, no run ever moves the cursor: each either stops at the
      limit or fails on the child's arguments. */
  lemma {:induction false} AsWrittenNeverAdvances(cursor: int, now: int, dateText: int -> string, deploy: bool, pipelineOk: bool)
    ensures !Outcome(MainOptions, cursor, now, dateText, deploy, pipelineOk).Advanced?
    ensures cursor > Limit ==> Outcome(MainOptions, cursor, now, dateText, deploy, pipelineOk).Failed?
  {
    match StepWindow(cursor)
    case None =>
    case Some((start, end)) =>
      ChildArgsRejected(DaysBack(now, start), dateText(DayOf(end)), deploy);
  }

  /** With the corrected options a run beyond the limit advances exactly
      when the pipeline succeeds. */
  lemma {:induction false} CorrectedAdvances(cursor: int, now: int, dateText: int -> string, deploy: bool, pipelineOk: bool)
    ensures Outcome(CorrectedMainOptions, cursor, now, dateText, deploy, pipelineOk).Advanced?
      <==> cursor > Limit && pipelineOk
  {
    match StepWindow(cursor)
    case None =>
    case Some((start, end)) =>
      ChildArgsAccepted(DaysBack(now, start), dateText(DayOf(end)), deploy);
  }

  function StartMessage(dateText: int -> string, start: int, end: int): string {
    "BACKFILL STEP: Processing from " + dateText(DayOf(start)) + " to " + dateText(DayOf(end))
  }

  function EndMessage(dateText: int -> string, start: int): string {
    "Backfill step successful. New cursor: " + dateText(DayOf(start))
  }

  function FailureMessage(dateText: int -> string, start: int, end: int, error: string): string {
    "Backfill step failed for period " + dateText(DayOf(start)) + " to " + dateText(DayOf(end)) + ": " + error
  }

  /** `run_backfill`. The child process is outside the model: `childOk`
      is whether it exits with status 0, and `command` is the argument
      list it is started with (`Outcome` says what the exit status is for
      a given option table). */
  method RunBackfill(meta: Metadata, db: Database, now: int, dateText: int -> string, deploy: bool,
                     childOk: bool, error: string)
    returns (outcome: RunOutcome, command: Option<seq<Arg>>)
    modifies meta, db
    ensures var cursor := Cursor(old(if CursorKey in meta.entries then Some(meta.entries[CursorKey]) else None), now);
      && outcome == StepOutcome(StepWindow(cursor), childOk)
      && command == match StepWindow(cursor)
                    case None => None
                    case Some((start, end)) => Some(ChildArgs(DaysBack(now, start), dateText(DayOf(end)), deploy))
    ensures outcome.Stopped? ==> meta.entries == old(meta.entries) && db.events == old(db.events)
    ensures outcome.Advanced? ==>
      && meta.entries == old(meta.entries)[CursorKey := DayOf(outcome.start)]
      && db.events == old(db.events) + [Event("BACKFILL_START", StartMessage(dateText, outcome.start, outcome.end)),
                                        Event("BACKFILL_END", EndMessage(dateText, outcome.start))]
    ensures outcome.Failed? ==>
      && meta.entries == old(meta.entries)
      && db.events == old(db.events) + [Event("BACKFILL_START", StartMessage(dateText, outcome.start, outcome.end)),
                                        Event("ERROR", FailureMessage(dateText, outcome.start, outcome.end, error))]
    ensures db.seen == old(db.seen) && db.monitoredJournals == old(db.monitoredJournals)
      && db.monitoredAuthors == old(db.monitoredAuthors)
  {
    var stored := meta.Get(CursorKey);
    var cursor: int;
    if stored.None? {
      cursor := now - 7 * 86400;
    } else {
      cursor := stored.value * 86400;
    }
    var end := cursor;
    var start := cursor - 7 * 86400;
    if start < Limit {
      if end <= Limit {
        return Stopped, None;
      }
      start := Limit;
    }
    db.AddEvent("BACKFILL_START", StartMessage(dateText, start, end));
    var daysBack := DaysBack(now, start);
    var args := ChildArgs(daysBack, dateText(DayOf(end)), deploy);
    command := Some(args);
    if childOk {
      meta.Set(CursorKey, DayOf(start));
      db.AddEvent("BACKFILL_END", EndMessage(dateText, start));
      outcome := Advanced(start, end);
    } else {
      db.AddEvent("ERROR", FailureMessage(dateText, start, end, error));
      outcome := Failed(start, end, 1);
    }
  }

  // ------------------------------------------------------------ many runs

  /** The stored cursor day after one successful run from a stored day. */
  function NextDay(day: int): int {
    if day - 7 <= LimitDay then LimitDay else day - 7
  }

  /** A successful run from a stored cursor stores the window's first day:
      a week earlier, or the limit. */
  lemma {:induction false} NextDayStored(day: int)
    requires day > LimitDay
    ensures StepWindow(Cursor(Some(day), 0)).Some?
    ensures DayOf(StepWindow(Cursor(Some(day), 0)).value.0) == NextDay(day)
  {
    var w := StepWindow(day * 86400);
    if day - 7 >= LimitDay {
      assert w.value.0 == (day - 7) * 86400;
    }
  }

  /** The stored day after `n` successful runs. */
  function DayAfter(day: int, n: nat): int {
    if n == 0 then day else NextDay(DayAfter(day, n - 1))
  }

  /** Repeated successful runs walk the cursor back a week at a time and
      stop at the limit, where every further run does nothing. */
  lemma {:induction false} DayAfterRuns(day: int, n: nat)
    requires day >= LimitDay
    ensures DayAfter(day, n) == if day - 7 * n <= LimitDay then LimitDay else day - 7 * n
  {
    if n > 0 {
      DayAfterRuns(day, n - 1);
    }
  }

  /** Once the cursor is at the limit a run stops without changing
      anything. */
  lemma {:induction false} RunsStopAtLimit(day: int, now: int)
    requires day <= LimitDay
    ensures StepWindow(Cursor(Some(day), now)).None?
  {
  }
}
